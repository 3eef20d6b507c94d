/**
 * `PasswordInput::interact_on` and `prompt_password` (src/prompts.rs:532-563):
 * secure line reads, repeated until non-empty, and an optional confirmation
 * read that must match.
 */
module PasswordPrompt {
  import opened Options
  import opened Terminal

  /** The configuration: prompt, whether an empty password is allowed, and the
      optional confirmation prompt with its mismatch message.  `with_theme`
      refuses empty passwords and asks for no confirmation. */
  datatype PasswordInput = PasswordInput(prompt: string, allowEmptyPassword: bool,
                                         confirmation: Option<(string, string)>)

  /** prompt_password as a function of the reads from position `from` on: the first
      read that is non-empty, or any read when empty passwords are allowed. */
  function NextPassword(allowEmpty: bool, lines: seq<string>, from: nat): (r: Outcome<string>)
    requires from <= |lines|
    ensures r.Done? ==> from < r.next <= |lines| && r.value == lines[r.next - 1] &&
                        (r.value != "" || allowEmpty) &&
                        forall j :: from <= j < r.next - 1 ==> lines[j] == "" && !allowEmpty
    ensures r.Exhausted? ==> forall j :: from <= j < |lines| ==> lines[j] == "" && !allowEmpty
    decreases |lines| - from
  {
    if from == |lines| then Exhausted
    else if lines[from] != "" || allowEmpty then Done(lines[from], from + 1)
    else NextPassword(allowEmpty, lines, from + 1)
  }

  /** prompt_password: the read loop of the source. */
  method PromptPassword(cfg: PasswordInput, lines: seq<string>, from: nat) returns (r: Outcome<string>)
    requires from <= |lines|
    ensures r == NextPassword(cfg.allowEmptyPassword, lines, from)
  {
    var i := from;
    while i < |lines|
      invariant from <= i <= |lines|
      invariant NextPassword(cfg.allowEmptyPassword, lines, i) == NextPassword(cfg.allowEmptyPassword, lines, from)
    {
      var input := lines[i];
      i := i + 1;
      if input != "" || cfg.allowEmptyPassword {
        return Done(input, i);
      }
    }
    return Exhausted;
  }

  /** The whole interaction from position `from` on: one password, or, with a
      confirmation configured, a password and a second one that must equal it;
      on a mismatch everything starts over with the first prompt. */
  function Session(cfg: PasswordInput, lines: seq<string>, from: nat): (r: Outcome<string>)
    requires from <= |lines|
    ensures r.Done? ==> from < r.next <= |lines| && r.value == lines[r.next - 1] &&
                        (r.value != "" || cfg.allowEmptyPassword)
    ensures cfg.confirmation.None? ==> r == NextPassword(cfg.allowEmptyPassword, lines, from)
    decreases |lines| - from
  {
    match NextPassword(cfg.allowEmptyPassword, lines, from)
    case Exhausted => Exhausted
    case Done(password, m) =>
      if cfg.confirmation.None? then Done(password, m)
      else match NextPassword(cfg.allowEmptyPassword, lines, m)
        case Exhausted => Exhausted
        case Done(pw2, n) =>
          if password == pw2 then Done(password, n) else Session(cfg, lines, n)
  }

  /** interact_on: the confirmation loop of the source. */
  method InteractOn(cfg: PasswordInput, lines: seq<string>) returns (r: Outcome<string>)
    ensures r == Session(cfg, lines, 0)
  {
    var pos := 0;
    while true
      invariant pos <= |lines|
      invariant Session(cfg, lines, pos) == Session(cfg, lines, 0)
      decreases |lines| - pos
    {
      var first := PromptPassword(cfg, lines, pos);
      if first.Exhausted? {
        return Exhausted;
      }
      var password := first.value;
      if cfg.confirmation.Some? {
        var second := PromptPassword(cfg, lines, first.next);
        if second.Exhausted? {
          return Exhausted;
        }
        if password == second.value {
          return Done(password, second.next);
        }
        pos := second.next;
      } else {
        return Done(password, first.next);
      }
    }
  }

  /** With a confirmation configured, a returned password was read twice in a row
      of accepted reads: the confirming read equals it and so does the read before. */
  lemma {:induction false} ConfirmedTwice(cfg: PasswordInput, lines: seq<string>, from: nat)
    requires from <= |lines| && cfg.confirmation.Some?
    requires Session(cfg, lines, from).Done?
    ensures exists m :: from < m < Session(cfg, lines, from).next &&
              NextPassword(cfg.allowEmptyPassword, lines, m) == Done(Session(cfg, lines, from).value, Session(cfg, lines, from).next) &&
              lines[m - 1] == Session(cfg, lines, from).value
    decreases |lines| - from
  {
    var first := NextPassword(cfg.allowEmptyPassword, lines, from);
    var m := first.next;
    var second := NextPassword(cfg.allowEmptyPassword, lines, m);
    if first.value != second.value {
      ConfirmedTwice(cfg, lines, second.next);
    }
  }

  /** Two different passwords in a row start the interaction over after them. */
  lemma MismatchRestarts(cfg: PasswordInput, lines: seq<string>, from: nat)
    requires from <= |lines| && cfg.confirmation.Some?
    requires NextPassword(cfg.allowEmptyPassword, lines, from).Done?
    requires NextPassword(cfg.allowEmptyPassword, lines, NextPassword(cfg.allowEmptyPassword, lines, from).next).Done?
    requires NextPassword(cfg.allowEmptyPassword, lines, from).value !=
             NextPassword(cfg.allowEmptyPassword, lines, NextPassword(cfg.allowEmptyPassword, lines, from).next).value
    ensures Session(cfg, lines, from) ==
            Session(cfg, lines, NextPassword(cfg.allowEmptyPassword, lines, NextPassword(cfg.allowEmptyPassword, lines, from).next).next)
  {
  }

  /** `secret` twice yields `secret`; `secret` then `other` starts over. */
  lemma PasswordExamples(cfg: PasswordInput)
    requires cfg.confirmation.Some? && !cfg.allowEmptyPassword
    ensures Session(cfg, ["secret", "secret"], 0) == Done("secret", 2)
    ensures Session(cfg, ["secret", "other", "", "pw", "pw"], 0) == Done("pw", 5)
  {
    assert NextPassword(false, ["secret", "other", "", "pw", "pw"], 2) == Done("pw", 4);
  }
}
