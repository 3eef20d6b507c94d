/**
 * `Confirmation::interact_on` (src/prompts.rs:137-162): read one character at a
 * time until a yes, a no or a newline.
 */
module ConfirmationPrompt {
  import opened Terminal

  /** The configuration of a confirmation prompt.  `with_theme` sets the text to
      the empty string, the default to yes, and shows the default. */
  datatype Confirmation = Confirmation(text: string, default: bool, showDefault: bool)

  const NewConfirmation := Confirmation("", true, true)

  /** The characters that end the prompt. */
  predicate IsAnswer(c: char) {
    c in "yYnN\n\r"
  }

  /** The value an answering character stands for. */
  function AnswerOf(c: char, default: bool): bool
    requires IsAnswer(c)
  {
    if c == 'y' || c == 'Y' then true
    else if c == 'n' || c == 'N' then false
    else default
  }

  /** Skips every character until the first answering one; `y`/`Y` yield true,
      `n`/`N` false, and newline or carriage return the configured default.
      Without an answering character the read eventually fails. */
  method InteractOn(cfg: Confirmation, input: seq<char>) returns (r: Outcome<bool>)
    ensures r.Done? <==> exists i :: 0 <= i < |input| && IsAnswer(input[i])
    ensures r.Done? ==> 0 < r.next <= |input| && IsAnswer(input[r.next - 1]) &&
                        (forall j :: 0 <= j < r.next - 1 ==> !IsAnswer(input[j])) &&
                        r.value == AnswerOf(input[r.next - 1], cfg.default)
  {
    var i := 0;
    while i < |input|
      invariant 0 <= i <= |input|
      invariant forall j :: 0 <= j < i ==> !IsAnswer(input[j])
    {
      var c := input[i];
      i := i + 1;
      var rv;
      if c == 'y' || c == 'Y' {
        rv := true;
      } else if c == 'n' || c == 'N' {
        rv := false;
      } else if c == '\n' || c == '\r' {
        rv := cfg.default;
      } else {
        continue;
      }
      return Done(rv, i);
    }
    return Exhausted;
  }
}
