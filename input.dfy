/**
 * `Input<T>::interact_on` (src/prompts.rs:440-481): read lines until one is
 * accepted.  Parsing into `T` is a partial function supplied by the caller.
 */
module InputPrompt {
  import opened Options
  import opened Terminal
  import Validation

  /** The configuration of a line-input prompt. */
  datatype Input<T> = Input(prompt: string, default: Option<T>, showDefault: bool,
                            permitEmpty: bool, validator: Option<Validation.Validator>)

  /** `with_theme`: no default, the default display on, empty input refused, no validator. */
  function NewInput<T>(prompt: string): Input<T> {
    Input(prompt, None, true, false, None)
  }

  /** What the prompt does with one line read. */
  datatype Verdict<T> = Accepted(value: T) | Reprompt | Rejected(message: string) | Unparsable

  /** The fate of one line: an empty line takes the default when there is one,
      without running any validator, and is silently re-prompted when there is no
      default and empty input is not permitted; any other line is returned only
      when every validator accepts it and it parses. */
  function Judge<T>(cfg: Input<T>, parse: string -> Option<T>, line: string): (v: Verdict<T>)
    ensures line == "" && cfg.default.Some? ==> v == Accepted(cfg.default.value)
    ensures line == "" && cfg.default.None? && !cfg.permitEmpty ==> v == Reprompt
    ensures !(line == "" && cfg.default.Some?) && v.Accepted? ==>
              Validation.Check(cfg.validator, line).None? && parse(line) == Some(v.value)
    ensures v.Rejected? <==> !(line == "" && (cfg.default.Some? || !cfg.permitEmpty)) &&
                             Validation.Check(cfg.validator, line).Some?
    ensures v.Rejected? ==> Validation.Check(cfg.validator, line) == Some(v.message)
    ensures !(line == "" && (cfg.default.Some? || !cfg.permitEmpty)) && Validation.Check(cfg.validator, line).None? ==>
              v == (if parse(line).Some? then Accepted(parse(line).value) else Unparsable)
  {
    if line == "" && cfg.default.Some? then Accepted(cfg.default.value)
    else if line == "" && !cfg.permitEmpty then Reprompt
    else if cfg.validator.Some? && cfg.validator.value(line).Some? then Rejected(cfg.validator.value(line).value)
    else if parse(line).Some? then Accepted(parse(line).value)
    else Unparsable
  }

  /** Returns the value of the first accepted line; every line before it was
      re-prompted, rejected by a validator or failed to parse. */
  method InteractOn<T>(cfg: Input<T>, parse: string -> Option<T>, lines: seq<string>) returns (r: Outcome<T>)
    ensures r.Done? <==> exists i :: 0 <= i < |lines| && Judge(cfg, parse, lines[i]).Accepted?
    ensures r.Done? ==> 0 < r.next <= |lines| && Judge(cfg, parse, lines[r.next - 1]) == Accepted(r.value) &&
                        forall j :: 0 <= j < r.next - 1 ==> !Judge(cfg, parse, lines[j]).Accepted?
  {
    var i := 0;
    while i < |lines|
      invariant 0 <= i <= |lines|
      invariant forall j :: 0 <= j < i ==> !Judge(cfg, parse, lines[j]).Accepted?
    {
      var input := lines[i];
      i := i + 1;
      if input == "" {
        if cfg.default.Some? {
          return Done(cfg.default.value, i);
        } else if !cfg.permitEmpty {
          continue;
        }
      }
      if cfg.validator.Some? {
        var err := cfg.validator.value(input);
        if err.Some? {
          continue;
        }
      }
      var parsed := parse(input);
      if parsed.Some? {
        return Done(parsed.value, i);
      }
    }
    return Exhausted;
  }

  /** A validator that rejects inputs longer than three characters. */
  function AtMostThree(value: string): Option<string> {
    if |value| > 3 then Some("too long") else None
  }

  /** With that validator, `hello` is rejected and `hi` accepted; with default
      `main`, the empty line yields `main` whatever the validator. */
  lemma InputExamples(w: Option<Validation.Validator>)
    ensures Judge(NewInput("name").(validator := Some(AtMostThree)), (s: string) => Some(s), "hello") == Rejected("too long")
    ensures Judge(NewInput("name").(validator := Some(AtMostThree)), (s: string) => Some(s), "hi") == Accepted("hi")
    ensures Judge(NewInput("branch").(default := Some("main"), validator := w), (s: string) => Some(s), "") == Accepted("main")
  {
  }
}
