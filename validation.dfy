/**
 * The validator chain of `Input::validate_with` (and the identical
 * `FileInput::validate_with`): a validator maps the input to `None` when it
 * accepts and to `Some(message)` when it rejects; registering a validator wraps
 * the previously registered one.
 */
module Validation {
  import opened Options

  type Validator = string -> Option<string>

  /** validate_with: the new closure first runs the previously registered chain
      and returns its rejection if there is one, and only then runs `v`. */
  function ValidateWith(previous: Option<Validator>, v: Validator): (r: Validator)
    ensures forall value :: Check(previous, value).Some? ==> r(value) == Check(previous, value)
    ensures forall value :: Check(previous, value).None? ==> r(value) == v(value)
  {
    value => if previous.Some? && previous.value(value).Some? then previous.value(value) else v(value)
  }

  /** The chain after registering `vs`, in that order, on a prompt with none. */
  function Chain(vs: seq<Validator>): (r: Option<Validator>)
    ensures r.None? <==> vs == []
    ensures vs != [] ==> forall value :: Check(r, value).Some? ==> exists i :: 0 <= i < |vs| && vs[i](value) == Check(r, value)
    decreases |vs|
  {
    if vs == [] then None else Some(ValidateWith(Chain(vs[..|vs| - 1]), vs[|vs| - 1]))
  }

  /** Running a prompt's validator: no validator accepts everything. */
  function Check(chain: Option<Validator>, value: string): Option<string> {
    if chain.None? then None else chain.value(value)
  }

  /** The reference: validators in registration order, the first rejection wins,
      and the input is accepted only when every validator accepts it. */
  function FirstRejection(vs: seq<Validator>, value: string): (r: Option<string>)
    ensures r.None? <==> forall i :: 0 <= i < |vs| ==> vs[i](value).None?
    ensures r.Some? ==> exists i :: 0 <= i < |vs| && vs[i](value) == r &&
                                    forall j :: 0 <= j < i ==> vs[j](value).None?
    decreases |vs|
  {
    if vs == [] then None
    else if vs[0](value).Some? then vs[0](value)
    else
      var r := FirstRejection(vs[1..], value);
      assert forall i :: 1 <= i < |vs| ==> vs[i] == vs[1..][i - 1];
      if r.Some? then
        var i :| 0 <= i < |vs[1..]| && vs[1..][i](value) == r && forall j :: 0 <= j < i ==> vs[1..][j](value).None?;
        assert vs[i + 1](value) == r;
        r
      else r
  }

  lemma {:induction false} FirstRejectionSnoc(vs: seq<Validator>, v: Validator, value: string)
    ensures FirstRejection(vs + [v], value) ==
            if FirstRejection(vs, value).Some? then FirstRejection(vs, value) else v(value)
    decreases |vs|
  {
    if vs != [] {
      assert (vs + [v])[0] == vs[0];
      assert (vs + [v])[1..] == vs[1..] + [v];
      FirstRejectionSnoc(vs[1..], v, value);
    } else {
      assert (vs + [v])[1..] == [];
    }
  }

  /** The nested closures that validate_with builds run the validators in
      registration order and report the first rejection. */
  lemma {:induction false} ChainIsFirstRejection(vs: seq<Validator>, value: string)
    ensures Check(Chain(vs), value) == FirstRejection(vs, value)
    decreases |vs|
  {
    if vs != [] {
      var p, v := vs[..|vs| - 1], vs[|vs| - 1];
      assert vs == p + [v];
      ChainIsFirstRejection(p, value);
      FirstRejectionSnoc(p, v, value);
    }
  }
}
