/**
 * `FileInput` (src/prompts.rs:165-360): a directory browser driven by keys.
 *
 * The filesystem is a snapshot: a map from each directory's path to the names
 * it holds, and the resolution of a name relative to a directory
 * (`join` followed by `canonicalize`).  A path is a directory exactly when it
 * is a key of the map.
 */
module FilePrompt {
  import opened Options
  import opened Terminal
  import NameOrder
  import Validation

  type Path = string

  datatype FileSystem = FileSystem(dirs: map<Path, seq<string>>, resolve: (Path, string) -> Path)

  /** The configuration of a file prompt (the source keeps a validator and an
      empty-input flag it never consults). */
  datatype FileInput = FileInput(prompt: string, default: Option<Path>, showDefault: bool,
                                 permitEmpty: bool, validator: Option<Validation.Validator>)

  /** The keys inner_loop tells apart.  It matches Escape and Tab as the
      characters `'\u{1b}'` and `'\t'` (src/prompts.rs:319, 329); every key it
      does not match is `OtherKey`. */
  datatype Key = Enter | ArrowUp | ArrowDown | Char(c: char) | OtherKey

  /** The browser state: current directory, the names shown, the highlighted index. */
  datatype FIState = FIState(path: Path, entries: seq<string>, selected: Option<int>)

  /** list_entries: `.` and `..`, then the directory's names in sorted order. */
  function ListEntries(fs: FileSystem, p: Path): (r: seq<string>)
    requires p in fs.dirs
    ensures |r| == 2 + |fs.dirs[p]| && r[0] == "." && r[1] == ".."
    ensures NameOrder.Sorted(r[2..]) && multiset(r[2..]) == multiset(fs.dirs[p])
  {
    var r := [".", ".."] + NameOrder.Sort(fs.dirs[p]);
    assert r[2..] == NameOrder.Sort(fs.dirs[p]);
    r
  }

  /** bump_index: no selection goes to 0; otherwise one step forwards or backwards,
      past either end to the other end. */
  function BumpIndex(selected: Option<int>, entries: seq<string>, forwards: bool): (r: int)
    requires selected.Some? ==> |entries| > 0
    ensures selected.None? ==> r == 0
    ensures selected.Some? ==> 0 <= r < |entries|
    ensures selected.Some? && 0 <= selected.value < |entries| ==>
              r == (if forwards then (selected.value + 1) % |entries| else (selected.value - 1) % |entries|)
  {
    match selected
    case Some(i) =>
      var bump := if forwards then 1 else -1;
      var ni := i + bump;
      WrapStep(i, |entries|);
      if ni < 0 then |entries| - 1
      else if ni > |entries| - 1 then 0
      else ni
    case None => 0
  }

  /** One step forwards or backwards modulo `n`, from an index below `n`. */
  lemma WrapStep(i: int, n: int)
    requires n > 0
    ensures 0 <= i < n ==> (i + 1) % n == (if i + 1 == n then 0 else i + 1)
    ensures 0 <= i < n ==> (i - 1) % n == (if i == 0 then n - 1 else i - 1)
  {
    if i == 0 {
      assert i - 1 == -1 * n + (n - 1);
    }
  }

  /** What the browser needs of a state: its directory can be listed, and a
      selection, when there is one, indexes an entry. */
  predicate Ready(fs: FileSystem, s: FIState) {
    s.path in fs.dirs && (s.selected.Some? ==> 0 <= s.selected.value < |s.entries|)
  }

  /** The invariant of every state the browser builds: a directory, its listing,
      and a selection inside it. */
  predicate Valid(fs: FileSystem, s: FIState)
    ensures Valid(fs, s) ==> Ready(fs, s) && |s.entries| >= 2 && s.entries[..2] == [".", ".."]
  {
    && s.path in fs.dirs
    && s.entries == ListEntries(fs, s.path)
    && s.selected.Some?
    && 0 <= s.selected.value < |s.entries|
  }

  /** interact_on's first state: the default directory, listed, first entry selected. */
  function InitialState(fs: FileSystem, start: Path): (s: FIState)
    requires start in fs.dirs
    ensures Valid(fs, s) && s.path == start && s.selected == Some(0)
  {
    FIState(start, ListEntries(fs, start), Some(0))
  }

  datatype StepResult = Finish(path: Path) | Continue(next: FIState)

  /** One round of inner_loop after its key read. */
  function Step(fs: FileSystem, s: FIState, k: Key): (r: StepResult)
    requires Ready(fs, s)
    ensures r.Continue? ==> Valid(fs, r.next)
    ensures r.Continue? && k != Enter ==> r.next.path == s.path
    ensures !Navigates(k) ==> r == Finish(s.path)
  {
    match k
    case Enter =>
      if s.selected.None? then Finish(s.path)
      else
        var name := s.entries[s.selected.value];
        if name == "." then Finish(s.path)
        else
          var pb := fs.resolve(s.path, name);
          if pb in fs.dirs then Continue(FIState(pb, ListEntries(fs, pb), Some(0)))
          else Finish(pb)
    case ArrowUp => Bumped(fs, s, false)
    case ArrowDown => Bumped(fs, s, true)
    case Char(c) =>
      if c == '\U{1b}' then Bumped(fs, s, false)
      else if c == '\t' then Bumped(fs, s, true)
      else Finish(s.path)
    case OtherKey => Finish(s.path)
  }

  /** The arrow, Tab and Escape transition: re-list the directory and move the selection. */
  function Bumped(fs: FileSystem, s: FIState, forwards: bool): (r: StepResult)
    requires s.path in fs.dirs
    ensures r.Continue? && Valid(fs, r.next) && r.next.path == s.path
  {
    var entries := ListEntries(fs, s.path);
    Continue(FIState(s.path, entries, Some(BumpIndex(s.selected, entries, forwards))))
  }

  /** The cases of inner_loop: Enter with no selection or on `.`, and any key
      other than Enter, the arrows, Tab and Escape, return the current path;
      Enter on any other entry descends into it when it resolves to a directory
      and returns the resolved path otherwise; the arrows, Tab and Escape keep
      the path and move the selection. */
  lemma StepCases(fs: FileSystem, s: FIState, k: Key)
    requires Ready(fs, s)
    ensures k == Enter && s.selected.None? ==> Step(fs, s, k) == Finish(s.path)
    ensures k == Enter && s.selected.Some? && s.entries[s.selected.value] == "." ==> Step(fs, s, k) == Finish(s.path)
    ensures k == Enter && s.selected.Some? && s.entries[s.selected.value] != "." ==>
              var pb := fs.resolve(s.path, s.entries[s.selected.value]);
              Step(fs, s, k) == if pb in fs.dirs then Continue(FIState(pb, ListEntries(fs, pb), Some(0))) else Finish(pb)
    ensures k !in {Enter, ArrowUp, ArrowDown, Char('\U{1b}'), Char('\t')} ==> Step(fs, s, k) == Finish(s.path)
    ensures k in {ArrowUp, Char('\U{1b}')} ==>
              Step(fs, s, k) == Continue(FIState(s.path, ListEntries(fs, s.path),
                                                 Some(BumpIndex(s.selected, ListEntries(fs, s.path), false))))
    ensures k in {ArrowDown, Char('\t')} ==>
              Step(fs, s, k) == Continue(FIState(s.path, ListEntries(fs, s.path),
                                                 Some(BumpIndex(s.selected, ListEntries(fs, s.path), true))))
  {
  }

  /** The keys after which inner_loop may go on: Enter, the arrows, Escape and Tab. */
  predicate Navigates(k: Key) {
    k == Enter || k == ArrowUp || k == ArrowDown || k == Char('\U{1b}') || k == Char('\t')
  }

  /** inner_loop, recursive as in the source, over the keys from position `i` on.
      Every key before the one it ends on, and every key when it runs out, is
      one after which it may go on; so any other key ends it. */
  function Run(fs: FileSystem, s: FIState, keys: seq<Key>, i: nat): (r: Outcome<Path>)
    requires Ready(fs, s) && i <= |keys|
    ensures r.Done? ==> i < r.next <= |keys|
    ensures r.Done? ==> forall j :: i <= j < r.next - 1 ==> Navigates(keys[j])
    ensures r.Exhausted? ==> forall j :: i <= j < |keys| ==> Navigates(keys[j])
    decreases |keys| - i
  {
    if i == |keys| then Exhausted
    else match Step(fs, s, keys[i])
      case Finish(p) => Done(p, i + 1)
      case Continue(t) => Run(fs, t, keys, i + 1)
  }

  /** `p` is a non-directory reached by resolving an entry other than `.` of some directory. */
  predicate ResolvedFile(fs: FileSystem, p: Path) {
    p !in fs.dirs &&
    exists d, name :: d in fs.dirs && name in ListEntries(fs, d) && name != "." && p == fs.resolve(d, name)
  }

  /** From a valid state the browser ends either on a directory or on a file
      resolved from a listed entry. */
  lemma {:induction false} RunEndsOnListedPath(fs: FileSystem, s: FIState, keys: seq<Key>, i: nat)
    requires Valid(fs, s) && i <= |keys|
    requires Run(fs, s, keys, i).Done?
    ensures Run(fs, s, keys, i).value in fs.dirs || ResolvedFile(fs, Run(fs, s, keys, i).value)
    decreases |keys| - i
  {
    match Step(fs, s, keys[i])
    case Finish(p) =>
      assert Run(fs, s, keys, i).value == p;
      if p !in fs.dirs {
        var name := s.entries[s.selected.value];
        assert name in ListEntries(fs, s.path) && p == fs.resolve(s.path, name);
      }
    case Continue(t) =>
      assert Run(fs, s, keys, i) == Run(fs, t, keys, i + 1);
      RunEndsOnListedPath(fs, t, keys, i + 1);
  }

  /** interact_on and inner_loop: start at the default directory and follow the
      keys; the recursion of the source becomes a loop over a fully replaced
      state.  The default must be set and name a directory (the source unwraps
      both). */
  method InteractOn(cfg: FileInput, fs: FileSystem, keys: seq<Key>) returns (r: Outcome<Path>)
    requires cfg.default.Some? && cfg.default.value in fs.dirs
    ensures r == Run(fs, InitialState(fs, cfg.default.value), keys, 0)
  {
    var startPath := cfg.default.value;
    var state := FIState(startPath, ListEntries(fs, startPath), Some(0));
    var i := 0;
    while i < |keys|
      invariant 0 <= i <= |keys|
      invariant Ready(fs, state)
      invariant Run(fs, state, keys, i) == Run(fs, InitialState(fs, startPath), keys, 0)
    {
      var k := keys[i];
      i := i + 1;
      if k == Enter {
        if state.selected.None? {
          return Done(state.path, i);
        }
        var name := state.entries[state.selected.value];
        if name == "." {
          return Done(state.path, i);
        }
        var pb := fs.resolve(state.path, name);
        if pb in fs.dirs {
          state := FIState(pb, ListEntries(fs, pb), Some(0));
        } else {
          return Done(pb, i);
        }
      } else if k == Char('\U{1b}') || k == ArrowUp {
        var entries := ListEntries(fs, state.path);
        var index := BumpIndex(state.selected, entries, false);
        state := FIState(state.path, entries, Some(index));
      } else if k == Char('\t') || k == ArrowDown {
        var entries := ListEntries(fs, state.path);
        var index := BumpIndex(state.selected, entries, true);
        state := FIState(state.path, entries, Some(index));
      } else {
        return Done(state.path, i);
      }
    }
    return Exhausted;
  }

  datatype SelectionStyle = MenuSelected | MenuUnselected

  datatype Line = PromptLine(text: string) | SelectionLine(text: string, style: SelectionStyle)

  /** What render asks the theme to draw: the prompt followed by the current path,
      then one line per entry, highlighted exactly where the selection is. */
  function Render(prompt: string, s: FIState): (frame: seq<Line>)
    ensures |frame| == |s.entries| + 1
    ensures frame[0] == PromptLine(prompt + " " + s.path)
    ensures forall i :: 0 <= i < |s.entries| ==>
              frame[i + 1].SelectionLine? && frame[i + 1].text == s.entries[i] &&
              (frame[i + 1].style == MenuSelected <==> s.selected == Some(i))
  {
    [PromptLine(prompt + " " + s.path)] +
    seq(|s.entries|, i requires 0 <= i < |s.entries| =>
      SelectionLine(s.entries[i], if s.selected == Some(i) then MenuSelected else MenuUnselected))
  }

  /** In every state the browser builds, the frame has entry lines and exactly one
      of them, the selected one, is highlighted. */
  lemma OneHighlighted(fs: FileSystem, prompt: string, s: FIState)
    requires Valid(fs, s)
    ensures var frame := Render(prompt, s);
            1 <= s.selected.value + 1 < |frame| &&
            forall i :: 1 <= i < |frame| ==> (frame[i].style == MenuSelected <==> i == s.selected.value + 1)
  {
    var frame := Render(prompt, s);
    forall i | 1 <= i < |frame| ensures frame[i].style == MenuSelected <==> i == s.selected.value + 1 {
      assert frame[(i - 1) + 1] == frame[i];
    }
  }

  /** A directory holding `x` and `y` is shown as `.`, `..`, `x`, `y`. */
  lemma ListEntriesExample(fs: FileSystem, p: Path)
    requires p in fs.dirs && fs.dirs[p] == ["y", "x"]
    ensures ListEntries(fs, p) == [".", "..", "x", "y"]
  {
    var r := ListEntries(fs, p);
    assert NameOrder.LessEq("x", "y");
    assert NameOrder.Sorted(["x", "y"]);
    NameOrder.SortedUnique(r[2..], ["x", "y"]);
  }
}
