/**
 * Path completion (src/completers/path.rs).
 *
 * The directory listing is an input: the entries `read_dir(".")` yields, each
 * either read or failed, each with a name that is text or not and an
 * is-directory flag.  Separators are those of a Unix build: only `/`.
 */
module PathCompleter {
  import opened Options
  import Tools

  const MainSeparator: char := '/'

  predicate IsSeparator(c: char) {
    c == MainSeparator
  }

  predicate HasSeparator(s: string) {
    exists i :: 0 <= i < |s| && IsSeparator(s[i])
  }

  /** What linefeed appends after an accepted completion. */
  datatype Suffix = Default | Char(c: char)

  /** A completion candidate: the text to insert, an optional display label, and a suffix. */
  datatype Completion = Completion(completion: string, display: Option<string>, suffix: Suffix)

  /** A file name as the operating system gives it: valid text or not. */
  datatype OsName = Utf8(text: string) | NotUtf8

  datatype DirEntry = DirEntry(name: OsName, isDir: bool)

  /** One item of the directory iterator: an entry, or an error reading it. */
  datatype EntryRead = Read(entry: DirEntry) | ReadError

  /** rfind(is_separator): the position of the last separator. */
  function RFindSeparator(s: string): (r: Option<nat>)
    ensures r.None? <==> !HasSeparator(s)
    ensures r.Some? ==> r.value < |s| && IsSeparator(s[r.value]) &&
                        forall i :: r.value < i < |s| ==> !IsSeparator(s[i])
    decreases |s|
  {
    if s == [] then None
    else if IsSeparator(s[|s| - 1]) then Some(|s| - 1)
    else RFindSeparator(s[..|s| - 1])
  }

  /** split_path: the directory part up to and including the last separator, and
      the file-name part after it. */
  function SplitPath(path: string): (r: (Option<string>, string))
    ensures !HasSeparator(path) <==> r.0.None?
    ensures r.0.None? ==> r.1 == path
    ensures r.0.Some? ==> r.0.value + r.1 == path && |r.0.value| > 0 &&
                          IsSeparator(r.0.value[|r.0.value| - 1]) && !HasSeparator(r.1)
  {
    match RFindSeparator(path)
    case Some(pos) =>
      assert path[..pos + 1] + path[pos + 1..] == path;
      (Some(path[..pos + 1]), path[pos + 1..])
    case None => (None, path)
  }

  /** str::replace(s, "//", "/"): non-overlapping occurrences, left to right. */
  function CollapseSlashes(s: string): (r: string)
    ensures |r| <= |s| && (r == [] <==> s == [])
    ensures forall c :: c != '/' ==> multiset(r)[c] == multiset(s)[c]
    decreases |s|
  {
    if |s| >= 2 && s[0] == '/' && s[1] == '/' then
      assert s == "//" + s[2..];
      "/" + CollapseSlashes(s[2..])
    else if s == [] then []
    else
      assert s == [s[0]] + s[1..];
      [s[0]] + CollapseSlashes(s[1..])
  }

  predicate NoDoubleSlash(s: string) {
    forall i :: 0 <= i < |s| - 1 ==> !(s[i] == '/' && s[i + 1] == '/')
  }

  /** Collapsing leaves a string without `//` unchanged. */
  lemma {:induction false} CollapsePlain(s: string)
    requires NoDoubleSlash(s)
    ensures CollapseSlashes(s) == s
    decreases |s|
  {
    if s != [] {
      assert NoDoubleSlash(s[1..]);
      CollapsePlain(s[1..]);
      assert s == [s[0]] + s[1..];
    }
  }

  /** Joining a directory part that ends in a separator with `/` and a name doubles
      the separator; collapsing undoes that when neither part holds `//` and the
      name does not start with `/`. */
  lemma {:induction false} CollapseJoin(dir: string, name: string)
    requires |dir| > 0 && dir[|dir| - 1] == '/' && NoDoubleSlash(dir)
    requires NoDoubleSlash(name) && (name != [] ==> name[0] != '/')
    ensures CollapseSlashes(dir + "/" + name) == dir + name
    decreases |dir|
  {
    var s := dir + "/" + name;
    if |dir| == 1 {
      assert s == "//" + name;
      assert s[2..] == name;
      CollapsePlain(name);
    } else {
      assert dir[0] == '/' ==> dir[1] != '/';
      assert s[1..] == dir[1..] + "/" + name;
      CollapseJoin(dir[1..], name);
      assert dir == [dir[0]] + dir[1..];
    }
  }

  /** The candidate that complete_path builds for entry `name`. */
  function MakeCompletion(dirOrig: string, name: string, isDir: bool): (r: Completion)
    ensures r.display.Some? <==> dirOrig != ""
    ensures r.display.Some? ==> r.display.value == name
    ensures r.suffix.Char? <==> isDir
    ensures r.suffix.Char? ==> r.suffix.c == MainSeparator
    ensures Tools.Unescape(r.completion) == CollapseSlashes(if dirOrig != "" then dirOrig + "/" + name else name)
  {
    var joined := if dirOrig != "" then dirOrig + [MainSeparator] + name else name;
    Tools.UnescapeEscapePath(CollapseSlashes(joined));
    Completion(Tools.EscapePath(CollapseSlashes(joined)),
               if dirOrig != "" then Some(name) else None,
               if isDir then Char(MainSeparator) else Default)
  }

  /** Whether complete_path keeps a listing item. */
  predicate Keeps(fileName: string, forDir: bool, item: EntryRead)
    ensures Keeps(fileName, forDir, item) ==> item.Read? && item.entry.name.Utf8? && |fileName| <= |item.entry.name.text|
    ensures Keeps(fileName, forDir, item) && forDir ==> item.entry.isDir
  {
    && item.Read?
    && (!forDir || item.entry.isDir)
    && item.entry.name.Utf8?
    && fileName <= item.entry.name.text
  }

  /** The candidates of a listing, in listing order. */
  function CompletionsOf(dirOrig: string, fileName: string, forDir: bool, items: seq<EntryRead>): (r: seq<Completion>)
    ensures |r| <= |items|
    decreases |items|
  {
    if items == [] then []
    else
      var last := items[|items| - 1];
      CompletionsOf(dirOrig, fileName, forDir, items[..|items| - 1]) +
      (if Keeps(fileName, forDir, last)
       then [MakeCompletion(dirOrig, last.entry.name.text, last.entry.isDir)]
       else [])
  }

  /** The directory part of the fragment as complete_path uses it: empty when absent. */
  function DirOrig(path: string): string {
    var d := SplitPath(path).0;
    if d.Some? then d.value else ""
  }

  /** What complete_path returns, given the listing of the current directory
      (`None` when it cannot be read). */
  function Completions(path: string, forDir: bool, cwd: Option<seq<EntryRead>>): seq<Completion> {
    if cwd.None? then [] else CompletionsOf(DirOrig(path), SplitPath(path).1, forDir, cwd.value)
  }

  /** complete_path.  As in the source the listing is always that of the current
      directory ("."), never the directory part of the fragment, and since the
      quoting separator is the empty string the text is always escape_path'ed. */
  method CompletePath(path: string, forDir: bool, cwd: Option<seq<EntryRead>>) returns (res: seq<Completion>)
    ensures res == Completions(path, forDir, cwd)
  {
    res := [];
    var dirOrigPart := SplitPath(path).0;
    var dirOrig := if dirOrigPart.Some? then dirOrigPart.value else "";
    var fileName := SplitPath(path).1;
    if cwd.Some? {
      var items := cwd.value;
      for i := 0 to |items|
        invariant res == CompletionsOf(dirOrig, fileName, forDir, items[..i])
      {
        assert items[..i + 1] == items[..i] + [items[i]];
        CompletionsOfSnoc(dirOrig, fileName, forDir, items[..i], items[i]);
        var item := items[i];
        if item.ReadError? {
          continue;
        }
        var isDir := item.entry.isDir;
        if forDir && !isDir {
          continue;
        }
        if item.entry.name.NotUtf8? {
          continue;
        }
        var entryName := item.entry.name.text;
        if fileName <= entryName {
          var name, display;
          if dirOrig != "" {
            name, display := dirOrig + [MainSeparator] + entryName, Some(entryName);
          } else {
            name, display := entryName, None;
          }
          name := CollapseSlashes(name);
          name := Tools.EscapePath(name);
          var suffix := if isDir then Char(MainSeparator) else Default;
          assert Completion(name, display, suffix) == MakeCompletion(dirOrig, entryName, isDir);
          res := res + [Completion(name, display, suffix)];
        }
      }
      assert items[..|items|] == items;
    }
  }

  /** Every candidate comes from a listed entry whose name is text and starts with
      the file-name part (and that is a directory when only directories are
      asked for); its label is the bare name exactly when the fragment has a
      directory part, its suffix is the separator exactly for directories, and
      its text is the escaped, collapsed join. */
  lemma {:induction false} CompletionsSound(dirOrig: string, fileName: string, forDir: bool, items: seq<EntryRead>)
    ensures forall c :: c in CompletionsOf(dirOrig, fileName, forDir, items) ==>
              exists j :: 0 <= j < |items| && Keeps(fileName, forDir, items[j]) &&
                c == MakeCompletion(dirOrig, items[j].entry.name.text, items[j].entry.isDir)
    decreases |items|
  {
    if items != [] {
      var p := items[..|items| - 1];
      CompletionsSound(dirOrig, fileName, forDir, p);
      forall c | c in CompletionsOf(dirOrig, fileName, forDir, items)
        ensures exists j :: 0 <= j < |items| && Keeps(fileName, forDir, items[j]) &&
                  c == MakeCompletion(dirOrig, items[j].entry.name.text, items[j].entry.isDir)
      {
        if c in CompletionsOf(dirOrig, fileName, forDir, p) {
          var j :| 0 <= j < |p| && Keeps(fileName, forDir, p[j]) &&
                   c == MakeCompletion(dirOrig, p[j].entry.name.text, p[j].entry.isDir);
          assert items[j] == p[j];
        } else {
          assert Keeps(fileName, forDir, items[|items| - 1]);
        }
      }
    }
  }

  /** Every kept entry yields its candidate. */
  lemma {:induction false} CompletionsComplete(dirOrig: string, fileName: string, forDir: bool, items: seq<EntryRead>, j: int)
    requires 0 <= j < |items| && Keeps(fileName, forDir, items[j])
    ensures MakeCompletion(dirOrig, items[j].entry.name.text, items[j].entry.isDir)
            in CompletionsOf(dirOrig, fileName, forDir, items)
    decreases |items|
  {
    if j < |items| - 1 {
      var p := items[..|items| - 1];
      assert p[j] == items[j];
      CompletionsComplete(dirOrig, fileName, forDir, p, j);
    }
  }

  /** The fields of a candidate: the label is `Some(name)` exactly when the fragment
      has a directory part, the suffix is the separator exactly for directories,
      and the text is escape_path of the collapsed join. */
  lemma CandidateFields(path: string, name: string, isDir: bool)
    ensures MakeCompletion(DirOrig(path), name, isDir).display == (if HasSeparator(path) then Some(name) else None)
    ensures MakeCompletion(DirOrig(path), name, isDir).suffix == (if isDir then Char(MainSeparator) else Default)
    ensures MakeCompletion(DirOrig(path), name, isDir).completion ==
            Tools.EscapePath(CollapseSlashes(if HasSeparator(path) then DirOrig(path) + "/" + name else name))
  {
  }

  /** For a fragment with a directory part free of `//` and an entry name (which
      holds no `/`), the text is escape_path of the directory part followed by the
      name. */
  lemma CandidateText(path: string, name: string, isDir: bool)
    requires HasSeparator(path) && NoDoubleSlash(DirOrig(path))
    requires forall i :: 0 <= i < |name| ==> name[i] != '/'
    ensures MakeCompletion(DirOrig(path), name, isDir).completion == Tools.EscapePath(DirOrig(path) + name)
  {
    CollapseJoin(DirOrig(path), name);
  }

  /** With directories only, every candidate comes from a directory entry. */
  lemma DirectoriesOnly(path: string, cwd: Option<seq<EntryRead>>)
    ensures forall c :: c in Completions(path, true, cwd) ==> c.suffix == Char(MainSeparator)
  {
    if cwd.Some? {
      CompletionsSound(DirOrig(path), SplitPath(path).1, true, cwd.value);
    }
  }

  /** The listing of the examples below: `a.txt`, directory `b`, `abc`. */
  function ExampleListing(): seq<EntryRead> {
    [Read(DirEntry(Utf8("a.txt"), false)), Read(DirEntry(Utf8("b"), true)), Read(DirEntry(Utf8("abc"), false))]
  }

  /** A plain file name is its own completion text. */
  lemma PlainName(name: string, isDir: bool)
    requires forall i :: 0 <= i < |name| ==> name[i] != '/' && !Tools.IsSpecial(name[i])
    ensures MakeCompletion("", name, isDir) == Completion(name, None, if isDir then Char('/') else Default)
  {
    CollapsePlain(name);
    Tools.EscapePathPlain(name);
  }

  lemma ExampleNames()
    ensures MakeCompletion("", "a.txt", false) == Completion("a.txt", None, Default)
    ensures MakeCompletion("", "b", true) == Completion("b", None, Char('/'))
    ensures MakeCompletion("", "abc", false) == Completion("abc", None, Default)
  {
    PlainName("a.txt", false);
    PlainName("b", true);
    PlainName("abc", false);
  }

  /** One more listing item appends its candidate, if it is kept. */
  lemma CompletionsOfSnoc(dirOrig: string, fileName: string, forDir: bool, items: seq<EntryRead>, item: EntryRead)
    ensures CompletionsOf(dirOrig, fileName, forDir, items + [item]) ==
            CompletionsOf(dirOrig, fileName, forDir, items) +
            (if Keeps(fileName, forDir, item) then [MakeCompletion(dirOrig, item.entry.name.text, item.entry.isDir)] else [])
  {
    assert (items + [item])[..|items|] == items;
  }

  /** The empty fragment keeps all three entries, `b` with the separator suffix. */
  lemma CompleteEmptyExample()
    ensures Completions("", false, Some(ExampleListing()))
         == [Completion("a.txt", None, Default), Completion("b", None, Char('/')), Completion("abc", None, Default)]
  {
    assert SplitPath("") == (None, "");
    EmptyFragmentListing();
  }

  lemma EmptyFragmentListing()
    ensures CompletionsOf("", "", false, ExampleListing()) == [Completion("a.txt", None, Default), Completion("b", None, Char('/')), Completion("abc", None, Default)]
  {
    var items := ExampleListing();
    ExampleNames();
    assert items[..2][..1] == items[..1];
    assert items[..1][..0] == [];
    assert CompletionsOf("", "", false, items[..1]) == [Completion("a.txt", None, Default)];
    assert CompletionsOf("", "", false, items[..2]) == [Completion("a.txt", None, Default), Completion("b", None, Char('/'))];
  }

  /** The fragment `a` keeps `a.txt` and `abc` and drops `b`. */
  lemma CompletePrefixExample()
    ensures Completions("a", false, Some(ExampleListing()))
         == [Completion("a.txt", None, Default), Completion("abc", None, Default)]
  {
    assert SplitPath("a") == (None, "a");
    PrefixFragmentListing();
  }

  lemma PrefixFragmentListing()
    ensures CompletionsOf("", "a", false, ExampleListing()) == [Completion("a.txt", None, Default), Completion("abc", None, Default)]
  {
    var items := ExampleListing();
    ExampleNames();
    assert !Keeps("a", false, items[1]);
    assert items[..2][..1] == items[..1];
    assert items[..1][..0] == [];
    assert CompletionsOf("", "a", false, items[..1]) == [Completion("a.txt", None, Default)];
    assert CompletionsOf("", "a", false, items[..2]) == [Completion("a.txt", None, Default)];
  }
}
