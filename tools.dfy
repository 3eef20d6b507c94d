/**
 * Shell-safe path escaping (src/tools.rs).
 *
 * Both operations of the source insert backslashes in front of some of the
 * characters of a string; `wrap_sep_string` also puts the separator at both
 * ends.  `Chunks` states the shared shape once: the string built by emitting,
 * in order, every character of `s`, preceded by a backslash exactly where its
 * mark is set.
 */
module Tools {
  import opened Options

  /** One character of the input, with or without the backslash put in front of it. */
  function Escaped(c: char, mark: bool): string {
    if mark then ['\\', c] else [c]
  }

  /** The characters of `s`, in order, each preceded by a backslash where `marks` says so. */
  function Chunks(s: string, marks: seq<bool>): string
    requires |s| == |marks|
    decreases |s|
  {
    if |s| == 0 then []
    else Chunks(s[..|s| - 1], marks[..|marks| - 1]) + Escaped(s[|s| - 1], marks[|marks| - 1])
  }

  /** The number of set marks. */
  function CountMarks(marks: seq<bool>): nat
    decreases |marks|
  {
    if |marks| == 0 then 0
    else CountMarks(marks[..|marks| - 1]) + (if marks[|marks| - 1] then 1 else 0)
  }

  /** Escaping adds exactly one character per set mark. */
  lemma {:induction false} ChunksLength(s: string, marks: seq<bool>)
    requires |s| == |marks|
    ensures |Chunks(s, marks)| == |s| + CountMarks(marks)
    decreases |s|
  {
    if |s| > 0 {
      ChunksLength(s[..|s| - 1], marks[..|marks| - 1]);
    }
  }

  /** With no mark set nothing is inserted. */
  lemma {:induction false} ChunksUnmarked(s: string, marks: seq<bool>)
    requires |s| == |marks|
    requires forall i :: 0 <= i < |marks| ==> !marks[i]
    ensures Chunks(s, marks) == s
    decreases |s|
  {
    if |s| > 0 {
      ChunksUnmarked(s[..|s| - 1], marks[..|marks| - 1]);
      assert s == s[..|s| - 1] + [s[|s| - 1]];
    }
  }

  // ---------------------------------------------------------------------------
  // escape_path (src/tools.rs:59-70)
  // ---------------------------------------------------------------------------

  /** The character class of escape_path's pattern: `! ( ) < > , ? ] [ { }`, space,
      backslash, both quotes, backtick, `* ^ # | $ & ;`. */
  predicate IsSpecial(c: char) {
    c in {'!', '(', ')', '<', '>', ',', '?', ']', '[', '{', '}', ' ', '\\', '\'', '"', '`', '*', '^', '#', '|', '$', '&', ';'}
  }

  /** escape_path: every special character gets a backslash in front of it.  The
      pattern is a constant that always compiles, so the source's fallback for a
      pattern that does not compile is never taken. */
  function EscapePath(path: string): (r: string)
    ensures |path| <= |r| <= 2 * |path|
    decreases |path|
  {
    if path == [] then []
    else Escaped(path[0], IsSpecial(path[0])) + EscapePath(path[1..])
  }

  /** The number of special characters in `s`. */
  function CountSpecial(s: string): nat
    decreases |s|
  {
    if s == [] then 0 else (if IsSpecial(s[0]) then 1 else 0) + CountSpecial(s[1..])
  }

  /** Which positions of `s` escape_path escapes. */
  function SpecialMarks(s: string): (marks: seq<bool>)
    ensures |marks| == |s|
    ensures forall i :: 0 <= i < |s| ==> marks[i] == IsSpecial(s[i])
  {
    seq(|s|, i requires 0 <= i < |s| => IsSpecial(s[i]))
  }

  /** Reading a backslash escape: a backslash followed by any character stands for
      that character; every other character stands for itself. */
  function Unescape(t: string): string
    decreases |t|
  {
    if t == [] then []
    else if t[0] == '\\' && |t| >= 2 then [t[1]] + Unescape(t[2..])
    else [t[0]] + Unescape(t[1..])
  }

  /** escape_path adds nothing but backslashes: every character of the result is
      a character of the path or a backslash. */
  lemma {:induction false} EscapePathAlphabet(s: string)
    ensures forall i :: 0 <= i < |EscapePath(s)| ==> EscapePath(s)[i] in s || EscapePath(s)[i] == '\\'
    decreases |s|
  {
    if s != [] {
      EscapePathAlphabet(s[1..]);
      var head, rest := Escaped(s[0], IsSpecial(s[0])), EscapePath(s[1..]);
      forall i | 0 <= i < |EscapePath(s)| ensures EscapePath(s)[i] in s || EscapePath(s)[i] == '\\' {
        if i >= |head| {
          assert EscapePath(s)[i] == rest[i - |head|];
          assert rest[i - |head|] in s[1..] ==> rest[i - |head|] in s;
        }
      }
    }
  }

  /** Escaping distributes over concatenation: each character is escaped on its own. */
  lemma {:induction false} EscapePathConcat(a: string, b: string)
    ensures EscapePath(a + b) == EscapePath(a) + EscapePath(b)
    decreases |a|
  {
    if a != [] {
      assert (a + b)[0] == a[0];
      assert (a + b)[1..] == a[1..] + b;
      EscapePathConcat(a[1..], b);
    } else {
      assert a + b == b;
    }
  }

  /** escape_path is the backslash insertion marked by the special characters. */
  lemma {:induction false} EscapePathIsChunks(s: string)
    ensures EscapePath(s) == Chunks(s, SpecialMarks(s))
    decreases |s|
  {
    if |s| > 0 {
      var p, c := s[..|s| - 1], s[|s| - 1];
      assert s == p + [c];
      EscapePathIsChunks(p);
      EscapePathConcat(p, [c]);
      assert EscapePath([c]) == Escaped(c, IsSpecial(c)) + EscapePath([]);
      assert SpecialMarks(s)[..|s| - 1] == SpecialMarks(p);
    }
  }

  /** Reading the escapes back recovers the path: escape_path loses nothing, since
      a backslash in the path is itself escaped. */
  lemma {:induction false} UnescapeEscapePath(s: string)
    ensures Unescape(EscapePath(s)) == s
    decreases |s|
  {
    if s != [] {
      var rest := EscapePath(s[1..]);
      UnescapeEscapePath(s[1..]);
      if IsSpecial(s[0]) {
        assert EscapePath(s) == ['\\', s[0]] + rest;
        assert (['\\', s[0]] + rest)[2..] == rest;
      } else {
        assert EscapePath(s) == [s[0]] + rest;
        assert ([s[0]] + rest)[1..] == rest;
      }
    }
  }

  /** escape_path adds one character per special character. */
  lemma {:induction false} EscapePathLength(s: string)
    ensures |EscapePath(s)| == |s| + CountSpecial(s)
    decreases |s|
  {
    if s != [] {
      EscapePathLength(s[1..]);
    }
  }

  /** A path without special characters comes back unchanged. */
  lemma {:induction false} EscapePathPlain(s: string)
    requires forall i :: 0 <= i < |s| ==> !IsSpecial(s[i])
    ensures EscapePath(s) == s
    decreases |s|
  {
    if s != [] {
      assert !IsSpecial(s[0]);
      EscapePathPlain(s[1..]);
      assert s == [s[0]] + s[1..];
    }
  }

  // ---------------------------------------------------------------------------
  // wrap_sep_string (src/tools.rs:28-54)
  // ---------------------------------------------------------------------------

  predicate IsQuote(c: char) {
    c == '`' || c == '"'
  }

  /** How one character moves the scanner's quote region: `None` outside a region,
      `Some(q)` inside the region that `q` opened.  Regions are tracked only when
      the separator is empty. */
  function QuoteStep(sep: string, q: Option<char>, c: char): Option<char> {
    if sep == [] && IsQuote(c) then
      if q.None? then Some(c)
      else if c == q.value then None
      else q
    else q
  }

  /** The quote region after the scanner has read all of `s`. */
  function QuoteAfter(sep: string, s: string): Option<char>
    decreases |s|
  {
    if s == [] then None else QuoteStep(sep, QuoteAfter(sep, s[..|s| - 1]), s[|s| - 1])
  }

  /** Whether the scanner puts a backslash before `s[i]`: it is the separator, or it
      is a space, the separator is empty, and the scanner is outside a region. */
  predicate EscapesAt(sep: string, s: string, i: int)
    requires 0 <= i < |s|
  {
    [s[i]] == sep || (s[i] == ' ' && sep == [] && QuoteAfter(sep, s[..i + 1]).None?)
  }

  function Marks(sep: string, s: string): (marks: seq<bool>)
    ensures |marks| == |s|
  {
    seq(|s|, i requires 0 <= i < |s| => EscapesAt(sep, s, i))
  }

  /** The text wrap_sep_string puts between the two separators. */
  function WrapToken(sep: string, s: string): string {
    Chunks(s, Marks(sep, s))
  }

  /** Reading one more character extends the token by that character's chunk. */
  lemma WrapTokenSnoc(sep: string, s: string, c: char)
    ensures WrapToken(sep, s + [c])
         == WrapToken(sep, s) + Escaped(c, [c] == sep || (c == ' ' && sep == [] && QuoteAfter(sep, s + [c]).None?))
  {
    var t := s + [c];
    assert t[..|t| - 1] == s;
    forall i | 0 <= i < |s| ensures Marks(sep, t)[i] == Marks(sep, s)[i] {
      assert t[..i + 1] == s[..i + 1];
    }
    assert Marks(sep, t)[..|t| - 1] == Marks(sep, s);
    assert t[..|s| + 1] == t;
  }

  /** wrap_sep_string: the scanner of the source, with its `met_subsep` and
      `previous_subsep` flags, proved to emit `sep`, the token, and `sep`. */
  method WrapSepString(sep: string, s: string) returns (r: string)
    ensures r == sep + WrapToken(sep, s) + sep
    ensures |r| >= 2 * |sep| && r[..|sep|] == sep && r[|r| - |sep|..] == sep
  {
    var token := "";
    var metSubsep := false;
    // any character other than a backtick or a double quote
    var previousSubsep := 'N';
    for i := 0 to |s|
      invariant token == WrapToken(sep, s[..i])
      invariant metSubsep == QuoteAfter(sep, s[..i]).Some?
      invariant previousSubsep == if metSubsep then QuoteAfter(sep, s[..i]).value else 'N'
    {
      var c := s[i];
      ghost var q := QuoteAfter(sep, s[..i]);
      ghost var before := token;
      if sep == "" && (c == '`' || c == '"') {
        if !metSubsep {
          metSubsep := true;
          previousSubsep := c;
        } else if c == previousSubsep {
          metSubsep := false;
          previousSubsep := 'N';
        }
      }
      assert metSubsep == QuoteStep(sep, q, c).Some?;
      ghost var mark := [c] == sep || (c == ' ' && sep == [] && !metSubsep);
      if [c] == sep {
        token := token + "\\";
      }
      if c == ' ' && sep == "" && !metSubsep {
        token := token + "\\";
      }
      token := token + [c];
      assert token == before + Escaped(c, mark);
      assert QuoteAfter(sep, s[..i + 1]) == QuoteStep(sep, q, c) by {
        assert s[..i + 1] == s[..i] + [c];
        assert s[..i + 1][..i] == s[..i];
      }
      assert token == WrapToken(sep, s[..i + 1]) by {
        assert s[..i + 1] == s[..i] + [c];
        WrapTokenSnoc(sep, s[..i], c);
      }
    }
    assert s[..|s|] == s;
    r := sep + token + sep;
    assert r[..|sep|] == sep && r[|r| - |sep|..] == sep;
  }

  /** With a non-empty separator the quote flag never toggles. */
  lemma {:induction false} QuoteNeverOpens(sep: string, s: string)
    requires sep != []
    ensures QuoteAfter(sep, s) == None
    decreases |s|
  {
    if s != [] {
      QuoteNeverOpens(sep, s[..|s| - 1]);
    }
  }

  /** A one-character separator: exactly its occurrences are escaped, and spaces are not. */
  lemma SingleCharSeparator(sep: string, s: string)
    requires |sep| == 1
    ensures QuoteAfter(sep, s) == None
    ensures forall i :: 0 <= i < |s| ==> (Marks(sep, s)[i] <==> s[i] == sep[0])
  {
    QuoteNeverOpens(sep, s);
    forall i | 0 <= i < |s| ensures Marks(sep, s)[i] <==> s[i] == sep[0] {
      assert [s[i]] == sep <==> s[i] == sep[0];
    }
  }

  /** A separator of two or more characters never equals one character, so the
      token is the input itself. */
  lemma LongSeparator(sep: string, s: string)
    requires |sep| >= 2
    ensures WrapToken(sep, s) == s
  {
    forall i | 0 <= i < |s| ensures !Marks(sep, s)[i] {
      assert |[s[i]]| != |sep|;
    }
    ChunksUnmarked(s, Marks(sep, s));
  }

  /** An empty separator: no character is escaped as a separator, and a space is
      escaped exactly when it lies outside a quote region. */
  lemma EmptySeparator(s: string)
    ensures forall i :: 0 <= i < |s| ==> (Marks([], s)[i] <==> s[i] == ' ' && QuoteAfter([], s[..i]).None?)
  {
    forall i | 0 <= i < |s| ensures Marks([], s)[i] <==> s[i] == ' ' && QuoteAfter([], s[..i]).None? {
      assert s[..i + 1][..i] == s[..i];
    }
  }

  /** Position `j` opens a region of `q` that is still open at the end of `s`:
      `q` is a backtick or double quote, read at `j` outside any region, and no
      `q` comes after it. */
  predicate OpensAt(s: string, q: char, j: int) {
    0 <= j < |s| && s[j] == q && IsQuote(q) && QuoteAfter([], s[..j]).None? &&
    forall k :: j < k < |s| ==> s[k] != q
  }

  /** A region that is open at the end of `s` was opened by its own character and
      has not met that character since. */
  lemma {:induction false} QuoteRegionOpened(s: string, q: char)
    requires QuoteAfter([], s) == Some(q)
    ensures exists j :: OpensAt(s, q, j)
    decreases |s|
  {
    var n := |s|;
    var p, c := s[..n - 1], s[n - 1];
    if QuoteAfter([], p).None? {
      assert s[..n - 1] == p;
      assert OpensAt(s, q, n - 1);
    } else {
      QuoteRegionOpened(p, q);
      var j :| OpensAt(p, q, j);
      assert p[..j] == s[..j];
      assert OpensAt(s, q, j);
    }
  }

  /** Conversely, a region opened at `j` stays open through any characters other
      than its own, including the other quote character. */
  lemma {:induction false} QuoteRegionStaysOpen(s: string, q: char, j: int)
    requires OpensAt(s, q, j)
    ensures QuoteAfter([], s) == Some(q)
    decreases |s|
  {
    var n := |s|;
    var p := s[..n - 1];
    if j < n - 1 {
      assert p[..j] == s[..j];
      assert OpensAt(p, q, j);
      QuoteRegionStaysOpen(p, q, j);
    } else {
      assert p == s[..j];
    }
  }

  /** The two directions together: inside a region opened by `q` exactly when some
      position opens it and it has not been closed by `q` since. */
  lemma QuoteRegion(s: string, q: char)
    ensures QuoteAfter([], s) == Some(q) <==> exists j :: OpensAt(s, q, j)
  {
    if QuoteAfter([], s) == Some(q) {
      QuoteRegionOpened(s, q);
    }
    if exists j :: OpensAt(s, q, j) {
      var j :| OpensAt(s, q, j);
      QuoteRegionStaysOpen(s, q, j);
    }
  }
}
