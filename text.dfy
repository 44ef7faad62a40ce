/**
 * The few Python string operations the core relies on: `str.strip()` with no
 * argument, `str.split(",")` and its inverse `",".join(...)`.
 */
module Text {

  /**
   * Python's `str.isspace()` for one character: the code points that
   * `str.strip()` with no argument removes.
   */
  predicate IsSpace(c: char) {
    c in Whitespace
  }

  const Whitespace: set<char> := {
    '\t', '\n', '\U{0B}', '\U{0C}', '\r', '\U{1C}', '\U{1D}', '\U{1E}', '\U{1F}', ' ',
    '\U{85}', '\U{A0}', '\U{1680}', '\U{2000}', '\U{2001}', '\U{2002}', '\U{2003}',
    '\U{2004}', '\U{2005}', '\U{2006}', '\U{2007}', '\U{2008}', '\U{2009}', '\U{200A}',
    '\U{2028}', '\U{2029}', '\U{202F}', '\U{205F}', '\U{3000}'
  }

  /** Removes the leading whitespace (see `TrimLeftSpec`). */
  function TrimLeft(s: string): string {
    if s != [] && IsSpace(s[0]) then TrimLeft(s[1..]) else s
  }

  /** Removes the trailing whitespace (see `TrimRightSpec`). */
  function TrimRight(s: string): string {
    if s != [] && IsSpace(s[|s| - 1]) then TrimRight(s[..|s| - 1]) else s
  }

  /**
   * `s.strip()`. Its properties are lemmas rather than postconditions, so
   * that comparing a stripped line with a marker stays cheap for the verifier.
   */
  function Strip(s: string): string {
    TrimRight(TrimLeft(s))
  }

  /** `TrimLeft` keeps the longest suffix that does not start with whitespace. */
  lemma {:induction false} TrimLeftSpec(s: string)
    ensures var r := TrimLeft(s);
            |r| <= |s| && r == s[|s| - |r|..]
            && (forall k :: 0 <= k < |s| - |r| ==> IsSpace(s[k]))
            && (r == [] || !IsSpace(r[0]))
  {
    if s != [] && IsSpace(s[0]) {
      TrimLeftSpec(s[1..]);
    }
  }

  /** `TrimRight` keeps the longest prefix that does not end with whitespace. */
  lemma {:induction false} TrimRightSpec(s: string)
    ensures var r := TrimRight(s);
            |r| <= |s| && r == s[..|r|]
            && (forall k :: |r| <= k < |s| ==> IsSpace(s[k]))
            && (r == [] || !IsSpace(r[|r| - 1]))
  {
    if s != [] && IsSpace(s[|s| - 1]) {
      TrimRightSpec(s[..|s| - 1]);
    }
  }

  /** A stripped string neither starts nor ends with whitespace. */
  lemma StripHasNoSurroundingSpace(s: string)
    ensures var r := Strip(s);
            |r| <= |s| && (r == [] || (!IsSpace(r[0]) && !IsSpace(r[|r| - 1])))
  {
    TrimLeftSpec(s);
    var t := TrimLeft(s);
    TrimRightSpec(t);
    var r := TrimRight(t);
    if r != [] {
      assert r[0] == t[0];
    }
  }

  /**
   * `Strip` keeps a contiguous piece of `s`: with `i` the number of leading
   * whitespace characters, the result is the piece of `s` from `i` on.
   */
  lemma StripIsSlice(s: string)
    ensures var i := |s| - |TrimLeft(s)|;
            0 <= i && i + |Strip(s)| <= |s|
            && forall k :: 0 <= k < |Strip(s)| ==> Strip(s)[k] == s[i + k]
  {
    TrimLeftSpec(s);
    var t := TrimLeft(s);
    TrimRightSpec(t);
    var r := TrimRight(t);
    var i := |s| - |t|;
    forall k | 0 <= k < |r|
      ensures r[k] == s[i + k]
    {
      assert r[k] == t[k];
    }
  }

  /** `Strip` removes only whitespace: everything before and after the piece it keeps is whitespace. */
  lemma StripRemovesOnlySpace(s: string)
    ensures var i := |s| - |TrimLeft(s)|;
            0 <= i && i + |Strip(s)| <= |s|
            && (forall k :: 0 <= k < i ==> IsSpace(s[k]))
            && (forall k :: i + |Strip(s)| <= k < |s| ==> IsSpace(s[k]))
  {
    TrimLeftSpec(s);
    var t := TrimLeft(s);
    TrimRightSpec(t);
    var r := TrimRight(t);
    var i := |s| - |t|;
    forall k | i + |r| <= k < |s|
      ensures IsSpace(s[k])
    {
      assert s[k] == t[k - i];
    }
  }

  /** A string with no surrounding whitespace is its own strip. */
  lemma StripUnchanged(s: string)
    requires s == [] || (!IsSpace(s[0]) && !IsSpace(s[|s| - 1]))
    ensures Strip(s) == s
  {
  }

  /** A line read with its line break strips to its text, when the text has no surrounding whitespace. */
  lemma StripLineBreak(s: string)
    requires s != [] && !IsSpace(s[0]) && !IsSpace(s[|s| - 1])
    ensures Strip(s + "\n") == s
  {
    var t := s + "\n";
    assert TrimLeft(t) == t;
    assert t[..|t| - 1] == s;
    assert TrimRight(t) == TrimRight(s);
  }

  /** Position of the first `c` in `s`, or `|s|` when there is none. */
  function IndexOf(s: string, c: char): (i: nat)
    ensures i <= |s|
    ensures i < |s| ==> s[i] == c
    ensures forall k :: 0 <= k < i ==> s[k] != c
  {
    if s == [] then 0 else if s[0] == c then 0 else 1 + IndexOf(s[1..], c)
  }

  /** `sep.join(parts)`. */
  function Join(parts: seq<string>, sep: char): string
    requires |parts| >= 1
  {
    if |parts| == 1 then parts[0] else parts[0] + [sep] + Join(parts[1..], sep)
  }

  /**
   * `s.split(sep)` for a one-character separator: at least one piece (the
   * empty string splits into `[""]`), no piece contains the separator, and
   * joining the pieces gives `s` back.
   */
  function Split(s: string, sep: char): (parts: seq<string>)
    ensures |parts| >= 1
    ensures forall p :: p in parts ==> sep !in p
    ensures Join(parts, sep) == s
    decreases |s|
  {
    var i := IndexOf(s, sep);
    if i == |s| then
      [s]
    else
      var rest := Split(s[i + 1..], sep);
      assert s == s[..i] + [sep] + s[i + 1..];
      [s[..i]] + rest
  }

  /** Splitting undoes joining, when no piece contains the separator. */
  lemma {:induction false} SplitJoin(parts: seq<string>, sep: char)
    requires |parts| >= 1
    requires forall p :: p in parts ==> sep !in p
    ensures Split(Join(parts, sep), sep) == parts
    decreases |parts|
  {
    var s := Join(parts, sep);
    if |parts| == 1 {
      assert sep !in parts[0];
      assert IndexOf(s, sep) == |s|;
    } else {
      var tail := Join(parts[1..], sep);
      assert s == parts[0] + [sep] + tail;
      assert sep !in parts[0];
      IndexOfAfterPrefix(parts[0], sep, tail);
      assert s[|parts[0]| + 1..] == tail;
      assert s[..|parts[0]|] == parts[0];
      SplitJoin(parts[1..], sep);
    }
  }

  lemma IndexOfAfterPrefix(p: string, sep: char, tail: string)
    requires sep !in p
    ensures IndexOf(p + [sep] + tail, sep) == |p|
  {
    var s := p + [sep] + tail;
    assert s[|p|] == sep;
    assert forall k :: 0 <= k < |p| ==> s[k] == p[k];
  }
}
