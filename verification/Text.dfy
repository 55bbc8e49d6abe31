/**
 * The .NET string and path primitives the discovery logic relies on:
 * char.IsWhiteSpace / string.IsNullOrWhiteSpace / string.Trim, ordinal
 * ignore-case comparison and IndexOf, string.Split with RemoveEmptyEntries,
 * and Path.Combine as .NET on Windows defines it.
 */
module Text {
  import opened Wrappers

  /** The characters char.IsWhiteSpace accepts (also the regex class \s). */
  predicate IsWhiteSpace(c: char) {
    ('\t' <= c <= '\r') || c == ' ' || c == '\U{0085}' || c == '\U{00A0}' || c == '\U{1680}'
    || ('\U{2000}' <= c <= '\U{200A}') || c == '\U{2028}' || c == '\U{2029}'
    || c == '\U{202F}' || c == '\U{205F}' || c == '\U{3000}'
  }

  predicate IsBlank(s: string) {
    forall i | 0 <= i < |s| :: IsWhiteSpace(s[i])
  }

  /** string.IsNullOrWhiteSpace, with null as None. */
  predicate IsNullOrWhiteSpace(s: Option<string>) {
    s.None? || IsBlank(s.value)
  }

  function TrimStart(s: string): (r: string)
    ensures |r| <= |s| && r == s[|s| - |r|..]
    ensures IsBlank(s[..|s| - |r|])
    ensures r == [] || !IsWhiteSpace(r[0])
  {
    if s != [] && IsWhiteSpace(s[0]) then
      var r := TrimStart(s[1..]);
      assert s[..|s| - |r|] == [s[0]] + s[1..][..|s| - 1 - |r|];
      r
    else s
  }

  function TrimEnd(s: string): (r: string)
    ensures |r| <= |s| && r == s[..|r|]
    ensures IsBlank(s[|r|..])
    ensures r == [] || !IsWhiteSpace(r[|r| - 1])
  {
    if s != [] && IsWhiteSpace(s[|s| - 1]) then
      var r := TrimEnd(s[..|s| - 1]);
      assert s[|r|..] == s[..|s| - 1][|r|..] + [s[|s| - 1]];
      r
    else s
  }

  /** `r` stands in `s` at `i` with nothing but whitespace before and after it. */
  predicate IsTrimmedSlice(s: string, r: string, i: nat) {
    i + |r| <= |s| && r == s[i..i + |r|] && IsBlank(s[..i]) && IsBlank(s[i + |r|..])
  }

  /**
   * string.Trim: the result is the middle of `s` with blank margins cut off,
   * starting where the leading whitespace ends; it neither starts nor ends
   * with whitespace, and it is empty exactly when `s` is blank.
   */
  function Trim(s: string): (r: string)
    ensures IsTrimmedSlice(s, r, |s| - |TrimStart(s)|)
    ensures r == [] || (!IsWhiteSpace(r[0]) && !IsWhiteSpace(r[|r| - 1]))
    ensures r == [] <==> IsBlank(s)
  {
    var t := TrimStart(s);
    var r := TrimEnd(t);
    TrimmedSliceOf(s, t, r);
    r
  }

  /**
   * A suffix `t` of `s` after a blank prefix, cut down to a prefix `r` before
   * a blank suffix, is a trimmed slice of `s`.
   */
  lemma TrimmedSliceOf(s: string, t: string, r: string)
    requires |t| <= |s| && t == s[|s| - |t|..] && IsBlank(s[..|s| - |t|])
    requires t == [] || !IsWhiteSpace(t[0])
    requires |r| <= |t| && r == t[..|r|] && IsBlank(t[|r|..])
    requires r == [] || !IsWhiteSpace(r[|r| - 1])
    ensures IsTrimmedSlice(s, r, |s| - |t|)
    ensures r == [] || (!IsWhiteSpace(r[0]) && !IsWhiteSpace(r[|r| - 1]))
    ensures r == [] <==> IsBlank(s)
  {
    var i := |s| - |t|;
    assert s[i..i + |r|] == t[..|r|];
    assert s[i + |r|..] == t[|r|..];
    if r == [] {
      BlankAppend(s[..i], t);
      assert s[..i] + t == s;
    } else {
      assert r[0] == t[0] == s[i];
    }
  }

  lemma BlankAppend(a: string, b: string)
    requires IsBlank(a) && IsBlank(b)
    ensures IsBlank(a + b)
  {
  }

  /** The simple upper-case mapping ordinal ignore-case comparison applies (ASCII letters). */
  function ToUpperAscii(c: char): char {
    if 'a' <= c <= 'z' then (c as int - 32) as char else c
  }

  /** The comparison key of StringComparer.OrdinalIgnoreCase. */
  function Fold(s: string): (r: string)
    ensures |r| == |s|
  {
    seq(|s|, i requires 0 <= i < |s| => ToUpperAscii(s[i]))
  }

  /** string.Equals(a, b, StringComparison.OrdinalIgnoreCase) on two non-null strings. */
  predicate EqualsIgnoreCase(a: string, b: string) {
    Fold(a) == Fold(b)
  }

  /** `needle` occurs in `s` at index `i`, ignoring case. */
  predicate OccursAt(s: string, needle: string, i: nat) {
    i + |needle| <= |s| && EqualsIgnoreCase(s[i..i + |needle|], needle)
  }

  ghost predicate ContainsIgnoreCase(s: string, needle: string) {
    exists i: nat | i <= |s| :: OccursAt(s, needle, i)
  }

  /** The leftmost ignore-case occurrence of `needle` at or after `from`, or -1. */
  function IndexFrom(s: string, needle: string, from: nat): (r: int)
    decreases |s| - from
    ensures r == -1 || (from <= r && OccursAt(s, needle, r))
    ensures forall j: nat | from <= j && (r == -1 || j < r) :: !OccursAt(s, needle, j)
  {
    if from + |needle| > |s| then -1
    else if OccursAt(s, needle, from) then from
    else IndexFrom(s, needle, from + 1)
  }

  /** s.IndexOf(needle, StringComparison.OrdinalIgnoreCase). */
  function IndexOfIgnoreCase(s: string, needle: string): (r: int)
    ensures r >= 0 <==> ContainsIgnoreCase(s, needle)
    ensures r >= 0 ==> OccursAt(s, needle, r) && forall j: nat | j < r :: !OccursAt(s, needle, j)
  {
    IndexFrom(s, needle, 0)
  }

  /** Concatenates `parts` with `sep` between neighbours (the inverse of Split). */
  function Join(parts: seq<string>, sep: char): string
    requires |parts| >= 1
  {
    if |parts| == 1 then parts[0] else parts[0] + [sep] + Join(parts[1..], sep)
  }

  /**
   * s.Split(sep): the maximal separator-free pieces of `s`, empty ones
   * included, so that joining them back gives `s`.
   */
  function Split(s: string, sep: char): (parts: seq<string>)
    ensures |parts| >= 1
    ensures forall i | 0 <= i < |parts| :: sep !in parts[i]
    ensures Join(parts, sep) == s
  {
    if s == [] then [""]
    else
      var rest := Split(s[1..], sep);
      if s[0] == sep then
        assert Join([""] + rest, sep) == "" + [sep] + Join(rest, sep) by {
          assert ([""] + rest)[1..] == rest;
        }
        [""] + rest
      else
        var parts := [[s[0]] + rest[0]] + rest[1..];
        assert Join(parts, sep) == [s[0]] + Join(rest, sep) by {
          if |rest| > 1 {
            assert parts[1..] == rest[1..];
          }
        }
        parts
  }

  /** The pieces StringSplitOptions.RemoveEmptyEntries keeps, in order. */
  function RemoveEmpty(parts: seq<string>): (r: seq<string>)
    ensures |r| <= |parts|
    ensures forall p :: p in r <==> p in parts && p != ""
  {
    if parts == [] then []
    else if parts[0] == "" then RemoveEmpty(parts[1..])
    else [parts[0]] + RemoveEmpty(parts[1..])
  }

  /** A single piece is kept exactly when it is not empty. */
  lemma RemoveEmptySingle(p: string)
    ensures RemoveEmpty([p]) == if p == "" then [] else [p]
  {
    assert [p][1..] == [];
  }

  /**
   * Removing the empty pieces works piece by piece: the kept pieces of a
   * concatenation are those of each part, in the same order.
   */
  lemma {:induction false} RemoveEmptyAppend(a: seq<string>, b: seq<string>)
    ensures RemoveEmpty(a + b) == RemoveEmpty(a) + RemoveEmpty(b)
  {
    if a != [] {
      assert (a + b)[0] == a[0];
      assert (a + b)[1..] == a[1..] + b;
      RemoveEmptyAppend(a[1..], b);
    } else {
      assert a + b == b;
    }
  }

  /** Splitting a separator-free string gives it back as the only piece. */
  lemma {:induction false} SplitNoSeparator(x: string, sep: char)
    requires sep !in x
    ensures Split(x, sep) == [x]
  {
    if x != [] {
      SplitNoSeparator(x[1..], sep);
      assert [x[0]] + x[1..] == x;
    }
  }

  /** A separator-free first piece followed by the separator splits off as the first piece. */
  lemma {:induction false} SplitFirstPiece(x: string, sep: char, rest: string)
    requires sep !in x
    ensures Split(x + [sep] + rest, sep) == [x] + Split(rest, sep)
  {
    var s := x + [sep] + rest;
    if x == [] {
      assert s[0] == sep && s[1..] == rest;
    } else {
      assert s[0] == x[0] && s[1..] == x[1..] + [sep] + rest;
      SplitFirstPiece(x[1..], sep, rest);
      assert [x[0]] + x[1..] == x;
    }
  }

  /** Split inverts Join: separator-free pieces joined by the separator split back into themselves. */
  lemma {:induction false} SplitJoin(parts: seq<string>, sep: char)
    requires |parts| >= 1 && forall i | 0 <= i < |parts| :: sep !in parts[i]
    ensures Split(Join(parts, sep), sep) == parts
  {
    if |parts| == 1 {
      SplitNoSeparator(parts[0], sep);
    } else {
      SplitJoin(parts[1..], sep);
      SplitFirstPiece(parts[0], sep, Join(parts[1..], sep));
      assert [parts[0]] + parts[1..] == parts;
    }
  }

  predicate IsDirectorySeparator(c: char) {
    c == '\\' || c == '/'
  }

  /** Path.IsPathRooted on Windows: a leading separator or a drive letter and colon. */
  predicate IsPathRooted(p: string) {
    || (|p| >= 1 && IsDirectorySeparator(p[0]))
    || (|p| >= 2 && p[1] == ':' && (('a' <= p[0] <= 'z') || ('A' <= p[0] <= 'Z')))
  }

  /**
   * Path.Combine(a, b) on Windows: a rooted or lone `b` replaces `a`; otherwise
   * the two are joined with exactly the separator they lack.
   */
  function Combine(a: string, b: string): (r: string)
    ensures b != [] && a != [] && !IsPathRooted(b) ==>
      r == if IsDirectorySeparator(a[|a| - 1]) || IsDirectorySeparator(b[0]) then a + b else a + "\\" + b
    ensures b != [] && (a == [] || IsPathRooted(b)) ==> r == b
    ensures b == [] ==> r == a
  {
    if a == [] then b
    else if b == [] then a
    else if IsPathRooted(b) then b
    else if IsDirectorySeparator(a[|a| - 1]) || IsDirectorySeparator(b[0]) then a + b
    else a + "\\" + b
  }
}
