/** The string operations the scraper borrows from Python: `str.strip()`,
    single-character `str.replace`, `'\n'.join` and `os.path.basename`. */
module Strings {

  /** The characters Python's `str.isspace` accepts, which `str.strip()` removes:
      tab to carriage return, the four information separators and space,
      next line, no-break space, and the Unicode space and line separators. */
  predicate IsSpace(c: char) {
    || '\t' <= c <= '\r'
    || '\U{001C}' <= c <= ' '
    || c == '\U{0085}' || c == '\U{00A0}' || c == '\U{1680}'
    || '\U{2000}' <= c <= '\U{200A}'
    || c == '\U{2028}' || c == '\U{2029}' || c == '\U{202F}' || c == '\U{205F}'
    || c == '\U{3000}'
  }

  /** No whitespace at either end. */
  predicate IsTrimmed(s: string) {
    s == [] || (!IsSpace(s[0]) && !IsSpace(s[|s| - 1]))
  }

  /** `s.lstrip()`: drop leading whitespace. */
  function TrimStart(s: string): string {
    if s != [] && IsSpace(s[0]) then TrimStart(s[1..]) else s
  }

  /** `lstrip` leaves the suffix of `s` after a run of whitespace, and that
      suffix does not start with whitespace. */
  lemma {:induction false} TrimStartSpec(s: string)
    ensures var r := TrimStart(s);
            && |r| <= |s| && r == s[|s| - |r|..]
            && (forall k :: 0 <= k < |s| - |r| ==> IsSpace(s[k]))
            && (r != [] ==> !IsSpace(r[0]))
  {
    if s != [] && IsSpace(s[0]) {
      TrimStartSpec(s[1..]);
    }
  }

  /** `s.rstrip()`: drop trailing whitespace. */
  function TrimEnd(s: string): string {
    if s != [] && IsSpace(s[|s| - 1]) then TrimEnd(s[..|s| - 1]) else s
  }

  /** `rstrip` leaves the prefix of `s` before a run of whitespace, and that
      prefix does not end with whitespace. */
  lemma {:induction false} TrimEndSpec(s: string)
    ensures var r := TrimEnd(s);
            && |r| <= |s| && r == s[..|r|]
            && (forall k :: |r| <= k < |s| ==> IsSpace(s[k]))
            && (r != [] ==> !IsSpace(r[|r| - 1]))
  {
    if s != [] && IsSpace(s[|s| - 1]) {
      var t := s[..|s| - 1];
      TrimEndSpec(t);
      assert TrimEnd(t) == s[..|TrimEnd(t)|];
    }
  }

  /** `s.strip()`. */
  function Strip(s: string): string {
    TrimEnd(TrimStart(s))
  }

  /** What `strip` removes is whitespace, from the two ends only: the result is
      the slice of `s` between a whitespace prefix and a whitespace suffix,
      and it neither starts nor ends with whitespace. */
  lemma StripIsSlice(s: string)
    ensures IsTrimmed(Strip(s))
    ensures var i := |s| - |TrimStart(s)|;
            0 <= i && i + |Strip(s)| <= |s| && Strip(s) == s[i..i + |Strip(s)|] &&
            (forall k :: 0 <= k < i ==> IsSpace(s[k])) &&
            (forall k :: i + |Strip(s)| <= k < |s| ==> IsSpace(s[k]))
  {
    var t := TrimStart(s);
    var r := TrimEnd(t);
    TrimStartSpec(s);
    TrimEndSpec(t);
    var i := |s| - |t|;
    assert r != [] ==> r[0] == t[0];
    assert r == s[i..i + |r|];
    forall k | i + |r| <= k < |s| ensures IsSpace(s[k]) {
      assert s[k] == t[k - i];
    }
  }

  /** A string with no whitespace at its ends is its own strip. */
  lemma StripTrimmed(s: string)
    requires IsTrimmed(s)
    ensures Strip(s) == s
  {
    assert TrimStart(s) == s;
    assert TrimEnd(s) == s;
  }

  /** `strip` is idempotent. */
  lemma StripIdempotent(s: string)
    ensures Strip(Strip(s)) == Strip(s)
  {
    StripIsSlice(s);
    StripTrimmed(Strip(s));
  }

  /** `s.replace(from, to)` for single characters. */
  function ReplaceChar(s: string, from: char, to: char): string {
    if s == [] then [] else [if s[0] == from then to else s[0]] + ReplaceChar(s[1..], from, to)
  }

  /** Every occurrence of `from` is replaced by `to`, every other character is
      kept in place. */
  lemma {:induction false} ReplaceCharSpec(s: string, from: char, to: char)
    ensures var r := ReplaceChar(s, from, to);
            && |r| == |s|
            && forall k :: 0 <= k < |s| ==> r[k] == if s[k] == from then to else s[k]
  {
    if s != [] {
      ReplaceCharSpec(s[1..], from, to);
    }
  }

  /** `s.replace(c, '')`. */
  function RemoveChar(s: string, c: char): string {
    if s == [] then []
    else
      var n := |s| - 1;
      RemoveChar(s[..n], c) + (if s[n] == c then [] else [s[n]])
  }

  /** The positions of `s` that do not hold `c`: exactly those positions, in
      increasing order. */
  function KeptPositions(s: string, c: char): (idx: seq<nat>)
    ensures forall k :: 0 <= k < |idx| ==> idx[k] < |s| && s[idx[k]] != c
    ensures forall k, l :: 0 <= k < l < |idx| ==> idx[k] < idx[l]
    ensures forall i :: 0 <= i < |s| && s[i] != c ==> i in idx
  {
    if s == [] then []
    else
      var n := |s| - 1;
      var front := KeptPositions(s[..n], c);
      assert forall i :: 0 <= i < n ==> s[..n][i] == s[i];
      front + (if s[n] == c then [] else [n])
  }

  /** Every occurrence of `c` is removed and the other characters are kept,
      in their order: the k-th character left is the k-th character of `s`
      that is not `c`. Hence no other character changes its multiplicity. */
  lemma {:induction false} RemoveCharSpec(s: string, c: char)
    ensures var r := RemoveChar(s, c);
            && c !in r
            && |r| == |KeptPositions(s, c)| <= |s|
            && (forall k :: 0 <= k < |r| ==> r[k] == s[KeptPositions(s, c)[k]])
            && forall x :: x != c ==> multiset(r)[x] == multiset(s)[x]
  {
    if s != [] {
      var n := |s| - 1;
      RemoveCharSpec(s[..n], c);
      assert forall i :: 0 <= i < n ==> s[..n][i] == s[i];
      assert s == s[..n] + [s[n]];
    }
  }

  /** `'\n'.join(xs)`. */
  function JoinLines(xs: seq<string>): (r: string)
    ensures |r| >= |xs| - 1
    ensures r == "" <==> xs == [] || xs == [""]
  {
    if xs == [] then ""
    else if |xs| == 1 then xs[0]
    else xs[0] + "\n" + JoinLines(xs[1..])
  }

  /** `os.path.basename(s)` on a POSIX system: what follows the last '/'. */
  function Basename(s: string): string {
    if s == [] then []
    else if s[|s| - 1] == '/' then []
    else Basename(s[..|s| - 1]) + [s[|s| - 1]]
  }

  /** The basename is the longest suffix without a '/': all of `s`, or the
      part after its last '/'. */
  lemma {:induction false} BasenameIsLastSegment(s: string)
    ensures var r := Basename(s);
            && '/' !in r
            && |r| <= |s| && r == s[|s| - |r|..]
            && (|r| < |s| ==> s[|s| - |r| - 1] == '/')
  {
    if s != [] && s[|s| - 1] != '/' {
      var t := s[..|s| - 1];
      var q := Basename(t);
      BasenameIsLastSegment(t);
      assert Basename(s) == q + [s[|s| - 1]];
      var i := |t| - |q|;
      assert s[i..] == t[i..] + [s[|s| - 1]];
      assert i > 0 ==> s[i - 1] == t[i - 1];
    }
  }
}
