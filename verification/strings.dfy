/**
 Text helpers with Python's meaning: `str.strip()` with no argument,
 `"\n".join(parts)` and, as its inverse, `s.split("\n")`.
 */
module Strings {

  /** The characters Python's `str.isspace` accepts: exactly what `str.strip()` removes. */
  predicate IsSpace(c: char) {
    || ('\t' <= c <= '\r')
    || ('\U{1C}' <= c <= '\U{1F}')
    || c == ' '
    || c == '\U{85}'
    || c == '\U{A0}'
    || c == '\U{1680}'
    || ('\U{2000}' <= c <= '\U{200A}')
    || c == '\U{2028}'
    || c == '\U{2029}'
    || c == '\U{202F}'
    || c == '\U{205F}'
    || c == '\U{3000}'
  }

  ghost predicate AllSpace(s: string) {
    forall i :: 0 <= i < |s| ==> IsSpace(s[i])
  }

  /** Every character of `s[lo..hi]` is whitespace. */
  ghost predicate SpaceBetween(s: string, lo: nat, hi: nat)
    requires lo <= hi <= |s|
  {
    forall i :: lo <= i < hi ==> IsSpace(s[i])
  }

  /** Neither end of `s` is whitespace (the empty string included). */
  ghost predicate Trimmed(s: string) {
    |s| == 0 || (!IsSpace(s[0]) && !IsSpace(s[|s| - 1]))
  }

  /** Where `s[i..].lstrip()` starts: the first non-whitespace index from `i` on, or `|s|`. */
  function SkipSpace(s: string, i: nat): (k: nat)
    requires i <= |s|
    ensures i <= k <= |s| && SpaceBetween(s, i, k)
    ensures k == |s| || !IsSpace(s[k])
    decreases |s| - i
  {
    if i < |s| && IsSpace(s[i]) then SkipSpace(s, i + 1) else i
  }

  /** Where `s[lo..j].rstrip()` ends: just past the last non-whitespace index below `j`, or `lo`. */
  function SkipSpaceBack(s: string, lo: nat, j: nat): (k: nat)
    requires lo <= j <= |s|
    ensures lo <= k <= j && SpaceBetween(s, k, j)
    ensures k == lo || !IsSpace(s[k - 1])
    decreases j
  {
    if j > lo && IsSpace(s[j - 1]) then SkipSpaceBack(s, lo, j - 1) else j
  }

  /** `s.strip()`. */
  function Strip(s: string): (r: string)
    ensures |r| <= |s|
    ensures Trimmed(r)
  {
    var lo := SkipSpace(s, 0);
    s[lo..SkipSpaceBack(s, lo, |s|)]
  }

  /** Stripping only removes whitespace: `s` is the result with blanks around it. */
  lemma StripSplit(s: string) returns (before: string, after: string)
    ensures s == before + Strip(s) + after
    ensures AllSpace(before) && AllSpace(after)
  {
    var lo := SkipSpace(s, 0);
    var hi := SkipSpaceBack(s, lo, |s|);
    before := s[..lo];
    after := s[hi..];
    assert s == s[..lo] + s[lo..hi] + s[hi..];
  }

  /** The scan from `i` stops at the first non-whitespace index. */
  lemma SkipSpaceTo(s: string, i: nat, k: nat)
    requires i <= k <= |s| && SpaceBetween(s, i, k)
    requires k == |s| || !IsSpace(s[k])
    ensures SkipSpace(s, i) == k
  {
  }

  /** The backward scan from `j` stops just past the last non-whitespace index. */
  lemma SkipSpaceBackTo(s: string, lo: nat, j: nat, k: nat)
    requires lo <= k <= j <= |s| && SpaceBetween(s, k, j)
    requires k == lo || !IsSpace(s[k - 1])
    ensures SkipSpaceBack(s, lo, j) == k
  {
  }

  /** Whatever the blanks around a trimmed text, stripping gives back exactly that text. */
  lemma StripOf(before: string, m: string, after: string)
    requires AllSpace(before) && AllSpace(after) && Trimmed(m)
    ensures Strip(before + m + after) == m
  {
    var s := before + m + after;
    var lo := |before|;
    var hi := |before| + |m|;
    if |m| == 0 {
      SkipSpaceTo(s, 0, |s|);
      SkipSpaceBackTo(s, |s|, |s|, |s|);
    } else {
      assert s[lo] == m[0] && s[hi - 1] == m[|m| - 1];
      SkipSpaceTo(s, 0, lo);
      SkipSpaceBackTo(s, lo, |s|, hi);
      assert s[lo..hi] == m;
    }
  }

  /** `"\n".join(parts)`. */
  function JoinLines(parts: seq<string>): string {
    if |parts| == 0 then ""
    else if |parts| == 1 then parts[0]
    else parts[0] + "\n" + JoinLines(parts[1..])
  }

  /** A join of several parts starts with the first part and a newline. */
  lemma JoinLinesStartsWithFirst(parts: seq<string>)
    requires |parts| > 1
    ensures JoinLines(parts)[..|parts[0]| + 1] == parts[0] + "\n"
  {
    var rest := JoinLines(parts[1..]);
    assert JoinLines(parts) == (parts[0] + "\n") + rest;
  }

  /** `s.split("\n")`: the pieces between newlines; always at least one. */
  function SplitLines(s: string): (r: seq<string>)
    ensures |r| >= 1
  {
    if |s| == 0 then [""]
    else
      var rest := SplitLines(s[1..]);
      if s[0] == '\n' then [""] + rest
      else [[s[0]] + rest[0]] + rest[1..]
  }

  /** Appending a part to a non-empty join adds one newline and the part. */
  lemma {:induction false} JoinLinesSnoc(parts: seq<string>, last: string)
    requires |parts| > 0
    ensures JoinLines(parts + [last]) == JoinLines(parts) + "\n" + last
    decreases |parts|
  {
    if |parts| == 1 {
      assert parts + [last] == [parts[0], last];
      assert [parts[0], last][1..] == [last];
    } else {
      assert (parts + [last])[1..] == parts[1..] + [last];
      JoinLinesSnoc(parts[1..], last);
    }
  }

  /** A newline-free text at the front merges into the first piece of the split. */
  lemma {:induction false} SplitLinesPrefix(p: string, t: string)
    requires '\n' !in p
    ensures SplitLines(p + t) == [p + SplitLines(t)[0]] + SplitLines(t)[1..]
    decreases |p|
  {
    if |p| == 0 {
      assert p + t == t;
      assert p + SplitLines(t)[0] == SplitLines(t)[0];
    } else {
      assert (p + t)[1..] == p[1..] + t;
      assert p[0] in p;
      SplitLinesPrefix(p[1..], t);
      assert [p[0]] + (p[1..] + SplitLines(t)[0]) == p + SplitLines(t)[0];
    }
  }

  /** Splitting undoes joining when no part holds a newline. */
  lemma {:induction false} SplitJoinLines(parts: seq<string>)
    requires |parts| > 0
    requires forall i :: 0 <= i < |parts| ==> '\n' !in parts[i]
    ensures SplitLines(JoinLines(parts)) == parts
    decreases |parts|
  {
    SplitLinesPrefix(parts[0], if |parts| == 1 then "" else "\n" + JoinLines(parts[1..]));
    if |parts| == 1 {
      assert parts[0] + "" == parts[0];
      assert parts == [parts[0]];
    } else {
      var tail := "\n" + JoinLines(parts[1..]);
      assert tail[1..] == JoinLines(parts[1..]);
      assert SplitLines(tail) == [""] + SplitLines(JoinLines(parts[1..]));
      SplitJoinLines(parts[1..]);
      assert parts[0] + "\n" + JoinLines(parts[1..]) == parts[0] + tail;
      assert parts[0] + "" == parts[0];
      assert parts == [parts[0]] + parts[1..];
    }
  }
}
