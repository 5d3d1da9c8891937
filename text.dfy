/**
  The operations on Python `str` that the document generator relies on:
  `strip`, the `in` test, `count` and `replace`. Counting and replacing
  follow Python for a non-empty pattern: the text is scanned from the left
  and occurrences do not overlap.
  */
module Text {

  /** The characters for which Python's `str.isspace()` holds; `str.strip()` without argument drops them. */
  predicate IsWhitespace(c: char) {
    ('\t' <= c <= '\r') || ('\U{1C}' <= c <= ' ') || c == '\U{85}' || c == '\U{A0}'
    || c == '\U{1680}' || ('\U{2000}' <= c <= '\U{200A}') || c == '\U{2028}' || c == '\U{2029}'
    || c == '\U{202F}' || c == '\U{205F}' || c == '\U{3000}'
  }

  /** Length of the longest prefix of `s` whose characters `drop` accepts. */
  function LeadingCount(s: string, drop: char -> bool): (n: nat)
    ensures n <= |s|
    ensures forall k :: 0 <= k < n ==> drop(s[k])
    ensures n < |s| ==> !drop(s[n])
    decreases |s|
  {
    if s == [] || !drop(s[0]) then 0 else 1 + LeadingCount(s[1..], drop)
  }

  /** Length of the longest suffix of `s` whose characters `drop` accepts. */
  function TrailingCount(s: string, drop: char -> bool): (n: nat)
    ensures n <= |s|
    ensures forall k :: |s| - n <= k < |s| ==> drop(s[k])
    ensures n < |s| ==> !drop(s[|s| - 1 - n])
    decreases |s|
  {
    if s == [] || !drop(s[|s| - 1]) then 0 else 1 + TrailingCount(s[..|s| - 1], drop)
  }

  /** True when `r` is `s` with a prefix and a suffix of dropped characters removed. */
  predicate IsTrimmedAt(s: string, r: string, i: int, drop: char -> bool) {
    0 <= i <= |s| - |r| && r == s[i..i + |r|]
    && (forall k :: 0 <= k < i ==> drop(s[k]))
    && (forall k :: i + |r| <= k < |s| ==> drop(s[k]))
  }

  /** Python's `s.strip(chars)`, with `drop` telling which characters are in `chars`. */
  function Strip(s: string, drop: char -> bool): string {
    var a := LeadingCount(s, drop);
    if a == |s| then [] else s[a..|s| - TrailingCount(s, drop)]
  }

  /** Stripping removes a prefix and a suffix of dropped characters and keeps a middle whose ends are kept. */
  lemma StripTrims(s: string, drop: char -> bool)
    ensures exists i :: IsTrimmedAt(s, Strip(s, drop), i, drop)
    ensures Strip(s, drop) != [] ==> !drop(Strip(s, drop)[0]) && !drop(Strip(s, drop)[|Strip(s, drop)| - 1])
  {
    var a := LeadingCount(s, drop);
    var r := Strip(s, drop);
    if a == |s| {
      assert r == [];
      assert IsTrimmedAt(s, r, |s|, drop);
    } else {
      var b := TrailingCount(s, drop);
      assert a < |s| - b;
      assert r == s[a..|s| - b];
      assert r[0] == s[a] && r[|r| - 1] == s[|s| - 1 - b];
      assert IsTrimmedAt(s, r, a, drop);
    }
  }

  /** Python's `s.strip()`. */
  function StripWhitespace(s: string): string {
    Strip(s, IsWhitespace)
  }

  /**
    Stripping is determined by its result's shape: a middle part whose ends are
    kept, between a prefix and a suffix that are all dropped, is what is left.
    */
  lemma StripUnique(a: string, m: string, b: string, drop: char -> bool)
    requires forall k :: 0 <= k < |a| ==> drop(a[k])
    requires forall k :: 0 <= k < |b| ==> drop(b[k])
    requires m != [] ==> !drop(m[0]) && !drop(m[|m| - 1])
    ensures Strip(a + m + b, drop) == m
  {
    var s := a + m + b;
    var r := Strip(s, drop);
    StripTrims(s, drop);
    var i :| IsTrimmedAt(s, r, i, drop);
    assert forall k :: 0 <= k < |r| ==> r[k] == s[i + k];
    assert forall k :: 0 <= k < |a| ==> s[k] == a[k];
    assert forall k :: 0 <= k < |b| ==> s[|a| + |m| + k] == b[k];
    if m == [] {
      assert forall k :: 0 <= k < |s| ==> drop(s[k]);
    } else {
      assert s[|a|] == m[0] && s[|a| + |m| - 1] == m[|m| - 1];
      assert i == |a|;
      assert i + |r| == |a| + |m|;
      assert r == s[|a|..|a| + |m|] == m;
    }
  }

  /** Stripping twice is stripping once. */
  lemma StripIdempotent(s: string, drop: char -> bool)
    ensures Strip(Strip(s, drop), drop) == Strip(s, drop)
  {
    var r := Strip(s, drop);
    StripTrims(s, drop);
    StripUnique([], r, [], drop);
    assert [] + r + [] == r;
  }

  predicate StartsWith(s: string, p: string) {
    |p| <= |s| && s[..|p|] == p
  }

  /** `p` occurs in `s` at index `i`. */
  predicate StartsAt(s: string, p: string, i: int) {
    0 <= i && i + |p| <= |s| && s[i..i + |p|] == p
  }

  /** Python's `p in s`. */
  predicate Contains(s: string, p: string) {
    exists i | 0 <= i <= |s| - |p| :: StartsAt(s, p, i)
  }

  /** An occurrence at index 0 is a prefix. */
  lemma StartsAtZero(s: string, p: string)
    ensures StartsAt(s, p, 0) <==> StartsWith(s, p)
  {
    if |p| <= |s| {
      assert s[0..|p|] == s[..|p|];
    }
  }

  /** An occurrence in `s[1..]` is one place further on in `s`, and back. */
  lemma StartsAtTail(s: string, p: string, i: int)
    requires |s| > 0 && i >= 0
    ensures StartsAt(s[1..], p, i) <==> StartsAt(s, p, i + 1)
  {
    if 0 <= i && i + |p| <= |s| - 1 {
      assert s[1..][i..i + |p|] == s[i + 1..i + 1 + |p|];
    }
  }

  /** An occurrence at index `i` is a prefix of `s[i..]`. */
  lemma StartsAtSuffix(s: string, p: string, i: int)
    requires 0 <= i <= |s|
    ensures StartsAt(s, p, i) <==> StartsWith(s[i..], p)
  {
    if i + |p| <= |s| {
      assert s[i..][..|p|] == s[i..i + |p|];
    }
  }

  /** When `s` does not start with `p`, `p` occurs in `s` exactly when it occurs in `s[1..]`. */
  lemma ContainsShift(s: string, p: string)
    requires |s| > 0 && !StartsWith(s, p)
    ensures Contains(s, p) <==> Contains(s[1..], p)
  {
    StartsAtZero(s, p);
    if Contains(s, p) {
      var i :| 0 <= i <= |s| - |p| && StartsAt(s, p, i);
      assert i != 0;
      StartsAtTail(s, p, i - 1);
    }
    if Contains(s[1..], p) {
      var j :| 0 <= j <= |s[1..]| - |p| && StartsAt(s[1..], p, j);
      StartsAtTail(s, p, j);
    }
  }

  /** An occurrence in a suffix of `s` is an occurrence in `s`. */
  lemma ContainsInSuffix(s: string, j: nat)
    requires j <= |s|
    ensures forall p :: Contains(s[j..], p) ==> Contains(s, p)
  {
    forall p | Contains(s[j..], p) ensures Contains(s, p) {
      var i :| 0 <= i <= |s[j..]| - |p| && StartsAt(s[j..], p, i);
      assert s[j..][i..i + |p|] == s[j + i..j + i + |p|];
      assert StartsAt(s, p, j + i);
    }
  }

  /** Python's `s.count(p)` for a non-empty `p`; it is zero exactly when `p in s` is false. */
  function Count(s: string, p: string): (n: nat)
    requires |p| > 0
    ensures n == 0 <==> !Contains(s, p)
    decreases |s|
  {
    if |s| < |p| then
      0
    else if StartsWith(s, p) then
      StartsAtZero(s, p);
      1 + Count(s[|p|..], p)
    else
      ContainsShift(s, p);
      Count(s[1..], p)
  }

  /** Python's `s.replace(p, r)` for a non-empty `p`; a text without `p` comes back unchanged. */
  function ReplaceAll(s: string, p: string, r: string): (t: string)
    requires |p| > 0
    ensures !Contains(s, p) ==> t == s
    decreases |s|
  {
    if |s| < |p| then
      s
    else if StartsWith(s, p) then
      StartsAtZero(s, p);
      r + ReplaceAll(s[|p|..], p, r)
    else
      ContainsShift(s, p);
      assert [s[0]] + s[1..] == s;
      [s[0]] + ReplaceAll(s[1..], p, r)
  }

  /** No occurrence of `p` starts at an index below `n`. */
  predicate NoStartBefore(s: string, p: string, n: int) {
    forall i :: 0 <= i < n ==> !StartsAt(s, p, i)
  }

  /** Dropping the first character of a prefix free of occurrences keeps the rest free of them. */
  lemma NoStartBeforeTail(s: string, p: string, n: nat)
    requires 0 < n <= |s| && NoStartBefore(s, p, n)
    ensures NoStartBefore(s[1..], p, n - 1)
  {
    forall i | 0 <= i < n - 1 ensures !StartsAt(s[1..], p, i) {
      StartsAtTail(s, p, i);
    }
  }

  /** Where `p` does not start, the first character is copied as it is. */
  lemma ReplaceAllStep(s: string, p: string, r: string)
    requires |p| > 0 && |s| > 0 && !StartsWith(s, p)
    ensures ReplaceAll(s, p, r) == [s[0]] + ReplaceAll(s[1..], p, r)
  {
    if |s| < |p| {
      assert [s[0]] + s[1..] == s;
    }
  }

  /** One step of the scan below: a copied first character extends the copied prefix. */
  lemma ScanStep(s: string, n: nat, p: string, r: string)
    requires |p| > 0 && 0 < n <= |s| && !StartsWith(s, p)
    requires ReplaceAll(s[1..], p, r) == s[1..][..n - 1] + ReplaceAll(s[1..][n - 1..], p, r)
    ensures ReplaceAll(s, p, r) == s[..n] + ReplaceAll(s[n..], p, r)
  {
    var t := s[1..];
    calc {
      ReplaceAll(s, p, r);
      { ReplaceAllStep(s, p, r); }
      [s[0]] + ReplaceAll(t, p, r);
      [s[0]] + (t[..n - 1] + ReplaceAll(t[n - 1..], p, r));
      { assert t[n - 1..] == s[n..]; }
      [s[0]] + (t[..n - 1] + ReplaceAll(s[n..], p, r));
      ([s[0]] + t[..n - 1]) + ReplaceAll(s[n..], p, r);
      { assert [s[0]] + t[..n - 1] == s[..n]; }
      s[..n] + ReplaceAll(s[n..], p, r);
    }
  }

  /**
    When no occurrence of `p` starts among the first `n` characters, the scan
    copies them unchanged ...
    */
  lemma {:induction false} ScanPastPrefix(s: string, n: nat, p: string, r: string)
    requires |p| > 0 && n <= |s|
    requires NoStartBefore(s, p, n)
    ensures ReplaceAll(s, p, r) == s[..n] + ReplaceAll(s[n..], p, r)
    decreases n
  {
    if n == 0 {
      assert s[0..] == s;
    } else {
      StartsAtZero(s, p);
      NoStartBeforeTail(s, p, n);
      ScanPastPrefix(s[1..], n - 1, p, r);
      ScanStep(s, n, p, r);
    }
  }

  /** ... and counts nothing there. */
  lemma {:induction false} CountPastPrefix(s: string, n: nat, p: string)
    requires |p| > 0 && n <= |s|
    requires NoStartBefore(s, p, n)
    ensures Count(s, p) == Count(s[n..], p)
    decreases n
  {
    if n == 0 {
      assert s[0..] == s;
    } else {
      StartsAtZero(s, p);
      var t := s[1..];
      NoStartBeforeTail(s, p, n);
      CountPastPrefix(t, n - 1, p);
      assert t[n - 1..] == s[n..];
    }
  }

  /** A prefix without the first character of `p` is copied unchanged and contributes no count. */
  lemma ScanPastPlain(u: string, v: string, p: string, r: string)
    requires |p| > 0 && p[0] !in u
    ensures ReplaceAll(u + v, p, r) == u + ReplaceAll(v, p, r)
    ensures Count(u + v, p) == Count(v, p)
  {
    var s := u + v;
    forall i | 0 <= i < |u| ensures !StartsAt(s, p, i) {
      if i + |p| <= |s| {
        assert s[i..i + |p|][0] == u[i];
      }
    }
    ScanPastPrefix(s, |u|, p, r);
    CountPastPrefix(s, |u|, p);
    assert s[..|u|] == u && s[|u|..] == v;
  }
}
