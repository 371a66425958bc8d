/**
 * The Python string operations the signature parser and the renderer rely on:
 * `str.strip`, `str.split` and `str.rsplit` on a one-character separator,
 * `str.join`, and `"%d"` formatting of a non-negative integer.
 */
module Text {
  import opened Wrappers

  /** Python's `str.isspace` for one character (the characters `str.strip()` removes). */
  predicate IsSpace(c: char) {
    || '\t' <= c <= '\r'
    || '\U{1C}' <= c <= ' '
    || c == '\U{85}' || c == '\U{A0}' || c == '\U{1680}'
    || '\U{2000}' <= c <= '\U{200A}'
    || c == '\U{2028}' || c == '\U{2029}' || c == '\U{202F}' || c == '\U{205F}' || c == '\U{3000}'
  }

  /** Neither end of `s` is whitespace. */
  predicate IsStripped(s: string) {
    |s| == 0 || (!IsSpace(s[0]) && !IsSpace(s[|s| - 1]))
  }

  predicate AllSpace(s: string) {
    forall k :: 0 <= k < |s| ==> IsSpace(s[k])
  }

  /** The first position at or after `i` that is not whitespace (or the end). */
  function SkipSpaces(s: string, i: nat): (n: nat)
    requires i <= |s|
    ensures i <= n <= |s|
    ensures forall k :: i <= k < n ==> IsSpace(s[k])
    ensures n == |s| || !IsSpace(s[n])
    decreases |s| - i
  {
    if i < |s| && IsSpace(s[i]) then SkipSpaces(s, i + 1) else i
  }

  /** The position just after the last non-whitespace character in `s[lo..j]` (or `lo`). */
  function SkipSpacesBack(s: string, lo: nat, j: nat): (m: nat)
    requires lo <= j <= |s|
    ensures lo <= m <= j
    ensures forall k :: m <= k < j ==> IsSpace(s[k])
    ensures m == lo || !IsSpace(s[m - 1])
    decreases j - lo
  {
    if lo < j && IsSpace(s[j - 1]) then SkipSpacesBack(s, lo, j - 1) else j
  }

  /** `s.strip()`: whitespace removed from both ends. */
  function Strip(s: string): (r: string)
    ensures IsStripped(r)
    ensures |r| <= |s|
  {
    var i := SkipSpaces(s, 0);
    s[i..SkipSpacesBack(s, i, |s|)]
  }

  /** `Strip(s)` is `s` less a whitespace prefix and a whitespace suffix. */
  lemma StripParts(s: string) returns (i: nat, j: nat)
    ensures i <= j <= |s| && Strip(s) == s[i..j]
    ensures AllSpace(s[..i]) && AllSpace(s[j..])
    ensures forall k :: 0 <= k < i ==> IsSpace(s[k])
    ensures forall k :: j <= k < |s| ==> IsSpace(s[k])
  {
    i := SkipSpaces(s, 0);
    j := SkipSpacesBack(s, i, |s|);
  }

  /** Whitespace around a stripped string is exactly what `strip` removes. */
  lemma StripDecomposition(a: string, m: string, b: string)
    requires AllSpace(a) && AllSpace(b) && IsStripped(m)
    ensures Strip(a + m + b) == m
  {
    var s := a + m + b;
    assert forall k :: 0 <= k < |a| ==> s[k] == a[k];
    assert forall k :: 0 <= k < |m| ==> s[|a| + k] == m[k];
    assert forall k :: 0 <= k < |b| ==> s[|a| + |m| + k] == b[k];
    var i := SkipSpaces(s, 0);
    if |m| > 0 {
      assert i == |a|;
      var j := SkipSpacesBack(s, i, |s|);
      assert j == |a| + |m|;
      assert s[i..j] == m;
    } else {
      assert i == |s|;
    }
  }

  /** A stripped string is its own `strip`. */
  lemma StripStripped(s: string)
    requires IsStripped(s)
    ensures Strip(s) == s
  {
    StripDecomposition("", s, "");
    assert "" + s + "" == s;
  }

  /** Whitespace in front does not change what `strip` keeps. */
  lemma StripLeftSpaces(w: string, x: string)
    requires AllSpace(w)
    ensures Strip(w + x) == Strip(x)
  {
    var i, j := StripParts(x);
    var a := w + x[..i];
    assert AllSpace(a) by {
      forall k | 0 <= k < |a| ensures IsSpace(a[k]) {
        if k >= |w| { assert a[k] == x[k - |w|]; }
      }
    }
    assert w + x == a + x[i..j] + x[j..];
    StripDecomposition(w + x[..i], x[i..j], x[j..]);
  }

  /** `strip` only removes whitespace: every other character survives it. */
  lemma StripKeeps(s: string, c: char)
    requires !IsSpace(c)
    ensures c in Strip(s) <==> c in s
  {
    var i, j := StripParts(s);
    if c in s {
      var k :| 0 <= k < |s| && s[k] == c;
      assert s[i..j][k - i] == c;
    }
  }

  /** The position of the first `c` in `s` (what `str.split(c, 1)` cuts at). */
  function FindFirst(s: string, c: char): (r: Option<nat>)
    ensures r.Some? ==> r.value < |s| && s[r.value] == c
    ensures r.Some? ==> forall k :: 0 <= k < r.value ==> s[k] != c
    ensures r.None? <==> c !in s
  {
    if |s| == 0 then None
    else if s[0] == c then Some(0)
    else match FindFirst(s[1..], c)
      case None => None
      case Some(i) => Some(i + 1)
  }

  /** The position of the last `c` in `s` (what `str.rsplit(c, 1)` cuts at). */
  function FindLast(s: string, c: char): (r: Option<nat>)
    ensures r.Some? ==> r.value < |s| && s[r.value] == c
    ensures r.Some? ==> forall k :: r.value < k < |s| ==> s[k] != c
    ensures r.None? <==> c !in s
  {
    if |s| == 0 then None
    else if s[|s| - 1] == c then Some(|s| - 1)
    else
      var r := FindLast(s[..|s| - 1], c);
      assert r.None? ==> s == s[..|s| - 1] + [s[|s| - 1]];
      r
  }

  /** A `c` with no `c` before it is where `FindFirst` stops. */
  lemma FindFirstAt(s: string, c: char, p: nat)
    requires p < |s| && s[p] == c
    requires forall k :: 0 <= k < p ==> s[k] != c
    ensures FindFirst(s, c) == Some(p)
  {
    assert c in s;
  }

  /** In `pre + [c] + post` with no `c` in `pre`, the first `c` is the one after `pre`. */
  lemma FindFirstJoin(pre: string, c: char, post: string)
    requires c !in pre
    ensures FindFirst(pre + [c] + post, c) == Some(|pre|)
    ensures (pre + [c] + post)[..|pre|] == pre && (pre + [c] + post)[|pre| + 1..] == post
  {
    var s := pre + [c] + post;
    assert forall k :: 0 <= k < |pre| ==> s[k] == pre[k];
    FindFirstAt(s, c, |pre|);
  }

  /** A `c` with no `c` after it is where `FindLast` stops. */
  lemma FindLastAt(s: string, c: char, q: nat)
    requires q < |s| && s[q] == c
    requires forall k :: q < k < |s| ==> s[k] != c
    ensures FindLast(s, c) == Some(q)
  {
    assert c in s;
  }

  /**
   * `sep.join(parts)`: the pieces with one separator between each two, so
   * the first piece starts it and the last one ends it.
   */
  function Join(parts: seq<string>, sep: string): string {
    if |parts| == 0 then ""
    else if |parts| == 1 then parts[0]
    else parts[0] + sep + Join(parts[1..], sep)
  }

  /** `s.split(sep)`: the pieces between the separators, joined back by `Join`. */
  function Split(s: string, sep: char): (parts: seq<string>)
    ensures |parts| >= 1
    ensures forall i :: 0 <= i < |parts| ==> sep !in parts[i]
    ensures Join(parts, [sep]) == s
    decreases |s|
  {
    match FindFirst(s, sep)
    case None => [s]
    case Some(i) =>
      var rest := Split(s[i + 1..], sep);
      var parts := [s[..i]] + rest;
      assert parts[1..] == rest;
      assert s == s[..i] + [sep] + s[i + 1..];
      parts
  }

  /** Splitting a join of separator-free pieces gives the pieces back. */
  lemma {:induction false} SplitJoin(parts: seq<string>, sep: char)
    requires |parts| >= 1
    requires forall i :: 0 <= i < |parts| ==> sep !in parts[i]
    ensures Split(Join(parts, [sep]), sep) == parts
    decreases |parts|
  {
    var s := Join(parts, [sep]);
    if |parts| == 1 {
      assert FindFirst(s, sep).None?;
    } else {
      var tail := Join(parts[1..], [sep]);
      assert s == parts[0] + [sep] + tail;
      FindFirstJoin(parts[0], sep, tail);
      assert forall i :: 0 <= i < |parts| - 1 ==> parts[1..][i] == parts[i + 1];
      SplitJoin(parts[1..], sep);
      assert Split(s, sep) == [parts[0]] + parts[1..];
    }
  }

  /** A join of non-empty pieces is empty exactly when there are no pieces. */
  lemma {:induction false} JoinEmpty(parts: seq<string>, sep: string)
    requires forall i :: 0 <= i < |parts| ==> |parts[i]| > 0
    ensures Join(parts, sep) == "" <==> |parts| == 0
  {
    if |parts| >= 2 {
      assert |Join(parts, sep)| >= |parts[0]|;
    }
  }

  /** The first character of a join of non-empty pieces is the first character of the first piece. */
  lemma {:induction false} JoinFirst(parts: seq<string>, sep: string)
    requires |parts| >= 1 && |parts[0]| > 0
    ensures |Join(parts, sep)| > 0 && Join(parts, sep)[0] == parts[0][0]
  {
  }

  /** The last character of a join whose last piece is non-empty is the last character of that piece. */
  lemma {:induction false} JoinLast(parts: seq<string>, sep: string)
    requires |parts| >= 1 && |parts[|parts| - 1]| > 0
    ensures var j := Join(parts, sep); |j| > 0 && j[|j| - 1] == parts[|parts| - 1][|parts[|parts| - 1]| - 1]
    decreases |parts|
  {
    if |parts| >= 2 {
      JoinLast(parts[1..], sep);
    }
  }

  predicate IsDecimal(s: string) {
    forall i :: 0 <= i < |s| ==> '0' <= s[i] <= '9'
  }

  /** `"%d" % n` for a non-negative `n`: no sign, no leading zeros. */
  function NatToString(n: nat): (s: string)
    ensures |s| >= 1 && IsDecimal(s)
    ensures |s| > 1 ==> s[0] != '0'
  {
    if n < 10 then [('0' as int + n) as char]
    else NatToString(n / 10) + [('0' as int + n % 10) as char]
  }

  /** The number a string of decimal digits denotes. */
  function DecimalValue(s: string): nat
    requires IsDecimal(s)
  {
    if |s| == 0 then 0
    else 10 * DecimalValue(s[..|s| - 1]) + (s[|s| - 1] as int - '0' as int)
  }

  /** `NatToString` is inverted by `DecimalValue`, so distinct numbers print differently. */
  lemma {:induction false} DecimalRoundTrip(n: nat)
    ensures DecimalValue(NatToString(n)) == n
  {
    if n >= 10 {
      var s := NatToString(n);
      assert s[..|s| - 1] == NatToString(n / 10);
      DecimalRoundTrip(n / 10);
    }
  }

  /** The last `c` of `s` stays the last `c` of any slice of `s` that holds it. */
  lemma FindLastInSlice(s: string, c: char, i: nat, j: nat, q: nat)
    requires i <= q < j <= |s| && s[q] == c
    requires forall k :: q < k < |s| ==> s[k] != c
    ensures FindLast(s[i..j], c) == Some(q - i)
  {
    var r := s[i..j];
    forall k | q - i < k < |r| ensures r[k] != c {
      assert r[k] == s[k + i];
    }
    FindLastAt(r, c, q - i);
  }

  /** A prefix of a slice is a slice of the original. */
  lemma SliceOfSlice(s: string, i: nat, j: nat, q: nat)
    requires i <= q <= j <= |s|
    ensures s[i..j][..q - i] == s[i..q]
  {
  }

  /** `strip` keeps every non-space character: its result is a slice around each of them. */
  lemma StripAround(s: string, q: nat) returns (i: nat, j: nat)
    requires q < |s| && !IsSpace(s[q])
    ensures i <= q < j <= |s| && Strip(s) == s[i..j] && AllSpace(s[..i])
  {
    i, j := StripParts(s);
  }

  /** Cutting off a whitespace prefix does not change what `strip` keeps. */
  lemma StripAfterSpaces(s: string, i: nat, q: nat)
    requires i <= q <= |s| && AllSpace(s[..i])
    ensures Strip(s[..q]) == Strip(s[i..q])
  {
    assert s[..q] == s[..i] + s[i..q];
    StripLeftSpaces(s[..i], s[i..q]);
  }

  /**
   * Stripping `s` and then cutting at its last `c` (a non-space) gives, after
   * one more strip, what cutting `s` itself at its last `c` gives.
   */
  lemma StripThenCut(s: string, c: char, q: nat)
    requires !IsSpace(c) && q < |s| && s[q] == c
    requires forall k :: q < k < |s| ==> s[k] != c
    ensures FindLast(Strip(s), c).Some?
    ensures Strip(Strip(s)[..FindLast(Strip(s), c).value]) == Strip(s[..q])
  {
    var i, j := StripAround(s, q);
    var t := Strip(s);
    FindLastInSlice(s, c, i, j, q);
    assert FindLast(t, c) == Some(q - i);
    SliceOfSlice(s, i, j, q);
    assert t[..q - i] == s[i..q];
    StripAfterSpaces(s, i, q);
    assert Strip(s[i..q]) == Strip(s[..q]);
  }
}
