/** The substring search of recovery/recovery_updater.cpp: the two shift tables, the scan
    that skips by them, and what the scan is guaranteed to find.

    The tables are filled by loops over arrays, as in the original.  Each loop is proved
    against a closed description of the finished table (`Delta1`, `Delta2`), the scan against
    the function `Scan`, and the theorems about skipping are proved of those functions. */
module BoyerMoore {
  import opened Wrappers

  type byte = c: int | 0 <= c < 256

  const ALPHABET_LEN := 256

  // ----- What the search is for -----

  /** `pat` occurs in `text` at offset `at`. */
  predicate Occurs(text: seq<byte>, pat: seq<byte>, at: nat) {
    at + |pat| <= |text| && text[at..at + |pat|] == pat
  }

  /** What a search from `from` should return: the first occurrence at or after `from`, and
      None exactly when there is none. */
  ghost predicate IsFirst(text: seq<byte>, pat: seq<byte>, from: nat, r: Option<nat>) {
    match r
    case Some(at) => from <= at && Occurs(text, pat, at) && NoneBetween(text, pat, from, at)
    case None => forall at :: from <= at ==> !Occurs(text, pat, at)
  }

  ghost predicate NoneBetween(text: seq<byte>, pat: seq<byte>, from: nat, to: nat) {
    forall at :: from <= at < to ==> !Occurs(text, pat, at)
  }

  // ----- The finished tables, described without loops -----

  /** The greatest i < hi with pat[i] == c, or -1. */
  function LastIndexOf(pat: seq<byte>, c: byte, hi: nat): (i: int)
    requires hi <= |pat|
    ensures -1 <= i < hi
    ensures i >= 0 ==> pat[i] == c
    ensures forall k :: i < k < hi ==> pat[k] != c
  {
    if hi == 0 then -1 else if pat[hi - 1] == c then hi - 1 else LastIndexOf(pat, c, hi - 1)
  }

  /** The distance from the last character of pat to the rightmost earlier occurrence of c. */
  function Delta1(pat: seq<byte>, c: byte): (d: nat)
    requires |pat| > 0
    ensures 1 <= d <= |pat|
  {
    |pat| - 1 - LastIndexOf(pat, c, |pat| - 1)
  }

  /** strncmp(a, b, n) == 0: equal up to n characters or up to a common NUL. */
  predicate StrncmpEqual(a: seq<byte>, b: seq<byte>, n: nat)
    requires n <= |a| && n <= |b|
  {
    n == 0 || (a[0] == b[0] && (a[0] == 0 || StrncmpEqual(a[1..], b[1..], n - 1)))
  }

  /** The comparison of line 76: is pat[p..] a prefix of pat (as strncmp sees it)? */
  predicate PrefixEqual(pat: seq<byte>, p: nat)
    requires p <= |pat|
  {
    StrncmpEqual(pat[p..], pat, |pat| - p)
  }

  /** `last_prefix` once the first loop of bm_make_delta2 has passed p. */
  function LastPrefix(pat: seq<byte>, p: nat): (r: nat)
    requires p <= |pat| && |pat| > 0
    ensures r <= |pat|
    decreases |pat| - p
  {
    if p == |pat| then |pat| - 1
    else if PrefixEqual(pat, p) then p + 1
    else LastPrefix(pat, p + 1)
  }

  /** Sliding pat right by s below a mismatch at pat[q] keeps the matched suffix pat[q+1..]
      matched, and brings a different character under the mismatch. */
  predicate StrongShift(pat: seq<byte>, q: nat, s: nat)
    requires q < |pat|
  {
    1 <= s <= q && pat[q - s] != pat[q] && pat[q + 1 - s..|pat| - s] == pat[q + 1..]
  }

  /** The least strong shift that is at least `from`, or 0. */
  function StrongFrom(pat: seq<byte>, q: nat, from: nat): (r: nat)
    requires q < |pat| && from >= 1
    ensures r == 0 || (from <= r <= q && StrongShift(pat, q, r))
    ensures forall s :: from <= s && (r == 0 || s < r) ==> !StrongShift(pat, q, s)
    decreases q + 1 - from
  {
    if from > q then 0
    else if StrongShift(pat, q, from) then from
    else StrongFrom(pat, q, from + 1)
  }

  /** Entry q of delta2 when the second loop has handled the shifts from `from` upwards. */
  function Delta2From(pat: seq<byte>, q: nat, from: nat): nat
    requires q < |pat| && from >= 1
  {
    var s := StrongFrom(pat, q, from);
    (|pat| - 1 - q) + if s > 0 then s else LastPrefix(pat, q)
  }

  function Delta2(pat: seq<byte>, q: nat): nat
    requires q < |pat|
  {
    Delta2From(pat, q, 1)
  }

  /** An entry of the first table leads to the last earlier occurrence of its character, or past the pattern if
      there is none. */
  lemma Delta1Is(pat: seq<byte>, c: byte)
    requires |pat| > 0
    ensures var at := |pat| - 1 - Delta1(pat, c);
            && -1 <= at < |pat| - 1 && (at >= 0 ==> pat[at] == c)
            && forall k :: at < k < |pat| - 1 ==> pat[k] != c
  {
  }

  /** strncmp finds equal what agrees in n characters, or up to a NUL among them. */
  lemma {:induction false} StrncmpExactlyWhen(a: seq<byte>, b: seq<byte>, n: nat)
    requires n <= |a| && n <= |b|
    ensures StrncmpEqual(a, b, n) <==> a[..n] == b[..n] || exists k :: 0 <= k < n && a[k] == 0 && a[..k + 1] == b[..k + 1]
  {
    if n > 0 {
      StrncmpExactlyWhen(a[1..], b[1..], n - 1);
      assert a[..n] == [a[0]] + a[1..][..n - 1] && b[..n] == [b[0]] + b[1..][..n - 1];
      if k :| 0 <= k < n && a[k] == 0 && a[..k + 1] == b[..k + 1] {
        assert a[0] == a[..k + 1][0] == b[0];
        if k > 0 {
          assert a[1..][..k] == a[..k + 1][1..] == b[..k + 1][1..] == b[1..][..k];
          assert a[1..][k - 1] == 0;
        }
      }
      if a[0] == b[0] {
        assert a[0] == 0 ==> a[..1] == b[..1];
        if k :| 0 <= k < n - 1 && a[1..][k] == 0 && a[1..][..k + 1] == b[1..][..k + 1] {
          assert a[..k + 2] == [a[0]] + a[1..][..k + 1] == b[..k + 2];
          assert a[k + 1] == 0;
        }
      }
    }
  }

  /** An entry of the second table is the least strong shift; where there is none, one more than the first position
      from there on whose rest is a prefix; and where there is none of that, the last position. */
  lemma {:induction false} Delta2Is(pat: seq<byte>, q: nat)
    requires q < |pat|
    ensures var d := Delta2(pat, q) - (|pat| - 1 - q);
            if exists s :: StrongShift(pat, q, s) then
              d >= 0 && StrongShift(pat, q, d) && forall s :: 0 <= s < d ==> !StrongShift(pat, q, s)
            else if exists p :: q <= p < |pat| && PrefixEqual(pat, p) then
              q < d <= |pat| && PrefixEqual(pat, d - 1) && forall p :: q <= p < d - 1 ==> !PrefixEqual(pat, p)
            else d == |pat| - 1
  {
    hide StrongShift, PrefixEqual;
    LastPrefixIs(pat, q);
    if s :| StrongShift(pat, q, s) {
      StrongIsPositive(pat, q, s);
      assert StrongShift(pat, q, StrongFrom(pat, q, 1));
      StrongIsPositive(pat, q, 0);
    }
  }

  lemma StrongIsPositive(pat: seq<byte>, q: nat, s: nat)
    requires q < |pat|
    ensures StrongShift(pat, q, s) ==> s >= 1
  {
  }

  lemma {:induction false} LastPrefixIs(pat: seq<byte>, q: nat)
    requires q <= |pat| && |pat| > 0
    ensures var d := LastPrefix(pat, q);
            if exists p :: q <= p < |pat| && PrefixEqual(pat, p) then
              q < d <= |pat| && PrefixEqual(pat, d - 1) && forall p :: q <= p < d - 1 ==> !PrefixEqual(pat, p)
            else d == |pat| - 1
    decreases |pat| - q
  {
    hide PrefixEqual;
    if q < |pat| {
      LastPrefixIs(pat, q + 1);
    }
  }

  // ----- The loops that fill the tables -----

  method MaxSuffixLen(str: seq<byte>, p: nat) returns (i: nat)
    requires p < |str|
    ensures i <= p && str[p + 1 - i..p + 1] == str[|str| - i..]
    ensures i == p || str[p - i] != str[|str| - 1 - i]
  {
    i := 0;
    while str[p - i] == str[|str| - 1 - i] && i < p
      invariant i <= p
      invariant str[p + 1 - i..p + 1] == str[|str| - i..]
    {
      assert str[p - i..p + 1] == [str[p - i]] + str[p + 1 - i..p + 1];
      assert str[|str| - 1 - i..] == [str[|str| - 1 - i]] + str[|str| - i..];
      i := i + 1;
    }
  }

  method MakeDelta1(delta1: array<int>, pat: seq<byte>)
    requires delta1.Length == ALPHABET_LEN && |pat| > 0
    modifies delta1
    ensures delta1[..] == Table1(pat)
  {
    var i := 0;
    while i < ALPHABET_LEN
      invariant 0 <= i <= ALPHABET_LEN
      invariant forall c :: 0 <= c < i ==> delta1[c] == |pat|
    {
      delta1[i] := |pat|;
      i := i + 1;
    }
    i := 0;
    while i < |pat| - 1
      invariant 0 <= i <= |pat| - 1
      invariant forall c: byte :: delta1[c] == |pat| - 1 - LastIndexOf(pat, c, i)
    {
      var idx := pat[i];
      delta1[idx] := |pat| - 1 - i;
      i := i + 1;
    }
  }

  method MakeDelta2(delta2: array<int>, pat: seq<byte>)
    requires delta2.Length == |pat| > 0
    modifies delta2
    ensures delta2[..] == Table2(pat)
  {
    PrefixPass(delta2, pat);
    SuffixPass(delta2, pat);
  }

  /** The first loop of bm_make_delta2, lines 72-80. */
  method PrefixPass(delta2: array<int>, pat: seq<byte>)
    requires delta2.Length == |pat| > 0
    modifies delta2
    ensures forall q :: 0 <= q < |pat| ==> delta2[q] == |pat| - 1 - q + LastPrefix(pat, q)
  {
    var lastPrefix := |pat| - 1;
    var p := |pat| - 1;
    while p >= 0
      invariant -1 <= p < |pat|
      invariant lastPrefix == LastPrefix(pat, p + 1)
      invariant forall q :: p < q < |pat| ==> delta2[q] == |pat| - 1 - q + LastPrefix(pat, q)
    {
      if StrncmpEqual(pat[p..], pat, |pat| - p) {
        lastPrefix := p + 1;
      }
      delta2[p] := lastPrefix + (|pat| - 1 - p);
      p := p - 1;
    }
  }

  /** The second loop, lines 82-88: it overwrites the entries that have a strong shift. */
  method SuffixPass(delta2: array<int>, pat: seq<byte>)
    requires delta2.Length == |pat| > 0
    requires forall q :: 0 <= q < |pat| ==> delta2[q] == |pat| - 1 - q + LastPrefix(pat, q)
    modifies delta2
    ensures forall q :: 0 <= q < |pat| ==> delta2[q] == Delta2(pat, q)
  {
    var p := 0;
    while p < |pat| - 1
      invariant 0 <= p <= |pat| - 1
      invariant forall q :: 0 <= q < |pat| ==> delta2[q] == Delta2From(pat, q, |pat| - p)
    {
      var sufLen := MaxSuffixLen(pat, p);
      ghost var before := delta2[..];
      var m := |pat| - 1 - sufLen;
      if pat[p - sufLen] != pat[m] {
        delta2[m] := |pat| - 1 - p + sufLen;
      }
      forall q | 0 <= q < |pat|
        ensures delta2[q] == Delta2From(pat, q, |pat| - 1 - p)
      {
        assert before[q] == Delta2From(pat, q, |pat| - p);
        SuffixPassStep(pat, p, sufLen, q);
      }
      p := p + 1;
    }
  }

  lemma SuffixPassStep(pat: seq<byte>, p: nat, sufLen: nat, q: nat)
    requires q < |pat| && p < |pat| - 1 && sufLen <= p
    requires pat[p + 1 - sufLen..p + 1] == pat[|pat| - sufLen..]
    requires sufLen == p || pat[p - sufLen] != pat[|pat| - 1 - sufLen]
    ensures Delta2From(pat, q, |pat| - 1 - p) ==
            if q == |pat| - 1 - sufLen && pat[p - sufLen] != pat[q] then |pat| - 1 - p + sufLen
            else Delta2From(pat, q, |pat| - p)
  {
    OneStrongShift(pat, p, sufLen, q);
    if !StrongShift(pat, q, |pat| - 1 - p) && |pat| - 1 - p > q {
      assert StrongFrom(pat, q, |pat| - p) == 0;
    }
  }

  /** The shift n-1-p is strong for at most one entry: the one max_suffix_len points at. */
  lemma OneStrongShift(pat: seq<byte>, p: nat, sufLen: nat, q: nat)
    requires q < |pat| && p < |pat| - 1 && sufLen <= p
    requires pat[p + 1 - sufLen..p + 1] == pat[|pat| - sufLen..]
    requires sufLen == p || pat[p - sufLen] != pat[|pat| - 1 - sufLen]
    ensures StrongShift(pat, q, |pat| - 1 - p) <==>
            q == |pat| - 1 - sufLen && pat[p - sufLen] != pat[|pat| - 1 - sufLen]
  {
    var n := |pat|;
    var s := n - 1 - p;
    var len := n - 1 - q;
    if len < sufLen {
      assert pat[p + 1 - sufLen..p + 1][sufLen - 1 - len] == pat[p - len];
      assert pat[n - sufLen..][sufLen - 1 - len] == pat[q];
    } else if len > sufLen {
      SuffixAt(pat, q, s, len - 1 - sufLen);
    }
  }

  lemma SuffixAt(pat: seq<byte>, q: nat, s: nat, k: nat)
    requires q < |pat| && k < |pat| - 1 - q
    ensures StrongShift(pat, q, s) ==> pat[q + 1 + k] == pat[q + 1 - s + k]
  {
    if StrongShift(pat, q, s) {
      assert pat[q + 1..][k] == pat[q + 1 - s..|pat| - s][k];
    }
  }

  // ----- The scan -----

  /** The rightmost k <= j where the window at `base` disagrees with pat, or -1. */
  function MismatchAt(text: seq<byte>, pat: seq<byte>, base: nat, j: int): (r: int)
    requires base + |pat| <= |text| && -1 <= j < |pat|
    ensures -1 <= r <= j
    ensures r >= 0 ==> text[base + r] != pat[r]
    ensures forall k :: r < k <= j ==> text[base + k] == pat[k]
    decreases j + 1
  {
    if j < 0 || text[base + j] != pat[j] then j else MismatchAt(text, pat, base, j - 1)
  }

  function Max(a: int, b: int): int {
    if a > b then a else b
  }

  /** Tables that always move the window to the right. */
  ghost predicate Moving(pat: seq<byte>, d1: seq<int>, d2: seq<int>) {
    |d1| == ALPHABET_LEN && |d2| == |pat| > 0 &&
    forall j :: 0 <= j < |pat| ==> d2[j] > |pat| - 1 - j
  }

  /** The start of the next window, or `base` again if this window matches. */
  ghost function NextWindow(text: seq<byte>, pat: seq<byte>, d1: seq<int>, d2: seq<int>, base: nat): (next: nat)
    requires Moving(pat, d1, d2) && base + |pat| <= |text|
    ensures base <= next
    ensures next == base <==> Occurs(text, pat, base)
  {
    var j := MismatchAt(text, pat, base, |pat| - 1);
    if j < 0 then
      assert text[base..base + |pat|] == pat;
      base
    else
      assert text[base..base + |pat|][j] != pat[j];
      base + j + Max(d1[text[base + j]], d2[j]) + 1 - |pat|
  }

  lemma NextWindowStep(text: seq<byte>, pat: seq<byte>, d1: seq<int>, d2: seq<int>, base: nat, j: nat)
    requires Moving(pat, d1, d2) && base + |pat| <= |text|
    requires j == MismatchAt(text, pat, base, |pat| - 1)
    ensures NextWindow(text, pat, d1, d2, base)
         == base + j + Max(d1[text[base + j]], d2[j]) + 1 - |pat|
  {
  }

  /** The scan from the window that starts at `base`, for given tables. */
  ghost function ScanWith(text: seq<byte>, pat: seq<byte>, d1: seq<int>, d2: seq<int>, base: nat): (r: Option<nat>)
    requires Moving(pat, d1, d2)
    ensures r.Some? ==> base <= r.value && Occurs(text, pat, r.value)
    decreases |text| - base
  {
    if base + |pat| > |text| then None
    else
      var next := NextWindow(text, pat, d1, d2, base);
      if next == base then Some(base) else ScanWith(text, pat, d1, d2, next)
  }

  function Table1(pat: seq<byte>): seq<int>
    requires |pat| > 0
  {
    seq(ALPHABET_LEN, (c: int) requires 0 <= c < ALPHABET_LEN => Delta1(pat, c))
  }

  function Table2(pat: seq<byte>): seq<int>
    requires |pat| > 0
  {
    seq(|pat|, (q: int) requires 0 <= q < |pat| => Delta2(pat, q))
  }

  /** What bm_search computes. */
  ghost function Scan(text: seq<byte>, pat: seq<byte>): Option<nat>
    requires |pat| > 0
  {
    TablesAreMoving(pat);
    ScanWith(text, pat, Table1(pat), Table2(pat), 0)
  }

  /** Every jump moves the window to the right, whatever the pattern, and the entries stay
      below 2 * |pat|, so `i` never exceeds |text| + 2 * |pat| in the int it is kept in. */
  lemma TablesAreMoving(pat: seq<byte>)
    requires |pat| > 0
    ensures Moving(pat, Table1(pat), Table2(pat))
    ensures forall c :: 0 <= c < ALPHABET_LEN ==> 1 <= Table1(pat)[c] <= |pat|
    ensures forall q :: 0 <= q < |pat| ==> Table2(pat)[q] < 2 * |pat|
  {
    forall j | 0 <= j < |pat|
      ensures Delta2(pat, j) > |pat| - 1 - j
    {
      LastPrefixIsPositive(pat, j);
    }
  }

  lemma LastPrefixIsPositive(pat: seq<byte>, p: nat)
    requires p < |pat|
    ensures LastPrefix(pat, p) >= 1
    decreases |pat| - p
  {
    if p == |pat| - 1 {
      if p == 0 {
        StrncmpOfEqual(pat[0..], pat, |pat|);
      }
    } else {
      LastPrefixIsPositive(pat, p + 1);
    }
  }

  /** The comparison loop, lines 107-110: backwards from the window's last character. */
  method CompareBackwards(text: seq<byte>, pat: seq<byte>, ghost base: nat, end: nat)
    returns (i: int, j: int)
    requires 0 < |pat| && base + |pat| <= |text| && end == base + |pat| - 1
    ensures j == MismatchAt(text, pat, base, |pat| - 1)
    ensures i == base + j
  {
    i, j := end, |pat| - 1;
    while j >= 0 && text[i] == pat[j]
      invariant -1 <= j < |pat| && i == base + j
      invariant MismatchAt(text, pat, base, j) == MismatchAt(text, pat, base, |pat| - 1)
    {
      i := i - 1;
      j := j - 1;
    }
  }

  /** The search as written: it fills both tables and moves i and j through the text.  What it
      returns is an occurrence for every non-empty pattern, and the leftmost one (or None
      exactly when there is none) for every pattern that does not overshoot. */
  method Search(text: seq<byte>, pat: seq<byte>) returns (r: Option<nat>)
    requires |pat| > 0
    ensures r == Scan(text, pat)
    ensures r.Some? ==> Occurs(text, pat, r.value)
    ensures !Overshoots(pat) ==> IsFirst(text, pat, 0, r)
  {
    var delta1 := new int[ALPHABET_LEN];
    var delta2 := new int[|pat|];
    MakeDelta1(delta1, pat);
    MakeDelta2(delta2, pat);
    TablesAreMoving(pat);
    ScanFinds(text, pat);
    r := ScanTables(text, pat, delta1, delta2);
  }

  /** The outer loop, lines 104-117. */
  method ScanTables(text: seq<byte>, pat: seq<byte>, delta1: array<int>, delta2: array<int>)
    returns (r: Option<nat>)
    requires Moving(pat, delta1[..], delta2[..])
    ensures r == ScanWith(text, pat, delta1[..], delta2[..], 0)
  {
    ghost var d1, d2 := delta1[..], delta2[..];
    ghost var base: nat := 0;
    ghost var answer := ScanWith(text, pat, d1, d2, 0);
    var i := |pat| - 1;
    while i < |text|
      invariant i == base + |pat| - 1
      invariant ScanWith(text, pat, d1, d2, base) == answer
      decreases |text| - base
    {
      var j: int;
      i, j := CompareBackwards(text, pat, base, i);
      if j < 0 {
        return Some(i + 1);
      }
      NextWindowStep(text, pat, d1, d2, base, j);
      base := NextWindow(text, pat, d1, d2, base);
      i := i + Max(delta1[text[i]], delta2[j]);
    }
    return None;
  }

  // ----- No occurrence is skipped -----

  /** Some proper suffix, the one that starts at p, is also a prefix. */
  predicate BorderAt(pat: seq<byte>, p: nat) {
    1 <= p < |pat| && pat[p..] == pat[..|pat| - p]
  }

  /** At j there is no strong shift, and the first suffix from j on that strncmp takes for a prefix
      is a border that starts beyond j: what line 77 records jumps past the alignment of that border. */
  predicate OvershootAt(pat: seq<byte>, j: nat, b: nat) {
    j < b < |pat| && BorderAt(pat, b) && StrongFrom(pat, j, 1) == 0 && forall p :: j <= p < b ==> !PrefixEqual(pat, p)
  }

  predicate Overshoots(pat: seq<byte>) {
    exists j, b | 0 <= j < b < |pat| :: OvershootAt(pat, j, b)
  }

  predicate BorderFree(pat: seq<byte>) {
    forall p :: 1 <= p < |pat| ==> !BorderAt(pat, p)
  }

  predicate Uniform(pat: seq<byte>) {
    forall k :: 0 <= k < |pat| ==> pat[k] == pat[0]
  }

  lemma StrncmpOfEqual(a: seq<byte>, b: seq<byte>, n: nat)
    requires n <= |a| && n <= |b| && a[..n] == b[..n]
    ensures StrncmpEqual(a, b, n)
  {
    StrncmpExactlyWhen(a, b, n);
  }

  lemma StrncmpNulFree(a: seq<byte>, b: seq<byte>, n: nat)
    requires n <= |a| && n <= |b| && 0 !in a && StrncmpEqual(a, b, n)
    ensures a[..n] == b[..n]
  {
    StrncmpExactlyWhen(a, b, n);
  }

  /** A delta1 jump never passes an occurrence. */
  lemma Delta1IsSafe(text: seq<byte>, pat: seq<byte>, base: nat, j: nat, s: nat)
    requires 0 <= j < |pat| && base + |pat| <= |text|
    requires s >= 1 && Occurs(text, pat, base + s)
    ensures Delta1(pat, text[base + j]) - (|pat| - 1 - j) <= s
  {
    if s <= j {
      assert text[base + j] == text[base + s..base + s + |pat|][j - s] == pat[j - s];
      assert j - s < |pat| - 1;
    }
  }

  /** An occurrence that overlaps the matched suffix is a strong shift of the pattern. */
  lemma OverlapIsStrong(text: seq<byte>, pat: seq<byte>, base: nat, j: nat, s: nat)
    requires base + |pat| <= |text| && j == MismatchAt(text, pat, base, |pat| - 1)
    requires 1 <= s <= j && Occurs(text, pat, base + s)
    ensures StrongShift(pat, j, s)
  {
    var n := |pat|;
    var window := text[base + s..base + s + n];
    assert window == pat;
    assert pat[j - s] == window[j - s] == text[base + j];
    SliceOfSlice(text, base + s, base + s + n, j + 1 - s, n - s);
    SuffixMatches(text, pat, base, j);
  }

  lemma SliceOfSlice(s: seq<byte>, a: nat, b: nat, c: nat, d: nat)
    requires a + d <= b <= |s| && c <= d
    ensures s[a..b][c..d] == s[a + c..a + d]
  {
    var t, u := s[a..b][c..d], s[a + c..a + d];
    forall k | 0 <= k < d - c
      ensures t[k] == u[k]
    {
      assert t[k] == s[a..b][c + k] == s[a + (c + k)];
      assert u[k] == s[a + c + k];
    }
  }

  lemma SuffixMatches(text: seq<byte>, pat: seq<byte>, base: nat, j: int)
    requires base + |pat| <= |text| && j == MismatchAt(text, pat, base, |pat| - 1)
    ensures text[base + j + 1..base + |pat|] == pat[j + 1..]
  {
  }

  /** An occurrence beyond the mismatch but within the window makes a border. */
  lemma BeyondIsBorder(text: seq<byte>, pat: seq<byte>, base: nat, j: nat, s: nat)
    requires base + |pat| <= |text| && j == MismatchAt(text, pat, base, |pat| - 1)
    requires j < s < |pat| && Occurs(text, pat, base + s)
    ensures BorderAt(pat, s)
  {
    var n := |pat|;
    SliceOfSlice(text, base + s, base + s + n, 0, n - s);
    assert pat[..n - s] == text[base + s..base + s + n][0..n - s] == text[base + s..base + n];
    assert text[base + s..base + n] == pat[s..];
  }

  lemma BorderIsPrefixEqual(pat: seq<byte>, b: nat)
    requires BorderAt(pat, b)
    ensures PrefixEqual(pat, b)
  {
    assert pat[b..] == pat[b..][..|pat| - b];
    StrncmpOfEqual(pat[b..], pat, |pat| - b);
  }

  /** The first loop of bm_make_delta2 records the first suffix from q on that is taken for a prefix. */
  lemma FirstPrefix(pat: seq<byte>, q: nat, s: nat) returns (p: nat)
    requires q <= s < |pat| && PrefixEqual(pat, s)
    ensures q <= p <= s && PrefixEqual(pat, p) && LastPrefix(pat, q) == p + 1
    ensures forall k :: q <= k < p ==> !PrefixEqual(pat, k)
    decreases s - q
  {
    if PrefixEqual(pat, q) {
      p := q;
    } else {
      p := FirstPrefix(pat, q + 1, s);
    }
  }

  /** A delta2 jump never passes an occurrence, if the pattern does not overshoot. */
  lemma Delta2IsSafe(text: seq<byte>, pat: seq<byte>, base: nat, j: nat, s: nat)
    requires base + |pat| <= |text| && j == MismatchAt(text, pat, base, |pat| - 1)
    requires s >= 1 && Occurs(text, pat, base + s)
    requires !Overshoots(pat)
    ensures Delta2(pat, j) - (|pat| - 1 - j) <= s
  {
    hide LastPrefix, PrefixEqual, MismatchAt;
    if s <= j {
      OverlapIsStrong(text, pat, base, j, s);
    } else if s < |pat| && StrongFrom(pat, j, 1) == 0 {
      BeyondIsBorder(text, pat, base, j, s);
      BorderIsPrefixEqual(pat, s);
      var p := FirstPrefix(pat, j, s);
      assert !OvershootAt(pat, j, s);
    }
  }

  /** No jump passes an occurrence, if the pattern does not overshoot. */
  lemma JumpIsSafe(text: seq<byte>, pat: seq<byte>, base: nat, at: nat)
    requires 0 < |pat| && Moving(pat, Table1(pat), Table2(pat)) && base + |pat| <= |text|
    requires !Overshoots(pat)
    requires base < at && Occurs(text, pat, at)
    ensures NextWindow(text, pat, Table1(pat), Table2(pat), base) <= at
  {
    hide Overshoots, Delta1, Delta2, Occurs;
    var j := MismatchAt(text, pat, base, |pat| - 1);
    if j >= 0 {
      NextWindowStep(text, pat, Table1(pat), Table2(pat), base, j);
      Delta1IsSafe(text, pat, base, j, at - base);
      Delta2IsSafe(text, pat, base, j, at - base);
    }
  }

  /** Below the rightmost mismatch the window moves as far as the farther of the two tables says. */
  lemma WindowMoves(text: seq<byte>, pat: seq<byte>, base: nat, j: nat)
    requires |pat| > 0 && Moving(pat, Table1(pat), Table2(pat)) && base + |pat| <= |text|
    requires j < |pat| && text[base + j] != pat[j] && forall k :: j < k < |pat| ==> text[base + k] == pat[k]
    ensures var next := NextWindow(text, pat, Table1(pat), Table2(pat), base);
            var byCharacter := base + Delta1(pat, text[base + j]) - (|pat| - 1 - j);
            var bySuffix := base + Delta2(pat, j) - (|pat| - 1 - j);
            byCharacter <= next && bySuffix <= next && (next == byCharacter || next == bySuffix)
  {
    hide Delta1, Delta2;
    var r := MismatchAt(text, pat, base, |pat| - 1);
    assert r == j by {
      assert r >= 0 ==> text[base + r] != pat[r];
    }
    NextWindowStep(text, pat, Table1(pat), Table2(pat), base, j);
  }

  /** For a pattern that does not overshoot the scan finds the leftmost occurrence in every
      text, and reports none exactly when there is none. */
  lemma {:induction false} ScanIsFirst(text: seq<byte>, pat: seq<byte>, base: nat)
    requires 0 < |pat| && Moving(pat, Table1(pat), Table2(pat))
    requires !Overshoots(pat)
    ensures IsFirst(text, pat, base, ScanWith(text, pat, Table1(pat), Table2(pat), base))
    decreases |text| - base
  {
    hide Overshoots, Table1, Table2;
    if base + |pat| <= |text| {
      var next := NextWindow(text, pat, Table1(pat), Table2(pat), base);
      forall at | base < at && Occurs(text, pat, at)
        ensures next <= at
      {
        JumpIsSafe(text, pat, base, at);
      }
      if next != base {
        ScanIsFirst(text, pat, next);
      }
    }
  }

  lemma ScanFinds(text: seq<byte>, pat: seq<byte>)
    requires |pat| > 0
    ensures !Overshoots(pat) ==> IsFirst(text, pat, 0, Scan(text, pat))
  {
    hide Overshoots, IsFirst;
    TablesAreMoving(pat);
    if !Overshoots(pat) {
      ScanIsFirst(text, pat, 0);
    }
  }

  // ----- And every other pattern loses an occurrence in some text -----

  /** The pattern "aba" is missed in "acaba", where it occurs at offset 2. */
  lemma MissedOccurrence()
    ensures IsFirst([97, 99, 97, 98, 97], [97, 98, 97], 0, Some(2))
    ensures Scan([97, 99, 97, 98, 97], [97, 98, 97]) == None
  {
    var text: seq<byte>, pat: seq<byte> := [97, 99, 97, 98, 97], [97, 98, 97];
    assert pat[2..] == pat[..1];
    assert pat[1..][0] != pat[..2][0];
    assert BorderAt(pat, 2) && !BorderAt(pat, 1);
    assert MismatchAt(text, pat, 0, 2) == 1;
    BorderIsOvershot(pat, 2);
    BorderMakesDelta2Overshoot(pat, 1, 2);
    assert text[0..3] != pat by { assert text[0..3][1] == 99; }
    assert text[1..4] != pat by { assert text[1..4][0] == 99; }
    assert Occurs(text, pat, 2);
  }

  /** At an overshoot the jump is one past the alignment that the border allows. */
  lemma BorderMakesDelta2Overshoot(pat: seq<byte>, j: nat, b: nat)
    requires OvershootAt(pat, j, b)
    ensures Delta2(pat, j) - (|pat| - 1 - j) == b + 1
  {
    BorderIsPrefixEqual(pat, b);
    var p := FirstPrefix(pat, j, b);
  }

  /** If b is the smallest border start of a NUL-free pattern and b > 1, it is overshot from entry 1. */
  lemma BorderIsOvershot(pat: seq<byte>, b: nat)
    requires BorderAt(pat, b) && b > 1 && 0 !in pat
    requires forall p :: 1 <= p < b ==> !BorderAt(pat, p)
    ensures OvershootAt(pat, 1, b)
  {
    var n := |pat|;
    assert pat[b] == pat[b..][0] == pat[..n - b][0] == pat[0];
    if StrongShift(pat, 1, 1) {
      forall k | 1 <= k < n - 1
        ensures pat[k] == pat[k + 1]
      {
        assert pat[1..n - 1][k - 1] == pat[2..][k - 1];
      }
      ConstantRun(pat, 1, b);
      assert false;
    }
    assert StrongFrom(pat, 1, 1) == 0;
    forall p | 1 <= p < b
      ensures !PrefixEqual(pat, p)
    {
      PrefixEqualIsBorder(pat, p);
    }
  }

  lemma ConstantRun(pat: seq<byte>, lo: nat, hi: nat)
    requires lo <= hi < |pat|
    requires forall k :: lo <= k < hi ==> pat[k] == pat[k + 1]
    ensures pat[lo] == pat[hi]
    decreases hi - lo
  {
    if lo < hi {
      ConstantRun(pat, lo + 1, hi);
    }
  }

  lemma PrefixEqualIsBorder(pat: seq<byte>, p: nat)
    requires 1 <= p < |pat| && 0 !in pat
    ensures PrefixEqual(pat, p) <==> BorderAt(pat, p)
  {
    assert pat[p..] == pat[p..][..|pat| - p];
    if PrefixEqual(pat, p) {
      StrncmpNulFree(pat[p..], pat, |pat| - p);
    } else if BorderAt(pat, p) {
      StrncmpOfEqual(pat[p..], pat, |pat| - p);
    }
  }

  /** The text that exposes an overshoot: a window that fails only at pat[j], followed by an
      occurrence at the border. */
  function BadText(pat: seq<byte>, j: nat, b: nat): (text: seq<byte>)
    requires j < b < |pat|
    ensures |text| == b + |pat| && text[j] != pat[j] && text[b..] == pat
    ensures forall k :: 0 <= k < b && k != j ==> text[k] == pat[k]
  {
    var c: byte := if pat[j] == 0 then 1 else 0;
    pat[..j] + [c] + pat[j + 1..b] + pat
  }

  lemma BadTextMismatch(pat: seq<byte>, j: nat, b: nat)
    requires BorderAt(pat, b) && j < b
    ensures MismatchAt(BadText(pat, j, b), pat, 0, |pat| - 1) == j
  {
    var text := BadText(pat, j, b);
    hide BadText;
    forall k | j < k < |pat|
      ensures text[k] == pat[k]
    {
      if k >= b {
        assert text[k] == text[b..][k - b] == pat[k - b] == pat[..|pat| - b][k - b];
        assert pat[b..][k - b] == pat[k];
      }
    }
  }

  lemma BadTextIsMissed(pat: seq<byte>, j: nat, b: nat)
    requires OvershootAt(pat, j, b)
    ensures Scan(BadText(pat, j, b), pat) == None
    ensures Occurs(BadText(pat, j, b), pat, b)
  {
    hide BadText, MismatchAt, NextWindow, Table1, Table2;
    var text := BadText(pat, j, b);
    assert text[b..b + |pat|] == text[b..] == pat;
    BadTextMismatch(pat, j, b);
    TablesAreMoving(pat);
    OvershotWindow(text, pat, j, b);
  }

  lemma OvershotWindow(text: seq<byte>, pat: seq<byte>, j: nat, b: nat)
    requires OvershootAt(pat, j, b) && |pat| <= |text| && MismatchAt(text, pat, 0, |pat| - 1) == j
    requires Moving(pat, Table1(pat), Table2(pat))
    ensures NextWindow(text, pat, Table1(pat), Table2(pat), 0) > b
  {
    hide Delta1, Delta2, MismatchAt, OvershootAt;
    BorderMakesDelta2Overshoot(pat, j, b);
    var d1, d2 := Table1(pat), Table2(pat);
    assert d2[j] == |pat| - 1 - j + b + 1;
    NextWindowStep(text, pat, d1, d2, 0, j);
  }

  /** Exactly which patterns are searched for correctly: the scan agrees with the leftmost
      occurrence in every text if and only if the pattern does not overshoot. */
  lemma CompleteExactlyWhen(pat: seq<byte>)
    requires |pat| > 0
    ensures (forall text :: IsFirst(text, pat, 0, Scan(text, pat))) <==> !Overshoots(pat)
  {
    if Overshoots(pat) {
      var j, b :| 0 <= j < b < |pat| && OvershootAt(pat, j, b);
      BadTextIsMissed(pat, j, b);
      var text := BadText(pat, j, b);
      assert !IsFirst(text, pat, 0, Scan(text, pat));
    } else {
      forall text
        ensures IsFirst(text, pat, 0, Scan(text, pat))
      {
        ScanFinds(text, pat);
      }
    }
  }

  lemma SmallestBorder(pat: seq<byte>, from: nat) returns (b: nat)
    requires exists p :: from <= p < |pat| && BorderAt(pat, p)
    ensures from <= b < |pat| && BorderAt(pat, b)
    ensures forall p :: from <= p < b ==> !BorderAt(pat, p)
    decreases |pat| - from
  {
    if from < |pat| && BorderAt(pat, from) {
      b := from;
    } else {
      b := SmallestBorder(pat, from + 1);
    }
  }

  lemma BorderAtOneIsUniform(pat: seq<byte>)
    requires BorderAt(pat, 1)
    ensures Uniform(pat)
  {
    var n := |pat|;
    forall k | 0 <= k < n
      ensures pat[k] == pat[0]
    {
      forall m | 0 <= m < k
        ensures pat[m] == pat[m + 1]
      {
        assert pat[1..][m] == pat[..n - 1][m];
      }
      ConstantRun(pat, 0, k);
    }
  }

  lemma NoOvershootIn(pat: seq<byte>)
    requires BorderFree(pat) || Uniform(pat)
    ensures !Overshoots(pat)
  {
    if Uniform(pat) {
      forall j, b | 0 <= j < b < |pat|
        ensures !OvershootAt(pat, j, b)
      {
        forall k | 0 <= k < |pat| - j
          ensures pat[j..][k] == pat[..|pat| - j][k]
        {
          assert pat[j + k] == pat[0];
        }
        StrncmpOfEqual(pat[j..], pat, |pat| - j);
        assert PrefixEqual(pat, j);
      }
    }
  }

  /** Among patterns without a NUL, those that do not overshoot are the ones that have no border and
      the runs of one character. */
  lemma NulFreeOvershootsExactlyWhen(pat: seq<byte>)
    requires 0 !in pat
    ensures !Overshoots(pat) <==> BorderFree(pat) || Uniform(pat)
  {
    if BorderFree(pat) || Uniform(pat) {
      NoOvershootIn(pat);
    } else {
      var b := SmallestBorder(pat, 1);
      if b == 1 {
        BorderAtOneIsUniform(pat);
      }
      BorderIsOvershot(pat, b);
    }
  }

  // ----- The one pattern the updater searches for -----

  /** "QC_IMAGE_VERSION_STRING=" */
  const TZ_VER_STR: seq<byte> :=
    [81, 67, 95, 73, 77, 65, 71, 69, 95, 86, 69, 82, 83, 73, 79, 78, 95, 83, 84, 82, 73, 78, 71, 61]

  /** The version string starts with the only 'Q' and is therefore searched for correctly. */
  lemma VersionStringIsFound(text: seq<byte>)
    ensures IsFirst(text, TZ_VER_STR, 0, Scan(text, TZ_VER_STR))
  {
    var pat := TZ_VER_STR;
    forall p | 1 <= p < |pat|
      ensures !BorderAt(pat, p)
    {
      assert pat[p..][0] != pat[..|pat| - p][0];
    }
    NoOvershootIn(pat);
    ScanFinds(text, pat);
  }
}
