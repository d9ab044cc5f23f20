/** The generic quicksort: a partition over a byte array, with a stride and a comparator, whose
    pivot is a place and not a value. */
module Quicksort {
  import opened Arith
  import opened Bytes

  type Element = seq<byte>
  type Comparator = (Element, Element) -> int

  ghost predicate Antisymmetric(cmp: Comparator, a: Element, b: Element) {
    cmp(a, b) < 0 <==> cmp(b, a) > 0
  }

  ghost predicate Transitive(cmp: Comparator, a: Element, b: Element, c: Element) {
    cmp(a, b) <= 0 && cmp(b, c) <= 0 ==> cmp(a, c) <= 0
  }

  /** What a comparator has to be: a total preorder. */
  ghost predicate Consistent(cmp: Comparator) {
    && (forall a, b :: Antisymmetric(cmp, a, b))
    && (forall a, b, c :: Transitive(cmp, a, b, c))
  }

  /** Of two elements one is at most the other, and an element is equal to itself. */
  lemma Total(cmp: Comparator, a: Element, b: Element)
    requires Consistent(cmp)
    ensures cmp(a, b) < 0 <==> cmp(b, a) > 0
    ensures cmp(b, a) < 0 <==> cmp(a, b) > 0
    ensures cmp(a, a) == 0
  {
    assert Antisymmetric(cmp, a, b) && Antisymmetric(cmp, b, a) && Antisymmetric(cmp, a, a);
  }

  // ----- elements of a byte array

  function ElementAt(b: seq<byte>, size: nat, i: nat): Element
    requires Offset(size, i + 1) <= |b|
  {
    b[Offset(size, i)..Offset(size, i + 1)]
  }

  function Elements(b: seq<byte>, size: nat, num: nat): (s: seq<Element>)
    requires |b| == Offset(size, num)
    ensures |s| == num
  {
    seq(num, i requires 0 <= i < num =>
      OffsetMonotone(size, i + 1, num);
      ElementAt(b, size, i))
  }

  /** `before` with the first `k` bytes at `a` and at `b` exchanged. */
  function Exchanged(before: seq<byte>, a: nat, b: nat, k: nat): (after: seq<byte>)
    requires a + k <= b && b + k <= |before|
    ensures |after| == |before|
  {
    seq(|before|, x requires 0 <= x < |before| =>
      if a <= x < a + k then before[b + (x - a)] else if b <= x < b + k then before[a + (x - b)] else before[x])
  }

  lemma ExchangedStep(before: seq<byte>, a: nat, b: nat, k: nat)
    requires a + k + 1 <= b && b + k + 1 <= |before|
    ensures var m := Exchanged(before, a, b, k);
      m[a + k := m[b + k]][b + k := m[a + k]] == Exchanged(before, a, b, k + 1)
  {
  }

  lemma OffsetsApart(size: nat, i: nat, p: nat)
    ensures i < p ==> Offset(size, i) + size <= Offset(size, p)
    ensures p < i ==> Offset(size, p) + size <= Offset(size, i)
  {
    if i < p {
      OffsetMonotone(size, i, p);
    } else {
      OffsetMonotone(size, p, i);
    }
  }

  /** What is at `x` after the exchange was at `y` before. */
  predicate Counterparts(a: nat, b: nat, k: nat, x: nat, y: nat) {
    (x == a && y == b) || (x == b && y == a) || (x == y && (x + k <= a || a + k <= x) && (x + k <= b || b + k <= x))
  }

  lemma SlotCounterparts(size: nat, i: nat, j: nat, p: nat, q: nat)
    requires q == if p == i then j else if p == j then i else p
    ensures Counterparts(Offset(size, i), Offset(size, j), size, Offset(size, p), Offset(size, q))
  {
    OffsetsApart(size, i, p);
    OffsetsApart(size, j, p);
  }

  lemma ExchangedSlice(before: seq<byte>, a: nat, b: nat, k: nat, x: nat, y: nat)
    requires a + k <= b && b + k <= |before| && x + k <= |before| && y + k <= |before|
    requires Counterparts(a, b, k, x, y)
    ensures Exchanged(before, a, b, k)[x..x + k] == before[y..y + k]
  {
    var after := Exchanged(before, a, b, k);
    var got, expected := after[x..x + k], before[y..y + k];
    forall t | 0 <= t < k
      ensures got[t] == expected[t]
    {
      assert got[t] == after[x + t];
    }
  }

  lemma ElementIs(b: seq<byte>, size: nat, num: nat, p: nat)
    requires |b| == Offset(size, num) && p < num
    ensures Offset(size, p) + size <= |b| && Elements(b, size, num)[p] == b[Offset(size, p)..Offset(size, p) + size]
  {
    OffsetMonotone(size, p + 1, num);
  }

  lemma ExchangedElement(before: seq<byte>, after: seq<byte>, size: nat, num: nat, i: nat, j: nat, p: nat, q: nat)
    requires |before| == |after| == Offset(size, num) && i < j < num && p < num
    requires q == if p == i then j else if p == j then i else p
    requires Offset(size, i) + size <= Offset(size, j) && Offset(size, j) + size <= |before|
    requires after == Exchanged(before, Offset(size, i), Offset(size, j), size)
    ensures Elements(after, size, num)[p] == Elements(before, size, num)[q]
  {
    SlotCounterparts(size, i, j, p, q);
    var x, y := Offset(size, p), Offset(size, q);
    ElementIs(after, size, num, p);
    ElementIs(before, size, num, q);
    ExchangedSlice(before, Offset(size, i), Offset(size, j), size, x, y);
    var got, expected := after[x..x + size], before[y..y + size];
    assert got == expected;
    assert Elements(after, size, num)[p] == got && Elements(before, size, num)[q] == expected;
  }

  /** The byte loop that exchanges two elements. */
  method Swap(base: array<byte>, ghost num: nat, size: nat, i: nat, j: nat)
    requires base.Length == Offset(size, num) && i < j < num
    modifies base
    ensures var s := old(Elements(base[..], size, num));
      Elements(base[..], size, num) == s[i := s[j]][j := s[i]]
  {
    OffsetMonotone(size, i, j);
    OffsetMonotone(size, j, num);
    OffsetIsProduct(size, i);
    OffsetIsProduct(size, j);
    var a: nat, b: nat := i * size, j * size;
    ghost var before := base[..];
    var k := 0;
    while k < size
      invariant 0 <= k <= size && base[..] == Exchanged(before, a, b, k)
    {
      ExchangedStep(before, a, b, k);
      var temp := base[a + k];
      base[a + k] := base[b + k];
      base[b + k] := temp;
      k := k + 1;
    }
    ghost var s, t := Elements(before, size, num), Elements(base[..], size, num);
    forall p | 0 <= p < num
      ensures t[p] == s[i := s[j]][j := s[i]][p]
    {
      ExchangedElement(before, base[..], size, num, i, j, p, if p == i then j else if p == j then i else p);
    }
  }

  // ----- specification: sorted ranges and permutations of ranges

  ghost predicate Sorted(s: seq<Element>, cmp: Comparator, lo: int, hi: int) {
    forall k, m :: lo <= k < m <= hi && 0 <= k && m < |s| ==> cmp(s[k], s[m]) <= 0
  }

  /** `b` is `a` with the elements from `lo` to `hi` rearranged. */
  ghost predicate Rearranged(a: seq<Element>, b: seq<Element>, lo: nat, hi: nat) {
    && |a| == |b| && lo <= hi < |a|
    && (forall k :: 0 <= k < |a| && !(lo <= k <= hi) ==> a[k] == b[k])
    && multiset(a[lo..hi + 1]) == multiset(b[lo..hi + 1])
  }

  lemma RearrangedTwice(a: seq<Element>, b: seq<Element>, c: seq<Element>, lo: nat, hi: nat)
    requires Rearranged(a, b, lo, hi) && Rearranged(b, c, lo, hi)
    ensures Rearranged(a, c, lo, hi)
  {
  }

  lemma RearrangedWider(a: seq<Element>, b: seq<Element>, lo: nat, hi: nat, lo': nat, hi': nat)
    requires Rearranged(a, b, lo, hi) && lo' <= lo && hi <= hi' < |a|
    ensures Rearranged(a, b, lo', hi')
  {
    assert a[lo'..hi' + 1] == a[lo'..lo] + a[lo..hi + 1] + a[hi + 1..hi' + 1];
    assert b[lo'..hi' + 1] == b[lo'..lo] + b[lo..hi + 1] + b[hi + 1..hi' + 1];
    assert a[lo'..lo] == b[lo'..lo] && a[hi + 1..hi' + 1] == b[hi + 1..hi' + 1];
  }

  lemma SwapRearranges(s: seq<Element>, i: nat, j: nat, lo: nat, hi: nat)
    requires lo <= i < j <= hi < |s|
    ensures Rearranged(s, s[i := s[j]][j := s[i]], lo, hi)
  {
    var t := s[i := s[j]][j := s[i]];
    assert s[i..j + 1] == [s[i]] + s[i + 1..j] + [s[j]];
    assert t[i..j + 1] == [s[j]] + s[i + 1..j] + [s[i]];
    RearrangedWider(s, t, i, j, lo, hi);
  }

  /** A bound on all elements of a range survives rearranging it. */
  lemma BoundSurvives(a: seq<Element>, b: seq<Element>, lo: nat, hi: nat, cmp: Comparator, p: Element)
    requires Rearranged(a, b, lo, hi)
    ensures (forall k :: lo <= k <= hi ==> cmp(a[k], p) <= 0) ==> forall k :: lo <= k <= hi ==> cmp(b[k], p) <= 0
    ensures (forall k :: lo <= k <= hi ==> cmp(p, a[k]) <= 0) ==> forall k :: lo <= k <= hi ==> cmp(p, b[k]) <= 0
  {
    forall k | lo <= k <= hi
      ensures exists m :: lo <= m <= hi && a[m] == b[k]
    {
      assert b[k] == b[lo..hi + 1][k - lo];
      assert b[k] in multiset(a[lo..hi + 1]);
      var m :| 0 <= m < hi + 1 - lo && a[lo..hi + 1][m] == b[k];
      assert a[lo + m] == b[k];
    }
  }

  // ----- the partition

  /** Everything from `lo` to `hi` is at most `p`, or at least `p`. */
  ghost predicate AtMost(s: seq<Element>, cmp: Comparator, lo: int, hi: int, p: Element) {
    forall k :: lo <= k <= hi && 0 <= k < |s| ==> cmp(s[k], p) <= 0
  }

  ghost predicate AtLeast(s: seq<Element>, cmp: Comparator, lo: int, hi: int, p: Element) {
    forall k :: lo <= k <= hi && 0 <= k < |s| ==> cmp(p, s[k]) <= 0
  }

  /** The first element of a range is strictly less than all others. */
  ghost predicate FirstIsLeast(s: seq<Element>, cmp: Comparator, lo: nat, hi: int) {
    lo < |s| && forall k :: lo < k <= hi && k < |s| ==> cmp(s[lo], s[k]) < 0
  }

  /** What a partition of `lo..hi` around the element in slot `lo` achieves. */
  ghost predicate Partitioned(a: seq<Element>, s: seq<Element>, cmp: Comparator, lo: nat, hi: nat, i: int, j: int) {
    && Rearranged(a, s, lo, hi) && lo <= i <= hi && lo <= j < hi && j <= i <= j + 1
    && AtMost(s, cmp, lo, i - 1, s[lo]) && AtLeast(s, cmp, j + 1, hi, s[lo])
    && (i == j ==> cmp(s[i], s[lo]) <= 0 && cmp(s[lo], s[i]) <= 0)
    && (i == lo <==> FirstIsLeast(a, cmp, lo, hi))
  }

  /** The state between two exchanges: either none has happened yet, or slot `lo` is out of
      reach and everything passed on the left is at most, on the right at least, what it holds. */
  ghost predicate Scanned(a: seq<Element>, s: seq<Element>, cmp: Comparator, lo: nat, hi: nat, i: int, j: int) {
    && Rearranged(a, s, lo, hi) && lo < hi
    && lo <= i <= j + 1 && i <= hi && j <= hi
    && (if i == lo then j == hi && s == a else j < hi && !FirstIsLeast(a, cmp, lo, hi))
    && AtMost(s, cmp, lo, i - 1, s[lo]) && AtLeast(s, cmp, j + 1, hi, s[lo])
  }

  /** The same after both scans. */
  ghost predicate Stopped(a: seq<Element>, s: seq<Element>, cmp: Comparator, lo: nat, hi: nat, i: int, j: int) {
    && Rearranged(a, s, lo, hi) && lo < hi
    && lo <= i <= j + 1 && i <= hi && lo <= j <= hi
    && (i == lo ==> s == a && forall k :: j < k <= hi ==> cmp(s[lo], s[k]) < 0)
    && (i > lo ==> j < hi && !FirstIsLeast(a, cmp, lo, hi))
    && AtMost(s, cmp, lo, i - 1, s[lo]) && AtLeast(s, cmp, j + 1, hi, s[lo])
    && cmp(s[lo], s[i]) <= 0 && cmp(s[j], s[lo]) <= 0
  }

  /** The first exchange: the new pivot is not greater than the old one. */
  lemma FirstExchange(s: seq<Element>, cmp: Comparator, lo: nat, hi: nat, j: int)
    requires Consistent(cmp) && lo < j <= hi < |s| && cmp(s[j], s[lo]) <= 0
    requires forall k :: j < k <= hi ==> cmp(s[lo], s[k]) < 0
    ensures !FirstIsLeast(s, cmp, lo, hi)
    ensures AtLeast(s[lo := s[j]][j := s[lo]], cmp, j, hi, s[j])
    ensures cmp(s[j], s[j]) == 0
  {
    Total(cmp, s[lo], s[j]);
    Total(cmp, s[j], s[j]);
    var t := s[lo := s[j]][j := s[lo]];
    forall k | j <= k <= hi
      ensures cmp(s[j], t[k]) <= 0
    {
      assert Transitive(cmp, s[j], s[lo], s[k]);
    }
  }

  lemma ExchangeKeeps(a: seq<Element>, s: seq<Element>, cmp: Comparator, lo: nat, hi: nat, i: int, j: int)
    requires Consistent(cmp) && Stopped(a, s, cmp, lo, hi, i, j) && i < j
    ensures Scanned(a, s[i := s[j]][j := s[i]], cmp, lo, hi, i + 1, j - 1)
  {
    var t := s[i := s[j]][j := s[i]];
    SwapRearranges(s, i, j, lo, hi);
    RearrangedTwice(a, s, t, lo, hi);
    if i == lo {
      FirstExchange(s, cmp, lo, hi, j);
    }
  }

  lemma StoppedForGood(a: seq<Element>, s: seq<Element>, cmp: Comparator, lo: nat, hi: nat, i: int, j: int)
    requires Consistent(cmp) && Stopped(a, s, cmp, lo, hi, i, j) && i >= j
    ensures Partitioned(a, s, cmp, lo, hi, i, j)
  {
  }

  /** The pivot is whatever is in slot `left`: the first exchange replaces it by an element that
      is not greater, and from then on slot `left` is left alone. */
  method Partition(base: array<byte>, num: nat, size: nat, left: nat, right: nat, cmp: Comparator) returns (i: int, j: int)
    requires base.Length == Offset(size, num) && left < right < num && Consistent(cmp)
    modifies base
    ensures Partitioned(old(Elements(base[..], size, num)), Elements(base[..], size, num), cmp, left, right, i, j)
  {
    ghost var a := Elements(base[..], size, num);
    i, j := left, right;
    while true
      invariant Scanned(a, Elements(base[..], size, num), cmp, left, right, i, j)
      decreases j - i + 1
    {
      ghost var s := Elements(base[..], size, num);
      i := ScanUp(base, num, size, left, right, i, j, cmp);
      j := ScanDown(base, num, size, left, right, i, j, cmp);
      assert Stopped(a, s, cmp, left, right, i, j);
      if i >= j {
        StoppedForGood(a, s, cmp, left, right, i, j);
        break;
      }
      Swap(base, num, size, i, j);
      ExchangeKeeps(a, s, cmp, left, right, i, j);
      i := i + 1;
      j := j - 1;
    }
  }

  /** The first scan. Slot `j + 1`, or slot `left` itself, stops it. */
  method ScanUp(base: array<byte>, num: nat, size: nat, left: nat, right: nat, i: int, j: int, cmp: Comparator) returns (r: int)
    requires base.Length == Offset(size, num) && left < right < num && Consistent(cmp)
    requires left <= i <= j + 1 && i <= right && j <= right && (i == left ==> j == right) && (i > left ==> j < right)
    requires var s := Elements(base[..], size, num);
      AtMost(s, cmp, left, i - 1, s[left]) && AtLeast(s, cmp, j + 1, right, s[left])
    ensures i <= r <= j + 1 && r <= right && (i == left ==> r == left)
    ensures var s := Elements(base[..], size, num);
      AtMost(s, cmp, left, r - 1, s[left]) && cmp(s[left], s[r]) <= 0
  {
    ghost var s := Elements(base[..], size, num);
    r := i;
    while Compare(base[..], num, size, r, left, cmp) < 0
      invariant i <= r <= j + 1 && r <= right && (i == left ==> r == left)
      invariant AtMost(s, cmp, left, r - 1, s[left])
      decreases right - r
    {
      ScanStep(s, cmp, left, r);
      r := r + 1;
    }
    Total(cmp, s[r], s[left]);
  }

  lemma ScanStep(s: seq<Element>, cmp: Comparator, left: nat, r: nat)
    requires Consistent(cmp) && left < |s| && r < |s|
    ensures cmp(s[left], s[left]) == 0
    ensures cmp(s[r], s[left]) < 0 ==> cmp(s[left], s[r]) > 0
    ensures cmp(s[left], s[r]) < 0 ==> cmp(s[r], s[left]) > 0
  {
    Total(cmp, s[r], s[left]);
    Total(cmp, s[left], s[left]);
  }

  /** The second scan. A slot that the first one has passed, or slot `left` itself, stops it. */
  method ScanDown(base: array<byte>, num: nat, size: nat, left: nat, right: nat, i: int, j: int, cmp: Comparator) returns (r: int)
    requires base.Length == Offset(size, num) && left < right < num && Consistent(cmp)
    requires left <= i <= j + 1 && i <= right && left <= j <= right
    requires var s := Elements(base[..], size, num);
      AtMost(s, cmp, left, i - 1, s[left]) && AtLeast(s, cmp, j + 1, right, s[left])
    ensures i - 1 <= r <= j && left <= r
    ensures var s := Elements(base[..], size, num);
      AtLeast(s, cmp, r + 1, right, s[left]) && cmp(s[r], s[left]) <= 0
    ensures var s := Elements(base[..], size, num); forall k :: r < k <= j ==> cmp(s[left], s[k]) < 0
  {
    ghost var s := Elements(base[..], size, num);
    r := j;
    while Compare(base[..], num, size, left, r, cmp) < 0
      invariant i - 1 <= r <= j && left <= r
      invariant AtLeast(s, cmp, r + 1, right, s[left])
      invariant forall k :: r < k <= j ==> cmp(s[left], s[k]) < 0
      decreases r
    {
      ScanStep(s, cmp, left, r);
      r := r - 1;
    }
    Total(cmp, s[left], s[r]);
  }

  /** The comparator on the elements in two slots. */
  function Compare(b: seq<byte>, num: nat, size: nat, i: int, j: int, cmp: Comparator): int
    requires |b| == Offset(size, num) && 0 <= i < num && 0 <= j < num
  {
    cmp(Elements(b, size, num)[i], Elements(b, size, num)[j])
  }

  // ----- the recursion

  /** The bounds are of type `size_t`, so that a range that ends before element 0 ends at the
      largest 32-bit value instead; what happens there is outside the array. */
  datatype Outcome = Done | OutOfBounds

  const LARGEST: u32 := 0xFFFF_FFFF

  /** The ranges on which the recursion leaves the array. */
  ghost predicate Trips(s: seq<Element>, cmp: Comparator, left: nat, right: nat) {
    right == LARGEST || (left == 0 && 1 <= right && FirstIsLeast(s, cmp, 0, right))
  }

  /** The effect of sorting a range, which may be empty. */
  ghost predicate RangeDone(s: seq<Element>, t: seq<Element>, cmp: Comparator, lo: nat, hi: int) {
    if lo < hi then hi < |s| && Rearranged(s, t, lo, hi) && Sorted(t, cmp, lo, hi) else t == s
  }

  /** Sorting a range changes nothing outside it, and no bound inside it. */
  lemma RangeKeeps(s: seq<Element>, t: seq<Element>, cmp: Comparator, lo: nat, hi: int, lo': nat, hi': nat, p: Element)
    requires RangeDone(s, t, cmp, lo, hi) && lo' <= lo && hi <= hi' && lo' <= hi' < |s|
    ensures Rearranged(s, t, lo', hi')
    ensures forall k :: 0 <= k < |s| && !(lo <= k <= hi) ==> t[k] == s[k]
    ensures AtMost(s, cmp, lo, hi, p) ==> AtMost(t, cmp, lo, hi, p)
    ensures AtLeast(s, cmp, lo, hi, p) ==> AtLeast(t, cmp, lo, hi, p)
  {
    if lo < hi {
      BoundSurvives(s, t, lo, hi, cmp, p);
      RearrangedWider(s, t, lo, hi, lo', hi');
    }
  }

  /** Both halves sorted around the pivot make a rearranged range. */
  lemma HalvesRearrange(a: seq<Element>, s: seq<Element>, t: seq<Element>, u: seq<Element>, cmp: Comparator,
                        lo: nat, hi: nat, first: nat, last: int)
    requires Rearranged(a, s, lo, hi) && lo <= first && last <= hi && lo <= hi < |a|
    requires RangeDone(s, t, cmp, lo, last) && RangeDone(t, u, cmp, first, hi)
    ensures Rearranged(a, u, lo, hi)
  {
    RangeKeeps(s, t, cmp, lo, last, lo, hi, s[lo]);
    RearrangedTwice(a, s, t, lo, hi);
    RangeKeeps(t, u, cmp, first, hi, lo, hi, s[lo]);
    RearrangedTwice(a, t, u, lo, hi);
  }

  /** They make a sorted range. */
  lemma SortedAround(a: seq<Element>, s: seq<Element>, t: seq<Element>, u: seq<Element>, cmp: Comparator,
                     lo: nat, hi: nat, i: int, j: int, first: nat, last: int)
    requires Consistent(cmp) && Partitioned(a, s, cmp, lo, hi, i, j) && last == i - 1 && first == j + 1
    requires RangeDone(s, t, cmp, lo, last) && RangeDone(t, u, cmp, first, hi)
    ensures Sorted(u, cmp, lo, hi)
  {
    var p := s[lo];
    RangeKeeps(s, t, cmp, lo, last, lo, hi, p);
    RangeKeeps(t, u, cmp, first, hi, lo, hi, p);
    HalvesMeet(u, cmp, p, lo, hi, i, j);
  }

  lemma HalvesMeet(u: seq<Element>, cmp: Comparator, p: Element, lo: nat, hi: nat, i: int, j: int)
    requires Consistent(cmp) && lo <= i <= hi < |u| && lo <= j && j <= i <= j + 1
    requires AtMost(u, cmp, lo, i - 1, p) && AtLeast(u, cmp, j + 1, hi, p)
    requires Sorted(u, cmp, lo, i - 1) && Sorted(u, cmp, j + 1, hi)
    requires i == j ==> cmp(u[i], p) <= 0 && cmp(p, u[i]) <= 0
    ensures Sorted(u, cmp, lo, hi)
  {
    forall k, m | lo <= k < m <= hi
      ensures cmp(u[k], u[m]) <= 0
    {
      Across(u, cmp, p, lo, hi, i, j, k, m);
    }
  }

  lemma Across(u: seq<Element>, cmp: Comparator, p: Element, lo: nat, hi: nat, i: int, j: int, k: int, m: int)
    requires Consistent(cmp) && lo <= k < m <= hi < |u| && lo <= i <= hi && lo <= j && j <= i <= j + 1
    requires AtMost(u, cmp, lo, i - 1, p) && AtLeast(u, cmp, j + 1, hi, p)
    requires Sorted(u, cmp, lo, i - 1) && Sorted(u, cmp, j + 1, hi)
    requires i == j ==> cmp(u[i], p) <= 0 && cmp(p, u[i]) <= 0
    ensures cmp(u[k], u[m]) <= 0
  {
    assert Transitive(cmp, u[k], p, u[m]);
  }

  /** Whether the recursion into the left part stays inside the array. */
  lemma LeftPart(a: seq<Element>, s: seq<Element>, cmp: Comparator, left: nat, right: nat, i: int, j: int)
    requires Consistent(cmp) && Partitioned(a, s, cmp, left, right, i, j) && right < LARGEST
    ensures i - 1 >= 0 ==> U32(i - 1) == i - 1
    ensures i - 1 < 0 ==> U32(i - 1) == LARGEST && left == 0
    ensures Trips(s, cmp, left, U32(i - 1)) <==> Trips(a, cmp, left, right)
  {
    if i >= 2 && left == 0 {
      Total(cmp, s[0], s[1]);
    }
  }

  /** `quicksort_internal`: it sorts the range, unless the range trips it. */
  method SortRange(base: array<byte>, num: nat, size: nat, left: u32, right: u32, cmp: Comparator) returns (r: Outcome)
    requires base.Length == Offset(size, num) && num < 0x8000_0000 && Consistent(cmp)
    requires left <= num && (right < num || (right == LARGEST && left == 0))
    modifies base
    ensures r.Done? <==> !Trips(old(Elements(base[..], size, num)), cmp, left, right)
    ensures r.Done? ==> RangeDone(old(Elements(base[..], size, num)), Elements(base[..], size, num), cmp, left, right)
    decreases if right == LARGEST then 0 else right + 1 - left
  {
    if left >= right {
      return Done;
    }
    if right == LARGEST {
      // `j` starts at -1: the second scan compares with what lies before the array.
      return OutOfBounds;
    }
    ghost var a := Elements(base[..], size, num);
    var i, j := Partition(base, num, size, left, right, cmp);
    ghost var s := Elements(base[..], size, num);
    LeftPart(a, s, cmp, left, right, i, j);
    var last := U32(i - 1);
    assert if i == 0 then last == LARGEST && left == 0 else last == i - 1 < right;
    r := SortRange(base, num, size, left, last, cmp);
    if r.Done? {
      assert i > 0 && last == i - 1;
      ghost var t := Elements(base[..], size, num);
      var first := j + 1;
      r := SortRange(base, num, size, first, right, cmp);
      ghost var u := Elements(base[..], size, num);
      HalvesRearrange(a, s, t, u, cmp, left, right, first, last);
      SortedAround(a, s, t, u, cmp, left, right, i, j, first, last);
    }
  }

  /** A range that is the whole array. */
  lemma WholeArray(s: seq<Element>, t: seq<Element>, cmp: Comparator, num: nat)
    requires num > 0 && |s| == |t| == num && Consistent(cmp) && RangeDone(s, t, cmp, 0, num - 1)
    ensures multiset(t) == multiset(s) && Sorted(t, cmp, 0, num - 1)
  {
    assert s == s[0..num] && t == t[0..num];
  }

  lemma TripsExactly(s: seq<Element>, cmp: Comparator)
    requires |s| < 0x8000_0000 && Consistent(cmp)
    ensures U32(|s| - 1) == if s == [] then LARGEST else |s| - 1
    ensures !Trips(s, cmp, 0, U32(|s| - 1)) <==> |s| == 1 || (|s| > 1 && exists k :: 0 < k < |s| && cmp(s[k], s[0]) <= 0)
  {
    if |s| > 1 {
      forall k | 0 < k < |s|
        ensures cmp(s[0], s[k]) < 0 <==> !(cmp(s[k], s[0]) <= 0)
      {
        Total(cmp, s[0], s[k]);
      }
    }
  }

  /** Elements compared by their first byte. */
  function ByFirstByte(a: Element, b: Element): int {
    (if a == [] then 0 else a[0] as int) - (if b == [] then 0 else b[0] as int)
  }

  /** A failing input: an array that is in order already. */
  lemma PairInOrderTrips()
    ensures Consistent(ByFirstByte) && Sorted([[1], [2]], ByFirstByte, 0, 1) && Trips([[1], [2]], ByFirstByte, 0, 1)
  {
    assert forall a, b, c :: Transitive(ByFirstByte, a, b, c);
  }

  /** `quicksort`. Apart from the empty array, what it cannot sort are exactly the arrays of two
      elements or more whose first element is strictly less than all others. */
  method Sort(base: array<byte>, num: u32, size: nat, cmp: Comparator) returns (r: Outcome)
    requires base.Length == Offset(size, num) && num < 0x8000_0000 && Consistent(cmp)
    modifies base
    ensures var s := old(Elements(base[..], size, num));
      r.Done? <==> num == 1 || (num > 1 && exists k :: 0 < k < num && cmp(s[k], s[0]) <= 0)
    ensures var s, t := old(Elements(base[..], size, num)), Elements(base[..], size, num);
      r.Done? ==> multiset(t) == multiset(s) && Sorted(t, cmp, 0, num - 1)
  {
    ghost var s := Elements(base[..], size, num);
    TripsExactly(s, cmp);
    var last := U32(num - 1);
    r := SortRange(base, num, size, 0, last, cmp);
    if r.Done? {
      WholeArray(s, Elements(base[..], size, num), cmp, num);
    }
  }
}
