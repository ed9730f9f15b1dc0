// mdb_midl_sort: the in-place quicksort of page-number lists, with its explicit
// bounded stack of pending segments and its unguarded partition scans.

module MidlSort {
  import opened Midl

  const SMALL := 8
  const STACK_SIZE := 64  // sizeof(int) * CHAR_BIT * 2

  // Everything at a position in (b, p) is at least as large as everything in [p, n].
  ghost predicate Cut(s: seq<Id>, b: nat, n: nat, p: int)
    requires n < |s|
  {
    forall x, y :: b < x < p <= y <= n ==> s[x] >= s[y]
  }

  // s and t differ only by a permutation of the positions lo..hi.
  ghost predicate PermutedWithin(s: seq<Id>, t: seq<Id>, lo: nat, hi: int)
    requires lo <= hi + 1 <= |s|
  {
    && |s| == |t|
    && (forall x :: 0 <= x < |s| && !(lo <= x <= hi) ==> t[x] == s[x])
    && multiset(t[lo..hi + 1]) == multiset(s[lo..hi + 1])
  }

  lemma PermutedWithinTransitive(s: seq<Id>, t: seq<Id>, u: seq<Id>, lo: nat, hi: int)
    requires lo <= hi + 1 <= |s| && PermutedWithin(s, t, lo, hi) && PermutedWithin(t, u, lo, hi)
    ensures PermutedWithin(s, u, lo, hi)
  {
  }

  lemma SwapIsPermutation(s: seq<Id>, i: nat, j: nat, lo: nat, hi: int)
    requires lo <= i <= hi < |s| && lo <= j <= hi
    ensures PermutedWithin(s, s[i := s[j]][j := s[i]], lo, hi)
  {
    var t := s[i := s[j]][j := s[i]];
    var a, b := s[lo..hi + 1], t[lo..hi + 1];
    assert b == a[i - lo := a[j - lo]][j - lo := a[i - lo]];
    MultisetOfSwap(a, i - lo, j - lo);
  }

  lemma MultisetOfSwap(a: seq<Id>, i: nat, j: nat)
    requires i < |a| && j < |a|
    ensures multiset(a[i := a[j]][j := a[i]]) == multiset(a)
  {
  }

  // Each value of a permuted segment was already somewhere in that segment.
  lemma PermutedOrigin(s: seq<Id>, t: seq<Id>, lo: nat, hi: int, y: int) returns (x: int)
    requires lo <= hi + 1 <= |s| && PermutedWithin(s, t, lo, hi) && lo <= y <= hi
    ensures lo <= x <= hi && s[x] == t[y]
  {
    var a, b := s[lo..hi + 1], t[lo..hi + 1];
    assert b[y - lo] in multiset(b);
    assert b[y - lo] in multiset(a);
    assert b[y - lo] in a;
    var k :| 0 <= k < |a| && a[k] == b[y - lo];
    x := lo + k;
  }

  // Reordering a segment cannot break a cut that does not split the segment.
  lemma CutSurvives(s: seq<Id>, t: seq<Id>, b: nat, n: nat, lo: nat, hi: int, p: int)
    requires b < lo <= hi + 1 && hi <= n < |s| && PermutedWithin(s, t, lo, hi)
    requires Cut(s, b, n, p) && (p <= lo || hi < p)
    ensures Cut(t, b, n, p)
  {
    forall x, y | b < x < p <= y <= n
      ensures t[x] >= t[y]
    {
      var x' := x;
      var y' := y;
      if lo <= x <= hi { x' := PermutedOrigin(s, t, lo, hi, x); }
      if lo <= y <= hi { y' := PermutedOrigin(s, t, lo, hi, y); }
      assert s[x'] >= s[y'];
    }
  }

  // Moving element j down to position i + 1 and shifting the ones between up by one.
  ghost function InsertedAt(s: seq<Id>, i: int, j: int): seq<Id>
    requires 0 <= i + 1 <= j < |s|
  {
    s[..i + 1] + [s[j]] + s[i + 1..j] + s[j + 1..]
  }

  lemma InsertionIsPermutation(s: seq<Id>, i: int, j: nat, lo: nat, hi: int)
    requires lo <= i + 1 <= j <= hi < |s|
    ensures PermutedWithin(s, InsertedAt(s, i, j), lo, hi)
  {
    var t := InsertedAt(s, i, j);
    var front, moved, rear := s[lo..i + 1], s[i + 1..j], s[j + 1..hi + 1];
    assert s[lo..hi + 1] == front + moved + [s[j]] + rear;
    var before, after := s[..lo], s[hi + 1..];
    assert s[..i + 1] == before + front;
    assert s[j + 1..] == rear + after;
    assert t == before + (front + [s[j]] + moved + rear) + after;
    MiddleSlice(before, front + [s[j]] + moved + rear, after);
  }

  lemma MiddleSlice(a: seq<Id>, b: seq<Id>, c: seq<Id>)
    ensures (a + b + c)[|a|..|a| + |b|] == b
  {
  }

  ghost predicate DescendingFromTo(s: seq<Id>, lo: nat, hi: int)
    requires hi < |s|
  {
    forall x, y :: lo <= x < y <= hi ==> s[x] >= s[y]
  }

  lemma SortedSegmentCuts(s: seq<Id>, b: nat, n: nat, lo: nat, hi: int)
    requires b < lo <= hi + 1 && hi <= n < |s|
    requires Cut(s, b, n, lo) && Cut(s, b, n, hi + 1) && DescendingFromTo(s, lo, hi)
    ensures forall p :: lo <= p <= hi + 1 ==> Cut(s, b, n, p)
  {
  }

  // The inner loop of the insertion sort: ids[j] moves down past the smaller values before
  // it. The scan is bounded by the list's first index only; it is ids[l - 1] >= ids[j] that keeps it
  // from leaving the segment that starts at l.
  method InsertOne(ids: array<Id>, b: nat, ghost l: nat, j: nat) returns (ghost i: int)
    requires b < l < j < ids.Length
    requires l > b + 1 ==> ids[l - 1] >= ids[j]
    modifies ids
    ensures l - 1 <= i < j
    ensures ids[..] == InsertedAt(old(ids[..]), i, j)
    ensures l <= i ==> old(ids[i] >= ids[j])
    ensures forall x :: i < x < j ==> old(ids[x]) < old(ids[j])
  {
    ghost var was := ids[..];
    var a := ids[j];
    var k := j - 1;
    while k >= b + 1
      invariant l - 1 <= k < j
      invariant ids[..k + 1] == was[..k + 1] && ids[j + 1..] == was[j + 1..]
      invariant ids[k + 2..j + 1] == was[k + 1..j]
      invariant forall x :: k < x < j ==> was[x] < a
    {
      assert ids[k] == ids[..k + 1][k] == was[k];
      if ids[k] >= a {
        break;
      }
      ids[k + 1] := ids[k];
      k := k - 1;
    }
    ids[k + 1] := a;
    i := k;
  }

  lemma InsertionKeepsOrder(s: seq<Id>, i: int, l: nat, j: nat)
    requires 1 <= l <= i + 1 <= j < |s| && DescendingFromTo(s, l, j - 1)
    requires l <= i ==> s[i] >= s[j]
    requires forall x :: i < x < j ==> s[x] < s[j]
    ensures DescendingFromTo(InsertedAt(s, i, j), l, j)
  {
    var t := InsertedAt(s, i, j);
    forall x, y | l <= x < y <= j
      ensures t[x] >= t[y]
    {
      assert t[x] == if x <= i then s[x] else if x == i + 1 then s[j] else s[x - 1];
      assert t[y] == if y <= i then s[y] else if y == i + 1 then s[j] else s[y - 1];
    }
  }

  // The insertion sort of one small segment.
  method InsertionPass(ids: array<Id>, b: nat, ghost n: nat, l: nat, ir: int)
    requires b < l <= ir + 1 && ir <= n < ids.Length
    requires Cut(ids[..], b, n, l) && Cut(ids[..], b, n, ir + 1)
    modifies ids
    ensures PermutedWithin(old(ids[..]), ids[..], l, ir)
    ensures forall p :: l <= p <= ir + 1 ==> Cut(ids[..], b, n, p)
  {
    var j := l + 1;
    while j <= ir
      invariant l + 1 <= j && (j <= ir + 1 || j == l + 1)
      invariant PermutedWithin(old(ids[..]), ids[..], l, ir)
      invariant Cut(ids[..], b, n, l)
      invariant j <= ir + 1 ==> DescendingFromTo(ids[..], l, j - 1)
    {
      ghost var was := ids[..];
      ghost var i := InsertOne(ids, b, l, j);
      InsertionIsPermutation(was, i, j, l, ir);
      InsertionKeepsOrder(was, i, l, j);
      PermutedWithinTransitive(old(ids[..]), was, ids[..], l, ir);
      CutSurvives(was, ids[..], b, n, l, ir, l);
      j := j + 1;
    }
    CutSurvives(old(ids[..]), ids[..], b, n, l, ir, ir + 1);
    SortedSegmentCuts(ids[..], b, n, l, ir);
  }

  lemma ExchangeWithin(was: seq<Id>, s: seq<Id>, i: nat, j: nat, lo: nat, hi: int)
    requires lo <= i <= hi < |was| && lo <= j <= hi && PermutedWithin(was, s, lo, hi)
    ensures PermutedWithin(was, s[i := s[j]][j := s[i]], lo, hi)
  {
    SwapIsPermutation(s, i, j, lo, hi);
    PermutedWithinTransitive(was, s, s[i := s[j]][j := s[i]], lo, hi);
  }

  method SwapIds(ids: array<Id>, i: nat, j: nat)
    requires i < ids.Length && j < ids.Length
    modifies ids
    ensures ids[..] == old(ids[..][i := ids[j]][j := ids[i]])
  {
    var itmp := ids[i];
    ids[i] := ids[j];
    ids[j] := itmp;
  }

  method OrderPair(ids: array<Id>, i: nat, j: nat, ghost was: seq<Id>, ghost lo: nat, ghost hi: int)
    requires lo <= i <= hi < |was| && lo <= j <= hi && PermutedWithin(was, ids[..], lo, hi)
    modifies ids
    ensures PermutedWithin(was, ids[..], lo, hi)
    ensures ids[..] == var s := old(ids[..]); if s[i] < s[j] then s[i := s[j]][j := s[i]] else s
  {
    if ids[i] < ids[j] {
      ExchangeWithin(was, ids[..], i, j, lo, hi);
      SwapIds(ids, i, j);
    }
  }

  // Median of left, centre and right: leaves ids[l] >= ids[l+1] >= ids[ir].
  method MedianOfThree(ids: array<Id>, l: nat, ir: nat)
    requires l + SMALL <= ir < ids.Length
    modifies ids
    ensures PermutedWithin(old(ids[..]), ids[..], l, ir)
    ensures ids[l] >= ids[l + 1] >= ids[ir]
  {
    hide PermutedWithin;
    ghost var was := ids[..];
    var k := (l + ir) / 2;
    UnchangedWithin(was, l, ir);
    ExchangeWithin(was, was, k, l + 1, l, ir);
    SwapIds(ids, k, l + 1);
    OrderPair(ids, l, ir, was, l, ir);
    OrderPair(ids, l + 1, ir, was, l, ir);
    OrderPair(ids, l, l + 1, was, l, ir);
  }

  lemma UnchangedWithin(s: seq<Id>, lo: nat, hi: int)
    requires lo <= hi + 1 <= |s|
    ensures PermutedWithin(s, s, lo, hi)
  {
  }

  // l..j-1 hold values >= a, j..i-1 hold a itself and i..ir hold values <= a.
  ghost predicate SplitAround(s: seq<Id>, a: Id, l: nat, j: nat, i: nat, ir: nat)
    requires ir < |s|
  {
    && l < j < i <= ir
    && (forall x :: l <= x < j ==> s[x] >= a)
    && (forall x :: j <= x < i ==> s[x] == a)
    && (forall x :: i <= x <= ir ==> s[x] <= a)
  }

  lemma SplitCuts(s: seq<Id>, b: nat, n: nat, a: Id, l: nat, j: nat, i: nat, ir: nat)
    requires b < l && ir <= n < |s| && Cut(s, b, n, l) && Cut(s, b, n, ir + 1) && SplitAround(s, a, l, j, i, ir)
    ensures forall p :: j <= p <= i ==> Cut(s, b, n, p)
  {
  }

  // The two scans test no bound: some element at or before stop is known to end them.
  method ScanUp(ids: array<Id>, from: nat, a: Id, ghost stop: nat) returns (i: nat)
    requires from < stop < ids.Length && ids[stop] <= a
    ensures from < i <= stop && ids[i] <= a
    ensures forall x :: from < x < i ==> ids[x] > a
  {
    i := from + 1;
    while ids[i] > a
      invariant from < i <= stop && forall x :: from < x < i ==> ids[x] > a
      decreases stop - i
    {
      i := i + 1;
    }
  }

  method ScanDown(ids: array<Id>, from: nat, a: Id, ghost stop: nat) returns (j: nat)
    requires stop < from <= ids.Length && ids[stop] >= a
    ensures stop <= j < from && ids[j] >= a
    ensures forall x :: j < x < from ==> ids[x] < a
  {
    j := from - 1;
    while ids[j] < a
      invariant stop <= j < from && forall x :: j < x < from ==> ids[x] < a
      decreases j
    {
      j := j - 1;
    }
  }

  ghost predicate Scanned(s: seq<Id>, a: Id, l: nat, i: nat, j: nat, ir: nat)
    requires ir < |s|
  {
    && l + 1 <= i <= j <= ir
    && (i == j ==> l + 1 < i && j < ir)
    && s[l + 1] == a
    && (forall x :: l <= x <= i ==> s[x] >= a)
    && (forall x :: j <= x <= ir ==> s[x] <= a)
  }

  ghost predicate ScansStopped(s: seq<Id>, a: Id, l: nat, i: nat, j: nat, ir: nat)
    requires ir < |s|
  {
    && l + 2 <= i <= ir && l + 1 <= j < ir
    && s[l + 1] == a && s[i] <= a <= s[j]
    && (forall x :: l <= x < i ==> s[x] >= a)
    && (forall x :: j < x <= ir ==> s[x] <= a)
  }

  lemma SwapResumesScan(s: seq<Id>, a: Id, l: nat, i: nat, j: nat, ir: nat)
    requires ir < |s| && ScansStopped(s, a, l, i, j, ir) && i <= j
    ensures Scanned(s[i := s[j]][j := s[i]], a, l, i, j, ir)
  {
  }

  // Once the scans have crossed, the pivot is swapped into place.
  lemma CrossedScansSplit(s: seq<Id>, a: Id, l: nat, i: nat, j: nat, ir: nat)
    requires ir < |s| && ScansStopped(s, a, l, i, j, ir) && j < i
    ensures SplitAround(s[l + 1 := s[j]][j := s[l + 1]], a, l, j, i, ir)
  {
  }

  method CrossScans(ids: array<Id>, a: Id, ghost l: nat, i: nat, j: nat, ghost ir: nat) returns (i': nat, j': nat)
    requires ir < ids.Length && Scanned(ids[..], a, l, i, j, ir)
    ensures i < i' && j' < j && ScansStopped(ids[..], a, l, i', j', ir)
  {
    ghost var s := ids[..];
    i' := ScanUp(ids, i, a, if i == j then j + 1 else j);
    j' := ScanDown(ids, j, a, if i == j then i - 1 else i);
    assert forall x :: l <= x < i' ==> s[x] >= a;
    assert forall x :: j' < x <= ir ==> s[x] <= a;
  }

  // The partition step.
  method Partition(ids: array<Id>, l: nat, ir: nat) returns (i: nat, j: nat, ghost pivot: Id)
    requires l + SMALL <= ir < ids.Length
    modifies ids
    ensures PermutedWithin(old(ids[..]), ids[..], l, ir)
    ensures SplitAround(ids[..], pivot, l, j, i, ir)
  {
    MedianOfThree(ids, l, ir);
    i, j, pivot := l + 1, ir, ids[l + 1];
    var a := ids[l + 1];
    while true
      invariant PermutedWithin(old(ids[..]), ids[..], l, ir)
      invariant Scanned(ids[..], a, l, i, j, ir)
      decreases j - i
    {
      i, j := CrossScans(ids, a, l, i, j, ir);
      if j < i {
        break;
      }
      SwapResumesScan(ids[..], a, l, i, j, ir);
      ExchangeWithin(old(ids[..]), ids[..], i, j, l, ir);
      SwapIds(ids, i, j);
    }
    CrossedScansSplit(ids[..], a, l, i, j, ir);
    ExchangeWithin(old(ids[..]), ids[..], l + 1, j, l, ir);
    SwapIds(ids, l + 1, j);
  }

  // A segment waiting on the stack, as (leftmost, rightmost).
  datatype Segment = Segment(lo: int, hi: int)

  // The largest size a segment can have at a level of the stack: each level halves it.
  ghost function Room(n: nat, level: nat): nat {
    if level == 0 then n else Room(n, level - 1) / 2
  }

  ghost predicate Inside(b: nat, n: nat, g: Segment) {
    b < g.lo <= g.hi + 1 && g.hi <= n
  }

  ghost predicate Apart(g: Segment, h: Segment) {
    g.hi < h.lo || h.hi < g.lo
  }

  ghost predicate Halves(b: nat, n: nat, level: nat, g: Segment)
    requires b <= n
  {
    g.hi - g.lo + 1 <= Room(n - b, level)
  }

  // What is left to do: pend are waiting segments, and every boundary that no waiting
  // segment strictly contains already separates larger from smaller IDs.
  ghost predicate Progress(s: seq<Id>, b: nat, n: nat, pend: seq<Segment>)
    requires b <= n < |s|
  {
    && (forall k :: 0 <= k < |pend| ==> Inside(b, n, pend[k]) && Halves(b, n, k, pend[k]))
    && (forall k :: 0 <= k < |pend| ==> Cut(s, b, n, pend[k].lo) && Cut(s, b, n, pend[k].hi + 1))
    && (forall k, m :: 0 <= k < m < |pend| ==> Apart(pend[k], pend[m]))
    && (forall p :: b < p <= n + 1 ==> Cut(s, b, n, p) || Contained(pend, p))
  }

  ghost predicate Contained(pend: seq<Segment>, p: int) {
    exists k :: 0 <= k < |pend| && pend[k].lo < p <= pend[k].hi
  }

  ghost function Work(pend: seq<Segment>): nat {
    if pend == [] then 0 else
      var g := pend[|pend| - 1];
      Work(pend[..|pend| - 1]) + 1 + if g.lo <= g.hi then 2 * (g.hi - g.lo + 1) else 0
  }

  lemma Widen(s: seq<Id>, t: seq<Id>, lo: nat, hi: int, b: nat, n: nat)
    requires b < lo <= hi + 1 && hi <= n < |s| && PermutedWithin(s, t, lo, hi)
    ensures PermutedWithin(s, t, b + 1, n)
  {
    MultisetInThree(s, lo, hi, b, n);
    MultisetInThree(t, lo, hi, b, n);
    assert t[b + 1..lo] == s[b + 1..lo];
    assert t[hi + 1..n + 1] == s[hi + 1..n + 1];
  }

  lemma MultisetInThree(s: seq<Id>, lo: nat, hi: int, b: nat, n: nat)
    requires b < lo <= hi + 1 && hi <= n < |s|
    ensures multiset(s[b + 1..n + 1]) == multiset(s[b + 1..lo]) + multiset(s[lo..hi + 1]) + multiset(s[hi + 1..n + 1])
  {
    assert s[b + 1..n + 1] == s[b + 1..lo] + s[lo..hi + 1] + s[hi + 1..n + 1];
  }

  lemma StepKeepsPermutation(was: seq<Id>, s: seq<Id>, t: seq<Id>, lo: nat, hi: int, b: nat, n: nat)
    requires b < lo <= hi + 1 && hi <= n < |was|
    requires PermutedWithin(was, s, b + 1, n) && PermutedWithin(s, t, lo, hi)
    ensures PermutedWithin(was, t, b + 1, n)
  {
    Widen(s, t, lo, hi, b, n);
    PermutedWithinTransitive(was, s, t, b + 1, n);
  }

  // Reordering the newest segment leaves the boundaries of all older ones alone.
  lemma OlderSegmentsKeepCuts(s: seq<Id>, t: seq<Id>, b: nat, n: nat, pend: seq<Segment>, g: Segment)
    requires b <= n < |s| && Progress(s, b, n, pend + [g])
    requires Inside(b, n, g) && PermutedWithin(s, t, g.lo, g.hi)
    ensures forall k :: 0 <= k < |pend| ==> Inside(b, n, pend[k]) && Halves(b, n, k, pend[k])
    ensures forall k :: 0 <= k < |pend| ==> Cut(t, b, n, pend[k].lo) && Cut(t, b, n, pend[k].hi + 1)
    ensures forall k, m :: 0 <= k < m < |pend| ==> Apart(pend[k], pend[m])
    ensures Cut(t, b, n, g.lo) && Cut(t, b, n, g.hi + 1)
    ensures forall p :: b < p <= n + 1 ==> Cut(t, b, n, p) || Contained(pend, p) || g.lo < p <= g.hi
  {
    var all := pend + [g];
    forall k | 0 <= k < |pend|
      ensures Inside(b, n, pend[k]) && Halves(b, n, k, pend[k])
      ensures Cut(t, b, n, pend[k].lo) && Cut(t, b, n, pend[k].hi + 1)
    {
      assert all[k] == pend[k] && Apart(all[k], all[|pend|]);
      CutSurvives(s, t, b, n, g.lo, g.hi, pend[k].lo);
      CutSurvives(s, t, b, n, g.lo, g.hi, pend[k].hi + 1);
    }
    forall k, m | 0 <= k < m < |pend|
      ensures Apart(pend[k], pend[m])
    {
      assert Apart(all[k], all[m]);
    }
    assert all[|pend|] == g;
    CutSurvives(s, t, b, n, g.lo, g.hi, g.lo);
    CutSurvives(s, t, b, n, g.lo, g.hi, g.hi + 1);
    forall p | b < p <= n + 1 && !(g.lo < p <= g.hi)
      ensures Cut(t, b, n, p) || Contained(pend, p)
    {
      if Cut(s, b, n, p) {
        CutSurvives(s, t, b, n, g.lo, g.hi, p);
      } else {
        var k :| 0 <= k < |all| && all[k].lo < p <= all[k].hi;
        assert k < |pend| && pend[k] == all[k];
      }
    }
  }

  lemma SegmentSorted(s: seq<Id>, t: seq<Id>, b: nat, n: nat, pend: seq<Segment>, g: Segment)
    requires b <= n < |s| && Progress(s, b, n, pend + [g])
    requires Inside(b, n, g) && PermutedWithin(s, t, g.lo, g.hi)
    requires forall p :: g.lo <= p <= g.hi + 1 ==> Cut(t, b, n, p)
    ensures Progress(t, b, n, pend)
  {
    OlderSegmentsKeepCuts(s, t, b, n, pend, g);
  }

  // Pushing the larger part and going on with the smaller one.
  lemma SegmentSplit(s: seq<Id>, t: seq<Id>, b: nat, n: nat, pend: seq<Segment>, g: Segment,
                     a: Id, j: nat, i: nat, big: Segment, small: Segment)
    requires b <= n < |s| && Progress(s, b, n, pend + [g])
    requires Inside(b, n, g) && PermutedWithin(s, t, g.lo, g.hi)
    requires SplitAround(t, a, g.lo, j, i, g.hi)
    requires (big == Segment(g.lo, j - 1) && small == Segment(i, g.hi)) || (small == Segment(g.lo, j - 1) && big == Segment(i, g.hi))
    requires small.hi - small.lo <= big.hi - big.lo
    ensures Progress(t, b, n, pend + [big] + [small])
  {
    hide Cut;
    OlderSegmentsKeepCuts(s, t, b, n, pend, g);
    SplitCuts(t, b, n, a, g.lo, j, i, g.hi);
    var d := |pend|;
    var all := pend + [big] + [small];
    assert (pend + [g])[d] == g && Halves(b, n, d, g);
    assert Halves(b, n, d, big) && Halves(b, n, d + 1, small);
    forall k, m | 0 <= k < m < |all|
      ensures Apart(all[k], all[m])
    {
      if k < d <= m {
        assert Apart((pend + [g])[k], (pend + [g])[d]);
      }
    }
    SplitContains(t, b, n, pend, g, j, i, big, small);
  }

  lemma SplitContains(t: seq<Id>, b: nat, n: nat, pend: seq<Segment>, g: Segment, j: nat, i: nat, big: Segment, small: Segment)
    requires n < |t|
    requires (big == Segment(g.lo, j - 1) && small == Segment(i, g.hi)) || (small == Segment(g.lo, j - 1) && big == Segment(i, g.hi))
    requires forall p :: b < p <= n + 1 ==> Cut(t, b, n, p) || Contained(pend, p) || g.lo < p <= g.hi
    requires forall p :: j <= p <= i ==> Cut(t, b, n, p)
    ensures forall p :: b < p <= n + 1 ==> Cut(t, b, n, p) || Contained(pend + [big] + [small], p)
  {
    var d := |pend|;
    var all := pend + [big] + [small];
    forall p | b < p <= n + 1 && !Cut(t, b, n, p)
      ensures Contained(all, p)
    {
      if Contained(pend, p) {
        var k :| 0 <= k < |pend| && pend[k].lo < p <= pend[k].hi;
        assert all[k] == pend[k];
      } else if big.lo < p <= big.hi {
        assert all[d] == big;
      } else {
        assert all[d + 1] == small;
      }
    }
  }

  lemma RoomShrinks(n: nat, level: nat)
    requires n <= MAX_SORT && 27 <= level
    ensures Room(n, level) <= 8
  {
    if level > 27 {
      RoomShrinks(n, level - 1);
    } else {
      ThreeLevels(n, 0, 0x800_0000);
      ThreeLevels(n, 3, 0x100_0000);
      ThreeLevels(n, 6, 0x20_0000);
      ThreeLevels(n, 9, 0x4_0000);
      ThreeLevels(n, 12, 0x8000);
      ThreeLevels(n, 15, 0x1000);
      ThreeLevels(n, 18, 0x200);
      ThreeLevels(n, 21, 0x40);
      ThreeLevels(n, 24, 8);
    }
  }

  lemma ThreeLevels(n: nat, level: nat, bound: nat)
    requires Room(n, level) <= 8 * bound
    ensures Room(n, level + 3) <= bound
  {
    assert Room(n, level + 1) <= 4 * bound;
    assert Room(n, level + 2) <= 2 * bound;
  }

  // A segment worth splitting sits low enough that its parts still fit on the stack.
  lemma StackNeverOverflows(b: nat, n: nat, level: nat, g: Segment)
    requires b <= n <= b + MAX_SORT && Halves(b, n, level, g) && g.lo + SMALL <= g.hi
    ensures 2 * level + 2 < STACK_SIZE
  {
    if level >= 27 {
      RoomShrinks(n - b, level);
    }
  }

  lemma AllCutsSorted(s: seq<Id>, b: nat, n: nat)
    requires b <= n < |s| && Progress(s, b, n, [])
    ensures Descending(s[b + 1..n + 1])
  {
    var d := s[b + 1..n + 1];
    forall x, y | 0 <= x < y < |d|
      ensures d[x] >= d[y]
    {
      assert Cut(s, b, n, b + 1 + y) || Contained([], b + 1 + y);
      assert s[b + 1 + x] >= s[b + 1 + y];
    }
  }

  lemma OneSegmentToSort(s: seq<Id>, b: nat, n: nat)
    requires b <= n < |s|
    ensures Progress(s, b, n, [] + [Segment(b + 1, n)])
  {
    assert [] + [Segment(b + 1, n)] == [Segment(b + 1, n)];
    forall p | b < p <= n + 1
      ensures Cut(s, b, n, p) || Contained([Segment(b + 1, n)], p)
    {
      if b + 1 < p <= n {
        assert [Segment(b + 1, n)][0].lo < p <= [Segment(b + 1, n)][0].hi;
      }
    }
  }

  lemma TopOf(b: nat, n: nat, s: seq<Id>, pend: seq<Segment>, g: Segment)
    requires b <= n < |s| && Progress(s, b, n, pend + [g])
    ensures Inside(b, n, g) && Halves(b, n, |pend|, g) && Cut(s, b, n, g.lo) && Cut(s, b, n, g.hi + 1)
  {
    assert (pend + [g])[|pend|] == g;
  }

  lemma WorkOfTop(pend: seq<Segment>, g: Segment)
    ensures Work(pend + [g]) == Work(pend) + 1 + if g.lo <= g.hi then 2 * (g.hi - g.lo + 1) else 0
  {
    assert (pend + [g])[..|pend|] == pend;
  }

  // istack[1..jstack] holds the waiting segments.
  ghost predicate OnStack(istack: array<int>, jstack: int, pend: seq<Segment>)
    reads istack
  {
    && istack.Length == STACK_SIZE && 0 <= jstack < STACK_SIZE && jstack == 2 * |pend|
    && forall k :: 0 <= k < |pend| ==> pend[k] == Segment(istack[2 * k + 1], istack[2 * k + 2])
  }

  // One round on a segment too large for insertion sort: partition it, push the larger
  // part and go on with the smaller one.
  method SplitSegment(ids: array<Id>, istack: array<int>, jstack: int, l: nat, ir: int, ghost b: nat, ghost n: nat, ghost pend: seq<Segment>)
    returns (jstack': int, l': int, ir': int, ghost pend': seq<Segment>)
    requires b <= n < ids.Length && n <= b + MAX_SORT && l + SMALL <= ir
    requires OnStack(istack, jstack, pend) && Progress(ids[..], b, n, pend + [Segment(l, ir)])
    modifies ids, istack
    ensures Inside(b, n, Segment(l, ir)) && PermutedWithin(old(ids[..]), ids[..], l, ir)
    ensures OnStack(istack, jstack', pend') && Progress(ids[..], b, n, pend' + [Segment(l', ir')])
    ensures Work(pend' + [Segment(l', ir')]) < Work(pend + [Segment(l, ir)])
  {
    hide Cut, Progress, Halves, Work, Room;
    ghost var s := ids[..];
    ghost var g := Segment(l, ir);
    TopOf(b, n, s, pend, g);
    StackNeverOverflows(b, n, |pend|, g);
    var i, j, a := Partition(ids, l, ir);
    l', ir', jstack' := l, ir, jstack + 2;
    if ir - i + 1 >= j - l {
      istack[jstack'] := ir;
      istack[jstack' - 1] := i;
      ir' := j - 1;
    } else {
      istack[jstack'] := j - 1;
      istack[jstack' - 1] := l;
      l' := i;
    }
    ghost var big := Segment(istack[jstack' - 1], istack[jstack']);
    pend' := pend + [big];
    SegmentSplit(s, ids[..], b, n, pend, g, a, j, i, big, Segment(l', ir'));
    WorkOfTop(pend, g);
    WorkOfTop(pend, big);
    WorkOfTop(pend', Segment(l', ir'));
  }

  // mdb_midl_sort on the list whose count is at ids[b]. Segment bounds are C ints and
  // their sum is formed, so twice the count has to be an int.
  method Sort(ids: array<Id>, b: nat := 0)
    requires IsIdl(ids, b) && ids[b] <= MAX_SORT
    modifies ids
    ensures IsIdl(ids, b) && ids[b] == old(ids[b])
    ensures Descending(Contents(ids, b))
    ensures multiset(Contents(ids, b)) == multiset(old(Contents(ids, b)))
    ensures forall x :: 0 <= x < b || b + ids[b] < x < ids.Length ==> ids[x] == old(ids[x])
  {
    hide Cut, Progress, Halves, Work, Descending, PermutedWithin;
    var istack := new int[STACK_SIZE];
    ghost var was := ids[..];
    ghost var n := b + ids[b];
    var ir: int, l: int := b + ids[b], b + 1;
    var jstack := 0;
    ghost var pend: seq<Segment> := [];
    OneSegmentToSort(was, b, n);
    UnchangedWithin(was, b + 1, n);
    while true
      invariant OnStack(istack, jstack, pend)
      invariant n < ids.Length && PermutedWithin(was, ids[..], b + 1, n)
      invariant Progress(ids[..], b, n, pend + [Segment(l, ir)])
      decreases Work(pend + [Segment(l, ir)])
    {
      ghost var s := ids[..];
      TopOf(b, n, s, pend, Segment(l, ir));
      if ir - l < SMALL {
        InsertionPass(ids, b, n, l, ir);
        SegmentSorted(s, ids[..], b, n, pend, Segment(l, ir));
        StepKeepsPermutation(was, s, ids[..], l, ir, b, n);
        WorkOfTop(pend, Segment(l, ir));
        if jstack == 0 {
          assert pend == [];
          break;
        }
        ir := istack[jstack];
        jstack := jstack - 1;
        l := istack[jstack];
        jstack := jstack - 1;
        assert pend == pend[..|pend| - 1] + [Segment(l, ir)];
        pend := pend[..|pend| - 1];
      } else {
        ghost var g := Segment(l, ir);
        jstack, l, ir, pend := SplitSegment(ids, istack, jstack, l, ir, b, n, pend);
        StepKeepsPermutation(was, s, ids[..], g.lo, g.hi, b, n);
      }
    }
    AllCutsSorted(ids[..], b, n);
    OnlyPermuted(was, ids[..], b, n);
  }

  lemma OnlyPermuted(was: seq<Id>, s: seq<Id>, b: nat, n: nat)
    requires b <= n < |was| && PermutedWithin(was, s, b + 1, n)
    ensures |s| == |was| && multiset(s[b + 1..n + 1]) == multiset(was[b + 1..n + 1])
    ensures forall x :: 0 <= x <= b || n < x < |was| ==> s[x] == was[x]
  {
  }

  lemma HeadIsLargest(s: seq<Id>, t: seq<Id>)
    requires Descending(s) && multiset(s) == multiset(t) && t != []
    ensures s != [] && t[0] <= s[0]
  {
    assert t[0] in multiset(t);
    assert t[0] in s;
  }

  lemma EqualTails(s: seq<Id>, t: seq<Id>)
    requires s != [] && t != [] && s[0] == t[0] && multiset(s) == multiset(t)
    ensures multiset(s[1..]) == multiset(t[1..])
  {
    assert s == [s[0]] + s[1..] && t == [s[0]] + t[1..];
    assert multiset(s[1..]) == multiset(s) - multiset{s[0]};
    assert multiset(t[1..]) == multiset(t) - multiset{s[0]};
  }

  // Sorting leaves nothing open: a descending arrangement of given IDs is unique.
  lemma {:induction false} SortedIsUnique(s: seq<Id>, t: seq<Id>)
    requires Descending(s) && Descending(t) && multiset(s) == multiset(t)
    ensures s == t
  {
    if s == [] {
      assert |multiset(t)| == 0;
    } else {
      HeadIsLargest(t, s);
      HeadIsLargest(s, t);
      EqualTails(s, t);
      SortedIsUnique(s[1..], t[1..]);
      assert s == [s[0]] + s[1..] && t == [s[0]] + t[1..];
    }
  }
}
