// Runs of consecutive pages in me_pghead (mdb_page_alloc, mdb_ovpage_free), and what
// mdb_freelist_save does with the list at commit.

module FreeList {
  import opened Midl
  import opened MidlSort

  // The pages p .. p + num - 1 are all in s.
  ghost predicate HasRun(s: seq<Id>, p: nat, num: nat) {
    forall q :: p <= q < p + num ==> q in s
  }

  // num consecutive pages end at index k: the test mop[i - n2] == pgno + n2.
  ghost predicate RunEndsAt(s: seq<Id>, k: int, num: nat) {
    0 < num <= k + 1 <= |s| && s[k + 1 - num] == s[k] + num - 1
  }

  // In a strictly descending list that one comparison is exact: it finds runs and only runs.
  lemma RunIsConsecutive(s: seq<Id>, k: nat, num: nat)
    requires StrictlyDescending(s) && RunEndsAt(s, k, num)
    ensures forall m :: k + 1 - num <= m <= k ==> s[m] == s[k] + (k - m)
    ensures HasRun(s, s[k], num)
  {
    forall m | k + 1 - num <= m <= k
      ensures s[m] == s[k] + (k - m)
    {
      GapsAtLeastOne(s, k + 1 - num, m);
      GapsAtLeastOne(s, m, k);
    }
    forall q | s[k] <= q < s[k] + num
      ensures q in s
    {
      var m := k - (q - s[k]);
      assert s[m] == q;
    }
  }

  lemma {:induction false} GapsAtLeastOne(s: seq<Id>, i: nat, j: nat)
    requires StrictlyDescending(s) && i <= j < |s|
    ensures s[i] - s[j] >= j - i
    decreases j - i
  {
    if i < j {
      GapsAtLeastOne(s, i + 1, j);
    }
  }

  lemma {:induction false} ConsecutiveIsRun(s: seq<Id>, p: nat, num: nat) returns (k: nat)
    requires StrictlyDescending(s) && 0 < num && HasRun(s, p, num)
    ensures k < |s| && s[k] == p && RunEndsAt(s, k, num)
    decreases num
  {
    if num == 1 {
      assert p in s;
      k :| 0 <= k < |s| && s[k] == p;
    } else {
      assert p in s;
      k :| 0 <= k < |s| && s[k] == p;
      var k1 := ConsecutiveIsRun(s, p + 1, num - 1);
      assert k1 < k;
      GapsAtLeastOne(s, k1, k);
    }
  }

  // The run search of mdb_page_alloc, from the tail, where the smallest pages are.
  method FindRun(mop: array<Id>, num: nat) returns (i: nat)
    requires IsIdl(mop) && StrictlyDescending(Contents(mop)) && 0 < num
    ensures i <= mop[0]
    ensures i > 0 ==> num <= i && mop[i + 1 - num] == mop[i] + num - 1
    ensures i > 0 ==> HasRun(Contents(mop), mop[i], num)
    ensures i > 0 ==> forall p :: HasRun(Contents(mop), p, num) ==> mop[i] <= p
    ensures i == 0 ==> forall p :: !HasRun(Contents(mop), p, num)
  {
    hide HasRun, StrictlyDescending;
    ghost var s := Contents(mop);
    var mopLen, n2 := mop[0], num - 1;
    i := 0;
    if mopLen > n2 {
      i := mopLen;
      while true
        invariant n2 < i <= mopLen
        invariant forall k :: i <= k < mopLen ==> !RunEndsAt(s, k, num)
        decreases i
      {
        var pgno := mop[i];
        if mop[i - n2] == pgno + n2 {
          assert RunEndsAt(s, i - 1, num);
          RunIsConsecutive(s, i - 1, num);
          NoEarlierRun(s, i - 1, num);
          return;
        }
        i := i - 1;
        if i <= n2 {
          break;
        }
      }
      i := 0;
    }
    NoRun(s, num);
  }

  lemma NoRun(s: seq<Id>, num: nat)
    requires StrictlyDescending(s) && 0 < num
    requires forall m :: num <= m + 1 <= |s| ==> !RunEndsAt(s, m, num)
    ensures forall p :: !HasRun(s, p, num)
  {
    forall p
      ensures !HasRun(s, p, num)
    {
      if HasRun(s, p, num) {
        var k := ConsecutiveIsRun(s, p, num);
      }
    }
  }

  lemma NoEarlierRun(s: seq<Id>, k: nat, num: nat)
    requires StrictlyDescending(s) && k < |s| && 0 < num
    requires forall m :: k < m < |s| ==> !RunEndsAt(s, m, num)
    ensures forall p :: HasRun(s, p, num) ==> s[k] <= p
  {
    forall p | HasRun(s, p, num)
      ensures s[k] <= p
    {
      var m := ConsecutiveIsRun(s, p, num);
      assert m <= k;
    }
  }

  // The list without the num entries that end at (1-based) position i.
  function WithoutRun(s: seq<Id>, i: nat, num: nat): seq<Id>
    requires num <= i <= |s|
  {
    s[..i - num] + s[i..]
  }

  // The removal in mdb_page_alloc: the stragglers move down over the taken entries.
  method TakeRun(mop: array<Id>, i: nat, num: nat)
    requires IsIdl(mop) && 0 < num <= i <= mop[0]
    modifies mop
    ensures IsIdl(mop) && mop[0] == old(mop[0]) - num
    ensures Contents(mop) == WithoutRun(old(Contents(mop)), i, num)
  {
    var mopLen: nat := mop[0] - num;
    mop[0] := mopLen;
    var j: nat, k: nat := i - num, i;
    while j < mopLen
      invariant i - num <= j <= mopLen && k == j + num
      invariant mop[0] == mopLen
      invariant forall m :: 1 <= m <= i - num ==> mop[m] == old(mop[m])
      invariant forall m :: i - num < m <= j ==> mop[m] == old(mop[m + num])
      invariant forall m :: j < m < mop.Length ==> mop[m] == old(mop[m])
    {
      j, k := j + 1, k + 1;
      mop[j] := mop[k];
    }
    ghost var r := WithoutRun(old(Contents(mop)), i, num);
    assert forall m :: 1 <= m <= mopLen ==> mop[m] == r[m - 1];
  }

  // How many entries of a descending list are at least pg.
  function CountAbove(s: seq<Id>, pg: Id): (c: nat)
    ensures c <= |s|
  {
    if s != [] && s[|s| - 1] < pg then CountAbove(s[..|s| - 1], pg) else |s|
  }

  function WithRun(s: seq<Id>, pg: Id, num: nat): seq<Id>
    requires pg + num <= MAX_ID + 1
  {
    s[..CountAbove(s, pg)] + RangeDesc(pg, num) + s[CountAbove(s, pg)..]
  }

  lemma CountAboveStep(s: seq<Id>, i: nat, pg: Id)
    requires i <= |s|
    ensures i > 0 && s[i - 1] < pg ==> CountAbove(s[..i], pg) == CountAbove(s[..i - 1], pg)
    ensures i == 0 || s[i - 1] >= pg ==> CountAbove(s[..i], pg) == i
  {
    if i > 0 {
      assert s[..i][..i - 1] == s[..i - 1];
    }
  }

  // The insertion in mdb_ovpage_free: the smaller pages move up, the freed range goes in.
  method PutRun(mop: array<Id>, pg: Id, num: nat)
    requires IsIdl(mop) && mop[0] + num <= AllocLen(mop) && pg + num <= MAX_ID + 1
    modifies mop
    ensures IsIdl(mop) && mop[0] == old(mop[0]) + num
    ensures Contents(mop) == WithRun(old(Contents(mop)), pg, num)
  {
    hide CountAbove;
    ghost var s := Contents(mop);
    var len := mop[0];
    var j := mop[0] + num;
    var i := mop[0];
    assert s[..i] == s;
    while i > 0 && mop[i] < pg
      invariant i <= len && j == i + num
      invariant CountAbove(s, pg) == CountAbove(s[..i], pg)
      invariant mop[0] == len
      invariant forall m :: 1 <= m <= i ==> mop[m] == s[m - 1]
      invariant forall m :: j < m <= len + num ==> mop[m] == s[m - num - 1]
    {
      CountAboveStep(s, i, pg);
      mop[j] := mop[i];
      i, j := i - 1, j - 1;
    }
    CountAboveStep(s, i, pg);
    FillRange(mop, i, num, pg);
    mop[0] := mop[0] + num;
    WithRunIs(s, pg, num, i, mop[1..len + num + 1]);
  }

  lemma WithRunIs(s: seq<Id>, pg: Id, num: nat, i: nat, r: seq<Id>)
    requires pg + num <= MAX_ID + 1 && i == CountAbove(s, pg) && |r| == |s| + num
    requires forall m :: 0 <= m < i ==> r[m] == s[m]
    requires forall m :: i <= m < i + num ==> r[m] == pg + (i + num - m - 1)
    requires forall m :: i + num <= m < |r| ==> r[m] == s[m - num]
    ensures r == WithRun(s, pg, num)
  {
  }

  // The second loop of the insertion: pg, pg + 1, ... from position i + num down to i + 1.
  method FillRange(mop: array<Id>, i: nat, num: nat, pg: Id)
    requires i + num < mop.Length
    modifies mop
    ensures forall m :: 0 <= m <= i || i + num < m < mop.Length ==> mop[m] == old(mop[m])
    ensures forall m :: i < m <= i + num ==> mop[m] == pg + (i + num - m)
  {
    var j, next := i + num, pg;
    while j > i
      invariant i <= j <= i + num && next == pg + (i + num - j)
      invariant forall m :: 0 <= m <= j || i + num < m < mop.Length ==> mop[m] == old(mop[m])
      invariant forall m :: j < m <= i + num ==> mop[m] == pg + (i + num - m)
    {
      mop[j] := next;
      j, next := j - 1, next + 1;
    }
  }

  // Taking a run out and putting it back restores the list, entry by entry.
  lemma PutUndoesTake(s: seq<Id>, k: nat, num: nat)
    requires StrictlyDescending(s) && RunEndsAt(s, k, num) && s[k] + num <= MAX_ID + 1
    ensures WithRun(WithoutRun(s, k + 1, num), s[k], num) == s
  {
    RunIsConsecutive(s, k, num);
    var t := WithoutRun(s, k + 1, num);
    CountAboveSplit(t, k + 1 - num, s[k]);
  }

  // Where a descending list has exactly its first c entries at or above pg, c is the count.
  lemma {:induction false} CountAboveSplit(s: seq<Id>, c: nat, pg: Id)
    requires c <= |s|
    requires forall m :: 0 <= m < c ==> s[m] >= pg
    requires forall m :: c <= m < |s| ==> s[m] < pg
    ensures CountAbove(s, pg) == c
  {
    if c < |s| {
      CountAboveSplit(s[..|s| - 1], c, pg);
    }
  }

  // Putting a range that was not in the list and taking it out again also restores it, and
  // in between the list holds exactly the old pages and the new range, in order.
  lemma TakeUndoesPut(s: seq<Id>, pg: Id, num: nat)
    requires StrictlyDescending(s) && 0 < num && pg + num <= MAX_ID + 1
    requires forall q :: pg <= q < pg + num ==> q !in s
    ensures var r := WithRun(s, pg, num);
      && StrictlyDescending(r)
      && (forall q :: q in r <==> q in s || pg <= q < pg + num)
      && RunEndsAt(r, CountAbove(s, pg) + num - 1, num)
      && WithoutRun(r, CountAbove(s, pg) + num, num) == s
  {
    WithRunOrder(s, pg, num);
    WithRunTaken(s, pg, num);
    hide CountAbove, StrictlyDescending, WithRun, WithoutRun, RunEndsAt;
    forall q
      ensures q in WithRun(s, pg, num) <==> q in s || pg <= q < pg + num
    {
      InWithRun(s, pg, num, q);
    }
  }

  lemma WithRunOrder(s: seq<Id>, pg: Id, num: nat)
    requires StrictlyDescending(s) && pg + num <= MAX_ID + 1
    requires forall q :: pg <= q < pg + num ==> q !in s
    ensures StrictlyDescending(WithRun(s, pg, num))
  {
    CountAboveBounds(s, pg);
    hide CountAbove;
    forall m | 0 <= m < CountAbove(s, pg)
      ensures s[m] >= pg + num
    {
      assert s[m] in s;
    }
  }

  lemma WithRunTaken(s: seq<Id>, pg: Id, num: nat)
    requires 0 < num && pg + num <= MAX_ID + 1
    ensures var r, c := WithRun(s, pg, num), CountAbove(s, pg) + num;
            RunEndsAt(r, c - 1, num) && WithoutRun(r, c, num) == s
  {
    hide CountAbove;
  }

  lemma InWithRun(s: seq<Id>, pg: Id, num: nat, q: int)
    requires pg + num <= MAX_ID + 1
    ensures q in WithRun(s, pg, num) <==> q in s || pg <= q < pg + num
  {
    hide CountAbove;
    var c := CountAbove(s, pg);
    if pg <= q < pg + num {
      assert RangeDesc(pg, num)[pg + num - 1 - q] == q;
    }
    assert s == s[..c] + s[c..];
  }

  lemma {:induction false} CountAboveBounds(s: seq<Id>, pg: Id)
    requires StrictlyDescending(s)
    ensures forall m :: 0 <= m < CountAbove(s, pg) ==> s[m] >= pg
    ensures forall m :: CountAbove(s, pg) <= m < |s| ==> s[m] < pg
  {
    if s != [] && s[|s| - 1] < pg {
      CountAboveBounds(s[..|s| - 1], pg);
    }
  }

  // What a removal leaves: the other pages, still in order.
  lemma TakeRemovesExactlyRun(s: seq<Id>, k: nat, num: nat)
    requires StrictlyDescending(s) && RunEndsAt(s, k, num)
    ensures StrictlyDescending(WithoutRun(s, k + 1, num))
    ensures forall q :: q in WithoutRun(s, k + 1, num) <==> q in s && !(s[k] <= q < s[k] + num)
  {
    RunIsConsecutive(s, k, num);
    var t := WithoutRun(s, k + 1, num);
    forall q
      ensures q in t <==> q in s && !(s[k] <= q < s[k] + num)
    {
      if q in s {
        var m :| 0 <= m < |s| && s[m] == q;
        if m < k + 1 - num {
          assert t[m] == q;
        } else if m > k {
          assert t[m - num] == q;
        }
      }
    }
  }

  // --- mdb_freelist_save: loose pages ---

  // The loose pages, collected into a temporary list in the array's own tail, sorted there
  // and merged down. The reservation made first keeps the two from ever overlapping.
  method ReturnLoose(mop: array<Id>, loosePgs: seq<Id>) returns (r: array<Id>)
    requires IsIdl(mop) && Descending(Contents(mop))
    requires |loosePgs| <= MAX_SORT && forall id :: id in loosePgs ==> id <= MAX_ID
    modifies mop
    ensures IsIdl(r) && Descending(Contents(r))
    ensures multiset(Contents(r)) == multiset(old(Contents(mop))) + multiset(loosePgs)
    ensures r == mop || fresh(r)
  {
    hide Descending, MergeDesc;
    ghost var x := Contents(mop);
    var count := |loosePgs|;
    r := Need(mop, 2 * count + 1);
    var base: nat := AllocLen(r) - count;
    CollectLoose(r, base, loosePgs);
    SortTail(r, base, x, loosePgs);
    ghost var y := Contents(r, base);
    XMerge(r, r, base);
    MergeKeepsAll(x, y);
    MergeSorted(x, y);
  }

  method SortTail(mop: array<Id>, base: nat, ghost x: seq<Id>, ghost loosePgs: seq<Id>)
    requires IsIdl(mop) && IsIdl(mop, base) && mop[0] < base && mop[base] <= MAX_SORT
    requires Contents(mop) == x && Contents(mop, base) == loosePgs && forall id :: id in loosePgs ==> id <= MAX_ID
    modifies mop
    ensures IsIdl(mop) && Contents(mop) == x && mop[0] == old(mop[0])
    ensures IsIdl(mop, base) && mop[base] == old(mop[base])
    ensures Descending(Contents(mop, base)) && multiset(Contents(mop, base)) == multiset(loosePgs)
    ensures forall id :: id in Contents(mop, base) ==> id <= MAX_ID
  {
    hide Descending;
    assert forall k :: 0 <= k < |x| ==> mop[k + 1] == x[k];
    Sort(mop, base);
    ghost var y := Contents(mop, base);
    assert multiset(y) == multiset(loosePgs);
    forall id | id in y
      ensures id <= MAX_ID
    {
      assert id in multiset(y);
      assert id in multiset(loosePgs);
      assert id in loosePgs;
    }
  }

  method CollectLoose(mop: array<Id>, base: nat, loosePgs: seq<Id>)
    requires IsIdl(mop) && mop[0] < base && base + |loosePgs| < mop.Length
    modifies mop
    ensures IsIdl(mop) && mop[0] == old(mop[0]) && Contents(mop) == old(Contents(mop))
    ensures IsIdl(mop, base) && mop[base] == |loosePgs| && Contents(mop, base) == loosePgs
  {
    var count := 0;
    while count < |loosePgs|
      invariant 0 <= count <= |loosePgs|
      invariant forall m :: 0 <= m <= base ==> mop[m] == old(mop[m])
      invariant forall m :: base < m <= base + count ==> mop[m] == loosePgs[m - base - 1]
    {
      count := count + 1;
      mop[base + count] := loosePgs[count - 1];
    }
    mop[base] := count;
  }

  // --- mdb_freelist_save: filling the reserved records ---

  function Sum(rooms: seq<nat>): nat {
    if rooms == [] then 0 else rooms[0] + Sum(rooms[1..])
  }

  // The records put back together: the first one written holds the smallest pages.
  function Gathered(recs: seq<seq<Id>>): seq<Id> {
    if recs == [] then [] else Gathered(recs[1..]) + recs[0]
  }

  lemma {:induction false} GatheredSnoc(recs: seq<seq<Id>>, last: seq<Id>)
    ensures Gathered(recs + [last]) == last + Gathered(recs)
  {
    if recs == [] {
      assert [] + [last] == [last];
    } else {
      assert (recs + [last])[1..] == recs[1..] + [last];
      GatheredSnoc(recs[1..], last);
    }
  }

  // One record: the len IDs after position p, written as a list whose count overwrites the
  // slot at p for the duration of the write.
  method PutRecord(mop: array<Id>, p: nat, len: nat, ghost was: seq<Id>) returns (rec: seq<Id>)
    requires p + len < mop.Length && mop[..] == was
    modifies mop
    ensures mop[..] == was
    ensures rec == was[p + 1..p + 1 + len]
  {
    var save := mop[p];
    mop[p] := len;
    rec := mop[p + 1..p + 1 + mop[p]];  // the record's data: MDB_IDL_SIZEOF(mop + p) bytes
    mop[p] := save;
    assert mop[..] == was;
  }

  lemma GatheredOn(s: seq<Id>, recs: seq<seq<Id>>, a: nat, b: nat, c: nat)
    requires a <= b <= c <= |s| && Gathered(recs) == s[b..c]
    ensures Gathered(recs + [s[a..b]]) == s[a..c]
  {
    GatheredSnoc(recs, s[a..b]);
    JoinSlices(s, a, b, c);
  }

  lemma NoRecords()
    ensures Gathered([]) == [] && Sum([]) == 0
  {
  }

  lemma SumOn(rooms: seq<nat>, k: nat)
    requires k < |rooms|
    ensures Sum(rooms[k..]) == rooms[k] + Sum(rooms[k + 1..])
  {
    assert rooms[k..][1..] == rooms[k + 1..];
  }

  lemma JoinSlices(s: seq<Id>, a: nat, b: nat, c: nat)
    requires a <= b <= c <= |s|
    ensures s[a..c] == s[a..b] + s[b..c]
  {
  }

  // Fill the reserved records, in cursor order, from the tail of me_pghead; rooms are their
  // capacities. found is false if the cursor runs out of records first.
  method FillRecords(mop: array<Id>, rooms: seq<nat>) returns (recs: seq<seq<Id>>, found: bool)
    requires IsIdl(mop)
    modifies mop
    ensures mop[..] == old(mop[..])
    ensures |recs| <= |rooms| && forall k :: 0 <= k < |recs| ==> |recs[k]| <= rooms[k]
    ensures found <==> mop[0] <= Sum(rooms)
    ensures found ==> Gathered(recs) == Contents(mop)
  {
    hide Sum, Gathered;
    recs, found := [], true;
    NoRecords();
    ghost var was := mop[..];
    var mopLen := mop[0];
    if mopLen == 0 {
      return;
    }
    var p: nat := mopLen;
    var k := 0;
    assert rooms[0..] == rooms;
    assert was[p + 1..mopLen + 1] == [];
    while k < |rooms|
      invariant 0 <= k <= |rooms| && |recs| == k && p == mopLen > 0
      invariant mop[..] == was
      invariant forall m :: 0 <= m < k ==> |recs[m]| <= rooms[m]
      invariant was[0] <= Sum(rooms) <==> mopLen <= Sum(rooms[k..])
      invariant p <= was[0] && Gathered(recs) == was[p + 1..was[0] + 1]
    {
      var len := if rooms[k] > mopLen then mopLen else rooms[k];
      p := p - len;
      var rec := PutRecord(mop, p, len, was);
      GatheredOn(was, recs, p + 1, p + 1 + len, was[0] + 1);
      SumOn(rooms, k);
      recs := recs + [rec];
      mopLen := mopLen - len;
      k := k + 1;
      if mopLen == 0 {
        return;
      }
    }
    assert rooms[k..] == [];
    found := false;
  }

  // Every record of a descending list is itself descending, so it can be merged back later.
  lemma {:induction false} GatheredParts(recs: seq<seq<Id>>, k: nat)
    requires StrictlyDescending(Gathered(recs)) && k < |recs|
    ensures StrictlyDescending(recs[k])
    ensures forall m, q :: k < m < |recs| && q in recs[m] ==> q !in recs[k]
  {
    var g := Gathered(recs[1..]);
    assert Gathered(recs)[..|g|] == g && Gathered(recs)[|g|..] == recs[0];
    if k > 0 {
      GatheredParts(recs[1..], k - 1);
      assert recs[1..][k - 1] == recs[k];
      forall m, q | k < m < |recs| && q in recs[m]
        ensures q !in recs[k]
      {
        assert recs[1..][m - 1] == recs[m];
      }
    } else {
      forall m, q | 0 < m < |recs| && q in recs[m]
        ensures q !in recs[0]
      {
        assert recs[1..][m - 1] == recs[m];
        InGathered(recs[1..], m - 1, q);
        PartsDisjoint(g, recs[0], q);
      }
    }
  }

  lemma PartsDisjoint(g: seq<Id>, t: seq<Id>, q: Id)
    requires StrictlyDescending(g + t) && q in g
    ensures q !in t
  {
    var i :| 0 <= i < |g| && g[i] == q;
    forall j | 0 <= j < |t|
      ensures t[j] < q
    {
      assert (g + t)[i] > (g + t)[|g| + j];
    }
  }

  lemma {:induction false} InGathered(recs: seq<seq<Id>>, k: nat, q: Id)
    requires k < |recs| && q in recs[k]
    ensures q in Gathered(recs)
  {
    if k > 0 {
      assert recs[1..][k - 1] == recs[k];
      InGathered(recs[1..], k - 1, q);
    }
  }
}
