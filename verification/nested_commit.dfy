// Commit of a nested transaction: the child's dirty list is merged into the parent's in
// place, and the child's pages leave the parent's spill list.

module NestedCommit {
  import opened Midl
  import opened DirtyList

  function Front<T>(s: seq<T>): seq<T>
    requires s != []
  {
    s[..|s| - 1]
  }

  function Last<T>(s: seq<T>): T
    requires s != []
  {
    s[|s| - 1]
  }

  // The union of a parent's and a child's list, built from the large end. Of two entries
  // for one page the child's stays.
  function MergeDirty(p: seq<Id2>, c: seq<Id2>): seq<Id2>
    decreases |p| + |c|
  {
    if c == [] then p
    else if p != [] && Last(c).mid < Last(p).mid then MergeDirty(Front(p), c) + [Last(p)]
    else if p != [] && Last(c).mid == Last(p).mid then MergeDirty(Front(p), Front(c)) + [Last(c)]
    else MergeDirty(p, Front(c)) + [Last(c)]
  }

  lemma {:induction false} PageMapBound(s: seq<Id2>, bound: Id)
    requires Ascending(s) && (s == [] || Last(s).mid < bound)
    ensures forall id :: id in PageMap(s) ==> id < bound
  {
    forall id | id in PageMap(s)
      ensures id < bound
    {
      PageMapKeys(s, id);
    }
  }

  lemma FrontFacts(s: seq<Id2>)
    requires s != [] && Ascending(s)
    ensures Ascending(Front(s)) && (Front(s) != [] ==> Last(Front(s)).mid < Last(s).mid)
    ensures PageMap(s) == PageMap(Front(s))[Last(s).mid := Last(s).mptr]
    ensures forall id :: id in PageMap(Front(s)) ==> id < Last(s).mid
    ensures forall id :: id in PageMap(s) ==> id <= Last(s).mid
  {
    PageMapBound(Front(s), Last(s).mid);
  }

  lemma MapSnoc(s: seq<Id2>, e: Id2)
    ensures PageMap(s + [e]) == PageMap(s)[e.mid := e.mptr]
  {
    assert (s + [e])[..|s|] == s;
  }

  // As maps from page number to page, the merge is the parent's map overridden by the child's.
  lemma {:induction false} MergeOverrides(p: seq<Id2>, c: seq<Id2>)
    requires Ascending(p) && Ascending(c)
    ensures PageMap(MergeDirty(p, c)) == PageMap(p) + PageMap(c)
    decreases |p| + |c|
  {
    hide PageMap, Ascending;
    if c == [] {
      EmptyMap(c);
    } else {
      FrontFacts(c);
      if p != [] {
        FrontFacts(p);
      }
      if p != [] && Last(c).mid < Last(p).mid {
        MergeOverrides(Front(p), c);
        MapSnoc(MergeDirty(Front(p), c), Last(p));
      } else if p != [] && Last(c).mid == Last(p).mid {
        MergeOverrides(Front(p), Front(c));
        MapSnoc(MergeDirty(Front(p), Front(c)), Last(c));
      } else {
        MergeOverrides(p, Front(c));
        MapSnoc(MergeDirty(p, Front(c)), Last(c));
      }
    }
  }

  lemma EmptyMap(s: seq<Id2>)
    requires s == []
    ensures PageMap(s) == map[]
  {
  }

  // The merged list is strictly ascending again, so every page occurs once.
  lemma {:induction false} MergeAscending(p: seq<Id2>, c: seq<Id2>)
    requires Ascending(p) && Ascending(c)
    ensures Ascending(MergeDirty(p, c))
    decreases |p| + |c|
  {
    hide PageMap, Ascending;
    if c != [] {
      FrontFacts(c);
      if p != [] {
        FrontFacts(p);
      }
      if p != [] && Last(c).mid < Last(p).mid {
        MergeAscending(Front(p), c);
        MergeBelow(Front(p), c, Last(p));
      } else if p != [] && Last(c).mid == Last(p).mid {
        MergeAscending(Front(p), Front(c));
        MergeBelow(Front(p), Front(c), Last(c));
      } else {
        MergeAscending(p, Front(c));
        MergeBelow(p, Front(c), Last(c));
      }
    }
  }

  lemma MergeBelow(p: seq<Id2>, c: seq<Id2>, e: Id2)
    requires Ascending(p) && Ascending(c) && Ascending(MergeDirty(p, c))
    requires (p == [] || Last(p).mid < e.mid) && (c == [] || Last(c).mid < e.mid)
    ensures Ascending(MergeDirty(p, c) + [e])
  {
    hide MergeDirty, PageMap;
    var r := MergeDirty(p, c);
    MergeOverrides(p, c);
    PageMapBound(p, e.mid);
    PageMapBound(c, e.mid);
    forall k | 0 <= k < |r|
      ensures r[k].mid < e.mid
    {
      assert HasPage(r, r[k].mid);
      PageMapKeys(r, r[k].mid);
    }
  }

  // The parent's copies of pages that are in both lists, largest page first.
  function Hidden(p: seq<Id2>, c: seq<Id2>): seq<int>
    decreases |p| + |c|
  {
    if c == [] || p == [] then []
    else if Last(c).mid < Last(p).mid then Hidden(Front(p), c)
    else if Last(c).mid == Last(p).mid then [Last(p).mptr] + Hidden(Front(p), Front(c))
    else Hidden(p, Front(c))
  }

  lemma {:induction false} MergeLength(p: seq<Id2>, c: seq<Id2>)
    ensures |MergeDirty(p, c)| + |Hidden(p, c)| == |p| + |c|
    ensures |p| <= |MergeDirty(p, c)|
    decreases |p| + |c|
  {
    if c == [] {
    } else if p != [] && Last(c).mid < Last(p).mid {
      MergeLength(Front(p), c);
    } else if p != [] && Last(c).mid == Last(p).mid {
      MergeLength(Front(p), Front(c));
    } else {
      MergeLength(p, Front(c));
    }
  }

  function Pages(s: seq<Id2>): multiset<int> {
    if s == [] then multiset{} else Pages(s[..|s| - 1]) + multiset{s[|s| - 1].mptr}
  }

  lemma PagesSnoc(s: seq<Id2>, e: Id2)
    ensures Pages(s + [e]) == Pages(s) + multiset{e.mptr}
  {
    assert (s + [e])[..|s|] == s;
  }

  lemma PagesFront(s: seq<Id2>)
    ensures s != [] ==> Pages(s) == Pages(Front(s)) + multiset{Last(s).mptr}
  {
  }

  // No page buffer is leaked or freed twice: each is either kept or hidden, once.
  lemma {:induction false} MergeKeepsOrFreesEachPage(p: seq<Id2>, c: seq<Id2>)
    ensures Pages(MergeDirty(p, c)) + multiset(Hidden(p, c)) == Pages(p) + Pages(c)
    decreases |p| + |c|
  {
    hide Pages;
    PagesFront(p);
    PagesFront(c);
    if c == [] {
      NoPages(c);
      assert MergeDirty(p, c) == p && Hidden(p, c) == [];
      assert multiset(Hidden(p, c)) == multiset{};
    } else if p != [] && Last(c).mid < Last(p).mid {
      MergeKeepsOrFreesEachPage(Front(p), c);
      PagesSnoc(MergeDirty(Front(p), c), Last(p));
      Regroup(Pages(MergeDirty(Front(p), c)), multiset(Hidden(p, c)), Pages(Front(p)), Pages(c), multiset{Last(p).mptr}, multiset{});
    } else if p != [] && Last(c).mid == Last(p).mid {
      var h := Hidden(Front(p), Front(c));
      MergeKeepsOrFreesEachPage(Front(p), Front(c));
      PagesSnoc(MergeDirty(Front(p), Front(c)), Last(c));
      ConsMultiset(Last(p).mptr, h);
      Regroup(Pages(MergeDirty(Front(p), Front(c))), multiset(h), Pages(Front(p)), Pages(Front(c)), multiset{Last(c).mptr}, multiset{Last(p).mptr});
    } else {
      MergeKeepsOrFreesEachPage(p, Front(c));
      PagesSnoc(MergeDirty(p, Front(c)), Last(c));
      Regroup(Pages(MergeDirty(p, Front(c))), multiset(Hidden(p, c)), Pages(p), Pages(Front(c)), multiset{Last(c).mptr}, multiset{});
    }
  }

  lemma Regroup(a: multiset<int>, b: multiset<int>, c: multiset<int>, d: multiset<int>, e: multiset<int>, f: multiset<int>)
    requires a + b == c + d
    ensures (a + e) + b == c + (d + e) == (c + e) + d
    ensures (a + e) + (f + b) == (c + f) + (d + e)
  {
    assert (a + e) + b == (a + b) + e;
    assert c + (d + e) == (c + d) + e == (c + e) + d;
    assert (a + e) + (f + b) == (a + b) + e + f;
    assert (c + f) + (d + e) == (c + d) + e + f;
  }

  lemma NoPages(s: seq<Id2>)
    requires s == []
    ensures Pages(s) == multiset{}
  {
  }

  lemma ConsMultiset(v: int, s: seq<int>)
    ensures multiset([v] + s) == multiset{v} + multiset(s)
  {
  }

  lemma {:induction false} LargerAreNotHidden(p: seq<Id2>, c: seq<Id2>, y: nat)
    requires y <= |c|
    requires forall k :: y <= k < |c| ==> p == [] || Last(p).mid < c[k].mid
    ensures Hidden(p, c) == Hidden(p, c[..y])
  {
    if y < |c| {
      LargerAreNotHidden(p, Front(c), y);
      assert Front(c)[..y] == c[..y];
    } else {
      assert c[..y] == c;
    }
  }

  // One step of either recursion, in terms of prefixes.
  lemma StepDown(p: seq<Id2>, c: seq<Id2>, x: nat, y: nat)
    requires x <= |p| && y <= |c|
    ensures x == 0 || y == 0 ==> Hidden(p[..x], c[..y]) == []
    ensures x > 0 && y > 0 && c[y - 1].mid < p[x - 1].mid ==>
              && Hidden(p[..x], c[..y]) == Hidden(p[..x - 1], c[..y])
              && MergeDirty(p[..x], c[..y]) == MergeDirty(p[..x - 1], c[..y]) + [p[x - 1]]
    ensures x > 0 && y > 0 && c[y - 1].mid == p[x - 1].mid ==>
              && Hidden(p[..x], c[..y]) == [p[x - 1].mptr] + Hidden(p[..x - 1], c[..y - 1])
              && MergeDirty(p[..x], c[..y]) == MergeDirty(p[..x - 1], c[..y - 1]) + [c[y - 1]]
    ensures y > 0 && (x == 0 || c[y - 1].mid > p[x - 1].mid) ==>
              && Hidden(p[..x], c[..y]) == Hidden(p[..x], c[..y - 1])
              && MergeDirty(p[..x], c[..y]) == MergeDirty(p[..x], c[..y - 1]) + [c[y - 1]]
    ensures MergeDirty(p[..x], c[..0]) == p[..x]
  {
    if x > 0 {
      assert Last(p[..x]) == p[x - 1] && Front(p[..x]) == p[..x - 1];
    }
    if y > 0 {
      assert Last(c[..y]) == c[y - 1] && Front(c[..y]) == c[..y - 1];
    }
  }

  // The entries of a list of n pages still sit at dst[1..n], with the sentinel before them.
  ghost predicate Holds(dst: array<Id2>, s: seq<Id2>)
    reads dst
  {
    && |s| < dst.Length && dst[0].mid == 0
    && (forall m :: 1 <= m <= |s| ==> dst[m] == s[m - 1])
  }

  // The counting pass: walks both lists down from the largest common candidate and takes
  // off one for every page they share.
  method CountMerged(dst: array<Id2>, src: array<Id2>, x: nat, ghost p: seq<Id2>) returns (len: nat)
    requires dst != src && Holds(dst, p) && x == |p|
    requires IsId2l(src) && Ascending(Entries(src)) && forall k :: 0 <= k < |Entries(src)| ==> Entries(src)[k].mid > 0
    requires Ascending(p)
    ensures len == |MergeDirty(p, Entries(src))|
  {
    hide MergeDirty, Hidden, Ascending;
    ghost var c := Entries(src);
    assert forall k :: 0 <= k < |c| ==> src[k + 1] == c[k];
    MergeLength(p, c);
    var total: int := x + src[0].mid;
    var y: nat := DirtyList.Search(src, dst[x].mid + 1);
    assert forall k :: y - 1 <= k < |c| ==> c[k].mid > dst[x].mid;
    y := y - 1;
    LargerAreNotHidden(p, c, y);
    var i: nat := x;
    assert p[..i] == p;
    while y > 0 && i > 0
      invariant i <= |p| && y <= |c|
      invariant total - |Hidden(p[..i], c[..y])| == |p| + |c| - |Hidden(p, c)|
    {
      var yp := src[y].mid;
      assert src[y] == c[y - 1];
      while yp < dst[i].mid
        invariant i <= |p|
        invariant total - |Hidden(p[..i], c[..y])| == |p| + |c| - |Hidden(p, c)|
        decreases i
      {
        StepDown(p, c, i, y);
        i := i - 1;
      }
      StepDown(p, c, i, y);
      if yp == dst[i].mid {
        i := i - 1;
        total := total - 1;
      }
      y := y - 1;
    }
    StepDown(p, c, i, y);
    len := total;
  }

  // In the middle of the merge: dst[1..x] is untouched and dst[i + 1..len] is final. The
  // distance between i and x shrinks to gap, what len has over the true length.
  ghost predicate Merging(dst: array<Id2>, src: array<Id2>, p: seq<Id2>, c: seq<Id2>, r: seq<Id2>, gap: nat, x: nat, y: nat, i: nat)
    reads dst, src
  {
    && x <= |p| && y <= |c| < src.Length && |r| + gap < dst.Length && x + gap <= i <= |r| + gap
    && dst[0].mid == 0
    && (forall m :: 1 <= m <= |c| ==> src[m] == c[m - 1] && 0 < src[m].mid)
    && (forall m :: 1 <= m <= x ==> dst[m] == p[m - 1])
    && (forall m :: i < m <= |r| + gap ==> dst[m] == r[m - gap - 1])
    && MergeDirty(p[..x], c[..y]) == r[..i - gap]
  }

  lemma SnocPrefix(m: seq<Id2>, e: Id2, r: seq<Id2>, k: nat)
    requires k <= |r| && m + [e] == r[..k]
    ensures k > 0 && r[k - 1] == e && m == r[..k - 1]
  {
    assert |m + [e]| == k && r[..k][k - 1] == e;
    assert m == r[..k][..k - 1];
  }

  // The inner scan of the merge: parent entries above the child's next page move up.
  method MoveLarger(dst: array<Id2>, src: array<Id2>, x: nat, y: nat, i: nat, ghost p: seq<Id2>, ghost c: seq<Id2>, ghost r: seq<Id2>, ghost gap: nat)
    returns (x': nat, i': nat)
    requires dst != src && Merging(dst, src, p, c, r, gap, x, y, i) && y > 0
    modifies dst
    ensures Merging(dst, src, p, c, r, gap, x', y, i') && src[y].mid >= dst[x'].mid
    ensures Hidden(p[..x'], c[..y]) == Hidden(p[..x], c[..y])
    ensures forall m :: |r| + gap < m < dst.Length ==> dst[m] == old(dst[m])
  {
    hide MergeDirty, Hidden;
    var yp := src[y].mid;
    x', i' := x, i;
    while yp < dst[x'].mid
      invariant Merging(dst, src, p, c, r, gap, x', y, i')
      invariant Hidden(p[..x'], c[..y]) == Hidden(p[..x], c[..y])
      invariant forall m :: |r| + gap < m < dst.Length ==> dst[m] == old(dst[m])
      decreases x'
    {
      StepDown(p, c, x', y);
      MergeLength(p[..x'], c[..y]);
      SnocPrefix(MergeDirty(p[..x' - 1], c[..y]), p[x' - 1], r, i' - gap);
      dst[i'] := dst[x'];
      i', x' := i' - 1, x' - 1;
    }
  }

  // One child entry: the larger parent entries move up first, a parent entry for the same
  // page is freed, and the child's entry goes in.
  method MergeOne(dst: array<Id2>, src: array<Id2>, x: nat, y: nat, i: nat, ghost p: seq<Id2>, ghost c: seq<Id2>, ghost r: seq<Id2>, ghost gap: nat)
    returns (x': nat, i': nat, freed: seq<int>)
    requires dst != src && Merging(dst, src, p, c, r, gap, x, y, i) && y > 0
    modifies dst
    ensures Merging(dst, src, p, c, r, gap, x', y - 1, i')
    ensures freed + Hidden(p[..x'], c[..y - 1]) == Hidden(p[..x], c[..y])
    ensures forall m :: |r| + gap < m < dst.Length ==> dst[m] == old(dst[m])
  {
    hide MergeDirty, Hidden;
    x', i' := MoveLarger(dst, src, x, y, i, p, c, r, gap);
    StepDown(p, c, x', y);
    freed := [];
    if src[y].mid == dst[x'].mid {
      freed := [dst[x'].mptr];
      x' := x' - 1;
    }
    SnocPrefix(MergeDirty(p[..x'], c[..y - 1]), c[y - 1], r, i' - gap);
    MergeLength(p[..x'], c[..y - 1]);
    dst[i'] := src[y];
    i' := i' - 1;
  }

  // The merging pass of mdb_txn_commit. len is the final length, as counted above or, for a
  // child of a top-level transaction, as derived from the room counter. The assertion
  // i == x that ends the pass holds exactly when len is the true length of the union.
  method MergeInPlace(dst: array<Id2>, src: array<Id2>, x: nat, len: nat, ghost p: seq<Id2>)
    returns (exact: bool, freed: seq<int>)
    requires dst != src && Holds(dst, p) && x == |p|
    requires IsId2l(src) && forall k :: 0 <= k < |Entries(src)| ==> Entries(src)[k].mid > 0
    requires |MergeDirty(p, Entries(src))| <= len < dst.Length
    modifies dst
    ensures exact <==> len == |MergeDirty(p, Entries(src))|
    ensures exact ==> IsId2l(dst) && Entries(dst) == MergeDirty(p, Entries(src))
    ensures freed == Hidden(p, Entries(src))
    ensures forall m :: len < m < dst.Length ==> dst[m] == old(dst[m])
  {
    hide MergeDirty, Hidden;
    ghost var c := Entries(src);
    ghost var r := MergeDirty(p, c);
    ghost var gap := len - |r|;
    var k: nat := x;
    var y: nat := src[0].mid;
    var i: nat := len;
    freed := [];
    MergeLength(p, c);
    assert forall m :: 1 <= m <= |c| ==> src[m] == c[m - 1];
    assert p[..k] == p && c[..y] == c && r[..i - gap] == r;
    while y > 0
      invariant Merging(dst, src, p, c, r, gap, k, y, i)
      invariant freed + Hidden(p[..k], c[..y]) == Hidden(p, c)
      invariant forall m :: len < m < dst.Length ==> dst[m] == old(dst[m])
    {
      var f;
      k, i, f := MergeOne(dst, src, k, y, i, p, c, r, gap);
      y := y - 1;
      freed := freed + f;
    }
    StepDown(p, c, k, 0);
    assert p[..k] == r[..i - gap];
    exact := i == k;
    dst[0] := dst[0].(mid := len);
    if exact {
      forall m | 1 <= m <= |r|
        ensures dst[m] == r[m - 1]
      {
        if m <= k {
          assert p[..k][m - 1] == r[..k][m - 1];
        }
      }
      assert Entries(dst) == r;
    }
  }

  // Both passes, as a commit into a parent that is itself nested runs them.
  method CommitDirty(dst: array<Id2>, src: array<Id2>) returns (exact: bool, freed: seq<int>)
    requires dst != src && IsId2l(dst) && IsId2l(src)
    requires Ascending(Entries(dst)) && Ascending(Entries(src))
    requires forall k :: 0 <= k < |Entries(dst)| ==> Entries(dst)[k].mid > 0
    requires forall k :: 0 <= k < |Entries(src)| ==> Entries(src)[k].mid > 0
    requires |MergeDirty(Entries(dst), Entries(src))| < dst.Length
    modifies dst
    ensures exact && IsId2l(dst) && Ascending(Entries(dst))
    ensures Entries(dst) == MergeDirty(old(Entries(dst)), Entries(src))
    ensures PageMap(Entries(dst)) == PageMap(old(Entries(dst))) + PageMap(Entries(src))
    ensures freed == Hidden(old(Entries(dst)), Entries(src))
  {
    hide MergeDirty, Hidden, PageMap;
    ghost var p, c := Entries(dst), Entries(src);
    assert forall m :: 1 <= m <= |p| ==> dst[m] == p[m - 1];
    var x := dst[0].mid;
    dst[0] := dst[0].(mid := 0);  // simplify loops
    var len := CountMerged(dst, src, x, p);
    exact, freed := MergeInPlace(dst, src, x, len, p);
    MergeAscending(p, c);
    MergeOverrides(p, c);
  }

  // --- the parent's spill list ---

  // Spilled pages are listed as twice their number, largest first; a set low bit marks a
  // slot whose page is no longer spilled.
  ghost predicate Spilled(s: seq<Id>, page: Id) {
    2 * page in s
  }

  ghost predicate IsStruck(s: seq<Id>, c: seq<Id2>, k: nat)
    requires k < |s|
  {
    s[k] % 2 == 0 && HasPage(c, s[k] / 2)
  }

  // The slots of s with those for a dirty page of the child struck out.
  ghost function Struck(s: seq<Id>, c: seq<Id2>): (r: seq<Id>)
    ensures |r| == |s|
    ensures forall k :: 0 <= k < |s| ==> r[k] == if IsStruck(s, c, k) then 1 else s[k]
  {
    seq(|s|, k requires 0 <= k < |s| => if IsStruck(s, c, k) then 1 else s[k])
  }

  function EvenOnly(s: seq<Id>): seq<Id> {
    if s == [] then []
    else EvenOnly(s[..|s| - 1]) + if s[|s| - 1] % 2 == 0 then [s[|s| - 1]] else []
  }

  // First pass, after i of the child's pages: the slots from x on are below all pages still
  // to come, the others above all pages so far, and none of x..y-1 is to be struck.
  ghost predicate Passed(s: seq<Id>, c: seq<Id2>, x: nat, y: nat, i: nat) {
    && x <= y <= |s| && i <= |c|
    && (forall k, m :: x <= k < |s| && i <= m < |c| ==> s[k] < 2 * c[m].mid)
    && (forall k, m :: 0 <= k < x && 0 <= m < i ==> s[k] > 2 * c[m].mid)
    && (forall k :: x <= k < y ==> !IsStruck(s, c, k))
  }

  // The slots after y are final, the others untouched.
  ghost predicate FinalAfter(pspill: array<Id>, s: seq<Id>, c: seq<Id2>, y: nat)
    reads pspill
  {
    && y <= |s| < pspill.Length && pspill[0] == MAX_ID
    && (forall k :: 1 <= k <= y ==> pspill[k] == s[k - 1])
    && (forall k :: y < k <= |s| ==> pspill[k] == Struck(s, c)[k - 1])
  }

  // Slots strictly between two neighbouring pages of the child belong to neither.
  lemma NotStruckBetween(s: seq<Id>, c: seq<Id2>, k: nat, i: nat)
    requires k < |s| && i < |c| && Ascending(c)
    requires forall m :: 0 <= m < i ==> s[k] > 2 * c[m].mid
    requires s[k] < 2 * c[i].mid
    ensures !IsStruck(s, c, k)
  {
    forall m | 0 <= m < |c|
      ensures s[k] != 2 * c[m].mid
    {
      if m > i {
        assert c[i].mid < c[m].mid;
      }
    }
  }

  lemma Skip(s: seq<Id>, c: seq<Id2>, x: nat, y: nat, i: nat, x': nat)
    requires Passed(s, c, x, y, i) && i < |c| && x' <= x && Ascending(c)
    requires forall k :: x' <= k < x ==> s[k] < 2 * c[i].mid
    ensures forall k :: x' <= k < y ==> !IsStruck(s, c, k)
    ensures forall k, m :: x' <= k < |s| && i <= m < |c| ==> s[k] < 2 * c[m].mid
  {
    forall k | x' <= k < x
      ensures !IsStruck(s, c, k)
    {
      NotStruckBetween(s, c, k, i);
    }
    forall k, m | x' <= k < |s| && i <= m < |c|
      ensures s[k] < 2 * c[m].mid
    {
      assert k < x ==> c[i].mid <= c[m].mid;
    }
  }

  lemma PassNoSlot(s: seq<Id>, c: seq<Id2>, x: nat, y: nat, i: nat, x': nat)
    requires Passed(s, c, x, y, i) && i < |c| && x' <= x && Ascending(c) && StrictlyDescending(s)
    requires forall k :: x' <= k < x ==> s[k] < 2 * c[i].mid
    requires x' == 0 || s[x' - 1] > 2 * c[i].mid
    ensures Passed(s, c, x', y, i + 1)
  {
    Skip(s, c, x, y, i, x');
  }

  lemma PassSlot(s: seq<Id>, c: seq<Id2>, x: nat, y: nat, i: nat, x': nat)
    requires Passed(s, c, x, y, i) && i < |c| && 0 < x' <= x && Ascending(c) && StrictlyDescending(s)
    requires forall k :: x' <= k < x ==> s[k] < 2 * c[i].mid
    requires s[x' - 1] == 2 * c[i].mid
    ensures Passed(s, c, x' - 1, x' - 1, i + 1) && IsStruck(s, c, x' - 1)
    ensures forall k :: x' <= k < y ==> !IsStruck(s, c, k)
  {
    Skip(s, c, x, y, i, x');
    assert c[i].mid == s[x' - 1] / 2;
    forall m | i < m < |c|
      ensures c[i].mid < c[m].mid
    {
    }
  }

  // One page of the child: skip the slots below it and strike out its own, if it has one.
  method StrikeOne(pspill: array<Id>, pn: Id, x: nat, y: nat, ghost s: seq<Id>, ghost c: seq<Id2>, ghost i: nat)
    returns (x': nat, y': nat)
    requires FinalAfter(pspill, s, c, y) && Passed(s, c, x, y, i) && i < |c| && pn == 2 * c[i].mid <= MAX_ID
    requires StrictlyDescending(s) && Ascending(c)
    modifies pspill
    ensures FinalAfter(pspill, s, c, y') && Passed(s, c, x', y', i + 1)
  {
    hide Passed, Ascending, StrictlyDescending;
    PassedBounds(s, c, x, y, i);
    x', y' := x, y;
    while pn > pspill[x']
      invariant x' <= x
      invariant forall k :: x' <= k < x ==> s[k] < pn
      decreases x'
    {
      x' := x' - 1;
    }
    if pn == pspill[x'] {
      assert x' > 0;
      PassSlot(s, c, x, y, i, x');
      pspill[x'] := 1;
      x' := x' - 1;
      y' := x';
    } else {
      PassNoSlot(s, c, x, y, i, x');
    }
  }

  lemma PassedBounds(s: seq<Id>, c: seq<Id2>, x: nat, y: nat, i: nat)
    requires Passed(s, c, x, y, i)
    ensures x <= y <= |s| && i <= |c|
  {
  }

  // Second pass: the live slots after y close the gaps.
  method SquashTail(pspill: array<Id>, y: nat, psLen: nat, ghost t: seq<Id>) returns (y': nat)
    requires y <= psLen == |t| < pspill.Length
    requires forall k :: 1 <= k <= psLen ==> pspill[k] == t[k - 1]
    modifies pspill
    ensures y' <= psLen && pspill[1..y' + 1] == t[..y] + EvenOnly(t[y..])
  {
    hide EvenOnly;
    var x := y;
    y' := y;
    EvenOnlyStep(t, y, y);
    assert pspill[1..y + 1] == t[..y];
    while x < psLen
      invariant y <= y' <= x <= psLen
      invariant forall k :: x < k <= psLen ==> pspill[k] == t[k - 1]
      invariant pspill[1..y' + 1] == t[..y] + EvenOnly(t[y..x])
    {
      x := x + 1;
      EvenOnlyStep(t, y, x);
      if pspill[x] % 2 == 0 {
        ghost var kept := pspill[1..y' + 1];
        y' := y' + 1;
        pspill[y'] := pspill[x];
        assert pspill[1..y' + 1] == kept + [t[x - 1]];
      }
    }
    assert t[y..x] == t[y..];
  }

  lemma EvenOnlyStep(t: seq<Id>, y: nat, x: nat)
    requires y <= x <= |t|
    ensures x == y ==> EvenOnly(t[y..x]) == []
    ensures y < x ==> EvenOnly(t[y..x]) == EvenOnly(t[y..x - 1]) + if t[x - 1] % 2 == 0 then [t[x - 1]] else []
  {
    if y < x {
      assert t[y..x][..x - y - 1] == t[y..x - 1];
    }
  }

  // Removing the child's dirty pages from the parent's spill list.
  method SquashSpilled(pspill: array<Id>, src: array<Id2>)
    requires IsIdl(pspill) && IsId2l(src)
    requires StrictlyDescending(Contents(pspill)) && Ascending(Entries(src))
    requires forall k :: 0 <= k < |Entries(src)| ==> 2 * Entries(src)[k].mid <= MAX_ID
    modifies pspill
    ensures IsIdl(pspill) && StrictlyDescending(Contents(pspill))
    ensures forall page :: Spilled(Contents(pspill), page) <==> Spilled(old(Contents(pspill)), page) && !HasPage(Entries(src), page)
    ensures forall v :: v in Contents(pspill) ==> v in old(Contents(pspill))
  {
    hide Passed, EvenOnly, StrictlyDescending, HasPage, Spilled, Ascending;
    ghost var s, c := Contents(pspill), Entries(src);
    assert forall k :: 0 <= k < |c| ==> src[k + 1] == c[k];
    var psLen := pspill[0];
    if psLen == 0 {
      NothingSpilled(s, c);
      return;
    }
    StartPass(s, c);
    var x: nat, y: nat := psLen, psLen;
    assert forall k :: 1 <= k <= psLen ==> pspill[k] == s[k - 1];
    pspill[0] := MAX_ID;
    for i := 0 to src[0].mid
      invariant FinalAfter(pspill, s, c, y) && Passed(s, c, x, y, i)
    {
      assert src[i + 1] == c[i];
      x, y := StrikeOne(pspill, 2 * src[i + 1].mid, x, y, s, c, i);
    }
    SettledBelow(s, c, x, y);
    ghost var t := Struck(s, c);
    assert forall k :: 1 <= k <= psLen ==> pspill[k] == t[k - 1];
    assert pspill[1..psLen + 1] == t;
    SquashResult(s, c, y);
    y := SquashTail(pspill, y, psLen, t);
    pspill[0] := y;
  }

  lemma StartPass(s: seq<Id>, c: seq<Id2>)
    ensures Passed(s, c, |s|, |s|, 0)
  {
  }

  lemma NothingSpilled(s: seq<Id>, c: seq<Id2>)
    requires s == []
    ensures forall page :: Spilled(s, page) <==> Spilled(s, page) && !HasPage(c, page)
  {
  }

  lemma SettledBelow(s: seq<Id>, c: seq<Id2>, x: nat, y: nat)
    requires Passed(s, c, x, y, |c|)
    ensures forall k :: 0 <= k < y ==> !IsStruck(s, c, k) && Struck(s, c)[k] == s[k]
  {
  }

  lemma {:induction false} EvenOnlyMembers(t: seq<Id>)
    ensures forall v :: v in EvenOnly(t) <==> v in t && v % 2 == 0
  {
    if t != [] {
      EvenOnlyMembers(t[..|t| - 1]);
      assert t == t[..|t| - 1] + [t[|t| - 1]];
    }
  }

  lemma {:induction false} EvenOnlyDescends(t: seq<Id>, s: seq<Id>)
    requires |t| == |s| && StrictlyDescending(s)
    requires forall k :: 0 <= k < |s| ==> t[k] == s[k] || t[k] % 2 == 1
    ensures StrictlyDescending(EvenOnly(t))
    ensures forall k :: 0 <= k < |EvenOnly(t)| ==> EvenOnly(t)[k] in s
  {
    if t != [] {
      var n := |t| - 1;
      EvenOnlyDescends(t[..n], s[..n]);
      var front := EvenOnly(t[..n]);
      forall k | 0 <= k < |front|
        ensures front[k] > s[n] && front[k] in s
      {
        assert front[k] in s[..n];
      }
    }
  }

  lemma SquashResult(s: seq<Id>, c: seq<Id2>, y: nat)
    requires StrictlyDescending(s) && y <= |s|
    requires forall k :: 0 <= k < y ==> !IsStruck(s, c, k) && Struck(s, c)[k] == s[k]
    ensures var r := Struck(s, c)[..y] + EvenOnly(Struck(s, c)[y..]);
      && StrictlyDescending(r)
      && (forall v :: v in r ==> v in s)
      && (forall page :: Spilled(r, page) <==> Spilled(s, page) && !HasPage(c, page))
  {
    var t := Struck(s, c);
    var tail := EvenOnly(t[y..]);
    EvenOnlyMembers(t[y..]);
    EvenOnlyDescends(t[y..], s[y..]);
    var r := t[..y] + tail;
    forall i, j | 0 <= i < j < |r|
      ensures r[i] > r[j]
    {
      if i < y <= j {
        assert tail[j - y] in s[y..];
      }
    }
    forall v | v in r
      ensures v in s
    {
      var k :| 0 <= k < |r| && r[k] == v;
      if k >= y {
        assert tail[k - y] in s[y..];
      }
    }
    forall page
      ensures Spilled(r, page) <==> Spilled(s, page) && !HasPage(c, page)
    {
      SquashedPage(s, c, y, page);
    }
  }

  lemma SquashedPage(s: seq<Id>, c: seq<Id2>, y: nat, page: Id)
    requires StrictlyDescending(s) && y <= |s|
    requires forall k :: 0 <= k < y ==> !IsStruck(s, c, k) && Struck(s, c)[k] == s[k]
    ensures Spilled(Struck(s, c)[..y] + EvenOnly(Struck(s, c)[y..]), page) <==> Spilled(s, page) && !HasPage(c, page)
  {
    hide EvenOnly, StrictlyDescending;
    var t := Struck(s, c);
    EvenOnlyMembers(t[y..]);
    if Spilled(s, page) {
      var k :| 0 <= k < |s| && s[k] == 2 * page;
      UniqueSlot(s, k);
      KeptSlot(s, c, k, page);
    } else {
      assert forall k :: 0 <= k < |s| ==> t[k] != 2 * page;
    }
    InEitherPart(t, y, 2 * page);
  }

  lemma InEitherPart(t: seq<Id>, y: nat, v: Id)
    requires y <= |t|
    ensures v in t <==> v in t[..y] || v in t[y..]
  {
    assert t == t[..y] + t[y..];
  }

  lemma KeptSlot(s: seq<Id>, c: seq<Id2>, k: nat, page: Id)
    requires k < |s| && s[k] == 2 * page
    requires forall m :: 0 <= m < |s| && s[m] == s[k] ==> m == k
    ensures 2 * page in Struck(s, c) <==> !HasPage(c, page)
  {
    var t := Struck(s, c);
    assert s[k] / 2 == page;
    assert t[k] == 2 * page <==> !HasPage(c, page);
    assert forall m :: 0 <= m < |s| && m != k ==> t[m] != 2 * page;
  }

  lemma UniqueSlot(s: seq<Id>, k: nat)
    requires StrictlyDescending(s) && k < |s|
    ensures forall m :: 0 <= m < |s| && s[m] == s[k] ==> m == k
  {
  }
}
