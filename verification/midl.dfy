// Page-number lists (MDB_IDL): ids[b] holds the count and ids[b + 1..] the IDs, largest
// first. A list usually starts its array (b == 0); mdb_freelist_save also builds one in
// the unused tail of another.

module Midl {
  const MAX_ID := 0xFFFF_FFFF_FFFF_FFFF
  // MDB_ID is size_t: no ID in a list exceeds MAX_ID.
  type Id = nat

  const UM_MAX := 0x1_FFFF         // MDB_IDL_UM_MAX
  const MAX_SORT := 0x4000_0000    // twice this is the first value past INT_MAX

  ghost predicate IsIdl(ids: array<Id>, b: nat := 0)
    reads ids
  {
    b < ids.Length && b + ids[b] < ids.Length
  }

  ghost function Contents(ids: array<Id>, b: nat := 0): seq<Id>
    requires IsIdl(ids, b)
    reads ids
  {
    ids[b + 1..b + ids[b] + 1]
  }

  // MDB_IDL_ALLOCLEN: how many IDs the list has memory for.
  function AllocLen(ids: array<Id>): int {
    ids.Length - 1
  }

  ghost predicate Descending(s: seq<Id>) {
    forall i, j :: 0 <= i < j < |s| ==> s[i] >= s[j]
  }

  ghost predicate StrictlyDescending(s: seq<Id>) {
    forall i, j :: 0 <= i < j < |s| ==> s[i] > s[j]
  }

  // mdb_midl_search: binary search for the position where id is or belongs. The list is
  // descending, so the IDs before it are the larger ones.
  method Search(ids: array<Id>, id: Id) returns (cursor: nat)
    requires IsIdl(ids) && Descending(Contents(ids))
    ensures 1 <= cursor <= ids[0] + 1
    ensures forall k :: 1 <= k < cursor ==> ids[k] >= id
    ensures forall k :: cursor <= k <= ids[0] ==> ids[k] <= id
    ensures cursor <= ids[0] && ids[cursor] == id <==> id in Contents(ids)
  {
    ghost var s := Contents(ids);
    assert forall k :: 1 <= k <= ids[0] ==> ids[k] == s[k - 1];
    var base, n, val := 0, ids[0], 0;
    cursor := 1;
    while 0 < n
      invariant 0 <= n && 0 <= base && base + n <= ids[0]
      invariant if val < 0 then cursor == base + n + 1 else if val > 0 then cursor == base > 0 else base == 0 && cursor == 1 && n == ids[0]
      invariant forall k :: 0 <= k < base ==> s[k] > id
      invariant forall k :: base + n <= k < |s| ==> s[k] < id
    {
      var pivot := n / 2;
      cursor := base + pivot + 1;
      assert ids[cursor] == s[cursor - 1];
      val := if ids[cursor] < id then -1 else if ids[cursor] > id then 1 else 0;
      if val < 0 {
        n := pivot;
      } else if val > 0 {
        base := cursor;
        n := n - (pivot + 1);
      } else {
        return;
      }
    }
    if val > 0 {
      cursor := cursor + 1;
    }
  }

  // What the search is documented to give: the position of the least ID at or above the target, or
  // the one after the end if there is none.
  ghost predicate IsLeastAbove(s: seq<Id>, id: Id, cursor: nat) {
    if exists k :: 0 <= k < |s| && s[k] >= id
    then 1 <= cursor <= |s| && s[cursor - 1] >= id && forall k :: 0 <= k < |s| && s[k] >= id ==> s[cursor - 1] <= s[k]
    else cursor == |s| + 1
  }

  // In a descending list that is what it gives if and only if the list is empty or the target is
  // at the position found.
  lemma LeastAboveOnlyIfFound(s: seq<Id>, id: Id, cursor: nat)
    requires 1 <= cursor <= |s| + 1
    requires forall k :: 0 <= k < cursor - 1 ==> s[k] >= id
    requires forall k :: cursor - 1 <= k < |s| ==> s[k] <= id
    requires cursor <= |s| && s[cursor - 1] == id <==> id in s
    ensures IsLeastAbove(s, id, cursor) <==> s == [] || (cursor <= |s| && s[cursor - 1] == id)
  {
    if cursor <= |s| && s[cursor - 1] == id {
    } else if cursor > 1 {
      assert s[0] >= id;
    } else {
      assert id !in s && forall k :: 0 <= k < |s| ==> s[k] != id;
    }
  }

  // The descending merge of two lists, built from its small end as the code builds it:
  // of two equal IDs the one from y is placed nearer the end.
  function MergeDesc(x: seq<Id>, y: seq<Id>): seq<Id>
    decreases |x| + |y|
  {
    if y == [] then x
    else
      var m := y[|y| - 1];
      if x != [] && x[|x| - 1] < m then MergeDesc(x[..|x| - 1], y) + [x[|x| - 1]]
      else MergeDesc(x, y[..|y| - 1]) + [m]
  }

  // Nothing is lost, added or repeated by a merge.
  lemma {:induction false} MergeKeepsAll(x: seq<Id>, y: seq<Id>)
    ensures multiset(MergeDesc(x, y)) == multiset(x) + multiset(y)
    decreases |x| + |y|
  {
    if y != [] {
      var m := y[|y| - 1];
      if x != [] && x[|x| - 1] < m {
        assert x == x[..|x| - 1] + [x[|x| - 1]];
        MergeKeepsAll(x[..|x| - 1], y);
      } else {
        assert y == y[..|y| - 1] + [m];
        MergeKeepsAll(x, y[..|y| - 1]);
      }
    }
  }

  lemma InMerge(x: seq<Id>, y: seq<Id>, k: nat)
    requires k < |MergeDesc(x, y)|
    ensures MergeDesc(x, y)[k] in x || MergeDesc(x, y)[k] in y
  {
    MergeKeepsAll(x, y);
    assert MergeDesc(x, y)[k] in multiset(MergeDesc(x, y));
  }

  // The merge of two descending lists is descending.
  lemma {:induction false} MergeSorted(x: seq<Id>, y: seq<Id>)
    requires Descending(x) && Descending(y)
    ensures Descending(MergeDesc(x, y))
    decreases |x| + |y|
  {
    if y != [] {
      var m := y[|y| - 1];
      if x != [] && x[|x| - 1] < m {
        MergeSorted(x[..|x| - 1], y);
        AppendSmallest(x[..|x| - 1], y, x[|x| - 1]);
      } else {
        MergeSorted(x, y[..|y| - 1]);
        AppendSmallest(x, y[..|y| - 1], m);
      }
    }
  }

  lemma AppendSmallest(x: seq<Id>, y: seq<Id>, m: Id)
    requires Descending(MergeDesc(x, y))
    requires forall v :: v in x || v in y ==> v >= m
    ensures Descending(MergeDesc(x, y) + [m])
  {
    var r := MergeDesc(x, y);
    forall k | 0 <= k < |r|
      ensures r[k] >= m
    {
      InMerge(x, y, k);
    }
  }

  lemma MergeLength(x: seq<Id>, y: seq<Id>)
    ensures |MergeDesc(x, y)| == |x| + |y|
  {
    MergeKeepsAll(x, y);
    assert |multiset(MergeDesc(x, y))| == |multiset(x)| + |multiset(y)|;
  }

  // The smaller IDs at the end of x go after everything still to be merged.
  lemma {:induction false} MergePeel(x: seq<Id>, y: seq<Id>, j: nat)
    requires j <= |x| && y != [] && forall k :: j <= k < |x| ==> x[k] < y[|y| - 1]
    requires j > 0 ==> x[j - 1] >= y[|y| - 1]
    ensures MergeDesc(x, y) == MergeDesc(x[..j], y[..|y| - 1]) + [y[|y| - 1]] + x[j..]
    decreases |x|
  {
    if j < |x| {
      var front := x[..|x| - 1];
      MergePeel(front, y, j);
      assert front[..j] == x[..j] && x[j..] == front[j..] + [x[|x| - 1]];
    } else {
      assert x[..j] == x;
    }
  }

  // The inner scan of the merge: it moves the IDs below mergeId up to position k and is
  // stopped by the delimiter in idl[0] at the latest.
  method ShiftSmaller(idl: array<Id>, j: nat, k: nat, mergeId: Id, ghost x: seq<Id>) returns (j': nat, k': nat)
    requires j <= |x| && j < k < idl.Length
    requires idl[0] == MAX_ID && mergeId <= MAX_ID
    requires forall m :: 1 <= m <= j ==> idl[m] == x[m - 1]
    modifies idl
    ensures j' <= j && k' - j' == k - j
    ensures forall m :: 0 <= m <= k' || k < m < idl.Length ==> idl[m] == old(idl[m])
    ensures forall m :: k' < m <= k ==> idl[m] == x[m - (k - j) - 1]
    ensures forall m :: j' <= m < j ==> x[m] < mergeId
    ensures j' > 0 ==> x[j' - 1] >= mergeId
  {
    j', k' := j, k;
    var oldId := idl[j'];
    while oldId < mergeId
      invariant j' <= j && k' - j' == k - j && oldId == idl[j']
      invariant forall m :: 0 <= m <= k' || k < m < idl.Length ==> idl[m] == old(idl[m])
      invariant forall m :: k' < m <= k ==> idl[m] == x[m - (k - j) - 1]
      invariant forall m :: j' <= m < j ==> x[m] < mergeId
      decreases j'
    {
      idl[k'] := oldId;
      k', j' := k' - 1, j' - 1;
      oldId := idl[j'];
    }
  }

  lemma MergeNothing(x: seq<Id>, y: seq<Id>)
    requires y == []
    ensures MergeDesc(x, y) == x
  {
  }

  // One round of the merge in terms of the final result r.
  lemma MergeRound(x: seq<Id>, y: seq<Id>, i: nat, j0: nat, j: nat, r: seq<Id>)
    requires 0 < i <= |y| && j <= j0 <= |x| && i + j0 <= |r|
    requires MergeDesc(x[..j0], y[..i]) == r[..i + j0]
    requires forall m :: j <= m < j0 ==> x[m] < y[i - 1]
    requires j > 0 ==> x[j - 1] >= y[i - 1]
    ensures MergeDesc(x[..j], y[..i - 1]) == r[..i + j - 1]
    ensures r[i + j - 1] == y[i - 1]
    ensures forall m :: i + j <= m < i + j0 ==> r[m] == x[m - i]
  {
    MergePeel(x[..j0], y[..i], j);
    assert x[..j0][..j] == x[..j] && y[..i][..i - 1] == y[..i - 1];
    MergeLength(x[..j], y[..i - 1]);
    var whole := MergeDesc(x[..j], y[..i - 1]) + [y[i - 1]] + x[..j0][j..];
    forall m | 0 <= m < i + j0
      ensures r[m] == whole[m]
    {
      assert r[m] == r[..i + j0][m];
    }
  }

  // In the middle of a merge of x and y into r: idl[1..j] is untouched, idl[k + 1..] is
  // final, and i IDs of the second list are still to be placed.
  ghost predicate Merging(idl: array<Id>, merge: array<Id>, off: nat, i: nat, j: nat, x: seq<Id>, y: seq<Id>, r: seq<Id>)
    reads idl, merge
  {
    && i <= |y| && j <= |x| && i + j <= |r| < idl.Length && off + |y| < merge.Length
    && (idl == merge ==> |r| < off)
    && idl[0] == MAX_ID
    && (forall m :: 1 <= m <= j ==> idl[m] == x[m - 1])
    && (forall m :: i + j < m <= |r| ==> idl[m] == r[m - 1])
    && (forall m :: off < m <= off + |y| ==> merge[m] == y[m - off - 1])
    && (forall m :: 0 <= m < |y| ==> y[m] <= MAX_ID)
    && MergeDesc(x[..j], y[..i]) == r[..i + j]
  }

  method MergeNext(idl: array<Id>, merge: array<Id>, off: nat, i: nat, j: nat, k: nat,
                   ghost x: seq<Id>, ghost y: seq<Id>, ghost r: seq<Id>) returns (j': nat, k': nat)
    requires Merging(idl, merge, off, i, j, x, y, r) && k == i + j && i > 0
    modifies idl
    ensures Merging(idl, merge, off, i - 1, j', x, y, r) && k' == i - 1 + j'
    ensures forall m :: |r| < m < idl.Length ==> idl[m] == old(idl[m])
  {
    hide MergeDesc;
    var mergeId := merge[off + i];
    j', k' := ShiftSmaller(idl, j, k, mergeId, x);
    MergeRound(x, y, i, j, j', r);
    assert forall m :: k' < m <= k ==> idl[m] == x[m - (k - j) - 1] == r[m - 1];
    idl[k'] := mergeId;
    k' := k' - 1;
  }

  // mdb_midl_xmerge, in place. The second list sits at merge[off]; it may live in the
  // unused tail of the same array, past everything the merge will write.
  method XMerge(idl: array<Id>, merge: array<Id>, off: nat)
    requires IsIdl(idl) && IsIdl(merge, off)
    requires idl[0] + merge[off] <= AllocLen(idl)
    requires idl == merge ==> idl[0] + merge[off] < off
    requires forall id :: id in Contents(merge, off) ==> id <= MAX_ID
    modifies idl
    ensures IsIdl(idl) && idl[0] == old(idl[0] + merge[off])
    ensures Contents(idl) == MergeDesc(old(Contents(idl)), old(Contents(merge, off)))
    ensures forall m :: idl[0] < m < idl.Length ==> idl[m] == old(idl[m])
  {
    hide MergeDesc;
    ghost var x, y := Contents(idl), Contents(merge, off);
    ghost var r := MergeDesc(x, y);
    MergeLength(x, y);
    var i: nat, j: nat := merge[off], idl[0];
    var k: nat := i + j;
    var total := k;
    assert forall m :: off < m <= off + i ==> merge[m] == y[m - off - 1];
    assert forall m :: 0 <= m < i ==> y[m] in y;
    idl[0] := MAX_ID;  // delimiter for the scan of idl
    assert x[..j] == x && y[..i] == y && r[..k] == r;
    while i > 0
      invariant Merging(idl, merge, off, i, j, x, y, r) && k == i + j
      invariant forall m :: total < m < idl.Length ==> idl[m] == old(idl[m])
    {
      j, k := MergeNext(idl, merge, off, i, j, k, x, y, r);
      i := i - 1;
    }
    idl[0] := total;
    MergeNothing(x[..j], y[..0]);
    MergeComplete(idl[..], x, r, j);
  }

  lemma MergeComplete(s: seq<Id>, x: seq<Id>, r: seq<Id>, j: nat)
    requires j <= |x| && j <= |r| < |s| && r[..j] == x[..j]
    requires forall m :: 1 <= m <= j ==> s[m] == x[m - 1]
    requires forall m :: j < m <= |r| ==> s[m] == r[m - 1]
    ensures s[1..|r| + 1] == r
  {
    forall m | 0 <= m < j
      ensures s[1..|r| + 1][m] == r[m]
    {
      assert r[..j][m] == x[..j][m];
    }
  }

  // mdb_midl_need: make room for num more IDs; memory allocation succeeds. The result is
  // the same list, or a copy of it in a new array whose size is a multiple of 256 words.
  method Need(ids: array<Id>, num: nat) returns (r: array<Id>)
    requires IsIdl(ids)
    ensures IsIdl(r) && Contents(r) == Contents(ids)
    ensures ids[0] + num <= AllocLen(r)
    ensures r == ids || (fresh(r) && (AllocLen(r) + 2) % 256 == 0)
    ensures AllocLen(ids) <= AllocLen(r)
  {
    r := ids;
    var n := num + ids[0];
    if n > AllocLen(ids) {
      n := (n + n / 4 + 258) / 256 * 256;
      r := Realloc(ids, n - 2);
    }
  }

  // mdb_midl_grow and realloc: room for len IDs, everything stored so far kept.
  method Realloc(ids: array<Id>, len: nat) returns (r: array<Id>)
    requires AllocLen(ids) <= len
    ensures fresh(r) && AllocLen(r) == len
    ensures forall k :: 0 <= k < ids.Length ==> r[k] == ids[k]
  {
    r := new Id[len + 1];
    for k := 0 to ids.Length
      invariant forall m :: 0 <= m < k ==> r[m] == ids[m]
    {
      r[k] := ids[k];
    }
  }

  // The page numbers id + n - 1, ..., id.
  function RangeDesc(id: nat, n: nat): (r: seq<Id>)
    requires id + n <= MAX_ID + 1
    ensures |r| == n
    ensures forall k :: 0 <= k < n ==> r[k] == id + n - 1 - k
  {
    seq(n, k requires 0 <= k < n => id + n - 1 - k)
  }

  // n | MDB_IDL_UM_MAX: the mask is all ones in its low 17 bits.
  function OrUmMax(n: nat): (r: nat)
    ensures n <= r < n + UM_MAX + 1
  {
    n - n % (UM_MAX + 1) + UM_MAX
  }

  // mdb_midl_append_range: id .. id + n - 1 go to the end, largest first.
  method AppendRange(ids: array<Id>, id: Id, n: nat) returns (r: array<Id>)
    requires IsIdl(ids) && id + n <= MAX_ID + 1
    modifies ids
    ensures IsIdl(r) && Contents(r) == old(Contents(ids)) + RangeDesc(id, n)
    ensures r == ids || fresh(r)
  {
    var len := ids[0];
    r := ids;
    if len + n > AllocLen(ids) {
      r := Realloc(ids, AllocLen(ids) + OrUmMax(n));
    }
    r[0] := len + n;
    var k, next: int := n, id;
    while k > 0
      invariant 0 <= k <= n && next == id + (n - k)
      invariant r[0] == len + n
      invariant forall x :: 1 <= x <= len ==> r[x] == old(ids[x])
      invariant forall x :: len + k < x <= len + n ==> r[x] == id + n - (x - len)
    {
      r[len + k] := next;
      k, next := k - 1, next + 1;
    }
    assert r[1..len + n + 1] == old(Contents(ids)) + RangeDesc(id, n);
  }

  // mdb_midl_append_list.
  method AppendList(ids: array<Id>, app: array<Id>) returns (r: array<Id>)
    requires IsIdl(ids) && IsIdl(app) && ids != app
    modifies ids
    ensures IsIdl(r) && Contents(r) == old(Contents(ids)) + old(Contents(app))
    ensures r == ids || fresh(r)
  {
    r := ids;
    if ids[0] + app[0] >= AllocLen(ids) {
      r := Realloc(ids, AllocLen(ids) + app[0]);
    }
    var len := r[0];
    for k := 1 to app[0] + 1
      invariant r[0] == len
      invariant forall x :: 1 <= x <= len ==> r[x] == old(ids[x])
      invariant forall x :: len < x < len + k ==> r[x] == app[x - len]
    {
      r[len + k] := app[k];
    }
    r[0] := len + app[0];
    assert r[1..len + app[0] + 1] == old(Contents(ids)) + Contents(app);
  }
}
