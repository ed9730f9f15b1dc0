// Dirty-page lists (MDB_ID2L): entry 0 holds the count in mid, the others are (page number,
// page) pairs in ascending page order.

module DirtyList {
  import opened Midl

  datatype Id2 = Id2(mid: Id, mptr: int)

  ghost predicate IsId2l(ids: array<Id2>)
    reads ids
  {
    1 <= ids.Length && ids[0].mid < ids.Length
  }

  ghost function Entries(ids: array<Id2>): seq<Id2>
    requires IsId2l(ids)
    reads ids
  {
    ids[1..ids[0].mid + 1]
  }

  ghost predicate Ascending(s: seq<Id2>) {
    forall i, j :: 0 <= i < j < |s| ==> s[i].mid < s[j].mid
  }

  ghost predicate HasPage(s: seq<Id2>, id: Id) {
    exists k :: 0 <= k < |s| && s[k].mid == id
  }

  // mdb_mid2l_search: binary search for the first entry at or above id.
  method Search(ids: array<Id2>, id: Id) returns (cursor: nat)
    requires IsId2l(ids) && Ascending(Entries(ids))
    ensures 1 <= cursor <= ids[0].mid + 1
    ensures forall k :: 1 <= k < cursor ==> ids[k].mid < id
    ensures forall k :: cursor <= k <= ids[0].mid ==> ids[k].mid >= id
    ensures cursor <= ids[0].mid && ids[cursor].mid == id <==> HasPage(Entries(ids), id)
  {
    ghost var s := Entries(ids);
    assert forall k :: 1 <= k <= ids[0].mid ==> ids[k] == s[k - 1];
    var base, n, val := 0, ids[0].mid, 0;
    cursor := 1;
    while 0 < n
      invariant 0 <= n && 0 <= base && base + n <= ids[0].mid
      invariant if val < 0 then cursor == base + n + 1 else if val > 0 then cursor == base > 0 else base == 0 && cursor == 1 && n == ids[0].mid
      invariant forall k :: 0 <= k < base ==> s[k].mid < id
      invariant forall k :: base + n <= k < |s| ==> s[k].mid > id
    {
      var pivot := n / 2;
      cursor := base + pivot + 1;
      assert ids[cursor] == s[cursor - 1];
      val := if id < ids[cursor].mid then -1 else if id > ids[cursor].mid then 1 else 0;
      if val < 0 {
        n := pivot;
      } else if val > 0 {
        base := cursor;
        n := n - (pivot + 1);
      } else {
        return;
      }
    }
    if val > 0 {
      cursor := cursor + 1;
    }
  }

  function PageMap(s: seq<Id2>): map<Id, int> {
    if s == [] then map[] else PageMap(s[..|s| - 1])[s[|s| - 1].mid := s[|s| - 1].mptr]
  }

  lemma {:induction false} PageMapKeys(s: seq<Id2>, id: Id)
    ensures id in PageMap(s) <==> HasPage(s, id)
  {
    if s != [] {
      var front := s[..|s| - 1];
      PageMapKeys(front, id);
      if HasPage(front, id) {
        var k :| 0 <= k < |front| && front[k].mid == id;
        assert s[k].mid == id;
      }
      if HasPage(s, id) && s[|s| - 1].mid != id {
        var k :| 0 <= k < |s| && s[k].mid == id;
        assert front[k].mid == id;
      }
    }
  }

  ghost function InsertedAt(s: seq<Id2>, x: nat, id: Id2): seq<Id2>
    requires x <= |s|
  {
    s[..x] + [id] + s[x..]
  }

  // Open a slot at position x and fill it.
  method OpenSlot(ids: array<Id2>, x: nat, id: Id2)
    requires IsId2l(ids) && 1 <= x <= ids[0].mid + 1 < ids.Length
    modifies ids
    ensures IsId2l(ids) && Entries(ids) == InsertedAt(old(Entries(ids)), x - 1, id)
  {
    ghost var s := Entries(ids);
    ids[0] := ids[0].(mid := ids[0].mid + 1);
    var i := ids[0].mid;
    while i > x
      invariant x <= i <= |s| + 1 && ids[0].mid == |s| + 1
      invariant forall k :: 1 <= k < i ==> ids[k] == s[k - 1]
      invariant forall k :: i < k <= |s| + 1 ==> ids[k] == s[k - 2]
    {
      ids[i] := ids[i - 1];
      i := i - 1;
    }
    ids[x] := id;
    ghost var r := InsertedAt(s, x - 1, id);
    assert forall k :: 1 <= k <= |s| + 1 ==> ids[k] == r[k - 1];
  }

  lemma InsertKeepsOrder(s: seq<Id2>, x: nat, id: Id2)
    requires Ascending(s) && x <= |s|
    requires forall k :: 0 <= k < x ==> s[k].mid < id.mid
    requires forall k :: x <= k < |s| ==> s[k].mid > id.mid
    ensures Ascending(InsertedAt(s, x, id))
  {
  }

  // mdb_mid2l_insert: 0 on success, -1 for a page already listed, -2 for a full list.
  method Insert(ids: array<Id2>, id: Id2) returns (rc: int)
    requires IsId2l(ids) && Ascending(Entries(ids)) && UM_MAX < ids.Length
    modifies ids
    ensures IsId2l(ids) && Ascending(Entries(ids))
    ensures rc == if HasPage(old(Entries(ids)), id.mid) then -1 else if old(ids[0].mid) >= UM_MAX then -2 else 0
    ensures rc != 0 ==> ids[..] == old(ids[..])
    ensures rc == 0 ==> exists x :: 0 <= x <= old(ids[0].mid) && Entries(ids) == InsertedAt(old(Entries(ids)), x, id)
  {
    ghost var s := Entries(ids);
    var x := Search(ids, id.mid);
    if x <= ids[0].mid && ids[x].mid == id.mid {
      return -1;
    }
    if ids[0].mid >= UM_MAX {
      return -2;
    }
    assert forall k :: x - 1 <= k < |s| ==> s[k] == ids[k + 1];
    InsertKeepsOrder(s, x - 1, id);
    OpenSlot(ids, x, id);
    return 0;
  }
}
