// The database of LuaDB keys, as LMDB holds it.

module LuaDbStore {
  import opened Bytes
  import opened Options
  import opened LuaDbKeys
  import BTree
  import Cursors

  // What the database holds: keys in the order of CompareKeys.
  ghost predicate IsStore(store: seq<Key>) {
    && (forall i :: 0 <= i < |store| ==> KeyOk(store[i]) && store[i] != [])
    && (forall i, j :: 0 <= i < j < |store| ==> Compare(store[i], store[j]) < 0)
  }

  // The index MDB_SET_RANGE finds: the least key not below the given one.
  function LowerBound(store: seq<Key>, k: Key): (i: nat)
    ensures i <= |store|
  {
    if store == [] || Compare(store[0], k) >= 0 then 0 else 1 + LowerBound(store[1..], k)
  }

  lemma {:induction false} LowerBoundIs(store: seq<Key>, k: Key)
    requires forall i, j :: 0 <= i < j < |store| ==> Compare(store[i], store[j]) < 0
    ensures forall i :: 0 <= i < LowerBound(store, k) ==> Compare(store[i], k) < 0
    ensures forall i :: LowerBound(store, k) <= i < |store| ==> Compare(store[i], k) >= 0
  {
    if store != [] && Compare(store[0], k) < 0 {
      LowerBoundIs(store[1..], k);
      assert forall i :: 1 <= i < |store| ==> store[i] == store[1..][i - 1];
    } else if store != [] {
      forall i | 0 <= i < |store|
        ensures Compare(store[i], k) >= 0
      {
        if i > 0 {
          AtLeast(k, store[0], store[i]);
        }
      }
    }
  }

  lemma AtLeast(k: Key, a: Key, b: Key)
    requires Compare(a, k) >= 0 && Compare(a, b) < 0
    ensures Compare(b, k) > 0
  {
    CompareOpposite(k, a);
    CompareOpposite(a, k);
    CompareOpposite(k, b);
    CompareTransitive(k, a, b);
  }

  //// The cursor over it

  lemma KeyOrderIsOrder()
    ensures BTree.IsOrder(KeyOrder)
  {
    hide Compare, ParseKey;
    forall a: seq<byte>, b: seq<byte>
      ensures KeyOrder(a, b) < 0 <==> KeyOrder(b, a) > 0
    {
      CompareOpposite(ParseKey(a), ParseKey(b));
    }
    forall a: seq<byte>, b: seq<byte>, d: seq<byte> | KeyOrder(a, b) <= 0 && KeyOrder(b, d) <= 0
      ensures KeyOrder(a, d) <= 0
    {
      CompareTransitive(ParseKey(a), ParseKey(b), ParseKey(d));
    }
  }

  predicate AllOk(store: seq<Key>) {
    forall i :: 0 <= i < |store| ==> KeyOk(store[i])
  }

  function StoreBytes(store: seq<Key>): seq<seq<byte>>
    requires AllOk(store)
  {
    seq(|store|, i requires 0 <= i < |store| => KeyBytes(store[i]))
  }

  lemma {:induction false} SameBound(store: seq<Key>, k: Key)
    requires AllOk(store) && KeyOk(k)
    ensures BTree.LowerBound(KeyOrder, StoreBytes(store), KeyBytes(k)) == LowerBound(store, k)
  {
    hide KeyBytes, KeyOrder;
    if store != [] {
      KeyOrderIs(store[0], k);
      assert StoreBytes(store)[1..] == StoreBytes(store[1..]);
      SameBound(store[1..], k);
    }
  }

  // A search of the tree gives the least key not below the given one.
  lemma SetRangeIsAnswer(store: seq<Key>, k: Key)
    requires AllOk(store) && KeyOk(k) && k != []
    ensures Cursors.Answer(KeyOrder, StoreBytes(store), KeyBytes(k), false) ==
            var i := LowerBound(store, k); if i < |store| then Cursors.Found(KeyBytes(store[i])) else Cursors.NotFound
  {
    hide KeyBytes, KeyOrder, LowerBound, BTree.LowerBound;
    SameBound(store, k);
    Ends(k, 0);
  }

  // The cursor is one over a tree with the keys of the store, in their order.
  ghost predicate Opened(cur: Cursors.Cursor, store: seq<Key>)
    reads cur, cur.pg, cur.ki
  {
    && cur.Valid() && cur.c == KeyOrder
    && AllOk(store) && cur.All() == StoreBytes(store) && (cur.root.Some? ==> store != [])
  }

  // mdb_cursor_open
  method Open(root: Option<BTree.Tree>, ghost store: seq<Key>) returns (cur: Cursors.Cursor)
    requires TreeHolds(root, store)
    ensures Opened(cur, store) && cur.root == root && !cur.initialized && !cur.eof
    ensures fresh(cur) && fresh(cur.pg) && fresh(cur.ki)
  {
    hide KeyOrder, KeyBytes, BTree.IsOrder, BTree.WellFormed;
    KeyOrderIsOrder();
    cur := new Cursors.Cursor(KeyOrder, root);
  }

  // The tree is one that LMDB may have built of the store's keys.
  ghost predicate TreeHolds(root: Option<BTree.Tree>, store: seq<Key>) {
    AllOk(store) && match root
    case None => store == []
    case Some(t) =>
      store != [] && BTree.WellFormed(KeyOrder, t) && BTree.Height(t) < Cursors.CURSOR_STACK && BTree.Keys(t) == StoreBytes(store)
  }

  // mdb_cursor_get with MDB_SET_RANGE, or with MDB_FIRST for the empty key.
  method Seek(cur: Cursors.Cursor, ghost store: seq<Key>, key: seq<byte>, ghost k: Key) returns (r: Option<seq<byte>>)
    requires Opened(cur, store) && KeyOk(k) && key == KeyBytes(k)
    modifies cur, cur.pg, cur.ki
    ensures Opened(cur, store)
    ensures var i := LowerBound(store, k); r == if i < |store| then Some(KeyBytes(store[i])) else None
  {
    hide KeyBytes, KeyOrder, Cursors.Cursor.Valid, BTree.LowerBound, Cursors.Answer;
    Ends(k, 0);
    var answer;
    if |key| > 0 {
      answer := cur.Set(key, false);
      SetRangeIsAnswer(store, k);
    } else {
      answer := cur.GoFirst();
    }
    r := if answer.Found? then Some(answer.key) else None;
  }
}
