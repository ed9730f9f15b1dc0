// What a transaction tells about a node: whether it has a value and whether it has children.

module LuaDbData {
  import opened Bytes
  import opened Options
  import opened LuaDbKeys
  import opened LuaDbStore
  import opened LuaDbOrder
  import BTree
  import Cursors

  ghost predicate HasKey(store: seq<Key>, k: Key) {
    exists i :: 0 <= i < |store| && Compare(store[i], k) == 0
  }

  ghost predicate Descends(store: seq<Key>, k: Key, i: int) {
    0 <= i < |store| && k < store[i]
  }

  ghost predicate HasDescendant(store: seq<Key>, k: Key) {
    exists i :: Descends(store, k, i)
  }

  // A key the order finds under k has k's types too.
  ghost predicate TypesAgree(store: seq<Key>, k: Key) {
    forall i :: 0 <= i < |store| && Under(k, store[i]) ==> k <= store[i]
  }

  // Where the cursor is when the children are looked for: at the key after the node's own, or, if
  // the node has no value, at the least key above it or at the one after that.
  ghost function LookedAt(root: Option<BTree.Tree>, store: seq<Key>, k: Key): nat
    requires KeyOk(k)
  {
    LowerBound(store, k) + if HasKey(store, k) || !SearchedPast(root, k) then 1 else 0
  }

  // A search for the key ends past the last key of a leaf.
  ghost predicate SearchedPast(root: Option<BTree.Tree>, k: Key)
    requires KeyOk(k)
  {
    root.Some? && BTree.PastLeaf(KeyOrder, root.value, KeyBytes(k))
  }

  ghost predicate Told(root: Option<BTree.Tree>, store: seq<Key>, k: Key)
    requires KeyOk(k)
  {
    LookedAt(root, store, k) < |store| && k <= store[LookedAt(root, store, k)]
  }

  lemma KeyIsBound(store: seq<Key>, k: Key)
    requires IsStore(store) && KeyOk(k)
    ensures var p := LowerBound(store, k); HasKey(store, k) <==> p < |store| && Compare(store[p], k) == 0
  {
    hide LowerBound, Compare;
    var p := LowerBound(store, k);
    LowerBoundIs(store, k);
    if i :| 0 <= i < |store| && Compare(store[i], k) == 0 {
      if p < i {
        CompareOpposite(store[p], store[i]);
        CompareTransitive(store[p], store[i], k);
      }
    }
  }

  lemma SetFinds(store: seq<Key>, k: Key)
    requires IsStore(store) && KeyOk(k) && k != []
    ensures HasKey(store, k) ==> LowerBound(store, k) < |store|
    ensures Cursors.Answer(KeyOrder, StoreBytes(store), KeyBytes(k), true) ==
            if HasKey(store, k) then Cursors.Found(KeyBytes(store[LowerBound(store, k)])) else Cursors.NotFound
  {
    hide LowerBound, Compare, KeyBytes, KeyOrder, BTree.LowerBound, HasKey;
    SameBound(store, k);
    KeyIsBound(store, k);
    Ends(k, 0);
    var p := LowerBound(store, k);
    if p < |store| {
      KeyOrderIs(k, store[p]);
      CompareOpposite(k, store[p]);
      CompareOpposite(store[p], k);
    }
  }

  lemma NotShorter(store: seq<Key>, k: Key, q: nat)
    requires IsStore(store) && LowerBound(store, k) <= q < |store|
    ensures !(store[q] < k)
  {
    LowerBoundIs(store, k);
    if store[q] < k {
      PrefixIsLess(store[q], k);
    }
  }

  // The two moves of the cursor.
  method Search(root: Option<BTree.Tree>, ghost store: seq<Key>, key: seq<byte>, ghost k: Key) returns (found: bool, next: Option<seq<byte>>)
    requires IsStore(store) && TreeHolds(root, store) && KeyOk(k) && k != [] && key == KeyBytes(k)
    ensures found <==> HasKey(store, k)
    ensures var q := LookedAt(root, store, k); next == if q < |store| then Some(KeyBytes(store[q])) else None
  {
    hide KeyBytes, KeyOrder, BTree.LowerBound, Cursors.Answer, LowerBound, HasKey, IsStore, TreeHolds, Cursors.Cursor.Valid, Cursors.Cursor.NotBefore, BTree.PastLeaf, BTree.Keys;
    var cur := Open(root, store);
    Ends(k, 0);
    var r, n := cur.SetThenNext(key);
    found := r.Found?;
    SetFinds(store, k);
    SameBound(store, k);
    assert n == Cursors.KeyAt(StoreBytes(store), LookedAt(root, store, k));
    next := if n.Found? then Some(n.key) else None;
  }

  // LmdbTx_Data
  method Data(root: Option<BTree.Tree>, ghost store: seq<Key>, args: Key) returns (hasData: bool, hasChildren: bool)
    requires IsStore(store) && TreeHolds(root, store) && KeyOk(args) && NulFree(args)
    ensures hasData <==> args != [] && HasKey(store, args)
    ensures hasChildren <==> args != [] && Told(root, store, args)
  {
    hide KeyBytes, LowerBound, HasKey, BTree.Keys, SearchedPast;
    var key := GenerateLuaDbKey(args);
    Ends(args, 0);
    if |key| == 0 {
      return false, false;
    }
    var next;
    hasData, next := Search(root, store, key, args);
    if next.None? {
      return hasData, false;
    }
    ghost var q := LookedAt(root, store, args);
    BytesPrefix(args, store[q]);
    NotShorter(store, args, q);
    BytesNulFree(args);
    hasChildren := StartsWith(key, next.value);
  }

  //// What the answer about children is worth

  // The keys below k follow it directly.
  lemma DescendantsFollow(store: seq<Key>, k: Key, i: nat, j: nat)
    requires IsStore(store) && KeyOk(k) && TypesAgree(store, k) && Descends(store, k, i)
    requires LowerBound(store, k) <= j <= i && (HasKey(store, k) ==> LowerBound(store, k) < j)
    ensures Descends(store, k, j)
  {
    hide LowerBound, Compare, HasKey;
    LowerBoundIs(store, k);
    KeyIsBound(store, k);
    PrefixIsUnder(k, store[i]);
    assert k + [] == k;
    CompareOpposite(store[j], store[i]);
    if !Under(k, store[j]) {
      Beyond(k, [], store[j], store[i]);
      CompareOpposite(store[i], store[j]);
    } else if store[j] == k {
      CompareEqual(k, k);
      AtBound(store, k, j);
    }
  }

  lemma AtBound(store: seq<Key>, k: Key, j: nat)
    requires IsStore(store) && KeyOk(k) && j < |store| && Compare(store[j], k) == 0
    ensures j == LowerBound(store, k) && HasKey(store, k)
  {
    hide LowerBound, Compare;
    LowerBoundIs(store, k);
    KeyIsBound(store, k);
    var p := LowerBound(store, k);
    CompareOpposite(store[p], store[j]);
    if p < j {
      CompareTransitive(store[p], store[j], k);
    }
  }

  // Keys below k come after where k is or would be.
  lemma DescendantIsAfter(store: seq<Key>, k: Key, i: nat)
    requires IsStore(store) && KeyOk(k) && Descends(store, k, i)
    ensures LowerBound(store, k) <= i && (HasKey(store, k) ==> LowerBound(store, k) < i)
  {
    hide LowerBound, Compare;
    LowerBoundIs(store, k);
    KeyIsBound(store, k);
    PrefixIsLess(k, store[i]);
    CompareOpposite(k, store[i]);
  }

  ghost predicate IsOnlyDescendant(store: seq<Key>, k: Key, i: int) {
    Descends(store, k, i) && forall j :: Descends(store, k, j) ==> j == i
  }

  // The answer is right if and only if the node has a value, or the search for it ends past a
  // leaf's keys, or it has not exactly one descendant: that one is passed over.
  lemma ChildrenTold(root: Option<BTree.Tree>, store: seq<Key>, k: Key)
    requires IsStore(store) && KeyOk(k) && TypesAgree(store, k)
    ensures (Told(root, store, k) <==> HasDescendant(store, k)) <==>
            (HasKey(store, k) || SearchedPast(root, k) || !exists i :: IsOnlyDescendant(store, k, i))
  {
    hide LowerBound, Compare, HasKey, SearchedPast, TypesAgree, IsStore;
    var p, q := LowerBound(store, k), LookedAt(root, store, k);
    ToldMeans(root, store, k);
    if i :| Descends(store, k, i) {
      DescendantIsAfter(store, k, i);
      if HasKey(store, k) || q == p {
        DescendantsFollow(store, k, i, q);
      } else {
        DescendantsFollow(store, k, i, p);
        if Told(root, store, k) {
          assert Descends(store, k, q) && Descends(store, k, p);
        } else {
          forall j | Descends(store, k, j)
            ensures j == p
          {
            DescendantIsAfter(store, k, j);
            if p < j {
              DescendantsFollow(store, k, j, q);
            }
          }
          assert IsOnlyDescendant(store, k, p);
        }
      }
    }
  }

  lemma ToldMeans(root: Option<BTree.Tree>, store: seq<Key>, k: Key)
    requires IsStore(store) && KeyOk(k)
    ensures Told(root, store, k) ==> Descends(store, k, LookedAt(root, store, k))
  {
    hide LowerBound, Compare;
    var q := LookedAt(root, store, k);
    if Told(root, store, k) && store[q] == k {
      CompareEqual(k, k);
      AtBound(store, k, q);
    }
  }

  // A database with one key of two segments: the node of the first has one child.
  function Node(): Key { [Segment(0x73, [0x61])] }

  function OneKey(): seq<Key> { [Node() + [Segment(0x73, [0x62])]] }

  lemma OneKeyOk()
    ensures IsStore(OneKey()) && KeyOk(Node()) && NulFree(Node()) && AllOk(OneKey())
    ensures TreeHolds(Some(BTree.Leaf(StoreBytes(OneKey()))), OneKey())
    ensures Descends(OneKey(), Node(), 0) && !HasKey(OneKey(), Node())
    ensures LookedAt(Some(BTree.Leaf(StoreBytes(OneKey()))), OneKey(), Node()) == 1 == |OneKey()|
  {
    var k, n := OneKey()[0], Node();
    assert Compare(k, n) == 1;
    LowerBoundIs(OneKey(), n);
    KeyOrderIs(k, n);
    hide Compare, KeyOrder, KeyBytes;
    var keys := StoreBytes(OneKey());
    assert !BTree.Lt(KeyOrder, keys[0], KeyBytes(n));
    assert BTree.Keys(BTree.Leaf(keys)) == keys;
  }

  // Asked about that node, the transaction says that it has none.
  method OnlyChildIsMissed() returns (hasData: bool, hasChildren: bool)
    ensures HasDescendant(OneKey(), Node()) && !hasData && !hasChildren
  {
    hide OneKey, Node;
    OneKeyOk();
    hasData, hasChildren := Data(Some(BTree.Leaf(StoreBytes(OneKey()))), OneKey(), Node());
  }
}
