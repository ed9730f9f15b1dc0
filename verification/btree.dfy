// The B-tree a cursor walks: branch pages with separators over leaf pages with keys.

module BTree {
  import opened Bytes

  type Key = seq<byte>
  type Compare = (Key, Key) -> int

  // md_cmp: a total preorder, negative, zero or positive.
  ghost predicate IsOrder(c: Compare) {
    && (forall a, b :: c(a, b) < 0 <==> c(b, a) > 0)
    && (forall a, b, d :: c(a, b) <= 0 && c(b, d) <= 0 ==> c(a, d) <= 0)
  }

  ghost predicate Lt(c: Compare, a: Key, b: Key) {
    c(a, b) < 0
  }

  lemma LtLe(c: Compare, a: Key, b: Key, d: Key)
    requires IsOrder(c) && ((Lt(c, a, b) && !Lt(c, d, b)) || (!Lt(c, b, a) && Lt(c, b, d)))
    ensures Lt(c, a, d)
  {
    assert c(a, d) < 0 || c(d, a) <= 0;
    assert c(b, a) <= 0 || c(a, b) <= 0;
    assert c(d, b) <= 0 || c(b, d) <= 0;
  }

  // A page: seps[0] of a branch page is not looked at.
  datatype Tree =
    | Leaf(keys: seq<Key>)
    | Branch(seps: seq<Key>, kids: seq<Tree>)
  {
    // NUMKEYS
    function Count(): nat {
      if Leaf? then |keys| else |kids|
    }
  }

  // All keys below a page, in order.
  function Keys(t: Tree): seq<Key> {
    match t
    case Leaf(keys) => keys
    case Branch(_, kids) => KeysOf(kids)
  }

  function KeysOf(kids: seq<Tree>): seq<Key> {
    if kids == [] then [] else KeysOf(kids[..|kids| - 1]) + Keys(kids[|kids| - 1])
  }

  function Height(t: Tree): nat {
    match t
    case Leaf(_) => 0
    case Branch(_, kids) => if kids == [] then 1 else 1 + Height(kids[0])
  }

  ghost predicate Sorted(c: Compare, ks: seq<Key>) {
    forall i, j :: 0 <= i < j < |ks| ==> Lt(c, ks[i], ks[j])
  }

  // The separator at i divides the keys of kid i - 1 from those of kid i.
  ghost predicate Divides(c: Compare, sep: Key, left: seq<Key>, right: seq<Key>) {
    && (forall q :: 0 <= q < |left| ==> Lt(c, left[q], sep))
    && (forall q :: 0 <= q < |right| ==> !Lt(c, right[q], sep))
  }

  ghost predicate WellFormed(c: Compare, t: Tree) {
    && Sorted(c, Keys(t))
    && (t.Branch? ==>
          && |t.seps| == |t.kids| >= 2
          && Sorted(c, t.seps[1..])
          && (forall i :: 0 <= i < |t.kids| ==>
                WellFormed(c, t.kids[i]) && Keys(t.kids[i]) != [] && Height(t.kids[i]) == Height(t) - 1)
          && (forall i :: 0 < i < |t.kids| ==> Divides(c, t.seps[i], Keys(t.kids[i - 1]), Keys(t.kids[i]))))
  }

  // How many keys come before kid i.
  function Offset(t: Tree, i: nat): nat
    requires t.Branch? && i <= |t.kids|
  {
    |KeysOf(t.kids[..i])|
  }

  lemma {:induction false} KeysOfPrefix(kids: seq<Tree>, i: nat, n: nat)
    requires i <= n <= |kids|
    ensures |KeysOf(kids[..i])| <= |KeysOf(kids[..n])|
    ensures KeysOf(kids[..n])[..|KeysOf(kids[..i])|] == KeysOf(kids[..i])
  {
    if i < n {
      KeysOfPrefix(kids, i, n - 1);
      assert kids[..n][..n - 1] == kids[..n - 1];
    }
  }

  // Where the keys of kid i are among those of the page.
  lemma KidKeys(t: Tree, i: nat)
    requires t.Branch? && i < |t.kids|
    ensures Offset(t, i + 1) == Offset(t, i) + |Keys(t.kids[i])| <= |Keys(t)|
    ensures Keys(t)[Offset(t, i)..Offset(t, i + 1)] == Keys(t.kids[i])
    ensures Offset(t, 0) == 0 && Offset(t, |t.kids|) == |Keys(t)|
  {
    var kids := t.kids;
    assert kids[..i + 1][..i] == kids[..i];
    assert kids[..|kids|] == kids;
    KeysOfPrefix(kids, i + 1, |kids|);
    assert Keys(t)[..Offset(t, i + 1)][Offset(t, i)..] == Keys(kids[i]);
  }

  //// Lower bounds

  // The least index whose key is not below the target.
  function LowerBound(c: Compare, ks: seq<Key>, key: Key): (p: nat)
    ensures p <= |ks|
  {
    if ks == [] || c(ks[0], key) >= 0 then 0 else 1 + LowerBound(c, ks[1..], key)
  }

  ghost predicate IsLowerBound(c: Compare, ks: seq<Key>, key: Key, p: nat) {
    && p <= |ks|
    && (forall q :: 0 <= q < p ==> Lt(c, ks[q], key))
    && (forall q :: p <= q < |ks| ==> !Lt(c, ks[q], key))
  }

  lemma {:induction false} LowerBoundIs(c: Compare, ks: seq<Key>, key: Key)
    requires IsOrder(c) && Sorted(c, ks)
    ensures IsLowerBound(c, ks, key, LowerBound(c, ks, key))
  {
    if ks != [] && c(ks[0], key) < 0 {
      LowerBoundIs(c, ks[1..], key);
      assert forall q :: 1 <= q < |ks| ==> ks[q] == ks[1..][q - 1];
    } else if ks != [] {
      forall q | 0 <= q < |ks|
        ensures !Lt(c, ks[q], key)
      {
        if q > 0 {
          NotBelow(c, ks[0], ks[q], key);
        }
      }
    }
  }

  lemma LtLt(c: Compare, a: Key, b: Key, d: Key)
    requires IsOrder(c) && Lt(c, a, b) && Lt(c, b, d)
    ensures Lt(c, a, d)
  {
    assert !Lt(c, d, b);
    LtLe(c, a, b, d);
  }

  lemma NotBelow(c: Compare, a: Key, b: Key, key: Key)
    requires IsOrder(c) && Lt(c, a, b) && !Lt(c, a, key)
    ensures !Lt(c, b, key)
  {
    assert c(b, key) < 0 ==> c(a, key) < 0 by {
      if c(b, key) < 0 {
        LtLt(c, a, b, key);
      }
    }
  }

  lemma LowerBoundIsUnique(c: Compare, ks: seq<Key>, key: Key, p: nat, r: nat)
    requires IsLowerBound(c, ks, key, p) && IsLowerBound(c, ks, key, r)
    ensures p == r
  {
    assert p < |ks| ==> !Lt(c, ks[p], key);
    assert r < |ks| ==> !Lt(c, ks[r], key);
  }

  //// Where a search goes

  // Everything outside ks[lo..hi] is on the right side of key.
  ghost predicate Surrounds(c: Compare, ks: seq<Key>, lo: nat, hi: nat, key: Key) {
    && lo <= hi <= |ks|
    && (forall q :: 0 <= q < lo ==> Lt(c, ks[q], key))
    && (forall q :: hi <= q < |ks| ==> Lt(c, key, ks[q]))
  }

  // The index mdb_page_search_root follows: the last kid whose separator is not above the key.
  ghost predicate Follows(c: Compare, t: Tree, key: Key, i: nat)
  {
    && t.Branch? && i < |t.kids| == |t.seps|
    && (i > 0 ==> !Lt(c, key, t.seps[i]))
    && (i + 1 < |t.kids| ==> Lt(c, key, t.seps[i + 1]))
  }

  // The last key before kid i, and the first after it, bound all the others.
  lemma KidSurrounds(c: Compare, t: Tree, i: nat, key: Key)
    requires IsOrder(c) && WellFormed(c, t) && t.Branch? && Follows(c, t, key, i)
    ensures Surrounds(c, Keys(t), Offset(t, i), Offset(t, i + 1), key)
  {
    hide KeysOf, Sorted;
    var ks := Keys(t);
    KidKeys(t, i);
    forall q | 0 <= q < Offset(t, i)
      ensures Lt(c, ks[q], key)
    {
      BeforeKid(c, t, i, q);
      LtLe(c, ks[q], t.seps[i], key);
    }
    forall q | Offset(t, i + 1) <= q < |ks|
      ensures Lt(c, key, ks[q])
    {
      AfterKid(c, t, i, q);
      LtLe(c, key, t.seps[i + 1], ks[q]);
    }
  }

  lemma BeforeKid(c: Compare, t: Tree, i: nat, q: nat)
    requires IsOrder(c) && WellFormed(c, t) && t.Branch? && i < |t.kids| && q < Offset(t, i) <= |Keys(t)|
    ensures i > 0 && Lt(c, Keys(t)[q], t.seps[i])
  {
    KidKeys(t, 0);
    hide KeysOf, Offset, Height;
    var ks, left := Keys(t), Keys(t.kids[i - 1]);
    KidKeys(t, i - 1);
    var last := Offset(t, i) - 1;
    assert left[|left| - 1] == ks[Offset(t, i - 1)..Offset(t, i)][|left| - 1] == ks[last];
    assert Divides(c, t.seps[i], left, Keys(t.kids[i])) && Lt(c, ks[last], t.seps[i]);
    hide WellFormed, Divides, Keys;
    if q < last {
      assert Lt(c, ks[q], ks[last]);
      LtLt(c, ks[q], ks[last], t.seps[i]);
    }
  }

  lemma AfterKid(c: Compare, t: Tree, i: nat, q: nat)
    requires IsOrder(c) && WellFormed(c, t) && t.Branch? && i < |t.kids| && Offset(t, i + 1) <= q < |Keys(t)|
    ensures i + 1 < |t.kids| && !Lt(c, Keys(t)[q], t.seps[i + 1])
  {
    hide KeysOf;
    KidKeys(t, i);
    var ks, right := Keys(t), Keys(t.kids[i + 1]);
    KidKeys(t, i + 1);
    var first := Offset(t, i + 1);
    assert right[0] == ks[first..Offset(t, i + 2)][0] == ks[first];
    assert Divides(c, t.seps[i + 1], Keys(t.kids[i]), right) && !Lt(c, ks[first], t.seps[i + 1]);
    if first < q {
      NotBelow(c, ks[first], ks[q], t.seps[i + 1]);
    }
  }

  // A search for the key from this page down ends on a leaf whose keys are all below it.
  ghost predicate PastLeaf(c: Compare, t: Tree, key: Key)
    decreases t
  {
    match t
    case Leaf(keys) => forall q :: 0 <= q < |keys| ==> Lt(c, keys[q], key)
    case Branch(_, kids) => exists i: nat :: i < |kids| && Follows(c, t, key, i) && PastLeaf(c, kids[i], key)
  }

  lemma FollowsIsUnique(c: Compare, t: Tree, key: Key, i: nat, j: nat)
    requires IsOrder(c) && WellFormed(c, t) && t.Branch? && Follows(c, t, key, i) && Follows(c, t, key, j)
    ensures i == j
  {
    hide Keys, Height, Divides;
    if i < j {
      SepsAscend(c, t, key, i, j);
    } else if j < i {
      SepsAscend(c, t, key, j, i);
    }
  }

  // A key below one separator is below the later ones.
  lemma SepsAscend(c: Compare, t: Tree, key: Key, i: nat, j: nat)
    requires IsOrder(c) && t.Branch? && i < j < |t.kids| == |t.seps|
    requires Sorted(c, t.seps[1..]) && Lt(c, key, t.seps[i + 1])
    ensures Lt(c, key, t.seps[j])
  {
    var tail := t.seps[1..];
    assert tail[i] == t.seps[i + 1] && tail[j - 1] == t.seps[j];
    if i + 1 < j {
      LtLt(c, key, tail[i], tail[j - 1]);
    }
  }

  lemma PastKid(c: Compare, t: Tree, key: Key, i: nat)
    requires IsOrder(c) && WellFormed(c, t) && t.Branch? && Follows(c, t, key, i)
    ensures PastLeaf(c, t, key) <==> PastLeaf(c, t.kids[i], key)
  {
    hide WellFormed;
    if PastLeaf(c, t, key) {
      var j: nat :| j < |t.kids| && Follows(c, t, key, j) && PastLeaf(c, t.kids[j], key);
      FollowsIsUnique(c, t, key, i, j);
    }
  }

  // A kid with keys on both sides of the target is the one to follow.
  lemma FollowedIsInside(c: Compare, t: Tree, key: Key, k: nat, a: nat, b: nat, j: nat)
    requires IsOrder(c) && WellFormed(c, t) && t.Branch? && k < |t.kids| && Follows(c, t, key, j)
    requires a < |Keys(t.kids[k])| && b < |Keys(t.kids[k])|
    requires Lt(c, Keys(t.kids[k])[a], key) && Lt(c, key, Keys(t.kids[k])[b])
    ensures j == k
  {
    hide KeysOf, Sorted, Divides, Height;
    KidSurrounds(c, t, j, key);
    KidKeys(t, k);
    var ks, part, o := Keys(t), Keys(t.kids[k]), Offset(t, k);
    assert ks[o..o + |part|][a] == part[a] == ks[o + a] && ks[o..o + |part|][b] == part[b] == ks[o + b];
    if j < k {
      KeysOfPrefix(t.kids, j + 1, k);
      assert false;
    } else if k < j {
      KeysOfPrefix(t.kids, k + 1, j);
      assert false;
    }
  }

  // A key above all others is past the last leaf.
  lemma {:induction false} AllBelowPast(c: Compare, t: Tree, key: Key)
    requires IsOrder(c) && WellFormed(c, t)
    requires forall q :: 0 <= q < |Keys(t)| ==> Lt(c, Keys(t)[q], key)
    ensures PastLeaf(c, t, key)
    decreases t
  {
    hide KeysOf, Sorted;
    if t.Branch? {
      var i := |t.kids| - 1;
      var part := Keys(t.kids[i]);
      KidKeys(t, i);
      assert forall q :: 0 <= q < |part| ==> part[q] == Keys(t)[Offset(t, i)..Offset(t, i + 1)][q] == Keys(t)[Offset(t, i) + q];
      assert Divides(c, t.seps[i], Keys(t.kids[i - 1]), part) && !Lt(c, part[0], t.seps[i]);
      NotBelow(c, part[0], key, t.seps[i]);
      AllBelowPast(c, t.kids[i], key);
    }
  }

  // What a search within a segment of the keys says of all of them.
  lemma Narrow(c: Compare, ks: seq<Key>, lo: nat, part: seq<Key>, a: nat, b: nat, key: Key)
    requires lo + |part| <= |ks| && ks[lo..lo + |part|] == part
    requires Surrounds(c, ks, lo, lo + |part|, key) && Surrounds(c, part, a, b, key)
    ensures Surrounds(c, ks, lo + a, lo + b, key)
  {
    assert forall q :: lo <= q < lo + |part| ==> ks[q] == part[q - lo];
  }

  lemma BoundWithin(c: Compare, ks: seq<Key>, lo: nat, part: seq<Key>, p: nat, key: Key)
    requires IsOrder(c) && lo + |part| <= |ks| && ks[lo..lo + |part|] == part
    requires Surrounds(c, ks, lo, lo + |part|, key) && IsLowerBound(c, part, key, p)
    ensures IsLowerBound(c, ks, key, lo + p)
  {
    assert forall q :: lo <= q < lo + |part| ==> ks[q] == part[q - lo];
  }

  lemma EqualIsBound(c: Compare, ks: seq<Key>, key: Key, p: nat)
    requires IsOrder(c) && Sorted(c, ks) && p < |ks| && c(key, ks[p]) == 0
    ensures IsLowerBound(c, ks, key, p)
  {
    assert !Lt(c, key, ks[p]) && !Lt(c, ks[p], key);
    forall q | 0 <= q < p
      ensures Lt(c, ks[q], key)
    {
      LtLe(c, ks[q], ks[p], key);
    }
    forall q | p < q < |ks|
      ensures !Lt(c, ks[q], key)
    {
      NotBelow(c, ks[p], ks[q], key);
    }
  }

  // Keys on either side of a segment's ends.
  lemma EndsSurround(c: Compare, ks: seq<Key>, lo: nat, hi: nat, key: Key)
    requires IsOrder(c) && Sorted(c, ks) && lo < hi <= |ks|
    requires Lt(c, ks[lo], key) && Lt(c, key, ks[hi - 1])
    ensures Surrounds(c, ks, lo, hi, key)
  {
    forall q | 0 <= q < lo
      ensures Lt(c, ks[q], key)
    {
      LtLt(c, ks[q], ks[lo], key);
    }
    forall q | hi <= q < |ks|
      ensures Lt(c, key, ks[q])
    {
      LtLt(c, key, ks[hi - 1], ks[q]);
    }
  }

  lemma AllBelow(c: Compare, ks: seq<Key>, key: Key)
    requires IsOrder(c) && Sorted(c, ks) && (ks == [] || Lt(c, ks[|ks| - 1], key))
    ensures IsLowerBound(c, ks, key, |ks|)
  {
    forall q | 0 <= q < |ks| - 1
      ensures Lt(c, ks[q], key)
    {
      LtLt(c, ks[q], ks[|ks| - 1], key);
    }
  }

  lemma AllAbove(c: Compare, ks: seq<Key>, key: Key)
    requires IsOrder(c) && Sorted(c, ks) && ks != [] && Lt(c, key, ks[0])
    ensures IsLowerBound(c, ks, key, 0)
  {
    forall q | 0 < q < |ks|
      ensures !Lt(c, ks[q], key)
    {
      NotBelow(c, ks[0], ks[q], key);
    }
  }

  // What comparing with entries of a page says about all keys, of which the page holds ks[lo..].
  lemma PageTells(c: Compare, ks: seq<Key>, lo: nat, part: seq<Key>, key: Key, j: nat)
    requires IsOrder(c) && Sorted(c, ks) && j < |part|
    requires lo + |part| <= |ks| && ks[lo..lo + |part|] == part
    ensures c(key, part[j]) == 0 ==> IsLowerBound(c, ks, key, lo + j)
    ensures c(key, part[0]) > 0 && c(key, part[|part| - 1]) < 0 ==> Surrounds(c, ks, lo, lo + |part|, key)
    ensures c(key, part[|part| - 1]) > 0 && lo + |part| == |ks| ==> IsLowerBound(c, ks, key, |ks|)
    ensures c(key, part[0]) < 0 && lo == 0 ==> IsLowerBound(c, ks, key, 0)
  {
    hide Sorted, IsLowerBound, Surrounds, IsOrder, Lt;
    assert part[j] == ks[lo + j] && part[0] == ks[lo] && part[|part| - 1] == ks[lo + |part| - 1];
    Order(c, key, part[0]);
    Order(c, key, part[|part| - 1]);
    if c(key, part[j]) == 0 {
      EqualIsBound(c, ks, key, lo + j);
    }
    if c(key, part[0]) > 0 && c(key, part[|part| - 1]) < 0 {
      EndsSurround(c, ks, lo, lo + |part|, key);
    }
    if c(key, part[|part| - 1]) > 0 && lo + |part| == |ks| {
      AllBelow(c, ks, key);
    }
    if c(key, part[0]) < 0 && lo == 0 {
      AllAbove(c, ks, key);
    }
  }

  //// mdb_node_search

  // What is left of and right of the range still searched, from index first on.
  ghost predicate Excluded(c: Compare, keys: seq<Key>, first: nat, low: int, high: int, key: Key) {
    && first <= low <= high + 1 <= |keys|
    && (forall q :: first <= q < low ==> Lt(c, keys[q], key))
    && (forall q :: high < q < |keys| ==> Lt(c, key, keys[q]))
  }

  lemma Exclude(c: Compare, keys: seq<Key>, first: nat, low: int, high: int, key: Key, i: int)
    requires IsOrder(c) && first <= |keys| && Sorted(c, keys[first..])
    requires Excluded(c, keys, first, low, high, key) && low <= i <= high
    ensures Lt(c, keys[i], key) ==> Excluded(c, keys, first, i + 1, high, key)
    ensures Lt(c, key, keys[i]) ==> Excluded(c, keys, first, low, i - 1, key)
  {
    var tail := keys[first..];
    assert forall q :: first <= q < |keys| ==> keys[q] == tail[q - first];
    if Lt(c, keys[i], key) {
      forall q | first <= q < i
        ensures Lt(c, keys[q], key)
      {
        LtLt(c, tail[q - first], tail[i - first], key);
      }
    } else if Lt(c, key, keys[i]) {
      forall q | i < q < |keys|
        ensures Lt(c, key, keys[q])
      {
        LtLt(c, key, tail[i - first], tail[q - first]);
      }
    }
  }

  lemma SearchEnds(c: Compare, keys: seq<Key>, first: nat, low: nat, key: Key)
    requires IsOrder(c) && Excluded(c, keys, first, low, low - 1, key)
    ensures IsLowerBound(c, keys[first..], key, low - first)
    ensures low < |keys| ==> c(key, keys[low]) != 0
  {
    var tail := keys[first..];
    assert forall q :: 0 <= q < |tail| ==> tail[q] == keys[first + q];
    forall q | low - first <= q < |tail|
      ensures !Lt(c, tail[q], key)
    {
      assert Lt(c, key, keys[first + q]);
    }
    assert low < |keys| ==> Lt(c, key, keys[low]);
  }

  // Binary search of a page from index first on: the least entry not below the key.
  method NodeSearch(c: Compare, keys: seq<Key>, first: nat, key: Key) returns (i: nat, exact: bool)
    requires IsOrder(c) && first <= |keys| && (first == 0 || first < |keys|)
    requires Sorted(c, keys[first..])
    ensures first <= i <= |keys|
    ensures IsLowerBound(c, keys[first..], key, i - first)
    ensures exact <==> i < |keys| && c(key, keys[i]) == 0
  {
    hide Sorted, IsLowerBound, IsOrder;
    var low, high, rc := first as int, |keys| - 1, 0;
    i := 0;
    while low <= high
      invariant Excluded(c, keys, first, low, high, key)
      invariant rc == 0 ==> low == first && high == |keys| - 1 && i == 0
      invariant rc > 0 ==> i == low - 1
      invariant rc < 0 ==> i == high + 1
      decreases high - low
    {
      i := (low + high) / 2;
      rc := c(key, keys[i]);
      if rc == 0 {
        EqualIsBound(c, keys[first..], key, i - first);
        return i, true;
      }
      Order(c, key, keys[i]);
      Exclude(c, keys, first, low, high, key, i);
      hide Excluded;
      if rc > 0 {
        low := i + 1;
      } else {
        high := i - 1;
      }
    }
    if rc > 0 {
      i := i + 1;
    }
    SearchEnds(c, keys, first, i, key);
    exact := false;
  }

  lemma Order(c: Compare, a: Key, b: Key)
    requires IsOrder(c)
    ensures c(a, b) > 0 ==> Lt(c, b, a)
    ensures c(a, b) < 0 ==> Lt(c, a, b)
    ensures c(a, b) == 0 ==> !Lt(c, a, b) && !Lt(c, b, a)
  {
  }
}
