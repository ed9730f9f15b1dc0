// The ordered walk over the children of a node, after the $ORDER function of MUMPS.

module LuaDbOrder {
  import opened Bytes
  import opened Options
  import opened LuaDbKeys
  import opened LuaDbStore
  import Cursors

  //// Data in order

  // Data is between d and the next value exactly if it extends d.
  lemma {:induction false} BetweenExtends(d: seq<byte>, c: seq<byte>)
    requires CanIncrement(d)
    ensures CompareData(d, c) < 0 && CompareData(c, NextData(d)) < 0 <==> d < c
    ensures CompareData(d, NextData(d)) < 0
  {
    var n := NextData(d);
    if |d| == 1 {
      assert n == [d[0] + 1];
      if c != [] && c[0] == d[0] {
        assert d[1..] == [];
        assert d < c <==> c[1..] != [];
      }
    } else {
      assert d[1..] == d[1..] && n[1..] == NextData(d[1..]);
      if c == [] {
        BetweenExtends(d[1..], []);
      } else {
        BetweenExtends(d[1..], c[1..]);
        if c[0] == d[0] {
          assert d < c <==> d[1..] < c[1..] by {
            assert d == [d[0]] + d[1..] && c == [c[0]] + c[1..];
          }
        }
      }
    }
  }

  lemma {:induction false} PrefixIsBelow(a: seq<byte>, b: seq<byte>)
    requires a < b
    ensures CompareData(a, b) < 0
  {
    if a != [] {
      assert a[0] == b[0] && a[1..] < b[1..];
      PrefixIsBelow(a[1..], b[1..]);
    }
  }

  //// Keys under a prefix

  // The key lies under the prefix, as far as the order can tell.
  predicate Under(p: Key, k: Key) {
    p == [] || (k != [] && k[0].data == p[0].data && Under(p[1..], k[1..]))
  }

  lemma {:induction false} UnderRest(p: Key, k: Key, m: Key)
    requires Under(p, k)
    ensures |p| <= |k| && Compare(p + m, k) == Compare(m, k[|p|..]) && Compare(k, p + m) == Compare(k[|p|..], m)
  {
    if p == [] {
      assert p + m == m && k[0..] == k;
    } else {
      UnderRest(p[1..], k[1..], m);
      DataEqual(p[0].data, k[0].data);
      DataEqual(k[0].data, p[0].data);
      assert (p + m)[1..] == p[1..] + m && k[1..][|p| - 1..] == k[|p|..];
    }
  }

  // A key not below one under the prefix, but itself not under it, is above all under it.
  lemma {:induction false} Beyond(p: Key, m: Key, k: Key, other: Key)
    requires Compare(k, p + m) >= 0 && !Under(p, k) && Under(p, other)
    ensures Compare(other, k) < 0
  {
    assert p != [] && (p + m)[0] == p[0] && (p + m)[1..] == p[1..] + m;
    if k != [] {
      DataEqual(k[0].data, p[0].data);
      DataOpposite(p[0].data, k[0].data);
      DataEqual(p[0].data, k[0].data);
      if k[0].data == p[0].data {
        Beyond(p[1..], m, k[1..], other[1..]);
      }
    }
  }

  lemma {:induction false} PrefixIsUnder(p: Key, k: Key)
    requires p <= k
    ensures Under(p, k)
  {
    if p != [] {
      PrefixIsUnder(p[1..], k[1..]);
    }
  }

  //// The walk

  // Types that can be given back to Lua; the empty type is never stored.
  predicate Pushable(kind: byte) {
    kind == 0x62 || kind == 0x69 || kind == 0x6E || kind == 0x73
  }

  ghost predicate Storable(k: Key) {
    k != [] && forall i :: 0 <= i < |k| ==>
      SegmentOk(k[i]) && 0 !in k[i].data && Pushable(k[i].kind) && CanIncrement(k[i].data)
  }

  // A database the walk can be used on: no segment ends with byte 0xFF.
  ghost predicate IsDatabase(store: seq<Key>) {
    IsStore(store) && forall i :: 0 <= i < |store| ==> Storable(store[i])
  }

  // Where a walk stands: before the first key, or just before a segment under the prefix.
  ghost predicate Stands(p: Key, at: Key) {
    KeyOk(at) && if at == [] then p == [] else |at| == |p| + 1 && at[..|p|] == p
  }

  // The least data still to be visited.
  function From(p: Key, at: Key): seq<byte> {
    if |at| > |p| then at[|p|].data else []
  }

  function After(p: Key, g: Segment): (at: Key)
    requires CanIncrement(g.data)
  {
    p + [Segment(g.kind, NextData(g.data))]
  }

  lemma AfterStands(p: Key, g: Segment)
    requires KeyOk(p) && SegmentOk(g) && CanIncrement(g.data)
    ensures Stands(p, After(p, g)) && From(p, After(p, g)) == NextData(g.data)
  {
  }

  // The next key is a child's, or one of a child's descendants.
  ghost predicate Finds(store: seq<Key>, p: Key, at: Key) {
    var i := LowerBound(store, at);
    i < |store| && p <= store[i] && |store[i]| > |p|
  }

  ghost function Found(store: seq<Key>, p: Key, at: Key): Segment
    requires Finds(store, p, at)
  {
    store[LowerBound(store, at)][|p|]
  }

  lemma Advances(store: seq<Key>, p: Key, at: Key)
    requires IsDatabase(store) && KeyOk(p) && Finds(store, p, at)
    ensures var g := Found(store, p, at);
            SegmentOk(g) && CanIncrement(g.data) && LowerBound(store, After(p, g)) > LowerBound(store, at)
  {
    var i := LowerBound(store, at);
    var k := store[i];
    assert Storable(k);
    var g := k[|p|];
    var next := Segment(g.kind, NextData(g.data));
    PrefixIsUnder(p, k);
    UnderRest(p, k, [next]);
    BetweenExtends(g.data, g.data);
    assert k[|p|..][0] == g;
    assert Compare(k, p + [next]) < 0;
    LowerBoundIs(store, p + [next]);
  }

  // What the iterator gives, one call after the other.
  ghost function Walk(store: seq<Key>, p: Key, at: Key): seq<Segment>
    requires IsDatabase(store) && KeyOk(p)
    decreases |store| - LowerBound(store, at)
  {
    if !Finds(store, p, at) then []
    else
      var g := Found(store, p, at);
      Advances(store, p, at);
      [g] + Walk(store, p, After(p, g))
  }

  lemma WalkOn(store: seq<Key>, p: Key, at: Key)
    requires IsDatabase(store) && KeyOk(p) && Finds(store, p, at)
    ensures var g := Found(store, p, at);
            && SegmentOk(g) && CanIncrement(g.data) && LowerBound(store, After(p, g)) > LowerBound(store, at)
            && Walk(store, p, at) == [g] + Walk(store, p, After(p, g))
  {
    Advances(store, p, at);
  }

  // A child of the node: a segment that follows the prefix in some key.
  ghost predicate Child(store: seq<Key>, p: Key, c: seq<byte>) {
    exists i :: 0 <= i < |store| && IsChildOf(p, store[i], c)
  }

  predicate IsChildOf(p: Key, k: Key, c: seq<byte>) {
    Under(p, k) && |p| < |k| && k[|p|].data == c
  }

  ghost predicate Visited(w: seq<Segment>, c: seq<byte>) {
    exists i :: 0 <= i < |w| && w[i].data == c
  }

  // A child from d on that c extends.
  ghost predicate Shadowed(store: seq<Key>, p: Key, d: seq<byte>, c: seq<byte>) {
    exists b: seq<byte> :: Child(store, p, b) && b < c && CompareData(b, d) >= 0
  }

  // The children the walk is to give: those from d on that do not extend another such child by
  // further bytes.
  ghost predicate Wanted(store: seq<Key>, p: Key, d: seq<byte>, c: seq<byte>) {
    Child(store, p, c) && CompareData(c, d) >= 0 && !Shadowed(store, p, d, c)
  }

  // The first key of child c has the types of the prefix's segments too, not just their data.
  ghost predicate FirstAgrees(store: seq<Key>, p: Key, c: seq<byte>) {
    var i := LowerBound(store, p + [Segment(0x73, c)]);
    i < |store| && p <= store[i]
  }

  // So does the first key of every child the walk should give.
  ghost predicate FirstsAgree(store: seq<Key>, p: Key, d: seq<byte>) {
    forall c: seq<byte> :: Wanted(store, p, d, c) ==> FirstAgrees(store, p, c)
  }

  // For a key under the prefix, standing before it is about its next segment's data.
  lemma StandsBefore(p: Key, at: Key, k: Key)
    requires Stands(p, at) && Under(p, k) && |k| > |p|
    ensures Compare(k, at) >= 0 <==> CompareData(k[|p|].data, From(p, at)) >= 0
  {
    var d := From(p, at);
    if at == [] {
      assert d == [];
    } else {
      var g := at[|p|];
      assert at == p + [g];
      UnderRest(p, k, [g]);
      assert k[|p|..][0] == k[|p|];
      DataEqual(k[|p|].data, g.data);
    }
  }

  // The next key lies under the prefix, whatever its types.
  ghost predicate Meets(store: seq<Key>, p: Key, at: Key) {
    var i := LowerBound(store, at);
    i < |store| && Under(p, store[i]) && |store[i]| > |p|
  }

  lemma UnderMeets(store: seq<Key>, p: Key, at: Key)
    requires IsDatabase(store) && KeyOk(p) && Stands(p, at) && LowerBound(store, at) < |store|
    ensures Under(p, store[LowerBound(store, at)]) ==> Meets(store, p, at)
    ensures Finds(store, p, at) <==> p <= store[LowerBound(store, at)]
  {
    var k := store[LowerBound(store, at)];
    assert Storable(k);
    LowerBoundIs(store, at);
    if p <= k {
      PrefixIsUnder(p, k);
    }
    if Under(p, k) && at != [] {
      var m := at[|p|..];
      assert p + m == at;
      UnderRest(p, k, m);
    }
  }

  // Without such a key no child is left to visit.
  lemma NothingLeft(store: seq<Key>, p: Key, at: Key, c: seq<byte>)
    requires IsDatabase(store) && KeyOk(p) && Stands(p, at)
    requires !Meets(store, p, at) && Child(store, p, c)
    ensures CompareData(c, From(p, at)) < 0
  {
    var j :| 0 <= j < |store| && IsChildOf(p, store[j], c);
    var i := LowerBound(store, at);
    LowerBoundIs(store, at);
    StandsBefore(p, at, store[j]);
    if i < |store| {
      UnderMeets(store, p, at);
      assert at != [] && at == p + at[|p|..];
      Beyond(p, at[|p|..], store[i], store[j]);
      Ordered(store, j, i);
    }
  }

  lemma Ordered(store: seq<Key>, i: nat, j: nat)
    requires IsStore(store) && i < |store| && j < |store| && Compare(store[i], store[j]) < 0
    ensures i < j
  {
    CompareEqual(store[i], store[i]);
    CompareOpposite(store[i], store[j]);
    assert Compare(store[j], store[i]) > 0;
  }

  // The segment met, and that it is the least child from where the walk stands.
  ghost function Met(store: seq<Key>, p: Key, at: Key): Segment
    requires Meets(store, p, at)
  {
    store[LowerBound(store, at)][|p|]
  }

  lemma FoundIsMet(store: seq<Key>, p: Key, at: Key)
    requires Finds(store, p, at)
    ensures Meets(store, p, at) && Met(store, p, at) == Found(store, p, at)
  {
    PrefixIsUnder(p, store[LowerBound(store, at)]);
  }

  lemma MetIsLeast(store: seq<Key>, p: Key, at: Key, c: seq<byte>)
    requires IsDatabase(store) && KeyOk(p) && Stands(p, at) && Meets(store, p, at)
    requires Child(store, p, c) && CompareData(c, From(p, at)) >= 0
    ensures CompareData(Met(store, p, at).data, c) <= 0
  {
    var i := LowerBound(store, at);
    var j :| 0 <= j < |store| && IsChildOf(p, store[j], c);
    LowerBoundIs(store, at);
    StandsBefore(p, at, store[j]);
    assert i <= j;
    assert Compare(store[i], store[j]) <= 0 by {
      CompareEqual(store[i], store[i]);
    }
    SameOrder(p, store[i], store[j]);
  }

  // Among keys under the prefix, a lesser key has a lesser or equal next segment.
  lemma SameOrder(p: Key, a: Key, b: Key)
    requires Under(p, a) && Under(p, b) && |p| < |a| && |p| < |b| && Compare(a, b) <= 0
    ensures CompareData(a[|p|].data, b[|p|].data) <= 0
    decreases p
  {
    if p != [] {
      DataEqual(a[0].data, b[0].data);
      SameOrder(p[1..], a[1..], b[1..]);
    }
  }

  lemma MetIsChild(store: seq<Key>, p: Key, at: Key)
    requires IsDatabase(store) && KeyOk(p) && Stands(p, at) && Meets(store, p, at)
    ensures var g := Met(store, p, at);
            Child(store, p, g.data) && CompareData(g.data, From(p, at)) >= 0 && SegmentOk(g) && CanIncrement(g.data)
  {
    var i := LowerBound(store, at);
    assert Storable(store[i]);
    LowerBoundIs(store, at);
    StandsBefore(p, at, store[i]);
    assert IsChildOf(p, store[i], store[i][|p|].data);
  }

  // The key met is the first of its child.
  lemma MetIsFirst(store: seq<Key>, p: Key, at: Key)
    requires IsDatabase(store) && KeyOk(p) && Stands(p, at) && Meets(store, p, at)
    ensures LowerBound(store, p + [Segment(0x73, Met(store, p, at).data)]) == LowerBound(store, at)
  {
    var i, g := LowerBound(store, at), Met(store, p, at);
    var first := Segment(0x73, g.data);
    var to := p + [first];
    var k := store[i];
    LowerBoundIs(store, at);
    LowerBoundIs(store, to);
    MetIsChild(store, p, at);
    UnderRest(p, k, [first]);
    assert k[|p|..][0] == g;
    DataEqual(g.data, g.data);
    assert Compare(k, to) >= 0;
    PrefixIsUnder(p, to);
    StandsBefore(p, at, to);
    assert to[|p|] == first && CompareData(g.data, From(p, at)) >= 0;
    forall j | 0 <= j < i
      ensures Compare(store[j], to) < 0
    {
      BelowBoth(store[j], at, to);
    }
    var l := LowerBound(store, to);
    assert l < |store| ==> Compare(store[l], to) >= 0;
  }

  lemma BelowBoth(k: Key, a: Key, b: Key)
    requires Compare(k, a) < 0 && Compare(b, a) >= 0
    ensures Compare(k, b) < 0
  {
    CompareOpposite(a, b);
    CompareOpposite(b, a);
    CompareTransitive(k, a, b);
  }

  // Children, from d on, each greater than the one before.
  ghost predicate Ascends(store: seq<Key>, p: Key, w: seq<Segment>, d: seq<byte>) {
    && (forall i :: 0 <= i < |w| ==> Child(store, p, w[i].data) && CompareData(w[i].data, d) >= 0)
    && (forall i, j :: 0 <= i < j < |w| ==> CompareData(w[i].data, w[j].data) < 0)
  }

  lemma AscendsCons(store: seq<Key>, p: Key, g: Segment, rest: seq<Segment>, d: seq<byte>, n: seq<byte>)
    requires Ascends(store, p, rest, n) && Child(store, p, g.data)
    requires CompareData(g.data, d) >= 0 && CompareData(g.data, n) < 0
    ensures Ascends(store, p, [g] + rest, d)
  {
    hide Child, CompareData;
    var w := [g] + rest;
    forall i | 0 < i < |w|
      ensures Child(store, p, w[i].data) && CompareData(g.data, w[i].data) < 0 && CompareData(w[i].data, d) >= 0
    {
      assert w[i] == rest[i - 1];
      Above(d, g.data, n, rest[i - 1].data);
    }
    assert forall i, j :: 0 < i < j < |w| ==> w[i] == rest[i - 1] && w[j] == rest[j - 1];
  }

  // Whatever the walk gives is a child from where it stands, each greater than the one before, so
  // none twice, and no descendants of one already given.
  lemma {:induction false} WalkAscends(store: seq<Key>, p: Key, at: Key)
    requires IsDatabase(store) && KeyOk(p) && Stands(p, at)
    ensures Ascends(store, p, Walk(store, p, at), From(p, at))
    decreases |store| - LowerBound(store, at)
  {
    hide Finds, Found, Meets, Met, After, From, Stands, Child, CompareData, NextData;
    if Finds(store, p, at) {
      Advances(store, p, at);
      FoundIsMet(store, p, at);
      MetIsChild(store, p, at);
      var g := Found(store, p, at);
      AfterStands(p, g);
      BetweenExtends(g.data, g.data);
      WalkAscends(store, p, After(p, g));
      AscendsCons(store, p, g, Walk(store, p, After(p, g)), From(p, at), NextData(g.data));
    } else {
      assert Ascends(store, p, [], From(p, at));
    }
  }

  lemma Above(d: seq<byte>, g: seq<byte>, n: seq<byte>, c: seq<byte>)
    requires CompareData(g, d) >= 0 && CompareData(g, n) < 0 && CompareData(c, n) >= 0
    ensures CompareData(g, c) < 0 && CompareData(c, d) >= 0
  {
    DataOpposite(n, c);
    DataOpposite(c, n);
    DataOpposite(d, g);
    DataOpposite(g, d);
    DataOpposite(c, d);
    DataOpposite(d, c);
    DataTransitive(g, n, c);
    DataTransitive(d, g, c);
  }

  // What it gives is wanted.
  lemma {:induction false} VisitedIsWanted(store: seq<Key>, p: Key, at: Key, c: seq<byte>)
    requires IsDatabase(store) && KeyOk(p) && Stands(p, at) && Visited(Walk(store, p, at), c)
    ensures Wanted(store, p, From(p, at), c) && FirstAgrees(store, p, c)
    decreases |store| - LowerBound(store, at)
  {
    hide Meets, After, From, Stands, Child, CompareData, NextData, Shadowed;
    assert Finds(store, p, at);
    var g := Found(store, p, at);
    StepDown(store, p, at, c);
    if c == g.data {
      MetIsFirst(store, p, at);
    } else {
      VisitedIsWanted(store, p, After(p, g), c);
    }
  }

  // One step of the walk: what was wanted is the child found and what is wanted from there on.
  lemma StepDown(store: seq<Key>, p: Key, at: Key, c: seq<byte>)
    requires IsDatabase(store) && KeyOk(p) && Stands(p, at) && Finds(store, p, at)
    ensures var g, d := Found(store, p, at), From(p, at);
            && SegmentOk(g) && CanIncrement(g.data) && Meets(store, p, at)
            && LowerBound(store, After(p, g)) > LowerBound(store, at) && Stands(p, After(p, g))
            && (Visited(Walk(store, p, at), c) <==> g.data == c || Visited(Walk(store, p, After(p, g)), c))
            && (Wanted(store, p, d, c) <==> c == g.data || Wanted(store, p, From(p, After(p, g)), c))
  {
    hide Finds, Found, Meets, Met, After, From, Stands, Child, CompareData, NextData, Visited, Shadowed;
    FoundIsMet(store, p, at);
    Advances(store, p, at);
    MetIsChild(store, p, at);
    var g, d := Found(store, p, at), From(p, at);
    AfterStands(p, g);
    assert Walk(store, p, at) == [g] + Walk(store, p, After(p, g));
    VisitedCons(g, Walk(store, p, After(p, g)), c);
    forall b: seq<byte> | Child(store, p, b) && CompareData(b, d) >= 0
      ensures CompareData(g.data, b) <= 0
    {
      MetIsLeast(store, p, at, b);
    }
    ShadowStep(store, p, d, g.data, c);
  }

  // If the first keys of all wanted children agree in type, all of them are given.
  lemma {:induction false} WantedIsVisited(store: seq<Key>, p: Key, at: Key, c: seq<byte>)
    requires IsDatabase(store) && KeyOk(p) && Stands(p, at) && FirstsAgree(store, p, From(p, at))
    requires Wanted(store, p, From(p, at), c)
    ensures Visited(Walk(store, p, at), c)
    decreases |store| - LowerBound(store, at)
  {
    hide Finds, Found, Meets, Met, After, From, Stands, Child, CompareData, NextData, Visited, Shadowed, Walk;
    if Meets(store, p, at) {
      LeastAgrees(store, p, at);
      StepDown(store, p, at, c);
      var g := Found(store, p, at);
      if c != g.data {
        forall b: seq<byte> | Wanted(store, p, From(p, After(p, g)), b)
          ensures FirstAgrees(store, p, b)
        {
          StepDown(store, p, at, b);
          assert Wanted(store, p, From(p, at), b);
        }
        WantedIsVisited(store, p, After(p, g), c);
      }
    } else {
      NothingLeft(store, p, at, c);
    }
  }

  // Then the key met is found, as its child is wanted.
  lemma LeastAgrees(store: seq<Key>, p: Key, at: Key)
    requires IsDatabase(store) && KeyOk(p) && Stands(p, at) && FirstsAgree(store, p, From(p, at))
    requires Meets(store, p, at)
    ensures Finds(store, p, at)
  {
    hide Met, From, Stands, Child, CompareData, Shadowed;
    var g, d := Met(store, p, at), From(p, at);
    MetIsChild(store, p, at);
    MetIsFirst(store, p, at);
    forall b: seq<byte> | Child(store, p, b) && CompareData(b, d) >= 0
      ensures CompareData(g.data, b) <= 0
    {
      MetIsLeast(store, p, at, b);
    }
    NotShadowed(store, p, d, g.data);
    assert FirstAgrees(store, p, g.data);
  }

  // So the walk gives exactly the wanted children if and only if their first keys agree in type.
  lemma WalkIsComplete(store: seq<Key>, p: Key, at: Key)
    requires IsDatabase(store) && KeyOk(p) && Stands(p, at)
    ensures (forall c: seq<byte> :: Visited(Walk(store, p, at), c) <==> Wanted(store, p, From(p, at), c))
            <==> FirstsAgree(store, p, From(p, at))
  {
    hide Walk, Wanted, Stands, From, Child, CompareData, Shadowed, FirstAgrees, Visited;
    var w, d := Walk(store, p, at), From(p, at);
    forall c: seq<byte> | Visited(w, c)
      ensures Wanted(store, p, d, c) && FirstAgrees(store, p, c)
    {
      VisitedIsWanted(store, p, at, c);
    }
    if FirstsAgree(store, p, d) {
      forall c: seq<byte> | Wanted(store, p, d, c)
        ensures Visited(w, c)
      {
        WantedIsVisited(store, p, at, c);
      }
    }
  }

  lemma VisitedCons(g: Segment, rest: seq<Segment>, c: seq<byte>)
    ensures Visited([g] + rest, c) <==> g.data == c || Visited(rest, c)
  {
    var w := [g] + rest;
    assert forall i :: 0 < i < |w| ==> w[i] == rest[i - 1];
    assert w[0] == g;
    assert Visited(rest, c) ==> Visited(w, c) by {
      if i :| 0 <= i < |rest| && rest[i].data == c {
        assert w[i + 1].data == c;
      }
    }
  }

  // What the least child shadows, and what it leaves to the rest of the walk.
  lemma ShadowStep(store: seq<Key>, p: Key, d: seq<byte>, g: seq<byte>, c: seq<byte>)
    requires CanIncrement(g) && Child(store, p, g) && CompareData(g, d) >= 0
    requires forall b: seq<byte> :: Child(store, p, b) && CompareData(b, d) >= 0 ==> CompareData(g, b) <= 0
    ensures var n := NextData(g);
            Child(store, p, c) && CompareData(c, d) >= 0 && !Shadowed(store, p, d, c) <==>
            c == g || (Child(store, p, c) && CompareData(c, n) >= 0 && !Shadowed(store, p, n, c))
  {
    var n := NextData(g);
    BetweenExtends(g, c);
    if c == g {
      NotShadowed(store, p, d, g);
    } else if Child(store, p, c) && CompareData(c, n) >= 0 {
      Above(d, g, n, c);
      SameShadow(store, p, d, g, c);
    } else if Child(store, p, c) && CompareData(c, d) >= 0 {
      DataEqual(g, c);
      assert g < c && Shadowed(store, p, d, c);
    }
  }

  // The least child extends no other.
  lemma NotShadowed(store: seq<Key>, p: Key, d: seq<byte>, g: seq<byte>)
    requires forall b: seq<byte> :: Child(store, p, b) && CompareData(b, d) >= 0 ==> CompareData(g, b) <= 0
    ensures !Shadowed(store, p, d, g)
  {
    forall b: seq<byte> | b < g
      ensures !(Child(store, p, b) && CompareData(b, d) >= 0)
    {
      PrefixIsBelow(b, g);
      DataOpposite(b, g);
    }
  }

  // What a string beyond all that extend g extends is itself beyond them, or below g.
  lemma NotInside(g: seq<byte>, b: seq<byte>, c: seq<byte>)
    requires CanIncrement(g) && b < c
    requires CompareData(g, b) <= 0 && CompareData(c, NextData(g)) >= 0
    ensures CompareData(b, NextData(g)) >= 0
  {
    BetweenExtends(g, b);
    BetweenExtends(g, c);
    DataEqual(g, b);
    assert g <= b ==> g < c;
  }

  // What lies beyond the least child is shadowed by the same children before and after it.
  lemma SameShadow(store: seq<Key>, p: Key, d: seq<byte>, g: seq<byte>, c: seq<byte>)
    requires CanIncrement(g) && CompareData(g, d) >= 0 && CompareData(c, NextData(g)) >= 0
    requires forall b: seq<byte> :: Child(store, p, b) && CompareData(b, d) >= 0 ==> CompareData(g, b) <= 0
    ensures Shadowed(store, p, d, c) <==> Shadowed(store, p, NextData(g), c)
  {
    hide Child, CompareData;
    var n := NextData(g);
    forall b: seq<byte> | Child(store, p, b) && b < c
      ensures CompareData(b, d) >= 0 <==> CompareData(b, n) >= 0
    {
      BetweenExtends(g, g);
      if CompareData(b, d) >= 0 {
        NotInside(g, b, c);
      }
      if CompareData(b, n) >= 0 {
        Above(d, g, n, b);
      }
    }
  }

  // Of the children a and ab the walk gives a alone.
  lemma WalkPassesOver()
    ensures var a, ab := Segment(0x73, [0x61]), Segment(0x73, [0x61, 0x62]);
            var store := [[a], [ab]];
            IsDatabase(store) && Child(store, [], ab.data) && Walk(store, [], []) == [a]
  {
    var a, ab := Segment(0x73, [0x61]), Segment(0x73, [0x61, 0x62]);
    var store := [[a], [ab]];
    assert Compare([a], [ab]) < 0 && [a][1..] == [];
    assert IsStore(store);
    assert IsChildOf([], store[1], ab.data);
    var at := After([], a);
    assert Compare([a], at) == -1 && Compare([ab], at) == -1;
    assert store[1..] == [[ab]] && store[1..][1..] == [];
    assert LowerBound(store, at) == 2 && LowerBound(store, []) == 0;
    WalkOn(store, [], []);
  }

  // The node is the integer 1, and the first key with its data has the string of that digit: the
  // walk gives nothing, though the node has a child.
  lemma WalkEndsEarly()
    ensures var x, y := Segment(0x73, [0x62]), Segment(0x73, [0x63]);
            var p, store := [Segment(0x69, [0x31])], [[Segment(0x73, [0x31]), x], [Segment(0x69, [0x31]), y]];
            var at := p + [Segment(1, [1])];
            IsDatabase(store) && Stands(p, at) && p <= store[1] && Child(store, p, y.data) && Walk(store, p, at) == []
  {
    var x, y := Segment(0x73, [0x62]), Segment(0x73, [0x63]);
    var p, store := [Segment(0x69, [0x31])], [[Segment(0x73, [0x31]), x], [Segment(0x69, [0x31]), y]];
    var at := p + [Segment(1, [1])];
    assert store[0][1..] == [x] && store[1][1..] == [y] && at[1..] == [Segment(1, [1])];
    assert CompareData([0x31], [0x31]) == 0;
    assert Compare(store[0], store[1]) == -1;
    assert Compare(store[0], at) > 0;
    assert IsChildOf(p, store[1], y.data);
    assert LowerBound(store, at) == 0 && !(p <= store[0]);
  }

  //// The iterator

  // Whether the key's bytes start with the prefix's, as strncmp finds out: it stops where they
  // first differ, and so does not read past the key. There is no NUL to stop at before.
  method StartsWith(prefix: seq<byte>, key: seq<byte>) returns (r: bool)
    requires 0 !in prefix
    requires |prefix| <= |key| || exists q :: 0 <= q < |key| && prefix[q] != key[q]
    ensures r <==> prefix <= key
  {
    var q := 0;
    while q < |prefix|
      invariant 0 <= q <= |prefix| && forall m :: 0 <= m < q ==> m < |key| && prefix[m] == key[m]
    {
      assert q < |key|;
      if prefix[q] != key[q] {
        return false;
      }
      q := q + 1;
    }
    return true;
  }

  // The bytes of a key start with those of another exactly if its segments do; and if they do not,
  // they differ before either ends, unless the key is above in the tree.
  lemma {:induction false} BytesPrefix(p: Key, k: Key)
    requires KeyOk(p) && KeyOk(k)
    ensures var a, b := KeyBytes(p), KeyBytes(k);
            && (a <= b <==> p <= k)
            && (p <= k || k <= p || exists q :: 0 <= q < |a| && q < |b| && a[q] != b[q])
  {
    if p != [] && k != [] {
      var x, y := SegmentBytes(p[0]), SegmentBytes(k[0]);
      var a, b, s, t := KeyBytes(p), KeyBytes(k), KeyBytes(p[1..]), KeyBytes(k[1..]);
      if p[0] == k[0] {
        BytesPrefix(p[1..], k[1..]);
        assert a <= b <==> s <= t by {
          assert a[|x|..] == s && b[|x|..] == t && a[..|x|] == b[..|x|];
        }
        assert p == [p[0]] + p[1..] && k == [k[0]] + k[1..];
        if q :| 0 <= q < |s| && q < |t| && s[q] != t[q] {
          assert a[|x| + q] != b[|x| + q];
        }
      } else {
        SegmentsDiffer(p[0], k[0]);
        var q :| 0 <= q < |x| && q < |y| && x[q] != y[q];
        assert a[q] == x[q] && b[q] == y[q];
      }
    }
  }

  lemma SegmentsDiffer(g: Segment, h: Segment)
    requires SegmentOk(g) && SegmentOk(h) && g != h
    ensures var x, y := SegmentBytes(g), SegmentBytes(h); exists q :: 0 <= q < |x| && q < |y| && x[q] != y[q]
  {
    var x, y := SegmentBytes(g), SegmentBytes(h);
    if |g.data| != |h.data| {
      assert x[0] != y[0];
    } else if g.kind != h.kind {
      assert x[1] != y[1];
    } else {
      var i :| 0 <= i < |g.data| && g.data[i] != h.data[i];
      assert x[2 + i] != y[2 + i];
    }
  }

  lemma {:induction false} BytesNulFree(k: Key)
    requires KeyOk(k) && NulFree(k)
    ensures 0 !in KeyBytes(k)
  {
    if k != [] {
      BytesNulFree(k[1..]);
    }
  }

  // Incrementing the last byte of the key leaves no NUL in it.
  ghost predicate IncrementsClean(k: Key) {
    k != [] && NulFree(k[..|k| - 1]) && var d := k[|k| - 1].data; CanIncrement(d) && 0 !in d[..|d| - 1]
  }

  lemma BumpedNulFree(k: Key)
    requires KeyOk(k) && IncrementsClean(k)
    ensures NulFree(Bumped(k)) && Stands(k[..|k| - 1], Bumped(k))
  {
    var front, b := k[..|k| - 1], Bumped(k);
    forall i | 0 <= i < |b|
      ensures 0 !in b[i].data
    {
      if i < |k| - 1 {
        assert b[i] == front[i];
      }
    }
  }

  // The key found is not above the prefix in the tree.
  lemma NotAbove(store: seq<Key>, p: Key, at: Key)
    requires IsDatabase(store) && KeyOk(p) && Stands(p, at) && LowerBound(store, at) < |store|
    ensures var k := store[LowerBound(store, at)]; !(k <= p)
  {
    var k := store[LowerBound(store, at)];
    LowerBoundIs(store, at);
    assert Storable(k);
    if k <= p {
      PrefixIsLess(k, at);
    }
  }

  lemma {:induction false} PrefixIsLess(a: Key, b: Key)
    requires a < b
    ensures Compare(a, b) < 0
  {
    if a != [] {
      DataEqual(a[0].data, b[0].data);
      PrefixIsLess(a[1..], b[1..]);
    }
  }

  class OrderCursor {
    const cur: Cursors.Cursor
    const prefix: seq<byte>
    var last: array<byte>
    ghost const p: Key
    ghost var at: Key

    ghost predicate Valid()
      reads this, last
    {
      KeyOk(p) && NulFree(p) && prefix == KeyBytes(p) && Stands(p, at) && NulFree(at) && last[..] == KeyBytes(at)
    }

    // CreateLuaDbOrderClosure. A nil as the last argument is the segment with type 1 and one NUL.
    constructor (cur: Cursors.Cursor, args: Key)
      requires KeyOk(args) && (args != [] ==> IncrementsClean(args))
      ensures Valid() && fresh(last) && this.cur == cur
      ensures args == [] ==> p == at == []
      ensures args != [] ==> p == args[..|args| - 1] && at == Bumped(args)
    {
      this.cur := cur;
      var key := GenerateLuaDbKey(args);
      var pfx := GetKeyPrefix(key, args);
      prefix := pfx;
      p := if args == [] then [] else args[..|args| - 1];
      at := args;
      last := new byte[|key|];
      new;
      Fill(key);
      NoBytes();
      Ends(args, 0);
      if |key| > 0 {
        LastByte(args);
        ComputeNextLexicalValue(last, args);
        at := Bumped(args);
        BumpedNulFree(args);
      }
    }

    method Fill(key: seq<byte>)
      requires last.Length == |key|
      modifies last
      ensures last[..] == key
    {
      forall k | 0 <= k < |key| {
        last[k] := key[k];
      }
    }

    // LuaDbOrderTxClosure: the next child.
    method Next(ghost store: seq<Key>) returns (r: Option<Segment>)
      requires Valid() && IsDatabase(store) && Opened(cur, store)
      modifies this`last, this`at, last, cur, cur.pg, cur.ki
      ensures Valid() && Opened(cur, store) && (last == old(last) || fresh(last))
      ensures r == if Finds(store, p, old(at)) then Some(Found(store, p, old(at))) else None
      ensures r.Some? ==> CanIncrement(r.value.data)
      ensures at == if r.Some? then After(p, r.value) else old(at)
    {
      hide Walk, KeyBytes, Opened;
      var found := Seek(cur, store, last[..], at);
      if found.None? {
        return None;
      }
      var key := found.value;
      ghost var i := LowerBound(store, at);
      BytesPrefix(p, store[i]);
      NotAbove(store, p, at);
      BytesNulFree(p);
      if |prefix| > 0 {
        var matches := StartsWith(prefix, key);
        if !matches {
          return None;
        }
      } else {
        Ends(p, 0);
      }
      r := FindFirstDifferentKeyNode(prefix, key, p, store[i]);
      CommonIs(p, store[i], |p|);
      Advances(store, p, at);
      Advance(r.value, store[i]);
    }

    // Swaps the node just visited in, and moves past it.
    method Advance(g: Segment, ghost k: Key)
      requires Valid() && SegmentOk(g) && 0 !in g.data && CanIncrement(g.data)
      modifies this`last, this`at
      ensures Valid() && fresh(last) && at == After(p, g)
    {
      var key := ReplaceLastKeySegment(last[..], g, at);
      ghost var visited := p + [g];
      assert (if at == [] then [] else at[..|at| - 1]) == p;
      last := new byte[|key|];
      Fill(key);
      LastByte(visited);
      ComputeNextLexicalValue(last, visited);
      assert visited[..|visited| - 1] == p;
      at := Bumped(visited);
      BumpedNulFree(visited);
    }

    // All the children the iterator gives.
    method VisitAll(ghost store: seq<Key>) returns (w: seq<Segment>)
      requires Valid() && IsDatabase(store) && Opened(cur, store)
      modifies this`last, this`at, last, cur, cur.pg, cur.ki
      ensures Valid() && Opened(cur, store) && w == Walk(store, p, old(at))
    {
      hide Opened, Stands, KeyBytes, IsDatabase, Storable, Found, After, NulFree, KeyOk, LowerBound, Cursors.Cursor.Valid;
      w := [];
      var r := Next(store);
      ghost var before := old(at);
      while r.Some?
        invariant Valid() && Opened(cur, store) && (last == old(last) || fresh(last))
        invariant r.Some? <==> Finds(store, p, before)
        invariant r.Some? ==> r.value == Found(store, p, before) && CanIncrement(r.value.data) && at == After(p, r.value)
        invariant w + Walk(store, p, before) == Walk(store, p, old(at))
        decreases |store| - LowerBound(store, before), r.Some?
      {
        WalkOn(store, p, before);
        assert w + ([r.value] + Walk(store, p, at)) == (w + [r.value]) + Walk(store, p, at);
        w := w + [r.value];
        before := at;
        r := Next(store);
      }
    }
  }
}
