// Cursors: a stack of pages from the root to a leaf, moved in place.

module Cursors {
  import opened BTree
  import opened Options

  const CURSOR_STACK := 32

  // pg[0] to pg[n] lead down from the root, each to the kid its index names.
  ghost predicate IsPath(root: Tree, pg: seq<Tree>, ki: seq<nat>, n: nat) {
    && n < |pg| == |ki|
    && pg[0] == root
    && forall l :: 0 <= l < n ==> pg[l].Branch? && ki[l] < |pg[l].kids| && pg[l + 1] == pg[l].kids[ki[l]]
  }

  // How many keys of the tree come before the page at level n.
  ghost function Start(root: Tree, pg: seq<Tree>, ki: seq<nat>, n: nat): nat
    requires IsPath(root, pg, ki, n)
  {
    if n == 0 then 0 else Start(root, pg, ki, n - 1) + Offset(pg[n - 1], ki[n - 1])
  }

  lemma {:induction false} SameStart(root: Tree, pg: seq<Tree>, ki: seq<nat>, pg': seq<Tree>, ki': seq<nat>, n: nat)
    requires IsPath(root, pg, ki, n) && IsPath(root, pg', ki', n)
    requires forall l :: 0 <= l < n ==> ki[l] == ki'[l]
    ensures Start(root, pg, ki, n) == Start(root, pg', ki', n) && pg[n] == pg'[n]
  {
    if n > 0 {
      SameStart(root, pg, ki, pg', ki', n - 1);
    }
  }

  lemma SliceOfSlice<T>(s: seq<T>, lo: nat, hi: nat, a: nat, b: nat)
    requires lo <= hi <= |s| && a <= b <= hi - lo
    ensures s[lo..hi][a..b] == s[lo + a..lo + b]
  {
    var t := s[lo..hi];
    forall k | 0 <= k < b - a
      ensures t[a..b][k] == s[lo + a..lo + b][k]
    {
      assert t[a..b][k] == t[a + k] == s[lo + (a + k)];
    }
  }

  // The page at level n is well formed, and its keys are a segment of the tree's.
  lemma {:induction false} PathPage(c: Compare, root: Tree, pg: seq<Tree>, ki: seq<nat>, n: nat)
    requires WellFormed(c, root) && IsPath(root, pg, ki, n)
    ensures WellFormed(c, pg[n]) && Height(pg[n]) == Height(root) - n
    ensures n > 0 ==> Keys(pg[n]) != []
    ensures var s := Start(root, pg, ki, n);
            s + |Keys(pg[n])| <= |Keys(root)| && Keys(root)[s..s + |Keys(pg[n])|] == Keys(pg[n])
  {
    hide Keys, KeysOf, Sorted, Divides;
    if n > 0 {
      PathPage(c, root, pg, ki, n - 1);
      KidKeys(pg[n - 1], ki[n - 1]);
      var s, o := Start(root, pg, ki, n - 1), Offset(pg[n - 1], ki[n - 1]);
      var ks := Keys(pg[n - 1]);
      SliceOfSlice(Keys(root), s, s + |ks|, o, o + |Keys(pg[n])|);
    }
  }

  // Only the last page of the tree has no kid after it at any level above.
  lemma {:induction false} LastPage(c: Compare, root: Tree, pg: seq<Tree>, ki: seq<nat>, n: nat)
    requires WellFormed(c, root) && IsPath(root, pg, ki, n)
    requires forall l :: 0 <= l < n ==> ki[l] + 1 == |pg[l].kids|
    ensures Start(root, pg, ki, n) + |Keys(pg[n])| == |Keys(root)|
  {
    hide Keys, KeysOf, Sorted, Divides, WellFormed;
    if n > 0 {
      LastPage(c, root, pg, ki, n - 1);
      KidKeys(pg[n - 1], ki[n - 1]);
    }
  }

  // If the page at level n has keys on both sides of the target, a search from the root goes by it.
  lemma {:induction false} InsidePath(c: Compare, root: Tree, pg: seq<Tree>, ki: seq<nat>, n: nat, key: Key, a: nat, b: nat)
    requires IsOrder(c) && WellFormed(c, root) && IsPath(root, pg, ki, n) && !PastLeaf(c, pg[n], key)
    requires a < |Keys(pg[n])| && b < |Keys(pg[n])| && Lt(c, Keys(pg[n])[a], key) && Lt(c, key, Keys(pg[n])[b])
    ensures !PastLeaf(c, root, key)
  {
    hide KeysOf, Sorted, Divides, WellFormed, Follows, Height, Lt, Keys;
    if n > 0 {
      PathPage(c, root, pg, ki, n - 1);
      var t, k := pg[n - 1], ki[n - 1];
      forall j: nat | Follows(c, t, key, j)
        ensures j == k
      {
        FollowedIsInside(c, t, key, k, a, b, j);
      }
      KidKeys(t, k);
      var part, o := Keys(pg[n]), Offset(t, k);
      assert Keys(t)[o..o + |part|][a] == part[a] && Keys(t)[o..o + |part|][b] == part[b];
      InsidePath(c, root, pg, ki, n - 1, key, o + a, o + b);
    }
  }

  // A kid beside the path at some level has keys beyond the page at the end of the path.
  lemma {:induction false} BeforeNext(c: Compare, root: Tree, pg: seq<Tree>, ki: seq<nat>, n: nat, l: nat)
    requires WellFormed(c, root) && IsPath(root, pg, ki, n) && l < n && ki[l] + 1 < |pg[l].kids|
    ensures Start(root, pg, ki, n) + |Keys(pg[n])| < |Keys(root)|
  {
    hide Keys, KeysOf, Sorted, Divides, WellFormed;
    EndsWithin(root, pg, ki, n, l);
    PathPage(c, root, pg, ki, l);
    NextKid(c, pg[l], ki[l]);
  }

  lemma NextKid(c: Compare, t: Tree, i: nat)
    requires WellFormed(c, t) && t.Branch? && i + 1 < |t.kids|
    ensures Offset(t, i + 1) < |Keys(t)|
  {
    KidKeys(t, i + 1);
  }

  lemma {:induction false} EndsWithin(root: Tree, pg: seq<Tree>, ki: seq<nat>, n: nat, l: nat)
    requires IsPath(root, pg, ki, n) && l < n
    ensures ki[l] < |pg[l].kids|
    ensures Start(root, pg, ki, n) + |Keys(pg[n])| <= Start(root, pg, ki, l) + Offset(pg[l], ki[l] + 1)
  {
    hide Keys, KeysOf;
    KidKeys(pg[n - 1], ki[n - 1]);
    if l < n - 1 {
      EndsWithin(root, pg, ki, n - 1, l);
    }
  }

  // Setting the index at the top level moves nothing above it.
  lemma SetIndex(root: Tree, pg: seq<Tree>, ki: seq<nat>, n: nat, i: nat)
    requires IsPath(root, pg, ki, n)
    ensures IsPath(root, pg, ki[n := i], n) && Start(root, pg, ki[n := i], n) == Start(root, pg, ki, n)
  {
    SameStart(root, pg, ki, pg, ki[n := i], n);
  }

  // Pushing the kid the top index names.
  lemma Push(root: Tree, pg: seq<Tree>, ki: seq<nat>, n: nat, x: nat)
    requires IsPath(root, pg, ki, n) && n + 1 < |pg| && pg[n].Branch? && ki[n] < |pg[n].kids|
    ensures var pg', ki' := pg[n + 1 := pg[n].kids[ki[n]]], ki[n + 1 := x];
            && IsPath(root, pg', ki', n + 1)
            && Start(root, pg', ki', n + 1) == Start(root, pg, ki, n) + Offset(pg[n], ki[n])
  {
    SameStart(root, pg, ki, pg[n + 1 := pg[n].kids[ki[n]]], ki[n + 1 := x], n);
  }

  // First and Last are MDB_PS_FIRST and MDB_PS_LAST.
  datatype Target = First | Last | To(key: Key)

  // The index node search gives, or the one before it, or the last, is the one to follow.
  lemma FollowsFound(c: Compare, t: Tree, key: Key, i: nat, exact: bool)
    requires IsOrder(c) && t.Branch? && |t.seps| == |t.kids| >= 2 && Sorted(c, t.seps[1..])
    requires 1 <= i <= |t.seps| && IsLowerBound(c, t.seps[1..], key, i - 1)
    requires exact <==> i < |t.seps| && c(key, t.seps[i]) == 0
    ensures Follows(c, t, key, if i < |t.seps| && exact then i else i - 1)
  {
    var tail := t.seps[1..];
    assert forall q :: 0 <= q < |tail| ==> tail[q] == t.seps[q + 1];
    if i < |t.seps| {
      Order(c, key, t.seps[i]);
      if exact {
        if i + 1 < |t.seps| {
          assert Lt(c, tail[i - 1], tail[i]);
          LtLe(c, key, t.seps[i], t.seps[i + 1]);
        }
      }
    }
  }

  datatype Result = BadSize | NotFound | Found(key: Key)

  // What setting a cursor on a key must give: it depends on the keys of the tree alone. exact asks
  // for the key itself, otherwise the least key from it on will do.
  ghost function Answer(c: Compare, ks: seq<Key>, key: Key, exact: bool): Result {
    var p := LowerBound(c, ks, key);
    if key == [] then BadSize
    else if p < |ks| && (exact ==> c(key, ks[p]) == 0) then Found(ks[p])
    else NotFound
  }

  lemma AnswerAt(c: Compare, ks: seq<Key>, key: Key, exact: bool, p: nat)
    requires IsOrder(c) && Sorted(c, ks) && IsLowerBound(c, ks, key, p) && key != []
    ensures LowerBound(c, ks, key) == p
    ensures Answer(c, ks, key, exact) == if p < |ks| && (exact ==> c(key, ks[p]) == 0) then Found(ks[p]) else NotFound
  {
    LowerBoundIs(c, ks, key);
    LowerBoundIsUnique(c, ks, key, p, LowerBound(c, ks, key));
  }

  // What the page the cursor is on tells about where the key must be.
  datatype Hint = Here(key: Key) | Nowhere | OnPage | Elsewhere

  class Cursor {
    const c: Compare
    const root: Option<Tree>  // None is md_root == P_INVALID
    const pg: array<Tree>     // mc_pg
    const ki: array<nat>      // mc_ki
    var snum: nat             // mc_snum; mc_top is one less
    var initialized: bool
    var eof: bool

    // mdb_cursor_init
    constructor (c: Compare, root: Option<Tree>)
      requires IsOrder(c) && (root.Some? ==> WellFormed(c, root.value) && Height(root.value) < CURSOR_STACK)
      ensures Valid() && this.c == c && this.root == root && !initialized && !eof
      ensures fresh(pg) && fresh(ki)
    {
      this.c, this.root := c, root;
      pg := new Tree[CURSOR_STACK](_ => Leaf([]));
      ki := new nat[CURSOR_STACK];
      snum, initialized, eof := 0, false, false;
    }

    ghost function All(): seq<Key> {
      if root.None? then [] else Keys(root.value)
    }

    ghost predicate OnPath()
      reads this`snum, pg, ki
    {
      && pg.Length == ki.Length == CURSOR_STACK && IsOrder(c)
      && root.Some? && WellFormed(c, root.value) && Height(root.value) < CURSOR_STACK
      && 0 < snum <= CURSOR_STACK && IsPath(root.value, pg[..], ki[..], snum - 1)
    }

    // Keys before the top page, and up to its end.
    ghost function Here(): nat
      requires OnPath()
      reads this`snum, pg, ki
    {
      Start(root.value, pg[..], ki[..], snum - 1)
    }

    ghost function End(): nat
      requires OnPath()
      reads this`snum, pg, ki
    {
      Here() + |Keys(pg[snum - 1])|
    }

    // mdb_cursor_push; there is room, as no path is longer than the tree is high.
    method PushKid()
      requires OnPath() && snum < CURSOR_STACK && pg[snum - 1].Branch? && ki[snum - 1] < |pg[snum - 1].kids|
      modifies this`snum, pg, ki
      ensures OnPath() && snum == old(snum) + 1
      ensures pg[..] == old(pg[..])[snum - 1 := old(pg[snum - 1].kids[ki[snum - 1]])]
      ensures ki[..] == old(ki[..])[snum - 1 := 0]
      ensures Here() == old(Here()) + old(Offset(pg[snum - 1], ki[snum - 1]))
    {
      hide WellFormed;
      ghost var p, k := pg[..], ki[..];
      Push(root.value, p, k, snum - 1, 0);
      pg[snum], ki[snum] := pg[snum - 1].kids[ki[snum - 1]], 0;
      assert pg[..] == p[snum := p[snum - 1].kids[k[snum - 1]]] && ki[..] == k[snum := 0];
      snum := snum + 1;
    }

    // mdb_cursor_pop, as long as the root stays.
    method Pop()
      requires OnPath() && snum > 1
      modifies this`snum
      ensures OnPath() && snum == old(snum) - 1
      ensures pg[snum - 1].Branch? && ki[snum - 1] < |pg[snum - 1].kids| && pg[snum] == pg[snum - 1].kids[ki[snum - 1]]
      ensures old(Here()) == Here() + Offset(pg[snum - 1], ki[snum - 1])
    {
      hide WellFormed, Offset;
      assert Here() == Start(root.value, pg[..], ki[..], snum - 2) + Offset(pg[snum - 2], ki[snum - 2]);
      snum := snum - 1;
    }

    method SetTop(i: nat)
      requires OnPath()
      modifies ki
      ensures OnPath() && ki[..] == old(ki[..])[snum - 1 := i]
      ensures Here() == old(Here())
    {
      hide WellFormed;
      SetIndex(root.value, pg[..], ki[..], snum - 1, i);
      ghost var k := ki[..];
      ki[snum - 1] := i;
      assert ki[..] == k[snum - 1 := i];
    }

    // What the invariants say of the top page.
    lemma TopPage()
      requires OnPath()
      ensures var t := pg[snum - 1];
              && WellFormed(c, t) && Height(t) + snum == Height(root.value) + 1
              && (snum > 1 ==> Keys(t) != [] && t.Count() > 0)
              && (if t.Branch? then Height(t) > 0 && t.Count() == |t.kids| > 0 else Height(t) == 0 && Keys(t) == t.keys && Sorted(c, t.keys[0..]))
              && End() <= |All()| && All()[Here()..End()] == Keys(t)
    {
      hide Sorted, Divides;
      PathPage(c, root.value, pg[..], ki[..], snum - 1);
      assert pg[snum - 1].Leaf? ==> pg[snum - 1].keys[0..] == pg[snum - 1].keys;
    }

    // The position of the kid the top index names, within the page and the tree.
    lemma TopKid()
      requires OnPath() && pg[snum - 1].Branch? && ki[snum - 1] < |pg[snum - 1].kids|
      ensures var t, i := pg[snum - 1], ki[snum - 1];
              && Offset(t, 0) == 0 && Offset(t, |t.kids|) == |Keys(t)|
              && Offset(t, i + 1) == Offset(t, i) + |Keys(t.kids[i])|
              && (i > 0 ==> Offset(t, i) == Offset(t, i - 1) + |Keys(t.kids[i - 1])|)
    {
      KidKeys(pg[snum - 1], ki[snum - 1]);
      if ki[snum - 1] > 0 {
        KidKeys(pg[snum - 1], ki[snum - 1] - 1);
      }
    }

    // Pushes the kid at the top index, and moves to its last entry when going left.
    method StepDown(right: bool)
      requires OnPath() && snum < CURSOR_STACK && pg[snum - 1].Branch? && ki[snum - 1] < |pg[snum - 1].kids|
      modifies this`snum, pg, ki
      ensures OnPath() && snum == old(snum) + 1
      ensures Here() == old(Here()) + old(Offset(pg[snum - 1], ki[snum - 1]))
      ensures End() == Here() + |Keys(old(pg[snum - 1].kids[ki[snum - 1]]))|
      ensures ki[snum - 1] == if right then 0 else pg[snum - 1].Count() - 1
      ensures pg[snum - 1] == old(pg[snum - 1].kids[ki[snum - 1]])
    {
      hide Offset, WellFormed;
      PushKid();
      TopPage();
      if !right {
        SetTop(pg[snum - 1].Count() - 1);
      }
    }

    // Into the kid beside the one the top index names.
    method StepBeside(right: bool)
      requires OnPath() && snum < CURSOR_STACK && pg[snum - 1].Branch? && ki[snum - 1] < |pg[snum - 1].kids|
      requires if right then ki[snum - 1] + 1 < |pg[snum - 1].kids| else ki[snum - 1] > 0
      modifies this`snum, pg, ki
      ensures OnPath() && snum == old(snum) + 1
      ensures ki[snum - 1] == if right then 0 else pg[snum - 1].Count() - 1
      ensures right ==> Here() == old(Here() + Offset(pg[snum - 1], ki[snum - 1] + 1))
      ensures !right ==> End() == old(Here() + Offset(pg[snum - 1], ki[snum - 1]))
    {
      hide Offset, WellFormed, Keys, Cursor.Here;
      TopKid();
      SetTop(if right then ki[snum - 1] + 1 else ki[snum - 1] - 1);
      StepDown(right);
    }

    // Into the nearest kid of a page just entered.
    method StepInto(right: bool)
      requires OnPath() && snum < CURSOR_STACK && pg[snum - 1].Branch?
      requires |pg[snum - 1].kids| > 0 && ki[snum - 1] == if right then 0 else |pg[snum - 1].kids| - 1
      modifies this`snum, pg, ki
      ensures OnPath() && snum == old(snum) + 1
      ensures ki[snum - 1] == if right then 0 else pg[snum - 1].Count() - 1
      ensures if right then Here() == old(Here()) else End() == old(End())
    {
      hide Offset, WellFormed, Keys, Cursor.OnPath, Cursor.Here;
      TopKid();
      StepDown(right);
    }

    // mdb_cursor_sibling: replaces the page on top by its neighbour at the same height. If there is
    // none, the stack is as it was.
    method Sibling(right: bool) returns (ok: bool)
      requires OnPath()
      modifies this`snum, pg, ki
      ensures OnPath() && snum == old(snum)
      ensures !ok ==> pg[..] == old(pg[..]) && ki[..] == old(ki[..]) && Here() == old(Here()) && End() == old(End())
      ensures (ok <==> if right then old(End()) < |All()| else old(Here()) > 0) && (ok ==> snum > 1)
      ensures ok && right ==> Here() == old(End()) && ki[snum - 1] == 0
      ensures ok && !right ==> End() == old(Here()) && ki[snum - 1] == pg[snum - 1].Count() - 1
      decreases snum
    {
      hide IsPath, Start, WellFormed, Keys, KeysOf, Height, Sorted, Offset, IsOrder, Cursor.All;
      TopPage();
      if snum < 2 {
        RootPage();
        return false;
      }
      Pop();
      TopKid();
      TopPage();
      assert old(End()) == Here() + Offset(pg[snum - 1], ki[snum - 1] + 1);
      var last := if right then ki[snum - 1] + 1 >= pg[snum - 1].Count() else ki[snum - 1] == 0;
      if last {
        assert if right then old(End()) == End() else old(Here()) == Here();
        ok := Sibling(right);
        if ok {
          TopPage();
          StepInto(right);
        } else {
          snum := snum + 1;
          assert OnPath() && Here() == old(Here()) && End() == old(End());
        }
      } else {
        StepBeside(right);
        TopPage();
        ok := true;
      }
    }

    lemma RootPage()
      requires OnPath() && snum == 1
      ensures Here() == 0 && End() == |All()|
    {
    }

    // What a search for the target has established on the way down.
    ghost predicate Closing(target: Target)
      requires OnPath()
      reads this`snum, pg, ki
    {
      match target
      case First => Here() == 0
      case Last => End() == |All()|
      case To(key) => Surrounds(c, All(), Here(), End(), key) && Led(key)
    }

    // Whether a search ends past a leaf's keys is the same from here as from the root.
    ghost predicate Led(key: Key)
      requires OnPath()
      reads this`snum, pg, ki
    {
      PastLeaf(c, pg[snum - 1], key) <==> PastLeaf(c, root.value, key)
    }

    // The index to follow on the branch page on top.
    method Choose(target: Target) returns (i: nat)
      requires OnPath() && pg[snum - 1].Branch?
      ensures i < |pg[snum - 1].kids|
      ensures target == First ==> i == 0
      ensures target == Last ==> i == |pg[snum - 1].kids| - 1
      ensures target.To? ==> Follows(c, pg[snum - 1], target.key, i)
    {
      hide Keys, KeysOf, Offset, IsLowerBound, IsOrder, IsPath, Start;
      TopPage();
      var mp := pg[snum - 1];
      match target
      case First => i := 0;
      case Last => i := mp.Count() - 1;
      case To(key) =>
        var exact;
        i, exact := NodeSearch(c, mp.seps, 1, key);
        FollowsFound(c, mp, key, i, exact);
        if i == mp.Count() || !exact {
          i := i - 1;
        }
    }

    // One step of mdb_page_search_root.
    method Descend(target: Target)
      requires OnPath() && pg[snum - 1].Branch? && Closing(target)
      modifies this`snum, pg, ki
      ensures OnPath() && Closing(target) && ki[snum - 1] == 0
      ensures Height(pg[snum - 1]) < old(Height(pg[snum - 1]))
    {
      hide IsPath, Start, WellFormed, KeysOf, Height, Sorted, Cursor.All, Cursor.Here, Keys, Offset, Follows, IsOrder, Lt, Surrounds;
      TopPage();
      ghost var t, ks, here := pg[snum - 1], All(), Here();
      var i := Choose(target);
      if target.To? {
        KidSurrounds(c, t, i, target.key);
        PastKid(c, t, target.key, i);
      }
      SetTop(i);
      assert pg[snum - 1] == t && ki[snum - 1] == i;
      TopKid();
      StepDown(true);
      TopPage();
      assert Closing(target) by {
        if target.To? {
          Narrow(c, ks, here, Keys(t), Offset(t, i), Offset(t, i + 1), target.key);
        }
      }
    }

    ghost predicate Ready() {
      && pg.Length == ki.Length == CURSOR_STACK && IsOrder(c)
      && (root.Some? ==> WellFormed(c, root.value) && Height(root.value) < CURSOR_STACK)
    }

    // On a leaf, at one of its entries or just after the last.
    ghost predicate Placed()
      reads this`snum, pg, ki
    {
      OnPath() && pg[snum - 1].Leaf? && ki[snum - 1] <= |pg[snum - 1].keys|
    }

    ghost predicate OnEntry()
      reads this`snum, pg, ki
    {
      Placed() && ki[snum - 1] < |pg[snum - 1].keys|
    }

    // With C_EOF set the cursor is on the last leaf.
    ghost predicate Valid()
      reads this`snum, this`initialized, this`eof, pg, ki
    {
      Ready() && (initialized ==> Placed()) && (eof ==> initialized && End() == |All()|)
    }

    // The position among all keys.
    ghost function Rank(): nat
      requires Placed()
      reads this`snum, pg, ki
    {
      Here() + ki[snum - 1]
    }

    // mdb_page_search with mdb_page_search_root. found is false for an empty tree.
    method PageSearch(target: Target) returns (found: bool)
      requires Valid()
      modifies this`snum, this`initialized, this`eof, pg, ki
      ensures Valid() && found == root.Some?
      ensures found ==> initialized && !eof && Placed() && Closing(target)
      ensures !found ==> initialized == old(initialized) && eof == old(eof)
    {
      if root.None? {
        return false;
      }
      hide Cursor.All;
      Restart(target);
      while pg[snum - 1].Branch?
        invariant OnPath() && Closing(target) && ki[snum - 1] == 0
        decreases Height(pg[snum - 1])
      {
        Descend(target);
      }
      initialized, eof := true, false;
      return true;
    }

    // Back to the root page.
    method Restart(target: Target)
      requires Ready() && root.Some?
      modifies this`snum, pg, ki
      ensures OnPath() && Closing(target) && ki[snum - 1] == 0
    {
      pg[0], ki[0] := root.value, 0;
      snum := 1;
    }

    // No level has a kid to the right of the path.
    method HasRight() returns (r: bool)
      requires OnPath()
      ensures r ==> snum > 1
      ensures !r <==> End() == |All()|
    {
      hide KeysOf, Offset, Start, Sorted, Divides;
      TopPage();
      var i := 0;
      while i < snum - 1
        invariant 0 <= i <= snum - 1
        invariant forall l :: 0 <= l < i ==> ki[l] + 1 == |pg[l].kids|
      {
        if ki[i] < pg[i].Count() - 1 {
          BeforeNext(c, root.value, pg[..], ki[..], snum - 1, i);
          return true;
        }
        i := i + 1;
      }
      LastPage(c, root.value, pg[..], ki[..], snum - 1);
      return false;
    }

    lemma AllSorted()
      requires Ready()
      ensures Sorted(c, All())
    {
    }

    // What comparing the key with entry j of the leaf says.
    lemma LeafTells(key: Key, exact: bool, j: nat)
      requires Placed() && key != [] && j < |pg[snum - 1].keys|
      ensures var keys := pg[snum - 1].keys;
              && |keys| == End() - Here() && End() <= |All()|
              && (c(key, keys[j]) == 0 ==> IsLowerBound(c, All(), key, Here() + j))
              && (c(key, keys[0]) > 0 && c(key, keys[|keys| - 1]) < 0 ==> Surrounds(c, All(), Here(), End(), key))
              && (c(key, keys[|keys| - 1]) > 0 && End() == |All()| ==> Answer(c, All(), key, exact) == NotFound)
              && (c(key, keys[0]) < 0 && snum == 1 ==> IsLowerBound(c, All(), key, 0) && Here() == 0)
              && (c(key, keys[0]) < 0 && snum == 1 && exact ==> Answer(c, All(), key, exact) == NotFound)
    {
      hide IsPath, Start, WellFormed, KeysOf, Height, Sorted, Surrounds, IsLowerBound, Answer, Cursor.All;
      TopPage();
      AllSorted();
      var keys := pg[snum - 1].keys;
      PageTells(c, All(), Here(), keys, key, j);
      if c(key, keys[|keys| - 1]) > 0 && End() == |All()| {
        AnswerAt(c, All(), key, exact, |All()|);
      }
      if c(key, keys[0]) < 0 && snum == 1 {
        RootPage();
        assert All()[Here()..End()][0] == All()[0];
        AnswerAt(c, All(), key, exact, 0);
      }
    }

    lemma EmptyTells(key: Key, exact: bool)
      requires Placed() && key != [] && |pg[snum - 1].keys| == 0
      ensures Answer(c, All(), key, exact) == NotFound && Keys(pg[snum - 1]) == []
      ensures LowerBound(c, All(), key) == Here() == 0 && PastLeaf(c, root.value, key)
    {
      TopPage();
      RootPage();
      AnswerAt(c, All(), key, exact, 0);
    }

    // The key is beyond the last leaf, before the only one, or within the one on top.
    lemma MissAfter(key: Key)
      requires Placed() && key != [] && End() == |All()|
      requires var keys := pg[snum - 1].keys; keys != [] && c(key, keys[|keys| - 1]) > 0
      ensures LowerBound(c, All(), key) == End() == Here() + |pg[snum - 1].keys| && PastLeaf(c, root.value, key)
    {
      hide IsPath, Start, WellFormed, KeysOf, Keys, Height, Sorted, IsOrder, LowerBound, Answer, PastLeaf;
      TopPage();
      AllSorted();
      var keys := pg[snum - 1].keys;
      Order(c, key, keys[|keys| - 1]);
      assert All()[Here()..End()][|keys| - 1] == All()[|All()| - 1];
      AllBelow(c, All(), key);
      AnswerAt(c, All(), key, true, |All()|);
      AllBelowPast(c, root.value, key);
    }

    lemma MissBefore(key: Key)
      requires Placed() && key != [] && snum == 1
      requires var keys := pg[snum - 1].keys; keys != [] && c(key, keys[0]) < 0
      ensures LowerBound(c, All(), key) == Here() == 0 && !PastLeaf(c, root.value, key)
    {
      RootPage();
      var keys := pg[0].keys;
      Order(c, key, keys[0]);
      assert pg[0] == root.value && All() == keys && !Lt(c, keys[0], key);
    }

    lemma MissInside(key: Key)
      requires Placed() && key != []
      requires var keys := pg[snum - 1].keys; keys != [] && c(key, keys[0]) > 0 && c(key, keys[|keys| - 1]) < 0
      ensures Led(key)
    {
      var keys := pg[snum - 1].keys;
      Order(c, key, keys[0]);
      Order(c, key, keys[|keys| - 1]);
      assert !Lt(c, keys[|keys| - 1], key);
      hide IsPath, WellFormed, Height, IsOrder;
      InsidePath(c, root.value, pg[..], ki[..], snum - 1, key, 0, |keys| - 1);
    }

    // The page the cursor is on does not send a search for the key back to the root.
    ghost predicate NotBefore(key: Key)
      requires Placed()
      reads this`snum, pg, ki
    {
      var keys := pg[snum - 1].keys;
      keys == [] || snum == 1 || c(key, keys[0]) >= 0
    }

    // C_EOF survives a set that finds nothing.
    ghost predicate KeepsEof(key: Key)
      requires Valid()
      reads this`snum, this`initialized, this`eof, pg, ki
    {
      eof && NotBefore(key)
    }

    // The first half of mdb_cursor_set: what the page the cursor is on says about the key.
    method LookHere(key: Key, exact: bool) returns (hint: Hint)
      requires Placed() && key != []
      modifies ki
      ensures Placed() && Here() == old(Here()) && End() == old(End())
      ensures hint.Here? ==> OnEntry() && hint.key == pg[snum - 1].keys[ki[snum - 1]]
      ensures hint.Here? ==> IsLowerBound(c, All(), key, Rank()) && (exact ==> c(key, hint.key) == 0)
      ensures hint.Nowhere? ==> Answer(c, All(), key, exact) == NotFound && Rank() == LowerBound(c, All(), key)
      ensures hint.Nowhere? ==> (OnEntry() <==> !PastLeaf(c, root.value, key))
      ensures hint.OnPage? ==> Surrounds(c, All(), Here(), End(), key) && Led(key)
      ensures hint.Nowhere? || hint.OnPage? ==> NotBefore(key)
      ensures hint.Elsewhere? && End() == |All()| ==> !NotBefore(key)
    {
      hide IsPath, Start, WellFormed, KeysOf, Keys, Height, Sorted, Surrounds, IsLowerBound, LowerBound, Answer, Cursor.All, IsOrder, Lt, PastLeaf;
      var mp := pg[snum - 1];
      var nkeys := |mp.keys|;
      if nkeys == 0 {
        EmptyTells(key, exact);
        SetTop(0);
        return Nowhere;
      }
      LeafTells(key, exact, 0);
      LeafTells(key, exact, nkeys - 1);
      var rc := c(key, mp.keys[0]);
      if rc == 0 {
        SetTop(0);
        return Hint.Here(mp.keys[0]);
      }
      if rc > 0 {
        if nkeys > 1 {
          rc := c(key, mp.keys[nkeys - 1]);
          if rc == 0 {
            SetTop(nkeys - 1);
            return Hint.Here(mp.keys[nkeys - 1]);
          }
          if rc < 0 {
            if ki[snum - 1] < nkeys {
              LeafTells(key, exact, ki[snum - 1]);
              rc := c(key, mp.keys[ki[snum - 1]]);
              if rc == 0 {
                return Hint.Here(mp.keys[ki[snum - 1]]);
              }
            }
            MissInside(key);
            return OnPage;
          }
        }
        var more := HasRight();
        if !more {
          MissAfter(key);
          SetTop(nkeys);
          return Nowhere;
        }
      }
      if snum == 1 {
        MissBefore(key);
        SetTop(0);
        return if exact then Nowhere else Hint.Here(mp.keys[0]);
      }
      return Elsewhere;
    }

    // The second half: a search of the leaf on top, and of the next leaf if all its keys are below.
    method SetOnLeaf(key: Key, exact: bool) returns (r: Result)
      requires Placed() && key != [] && Surrounds(c, All(), Here(), End(), key)
      modifies this`snum, pg, ki
      ensures Placed() && r == Answer(c, All(), key, exact)
      ensures Rank() == LowerBound(c, All(), key) && (r.Found? ==> OnEntry())
      ensures !r.Found? ==> End() == old(End()) && (OnEntry() <==> !PastLeaf(c, old(pg[snum - 1]), key))
    {
      hide IsPath, Start, WellFormed, Keys, Height, Answer, IsOrder, Surrounds, IsLowerBound, LowerBound, Cursor.All;
      TopPage();
      ghost var here := Here();
      var keys := pg[snum - 1].keys;
      var i, ex := NodeSearch(c, keys, 0, key);
      BoundOnLeaf(key, exact, i);
      SetTop(i);
      if exact && !ex {
        return NotFound;
      }
      if i < |keys| {
        return Found(keys[i]);
      }
      var ok := Sibling(true);
      TopPage();
      if !ok {
        return NotFound;
      }
      return Found(pg[snum - 1].keys[0]);
    }

    // The bound on the leaf is the bound in the tree, and at the leaf's end the key itself is not.
    lemma BoundOnLeaf(key: Key, exact: bool, i: nat)
      requires Placed() && key != [] && Surrounds(c, All(), Here(), End(), key)
      requires var keys := pg[snum - 1].keys; i <= |keys| && IsLowerBound(c, keys[0..], key, i)
      ensures var p, keys := Here() + i, pg[snum - 1].keys;
              && p <= |All()| && LowerBound(c, All(), key) == p
              && Answer(c, All(), key, exact) == (if p < |All()| && (exact ==> c(key, All()[p]) == 0) then Found(All()[p]) else NotFound)
              && (i < |keys| ==> p < |All()| && All()[p] == keys[i])
              && (i == |keys| && p < |All()| ==> c(key, All()[p]) != 0)
              && End() == Here() + |keys| && (i == |keys| <==> PastLeaf(c, pg[snum - 1], key))
    {
      hide IsPath, Start, WellFormed, Keys, KeysOf, Height, Sorted, LowerBound, IsLowerBound, Answer, IsOrder, Cursor.All;
      TopPage();
      AllSorted();
      var keys := pg[snum - 1].keys;
      assert keys[0..] == keys;
      BoundWithin(c, All(), Here(), keys, i, key);
      AnswerAt(c, All(), key, exact, Here() + i);
      assert i < |keys| ==> All()[Here()..End()][i] == All()[Here() + i];
      assert i == |keys| && End() < |All()| ==> c(key, All()[End()]) < 0;
    }

    lemma FoundHere(key: Key, exact: bool)
      requires Placed() && key != [] && IsLowerBound(c, All(), key, Rank())
      requires OnEntry() && (exact ==> c(key, pg[snum - 1].keys[ki[snum - 1]]) == 0)
      ensures Answer(c, All(), key, exact) == Found(pg[snum - 1].keys[ki[snum - 1]]) && LowerBound(c, All(), key) == Rank()
    {
      hide IsPath, Start, WellFormed, Keys, Height, Sorted, IsOrder, Cursor.All;
      TopPage();
      AllSorted();
      AnswerAt(c, All(), key, exact, Rank());
      var keys, i := pg[snum - 1].keys, ki[snum - 1];
      assert All()[Here()..End()][i] == All()[Rank()] && keys[i] == All()[Rank()];
    }

    lemma EmptyKey(exact: bool)
      ensures Answer(c, All(), [], exact) == BadSize
    {
    }

    lemma EmptyTree(key: Key, exact: bool)
      requires root.None? && key != []
      ensures Answer(c, All(), key, exact) == NotFound
    {
    }

    lemma HasRoot()
      requires Valid()
      ensures root.None? ==> !initialized && !eof
    {
    }

    // mdb_cursor_set, as fast as the page the cursor is on allows: the answer is that of a search
    // from the root, wherever the cursor was.
    method Set(key: Key, exact: bool) returns (r: Result)
      requires Valid()
      modifies this`snum, this`initialized, this`eof, pg, ki
      ensures Valid() && r == Answer(c, All(), key, exact)
      ensures r.Found? ==> initialized && !eof && OnEntry() && Rank() == LowerBound(c, All(), key)
      ensures r == NotFound && root.Some? ==>
                && initialized && Placed() && Rank() == LowerBound(c, All(), key)
                && (OnEntry() <==> !PastLeaf(c, root.value, key))
                && (eof <==> old(KeepsEof(key)))
      ensures key == [] ==>
                initialized == old(initialized) && eof == old(eof) && snum == old(snum) && pg[..] == old(pg[..]) && ki[..] == old(ki[..])
      ensures r == NotFound && root.None? ==> !initialized && !eof
    {
      hide IsPath, Start, WellFormed, Keys, Height, Sorted, Surrounds, IsLowerBound, LowerBound, Answer, Cursor.All, Cursor.OnPath, IsOrder, Cursor.Ready;
      if key == [] {
        EmptyKey(exact);
        return BadSize;
      }
      HasRoot();
      var hint := Elsewhere;
      if initialized {
        hint := LookHere(key, exact);
      }
      match hint {
        case Nowhere =>
          return NotFound;
        case Here(k) =>
          FoundHere(key, exact);
          r := Found(k);
        case OnPage =>
          r := SetOnLeaf(key, exact);
        case Elsewhere =>
          var found := PageSearch(To(key));
          if !found {
            EmptyTree(key, exact);
            return NotFound;
          }
          assert Surrounds(c, All(), Here(), End(), key);
          r := SetOnLeaf(key, exact);
      }
      if r.Found? {
        initialized, eof := true, false;
      }
    }

    // The key under the cursor.
    lemma TopKey()
      requires OnEntry()
      ensures Rank() < |All()| && All()[Rank()] == pg[snum - 1].keys[ki[snum - 1]]
    {
      hide Cursor.All;
      TopPage();
      var keys, i := pg[snum - 1].keys, ki[snum - 1];
      assert All()[Here()..End()][i] == All()[Rank()] && keys[i] == All()[Rank()];
    }

    // mdb_cursor_first. A root page without entries does not occur.
    method GoFirst() returns (r: Result)
      requires Valid() && (root.Some? ==> All() != [])
      modifies this`snum, this`initialized, this`eof, pg, ki
      ensures Valid() && r == if All() == [] then NotFound else Found(All()[0])
      ensures r.Found? ==> initialized && !eof && OnEntry() && Rank() == 0
    {
      hide IsPath, Start, WellFormed, Keys, Height, Cursor.All;
      if !initialized || snum > 1 {
        var found := PageSearch(First);
        if !found {
          NoKeys();
          return NotFound;
        }
        assert Here() == 0;
      } else {
        RootPage();
      }
      TopPage();
      if snum == 1 {
        RootPage();
      }
      SetTop(0);
      initialized, eof := true, false;
      TopKey();
      return Found(pg[snum - 1].keys[0]);
    }

    lemma NoKeys()
      requires root.None?
      ensures All() == []
    {
    }

    // mdb_cursor_last
    method GoLast() returns (r: Result)
      requires Valid() && (root.Some? ==> All() != [])
      modifies this`snum, this`initialized, this`eof, pg, ki
      ensures Valid() && r == if All() == [] then NotFound else Found(All()[|All()| - 1])
      ensures r.Found? ==> initialized && eof && OnEntry() && Rank() == |All()| - 1
    {
      hide IsPath, Start, WellFormed, Keys, Height, Sorted, IsOrder, Cursor.All;
      if !eof {
        if !initialized || snum > 1 {
          var found := PageSearch(Last);
          if !found {
            NoKeys();
            return NotFound;
          }
          assert End() == |All()|;
        } else {
          RootPage();
        }
      }
      TopPage();
      if snum == 1 {
        RootPage();
      }
      SetTop(|pg[snum - 1].keys| - 1);
      initialized, eof := true, true;
      TopKey();
      return Found(pg[snum - 1].keys[ki[snum - 1]]);
    }

    // mdb_cursor_next: from an entry to the one after it; from just after the last entry of a leaf
    // to the first of the next leaf. When there is none the cursor stays where it is.
    method Next() returns (r: Result)
      requires Valid() && initialized
      modifies this`snum, this`eof, pg, ki
      ensures Valid() && initialized
      ensures old(eof) ==> r == NotFound && eof && Rank() == old(Rank())
      ensures !old(eof) ==>
                var p := old(if OnEntry() then Rank() + 1 else Rank());
                if p < |All()| then r == Found(All()[p]) && !eof && OnEntry() && Rank() == p
                else r == NotFound && eof && Rank() == old(Rank())
    {
      hide IsPath, Start, WellFormed, Keys, Height, Cursor.All;
      if eof {
        return NotFound;
      }
      TopPage();
      if ki[snum - 1] + 1 >= |pg[snum - 1].keys| {
        var ok := Sibling(true);
        TopPage();
        if !ok {
          eof := true;
          return NotFound;
        }
      } else {
        SetTop(ki[snum - 1] + 1);
      }
      TopKey();
      return Found(pg[snum - 1].keys[ki[snum - 1]]);
    }

    // mdb_cursor_prev
    method Prev() returns (r: Result)
      requires Valid() && initialized
      modifies this`snum, this`eof, pg, ki
      ensures Valid() && initialized
      ensures if old(Rank()) == 0 then r == NotFound && Rank() == 0
              else Rank() == old(Rank()) - 1 < |All()| && r == Found(All()[Rank()]) && !eof && OnEntry()
    {
      hide IsPath, Start, WellFormed, Keys, Height, Cursor.All;
      TopPage();
      if ki[snum - 1] == 0 {
        var ok := Sibling(false);
        TopPage();
        if !ok {
          return NotFound;
        }
        SetTop(|pg[snum - 1].keys| - 1);
      } else {
        SetTop(ki[snum - 1] - 1);
      }
      eof := false;
      TopKey();
      return Found(pg[snum - 1].keys[ki[snum - 1]]);
    }

    // The walk clients make with MDB_FIRST and MDB_NEXT: every key, once, in order.
    method VisitAll() returns (ks: seq<Key>)
      requires Valid() && (root.Some? ==> All() != [])
      modifies this`snum, this`initialized, this`eof, pg, ki
      ensures Valid() && ks == All()
    {
      hide Cursor.Ready, Cursor.OnPath, Cursor.All, Cursor.Here, Cursor.End, Cursor.Rank;
      ks := [];
      var r := GoFirst();
      while r.Found?
        invariant Valid() && |ks| <= |All()| && ks == All()[..|ks|]
        invariant if r.Found? then |ks| < |All()| && initialized && !eof && OnEntry() && Rank() == |ks| && r.key == All()[|ks|]
                  else |ks| == |All()|
        decreases |All()| - |ks|
      {
        ks := ks + [r.key];
        r := Next();
      }
    }

    // mdb_cursor_get with MDB_NEXT
    method NextOrFirst() returns (r: Result)
      requires Valid() && (root.Some? ==> All() != [])
      modifies this`snum, this`initialized, this`eof, pg, ki
      ensures Valid() && r == old(Following())
    {
      hide IsPath, Start, WellFormed, Keys, Height, IsOrder;
      if initialized {
        r := Next();
      } else {
        r := GoFirst();
      }
    }

    // The key a cursor moves to from where it is.
    ghost function Following(): Result
      requires Valid()
      reads this`snum, this`initialized, this`eof, pg, ki
    {
      if eof then NotFound
      else KeyAt(All(), if !initialized then 0 else if OnEntry() then Rank() + 1 else Rank())
    }

    // MDB_SET and then MDB_NEXT, as a client does that looks for a key and then for the next one.
    // If the key is not there, the least key above it is what comes next only if the search ended
    // past a leaf's keys and the end of the data had not been met before; otherwise it is skipped.
    method SetThenNext(key: Key) returns (r: Result, n: Result)
      requires Valid() && key != [] && (root.Some? ==> All() != [])
      modifies this`snum, this`initialized, this`eof, pg, ki
      ensures Valid() && r == Answer(c, All(), key, true)
      ensures var p := LowerBound(c, All(), key);
              && (r.Found? ==> n == KeyAt(All(), p + 1))
              && (r == NotFound ==> n == if old(KeepsEof(key)) then NotFound
                                         else KeyAt(All(), if root.Some? && PastLeaf(c, root.value, key) then p else p + 1))
              && (r == NotFound && p < |All()| ==>
                    (n == Found(All()[p]) <==> !old(KeepsEof(key)) && PastLeaf(c, root.value, key)))
    {
      hide IsPath, Start, WellFormed, Keys, Height, IsOrder, Answer, LowerBound, PastLeaf, Sorted;
      r := Set(key, true);
      n := NextOrFirst();
      NoRepeats(LowerBound(c, All(), key));
    }

    lemma NoRepeats(p: nat)
      requires Ready()
      ensures p + 1 < |All()| ==> All()[p] != All()[p + 1]
    {
      AllSorted();
      if p + 1 < |All()| {
        assert Lt(c, All()[p], All()[p + 1]) && !Lt(c, All()[p], All()[p]);
      }
    }
  }

  ghost function KeyAt(ks: seq<Key>, p: nat): Result {
    if p < |ks| then Found(ks[p]) else NotFound
  }

  //// Both ways of skipping a key occur

  function ByLength(a: Key, b: Key): int {
    |a| - |b|
  }

  function ThreeKeys(): Tree {
    Leaf([[0], [0, 0, 0], [0, 0, 0, 0]])
  }

  lemma ThreeKeysOk()
    ensures IsOrder(ByLength) && WellFormed(ByLength, ThreeKeys()) && Height(ThreeKeys()) == 0
    ensures var ks := Keys(ThreeKeys()); ks == [[0], [0, 0, 0], [0, 0, 0, 0]]
    ensures LowerBound(ByLength, Keys(ThreeKeys()), [0, 0]) == 1 && !PastLeaf(ByLength, ThreeKeys(), [0, 0])
  {
    assert !Lt(ByLength, ThreeKeys().keys[1], [0, 0]);
    LowerBoundIs(ByLength, Keys(ThreeKeys()), [0, 0]);
    assert IsLowerBound(ByLength, Keys(ThreeKeys()), [0, 0], 1);
    LowerBoundIsUnique(ByLength, Keys(ThreeKeys()), [0, 0], 1, LowerBound(ByLength, Keys(ThreeKeys()), [0, 0]));
  }

  // A key of two bytes is not there; the next one has three, but the cursor moves to that of four.
  method SkipsNext() returns (r: Result, n: Result)
    ensures r == NotFound && n == Found([0, 0, 0, 0])
  {
    hide PastLeaf, LowerBound, IsOrder, WellFormed, Keys;
    ThreeKeysOk();
    var cur := new Cursor(ByLength, Some(ThreeKeys()));
    r, n := cur.SetThenNext([0, 0]);
  }

  // From the end of the data it moves to none.
  method SkipsAll() returns (r: Result, n: Result)
    ensures r == NotFound && n == NotFound
  {
    hide PastLeaf, LowerBound, IsOrder, WellFormed, Keys;
    ThreeKeysOk();
    var cur := new Cursor(ByLength, Some(ThreeKeys()));
    r := cur.GoLast();
    r, n := cur.SetThenNext([0, 0]);
  }
}
