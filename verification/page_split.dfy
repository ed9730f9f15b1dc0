// Splitting a full page and inserting a node on the way.

module PageSplit {
  import opened Bytes
  import opened SlottedPage

  // What one page receives: a branch page's first node keeps no key.
  function Half(leaf: bool, m: seq<Node>): (h: seq<Node>)
    ensures |h| == |m|
  {
    if leaf || m == [] || !m[0].BranchNode? then m else [BranchNode([], m[0].pgno)] + m[1..]
  }

  // The room a node takes on a page, pointer included.
  function Weight(n: Node): nat {
    Size(n) + 2
  }

  // me_nodemax allows two nodes to a page, so a node with its pointer takes half a page at most.
  lemma HalfPageAtMost(leaf: bool, psize: nat, n: Node)
    requires psize >= PAGEHDRSZ && NodeOk(leaf, psize, n)
    ensures 2 * Weight(n) <= psize - PAGEHDRSZ
  {
  }

  // The scan for a split point in the merged list m of old and new nodes: from the left, or from
  // the right when the new node belongs in the second half.
  ghost predicate Scanned(m: seq<Node>, newindx: nat, pmax: nat, s: nat)
    requires newindx < |m|
  {
    var nkeys := |m| - 1;
    var half := (nkeys + 1) / 2;
    && 1 <= s <= nkeys
    && if newindx <= half || newindx >= nkeys then
         && Total(m[..s]) <= pmax
         && (Total(m[..s + 1]) > pmax || s == (if newindx >= nkeys then nkeys else half + 2) - 1)
       else
         && Total(m[s..]) <= pmax
         && (Total(m[s - 1..]) > pmax || s == half + 1)
  }

  // Taking the node that overflows the scan, or the second half's start, from one side leaves no
  // more than a page on the other.
  lemma ScanLeavesRoom(m: seq<Node>, newindx: nat, w: nat, pmax: nat, s: nat)
    requires 3 <= |m| && newindx < |m| && Total(m) <= pmax + w && 2 * w <= pmax
    requires forall i :: 0 <= i < |m| ==> 2 * Weight(m[i]) <= pmax
    requires Scanned(m, newindx, pmax, s)
    requires if newindx < s then Total(m[s..]) <= pmax else Total(m[..s]) <= pmax
    ensures Total(m[..s]) <= pmax && Total(m[s..]) <= pmax
  {
    hide Size, Total, Weight;
    var nkeys := |m| - 1;
    var half := (nkeys + 1) / 2;
    TotalSplit(m, s);
    if newindx <= half || newindx >= nkeys {
      if Total(m[..s + 1]) > pmax {
        TotalStep(m, s);
      } else if newindx >= nkeys {
        assert m[s..] == [m[s], m[s + 1]];
        TotalPair(m[s], m[s + 1]);
      }
    } else if Total(m[s - 1..]) > pmax {
      TotalStep(m, s - 1);
      TotalSplit(m, s - 1);
    }
  }

  lemma ScanFits(nodes: seq<Node>, newindx: nat, n: Node, pmax: nat, s: nat)
    requires 2 <= |nodes| && newindx <= |nodes| && Total(nodes) <= pmax
    requires 2 * Weight(n) <= pmax && forall i :: 0 <= i < |nodes| ==> 2 * Weight(nodes[i]) <= pmax
    requires Scanned(Inserted(nodes, newindx, n), newindx, pmax, s)
    ensures var m := Inserted(nodes, newindx, n); Total(m[..s]) <= pmax && Total(m[s..]) <= pmax
  {
    hide Size, Total, Weight;
    var m := Inserted(nodes, newindx, n);
    TotalInserted(nodes, newindx, n);
    OldSide(nodes, newindx, n, s);
    assert forall i :: 0 <= i < |m| ==> 2 * Weight(m[i]) <= pmax;
    hide Inserted;
    ScanLeavesRoom(m, newindx, Weight(n), pmax, s);
  }

  lemma TotalInserted(nodes: seq<Node>, i: nat, n: Node)
    requires i <= |nodes|
    ensures Total(Inserted(nodes, i, n)) == Total(nodes) + Weight(n)
  {
    TotalAround(nodes[..i], n, nodes[i..]);
    TotalSplit(nodes, i);
  }

  // The side of the cut without the new node has only old ones.
  lemma OldSide(nodes: seq<Node>, i: nat, n: Node, s: nat)
    requires i <= |nodes| && 1 <= s <= |nodes|
    ensures var m := Inserted(nodes, i, n);
            if i < s then m[s..] == nodes[s - 1..] && Total(m[s..]) <= Total(nodes)
            else m[..s] == nodes[..s] && Total(m[..s]) <= Total(nodes)
  {
    hide Total, Weight, Inserted;
    if i < s {
      InsertedSlices(nodes, i, n, s - 1);
      TotalSplit(nodes, s - 1);
    } else {
      InsertedSlices(nodes, i, n, s);
      TotalSplit(nodes, s);
    }
  }

  lemma TotalSplit(m: seq<Node>, i: nat)
    requires i <= |m|
    ensures Total(m) == Total(m[..i]) + Total(m[i..])
  {
    hide Total;
    TotalConcat(m[..i], m[i..]);
    assert m[..i] + m[i..] == m;
  }

  lemma TotalStep(m: seq<Node>, i: nat)
    requires i < |m|
    ensures Total(m[..i + 1]) == Total(m[..i]) + Weight(m[i])
  {
    assert m[..i + 1][..i] == m[..i];
  }

  lemma TotalPair(a: Node, b: Node)
    ensures Total([a, b]) == Weight(a) + Weight(b)
  {
    TotalAround([], a, [b]);
    TotalAround([], b, []);
    assert [] + [a] + [b] == [a, b] && [] + [b] + [] == [b];
  }

  lemma FewFit(nodes: seq<Node>, pmax: nat)
    requires forall i :: 0 <= i < |nodes| ==> 2 * Weight(nodes[i]) <= pmax
    ensures |nodes| < 2 ==> 2 * Total(nodes) <= pmax
  {
    if |nodes| == 1 {
      assert nodes[..0] == [] && Total(nodes) == Weight(nodes[0]);
    }
  }

  // A page that cannot take one more node holds at least two.
  lemma AtLeastTwo(nodes: seq<Node>, n: Node, pmax: nat)
    requires Total(nodes) <= pmax < Total(nodes) + Weight(n)
    requires 2 * Weight(n) <= pmax && forall i :: 0 <= i < |nodes| ==> 2 * Weight(nodes[i]) <= pmax
    ensures |nodes| >= 2
  {
    FewFit(nodes, pmax);
  }

  // The room a half saves because its first node keeps no key on a branch page.
  function Dropped(leaf: bool, n: Node): nat {
    if leaf || !n.BranchNode? then 0 else Even(|n.key|)
  }

  // What decides a cut in the middle without a scan: the new node needs no more than the free
  // room, the room of the nodes that part from it, and that of the key dropped on its side.
  predicate CutFits(leaf: bool, nodes: seq<Node>, newindx: nat, n: Node, pmax: nat)
    requires newindx < |nodes|
  {
    var s := (|nodes| + 1) / 2;
    Weight(n) + Total(nodes) <= pmax +
    if newindx < s then Total(nodes[s - 1..]) + Dropped(leaf, if newindx == 0 then n else nodes[0])
    else Total(nodes[..s]) + Dropped(leaf, if newindx == s then n else nodes[s])
  }

  lemma FixedHalfFits(leaf: bool, nodes: seq<Node>, newindx: nat, n: Node, pmax: nat)
    requires 2 <= |nodes| && newindx < |nodes| && Total(nodes) <= pmax
    ensures var m, s := Inserted(nodes, newindx, n), (|nodes| + 1) / 2;
            (Total(Half(leaf, m[..s])) <= pmax && Total(Half(leaf, m[s..])) <= pmax)
            <==> CutFits(leaf, nodes, newindx, n, pmax)
  {
    hide Size, Total, Weight, Half, Dropped;
    var m, s := Inserted(nodes, newindx, n), (|nodes| + 1) / 2;
    TotalInserted(nodes, newindx, n);
    OldSide(nodes, newindx, n, s);
    assert m[0] == if newindx == 0 then n else nodes[0];
    assert newindx >= s ==> m[s] == if newindx == s then n else nodes[s];
    hide Inserted;
    TotalSplit(m, s);
    HalfTotal(leaf, m[..s]);
    HalfTotal(leaf, m[s..]);
  }

  lemma HalfTotal(leaf: bool, m: seq<Node>)
    requires m != []
    ensures Total(Half(leaf, m)) + Dropped(leaf, m[0]) == Total(m)
  {
    if !leaf && m[0].BranchNode? {
      var b := BranchNode([], m[0].pgno);
      TotalAround([], b, m[1..]);
      TotalAround([], m[0], m[1..]);
      assert [] + [m[0]] + m[1..] == m && [] + [b] + m[1..] == [b] + m[1..];
    }
  }

  // The room node i of the merged list takes, read from the page's bytes.
  method WeightAt(mp: Page, newindx: nat, ghost n: Node, nsize: nat, i: nat) returns (w: nat)
    requires mp.Valid() && newindx <= |mp.nodes| && i <= |mp.nodes| && nsize == Weight(n)
    ensures w == Weight(Inserted(mp.nodes, newindx, n)[i])
  {
    if i == newindx {
      w := nsize;
    } else {
      var sz := mp.SizeAt(if i < newindx then i else i - 1);
      w := sz + 2;
    }
  }

  method ScanRight(mp: Page, newindx: nat, ghost n: Node, nsize: nat, k: nat, pmax: nat) returns (s: nat)
    requires mp.Valid() && newindx <= |mp.nodes| && nsize == Weight(n) && 2 <= k <= |mp.nodes| + 1
    requires forall i :: 0 <= i <= |mp.nodes| ==> 2 * Weight(Inserted(mp.nodes, newindx, n)[i]) <= pmax
    ensures var m := Inserted(mp.nodes, newindx, n);
            1 <= s < k && Total(m[..s]) <= pmax && (Total(m[..s + 1]) > pmax || s == k - 1)
  {
    hide Inserted, Size;
    ghost var m := Inserted(mp.nodes, newindx, n);
    var i, psize := 0, 0;
    s := 0;
    assert Total(m[..0]) == 0;
    while i != k
      invariant 0 <= i < k
      invariant psize == Total(m[..i]) <= pmax
      decreases k - i
    {
      var w := WeightAt(mp, newindx, n, nsize, i);
      TotalStep(m, i);
      psize := psize + w;
      if psize > pmax || i == k - 1 {
        return i;
      }
      i := i + 1;
    }
  }

  method ScanLeft(mp: Page, newindx: nat, ghost n: Node, nsize: nat, k: nat, pmax: nat) returns (s: nat)
    requires mp.Valid() && newindx <= |mp.nodes| && nsize == Weight(n) && k + 1 < |mp.nodes|
    requires forall i :: 0 <= i <= |mp.nodes| ==> 2 * Weight(Inserted(mp.nodes, newindx, n)[i]) <= pmax
    ensures var m := Inserted(mp.nodes, newindx, n);
            k + 2 <= s <= |mp.nodes| && Total(m[s..]) <= pmax && (Total(m[s - 1..]) > pmax || s == k + 2)
  {
    hide Inserted, Total, Size;
    ghost var m := Inserted(mp.nodes, newindx, n);
    var nkeys := mp.NumKeys();
    var i, psize := nkeys, 0;
    s := 0;
    TotalSplit(m, nkeys + 1);
    assert m[..nkeys + 1] == m;
    while i != k
      invariant k < i <= nkeys
      invariant psize == Total(m[i + 1..]) <= pmax
      invariant i == nkeys ==> psize == 0
      decreases i
    {
      var w := WeightAt(mp, newindx, n, nsize, i);
      TotalSplit(m, i);
      TotalSplit(m, i + 1);
      TotalStep(m, i);
      psize := psize + w;
      if psize > pmax || i == k + 1 {
        return i + 1;
      }
      i := i - 1;
    }
  }

  // Does the code look for a split point, or just cut the page in the middle?
  predicate Scans(nkeys: nat, nsize: nat, pmax: nat, newindx: nat) {
    nkeys < 20 || nsize > pmax / 16 || newindx >= nkeys
  }

  method SplitPoint(mp: Page, newindx: nat, n: Node, ghost placed: Node, pmax: nat) returns (s: nat)
    requires mp.Valid() && newindx <= |mp.nodes| && 2 <= |mp.nodes|
    requires Even(NodeRoom(mp.psize, n)) == Weight(placed)
    requires forall i :: 0 <= i <= |mp.nodes| ==> 2 * Weight(Inserted(mp.nodes, newindx, placed)[i]) <= pmax
    ensures 1 <= s <= |mp.nodes|
    ensures if Scans(|mp.nodes|, Weight(placed), pmax, newindx)
            then Scanned(Inserted(mp.nodes, newindx, placed), newindx, pmax, s)
            else s == (|mp.nodes| + 1) / 2
  {
    hide Inserted, Total, Size;
    var nkeys := mp.NumKeys();
    s := (nkeys + 1) / 2;
    var nsize := Even(NodeRoom(mp.psize, n));
    if nkeys < 20 || nsize > pmax / 16 || newindx >= nkeys {
      if newindx <= s || newindx >= nkeys {
        s := ScanRight(mp, newindx, placed, nsize, if newindx >= nkeys then nkeys else s + 2, pmax);
      } else {
        s := ScanLeft(mp, newindx, placed, nsize, s - 1, pmax);
      }
    }
  }

  // The first node of a branch page needs no key.
  function Kept(leaf: bool, n: Node, j: nat): Node
    requires leaf || n.BranchNode?
  {
    if !leaf && j == 0 then BranchNode([], n.pgno) else n
  }

  // Storing a node of the page again gives that node.
  lemma MovedNode(leaf: bool, psize: nat, nodes: seq<Node>, newindx: nat, n: Node, overflow: seq<byte>, i: nat, j: nat)
    requires newindx <= |nodes| && i <= |nodes| && RequestOk(leaf, psize, n) && |overflow| == 8
    requires forall k :: 0 <= k < |nodes| ==> NodeOk(leaf, psize, nodes[k])
    ensures var raw := if i < newindx then nodes[i] else if i == newindx then n else nodes[i - 1];
            var x := Inserted(nodes, newindx, Placed(n, psize, overflow))[i];
            && (leaf || (raw.BranchNode? && x.BranchNode?))
            && RequestOk(leaf, psize, Kept(leaf, raw, j))
            && Placed(Kept(leaf, raw, j), psize, overflow) == Kept(leaf, x, j)
  {
  }

  lemma HalfGrows(leaf: bool, m: seq<Node>, from: nat, i: nat)
    requires from <= i < |m| && (leaf || (m[from].BranchNode? && m[i].BranchNode?))
    ensures Half(leaf, m[from..i + 1]) == Inserted(Half(leaf, m[from..i]), i - from, Kept(leaf, m[i], i - from))
  {
    assert m[from..i + 1] == m[from..i] + [m[i]];
  }

  lemma TotalPrefix(a: seq<Node>, k: nat)
    requires k <= |a|
    ensures Total(a[..k]) <= Total(a)
  {
    TotalSplit(a, k);
  }

  lemma TotalOfNone()
    ensures Total([]) == 0
  {
  }

  lemma HalfIsPrefix(leaf: bool, m: seq<Node>, from: nat, i: nat, to: nat)
    requires from < i <= to <= |m|
    ensures Total(Half(leaf, m[from..i])) <= Total(Half(leaf, m[from..to]))
  {
    hide Total;
    var a, b := m[from..i], m[from..to];
    assert b[..|a|] == a && b[0] == a[0];
    assert Half(leaf, b)[..|a|] == Half(leaf, a) by {
      if !leaf && b[0].BranchNode? {
        assert b[1..][..|a| - 1] == a[1..];
      }
    }
    TotalPrefix(Half(leaf, m[from..to]), i - from);
  }

  // Nodes from to to - 1 of the merged list go to an empty page.
  method FillHalf(mp: Page, dest: Page, newindx: nat, n: Node, overflow: seq<byte>, from: nat, to: nat, ghost m: seq<Node>)
    returns (full: bool)
    requires mp.Valid() && dest.Valid() && mp != dest && mp.ptrs != dest.ptrs && mp.bytes != dest.bytes
    requires dest.leaf == mp.leaf && dest.psize == mp.psize && dest.nodes == []
    requires RequestOk(mp.leaf, mp.psize, n) && |overflow| == 8
    requires newindx <= |mp.nodes| && m == Inserted(mp.nodes, newindx, Placed(n, mp.psize, overflow)) && from < to <= |m|
    modifies dest`lower, dest`upper, dest`nodes, dest.ptrs, dest.bytes
    ensures mp.Valid() && dest.Valid()
    ensures full <==> Total(Half(mp.leaf, m[from..to])) > mp.psize - PAGEHDRSZ
    ensures !full ==> dest.nodes == Half(mp.leaf, m[from..to])
    ensures !full ==> to - from <= dest.ptrs.Length && dest.ptrs[to - from - 1] == dest.upper
  {
    hide Total, Size, Inserted, Half, NodeOk, RequestOk, Placed, Kept, Page.Valid, PageOk, Even, NodeRoom, NodeMax, Page.SizeLeft, Page.NumKeys, Len, WellFormed, Big, IsEven;
    mp.Accounted();
    dest.Accounted();
    TotalOfNone();
    assert Half(mp.leaf, m[from..from]) == [];
    var i, j := from, 0;
    while i < to
      invariant from <= i <= to && j == i - from
      invariant mp.Valid() && dest.Valid()
      invariant dest.nodes == Half(mp.leaf, m[from..i])
      invariant j > 0 ==> j <= dest.ptrs.Length && dest.ptrs[j - 1] == dest.upper
    {
      var node := n;
      if i != newindx {
        node := mp.ReadNode(if i < newindx then i else i - 1);
      }
      mp.Accounted();
      dest.Accounted();
      MovedNode(mp.leaf, mp.psize, mp.nodes, newindx, n, overflow, from, 0);
      MovedNode(mp.leaf, mp.psize, mp.nodes, newindx, n, overflow, i, j);
      node := Kept(mp.leaf, node, j);
      HalfGrows(mp.leaf, m, from, i);
      TotalInserted(dest.nodes, j, Kept(mp.leaf, m[i], j));
      HalfIsPrefix(mp.leaf, m, from, i + 1, to);
      full := dest.NodeAdd(j, node, overflow);
      if full {
        return;
      }
      i, j := i + 1, j + 1;
    }
    dest.Accounted();
    return false;
  }

  lemma MergedList(leaf: bool, psize: nat, nodes: seq<Node>, newindx: nat, n: Node, overflow: seq<byte>)
    requires newindx <= |nodes| && RequestOk(leaf, psize, n) && |overflow| == 8 && psize >= PAGEHDRSZ
    requires forall k :: 0 <= k < |nodes| ==> NodeOk(leaf, psize, nodes[k])
    ensures var placed := Placed(n, psize, overflow);
            var m := Inserted(nodes, newindx, placed);
            && placed.key == n.key && 2 * Weight(placed) <= psize - PAGEHDRSZ
            && (forall k :: 0 <= k < |nodes| ==> 2 * Weight(nodes[k]) <= psize - PAGEHDRSZ)
            && (forall i :: 0 <= i < |m| ==> 2 * Weight(m[i]) <= psize - PAGEHDRSZ)
  {
    hide Size, Weight, NodeMax, WellFormed;
    PlacedOk(leaf, psize, n, overflow);
    HalfPageAtMost(leaf, psize, Placed(n, psize, overflow));
    forall k | 0 <= k < |nodes|
      ensures 2 * Weight(nodes[k]) <= psize - PAGEHDRSZ
    {
      HalfPageAtMost(leaf, psize, nodes[k]);
    }
  }

  lemma MergedAt(nodes: seq<Node>, i: nat, n: Node, k: nat)
    requires i <= |nodes| && k <= |nodes|
    ensures Inserted(nodes, i, n)[k] == if k < i then nodes[k] else if k == i then n else nodes[k - 1]
  {
  }

  // What mdb_page_split adds for the new node is its weight.
  lemma RoomIsWeight(leaf: bool, psize: nat, n: Node, overflow: seq<byte>)
    requires |overflow| == 8 && RequestOk(leaf, psize, n) && (leaf ==> !Big(n.flags))
    ensures Even(NodeRoom(psize, n)) == Weight(Placed(n, psize, overflow))
  {
  }

  lemma ScannedHalvesFit(leaf: bool, nodes: seq<Node>, newindx: nat, n: Node, pmax: nat, s: nat)
    requires 2 <= |nodes| && newindx <= |nodes| && Total(nodes) <= pmax
    requires 2 * Weight(n) <= pmax && forall i :: 0 <= i < |nodes| ==> 2 * Weight(nodes[i]) <= pmax
    requires Scanned(Inserted(nodes, newindx, n), newindx, pmax, s)
    ensures var m := Inserted(nodes, newindx, n); Total(Half(leaf, m[..s])) <= pmax && Total(Half(leaf, m[s..])) <= pmax
  {
    hide Size, Total, Weight, Inserted, Half, Dropped;
    var m := Inserted(nodes, newindx, n);
    assert 1 <= s <= |nodes|;
    ScanFits(nodes, newindx, n, pmax, s);
    HalfTotal(leaf, m[..s]);
    HalfTotal(leaf, m[s..]);
  }

  lemma AppendedList(nodes: seq<Node>, n: Node)
    ensures var m := Inserted(nodes, |nodes|, n);
            m[..|nodes|] == nodes && m[|nodes|..] == [n] && Inserted([], 0, n) == [n]
  {
  }

  // Copies the two halves out, the right one first, and then the left one back over the page.
  method MoveNodes(mp: Page, rp: Page, copy: Page, newindx: nat, n: Node, overflow: seq<byte>, s: nat, ghost m: seq<Node>)
    returns (full: bool)
    requires mp.Valid() && rp.Valid() && copy.Valid() && rp.nodes == copy.nodes == []
    requires mp != rp && mp.ptrs != rp.ptrs && mp.bytes != rp.bytes
    requires mp != copy && mp.ptrs != copy.ptrs && mp.bytes != copy.bytes
    requires rp != copy && rp.ptrs != copy.ptrs && rp.bytes != copy.bytes
    requires rp.leaf == copy.leaf == mp.leaf && rp.psize == copy.psize == mp.psize
    requires RequestOk(mp.leaf, mp.psize, n) && |overflow| == 8
    requires newindx <= |mp.nodes| && m == Inserted(mp.nodes, newindx, Placed(n, mp.psize, overflow)) && 1 <= s <= |mp.nodes|
    modifies mp`lower, mp`upper, mp`nodes, mp.ptrs, mp.bytes, rp`lower, rp`upper, rp`nodes, rp.ptrs, rp.bytes,
             copy`lower, copy`upper, copy`nodes, copy.ptrs, copy.bytes
    ensures var pmax := mp.psize - PAGEHDRSZ;
            full <==> Total(Half(mp.leaf, m[..s])) > pmax || Total(Half(mp.leaf, m[s..])) > pmax
    ensures !full ==>
              && mp.Valid() && rp.Valid()
              && mp.nodes == Half(mp.leaf, m[..s]) && rp.nodes == Half(mp.leaf, m[s..])
  {
    hide *;
    mp.Accounted();
    assert m[s..|m|] == m[s..] && m[0..s] == m[..s];
    full := FillHalf(mp, rp, newindx, n, overflow, s, mp.NumKeys() + 1, m);
    if !full {
      full := FillHalf(mp, copy, newindx, n, overflow, 0, s, m);
    }
    if !full {
      mp.CopyFrom(copy);
    }
  }

  datatype Place = Place(right: bool, index: nat)

  // mdb_page_split as far as the two pages go: rp is the new right sibling, copy a scratch page.
  // sep is the key to hand to the parent for rp, s the number of nodes that stay on the left.
  method Split(mp: Page, rp: Page, copy: Page, newindx: nat, n: Node, overflow: seq<byte>, append: bool)
    returns (full: bool, place: Place, sep: seq<byte>, s: nat)
    requires mp.Valid() && rp.Valid() && copy.Valid() && rp.nodes == copy.nodes == []
    requires mp != rp && mp.ptrs != rp.ptrs && mp.bytes != rp.bytes
    requires mp != copy && mp.ptrs != copy.ptrs && mp.bytes != copy.bytes
    requires rp != copy && rp.ptrs != copy.ptrs && rp.bytes != copy.bytes
    requires rp.leaf == copy.leaf == mp.leaf && rp.psize == copy.psize == mp.psize
    requires newindx <= |mp.nodes| && (append ==> mp.leaf && newindx == |mp.nodes|)
    requires RequestOk(mp.leaf, mp.psize, n) && |overflow| == 8 && (mp.leaf ==> !Big(n.flags))
    requires mp.SizeLeft() < Weight(Placed(n, mp.psize, overflow))
    modifies mp`lower, mp`upper, mp`nodes, mp.ptrs, mp.bytes, rp`lower, rp`upper, rp`nodes, rp.ptrs, rp.bytes,
             copy`lower, copy`upper, copy`nodes, copy.ptrs, copy.bytes
    ensures var m := Inserted(old(mp.nodes), newindx, Placed(n, mp.psize, overflow));
            var pmax := mp.psize - PAGEHDRSZ;
            && 1 <= s <= |old(mp.nodes)|
            && sep == m[s].key
            && (full <==> !append && (Total(Half(mp.leaf, m[..s])) > pmax || Total(Half(mp.leaf, m[s..])) > pmax))
            && (Scans(|old(mp.nodes)|, Weight(Placed(n, mp.psize, overflow)), pmax, newindx) ==> !full)
            && (|old(mp.nodes)| < 20 || newindx == |old(mp.nodes)| || Weight(Placed(n, mp.psize, overflow)) > pmax / 16 ==> !full)
            && (!append && !Scans(|old(mp.nodes)|, Weight(Placed(n, mp.psize, overflow)), pmax, newindx) ==>
                  && s == (|old(mp.nodes)| + 1) / 2
                  && (full <==> !CutFits(mp.leaf, old(mp.nodes), newindx, Placed(n, mp.psize, overflow), pmax)))
            && (append ==> s == newindx)
            && (!full ==>
                  && mp.Valid() && rp.Valid()
                  && (append ==> mp.nodes == m[..s] && rp.nodes == m[s..])
                  && (!append ==> mp.nodes == Half(mp.leaf, m[..s]) && rp.nodes == Half(mp.leaf, m[s..]))
                  && place == (if newindx < s then Place(false, newindx) else Place(true, newindx - s)))
  {
    hide Size, Inserted, Half, PageOk, Even, NodeMax, CutFits, Scanned, Total;
    ghost var placed := Placed(n, mp.psize, overflow);
    ghost var nodes, pmax := mp.nodes, mp.psize - PAGEHDRSZ;
    ghost var m := Inserted(nodes, newindx, placed);
    mp.Accounted();
    MergedList(mp.leaf, mp.psize, nodes, newindx, n, overflow);
    AtLeastTwo(nodes, placed, pmax);
    full := false;
    if append {
      s := newindx;
      sep := n.key;
      MergedAt(nodes, newindx, placed, s);
      AppendedList(nodes, placed);
      rp.Accounted();
      TotalOfNone();
      full := rp.NodeAdd(0, n, overflow);
      place := Place(true, 0);
    } else {
      RoomIsWeight(mp.leaf, mp.psize, n, overflow);
      s := SplitPoint(mp, newindx, n, placed, mp.psize - PAGEHDRSZ);
      if s == newindx {
        sep := n.key;
      } else {
        var node := mp.ReadNode(if s < newindx then s else s - 1);
        sep := node.key;
      }
      MergedAt(nodes, newindx, placed, s);
      if Scans(|nodes|, Weight(placed), pmax, newindx) {
        ScannedHalvesFit(mp.leaf, nodes, newindx, placed, pmax, s);
      } else {
        FixedHalfFits(mp.leaf, nodes, newindx, placed, pmax);
      }
      full := MoveNodes(mp, rp, copy, newindx, n, overflow, s, m);
      place := if newindx < s then Place(false, newindx) else Place(true, newindx - s);
    }
  }

  // Left followed by right is the old page with the new node in its place; on a branch page the
  // first node of each half has no key. The right one's is the separator the parent gets.
  lemma SplitKeepsSequence(leaf: bool, m: seq<Node>, s: nat)
    requires 1 <= s < |m|
    requires leaf || (m[0].BranchNode? && m[s].BranchNode?)
    ensures Half(leaf, m[..s]) + Half(leaf, m[s..]) ==
            if leaf then m else m[0 := BranchNode([], m[0].pgno)][s := BranchNode([], m[s].pgno)]
  {
    if !leaf {
      var a, b := BranchNode([], m[0].pgno), BranchNode([], m[s].pgno);
      assert ([a] + m[1..s]) + ([b] + m[s + 1..]) == m[0 := a][s := b];
      assert m[..s][1..] == m[1..s] && m[s..][1..] == m[s + 1..];
    }
  }

  // A 4096-byte page with ten small nodes followed by ten large ones.
  function Lopsided(): (s: seq<Node>)
    ensures |s| == 20
  {
    seq(20, i requires 0 <= i < 20 => var size := if i < 10 then 0 else 382; LeafNode([0, i], Zeros(size), size, 0))
  }

  function Zeros(n: nat): (s: seq<byte>)
    ensures |s| == n
  {
    seq(n, _ => 0)
  }

  lemma {:induction false} UniformTotal(m: seq<Node>, w: nat)
    requires forall i :: 0 <= i < |m| ==> Weight(m[i]) == w
    ensures Total(m) == |m| * w
  {
    if m != [] {
      UniformTotal(m[..|m| - 1], w);
    }
  }

  lemma LopsidedNode(i: nat)
    requires i < 20
    ensures NodeOk(true, 4096, Lopsided()[i]) && Weight(Lopsided()[i]) == if i < 10 then 12 else 394
  {
    var size := if i < 10 then 0 else 382;
    assert Lopsided()[i] == LeafNode([0, i], Zeros(size), size, 0);
  }

  lemma NewNode()
    ensures var n := LeafNode([0, 14, 1], Zeros(187), 187, 0); NodeOk(true, 4096, n) && Weight(n) == 200
  {
  }

  // Cut in the middle without a scan, that page cannot be split: the new node and the large ones
  // need more than a page.
  lemma FixedHalfCanFail()
    ensures var n := LeafNode([0, 14, 1], Zeros(187), 187, 0);
            && (forall i :: 0 <= i < 20 ==> NodeOk(true, 4096, Lopsided()[i])) && NodeOk(true, 4096, n)
            && Total(Lopsided()) == 4060 && Weight(n) == 200
            && !Scans(20, Weight(n), 4080, 15)
            && !CutFits(true, Lopsided(), 15, n, 4080)
  {
    var l, n := Lopsided(), LeafNode([0, 14, 1], Zeros(187), 187, 0);
    forall i | 0 <= i < 20
      ensures NodeOk(true, 4096, l[i]) && Weight(l[i]) == if i < 10 then 12 else 394
    {
      LopsidedNode(i);
    }
    NewNode();
    hide Lopsided, Total, Size, Zeros;
    UniformTotal(l[..10], 12);
    UniformTotal(l[10..], 394);
    TotalSplit(l, 10);
  }

  lemma PlacedAsIs(leaf: bool, psize: nat, n: Node, overflow: seq<byte>)
    requires NodeOk(leaf, psize, n)
    ensures Placed(n, psize, overflow) == n
  {
  }

  method FillLopsided() returns (mp: Page)
    ensures fresh(mp) && fresh(mp.ptrs) && fresh(mp.bytes) && mp.Valid()
    ensures mp.leaf && mp.psize == 4096 && mp.nodes == Lopsided()
  {
    hide Lopsided, NodeOk, PageOk, Size, Weight, Scans, CutFits, Placed, NodeMax, WellFormed, Big;
    FixedHalfCanFail();
    var l, i := Lopsided(), 0;
    mp := new Page(true, 4096);
    while i < 20
      invariant 0 <= i <= 20 && fresh(mp) && fresh(mp.ptrs) && fresh(mp.bytes) && mp.Valid()
      invariant mp.leaf && mp.psize == 4096 && mp.nodes == l[..i]
    {
      mp.Accounted();
      PlacedAsIs(true, 4096, l[i], Zeros(8));
      LopsidedStep(i);
      var full := mp.NodeAdd(i, l[i], Zeros(8));
      i := i + 1;
    }
  }

  // The next node of that page still fits.
  lemma LopsidedStep(i: nat)
    requires i < 20
    ensures var l := Lopsided();
            && RequestOk(true, 4096, l[i]) && Size(l[i]) + 2 <= 4080 - Total(l[..i])
            && Inserted(l[..i], i, l[i]) == l[..i + 1]
  {
    FixedHalfCanFail();
    hide Lopsided, Total;
    TotalStep(Lopsided(), i);
    TotalPrefix(Lopsided(), i + 1);
  }

  // So splitting that page to put that node in it fails.
  method SplitLopsided() returns (full: bool)
    ensures full
  {
    hide Lopsided, NodeOk, PageOk, Size, Weight, Scans, CutFits, Placed, NodeMax, WellFormed;
    FixedHalfCanFail();
    NewNode();
    var mp := FillLopsided();
    var rp := new Page(true, 4096);
    var copy := new Page(true, 4096);
    var n := LeafNode([0, 14, 1], Zeros(187), 187, 0);
    PlacedAsIs(true, 4096, n, Zeros(8));
    mp.Accounted();
    var place, sep, s;
    full, place, sep, s := Split(mp, rp, copy, 15, n, Zeros(8), false);
  }
}
