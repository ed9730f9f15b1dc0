// A B-tree page as bytes: pointers grow up from the header, nodes grow down from the page's end.

module SlottedPage {
  import opened Bytes

  const PAGEHDRSZ := 16
  const NODESIZE := 8
  const F_BIGDATA := 1
  const PGNO_LIMIT := 0x1_0000_0000_0000  // a branch node keeps 48 bits of a page number

  predicate IsEven(n: int) {
    n % 2 == 0
  }

  function Even(n: nat): (r: nat)
    ensures IsEven(r) && n <= r <= n + 1
  {
    (n + 1) / 2 * 2
  }

  // A node. payload is what follows the key: the data, or with F_BIGDATA the number of the
  // overflow page that holds it; dsz is the data's size either way.
  datatype Node =
    | LeafNode(key: seq<byte>, payload: seq<byte>, dsz: nat, flags: nat)
    | BranchNode(key: seq<byte>, pgno: nat)

  predicate Big(flags: nat) {
    flags % 2 == F_BIGDATA
  }

  function PayloadLen(flags: nat, dsz: nat): nat {
    if Big(flags) then 8 else dsz
  }

  // Bytes of the node, and bytes the page spends on them.
  function Len(n: Node): (r: nat)
    ensures r >= NODESIZE
  {
    NODESIZE + |n.key| + if n.LeafNode? then |n.payload| else 0
  }

  function Size(n: Node): (r: nat)
    ensures IsEven(r) && r >= NODESIZE
  {
    Even(Len(n))
  }

  // me_nodemax: two nodes of this size, with their pointers, always fit a page.
  function NodeMax(psize: nat): int {
    (psize - PAGEHDRSZ) / 2 / 2 * 2 - 2
  }

  // The largest even size for which that is so.
  lemma NodeMaxIs(psize: nat)
    ensures var m := NodeMax(psize); IsEven(m) && 2 * (m + 2) <= psize - 16 < 2 * (m + 4)
  {
  }

  ghost predicate WellFormed(leaf: bool, n: Node) {
    && |n.key| < 0x1_0000
    && if leaf
       then n.LeafNode? && n.dsz < 0x1_0000_0000 && n.flags < 0x1_0000 && |n.payload| == PayloadLen(n.flags, n.dsz)
       else n.BranchNode? && n.pgno < PGNO_LIMIT
  }

  // What callers may ask to store: the key leaves room for an overflow page number.
  ghost predicate RequestOk(leaf: bool, psize: nat, n: Node) {
    WellFormed(leaf, n) && NODESIZE + |n.key| + 8 <= NodeMax(psize)
  }

  ghost predicate NodeOk(leaf: bool, psize: nat, n: Node) {
    RequestOk(leaf, psize, n) && Len(n) <= NodeMax(psize)
  }

  // The room the nodes take, pointers included.
  function Total(nodes: seq<Node>): nat {
    if nodes == [] then 0 else Total(nodes[..|nodes| - 1]) + Size(nodes[|nodes| - 1]) + 2
  }

  lemma {:induction false} TotalConcat(a: seq<Node>, b: seq<Node>)
    ensures Total(a + b) == Total(a) + Total(b)
  {
    if b == [] {
      assert a + b == a;
    } else {
      var b', n := b[..|b| - 1], b[|b| - 1];
      TotalConcat(a, b');
      assert (a + b)[..|a + b| - 1] == a + b';
    }
  }

  lemma TotalAround(a: seq<Node>, n: Node, b: seq<Node>)
    ensures Total(a + [n] + b) == Total(a) + Size(n) + 2 + Total(b)
  {
    TotalConcat(a + [n], b);
    assert (a + [n])[..|a|] == a;
  }

  //// The node's bytes

  function Lo(x: nat): byte { x % 256 }

  function Hi(x: nat): byte { x / 256 % 256 }

  // mn_lo, mn_hi, mn_flags, mn_ksize.
  function Header(n: Node): (h: seq<byte>)
    ensures |h| == NODESIZE
  {
    var ks := |n.key|;
    match n
    case LeafNode(_, _, dsz, flags) =>
      [Lo(dsz), Hi(dsz), Lo(dsz / 0x1_0000), Hi(dsz / 0x1_0000), Lo(flags), Hi(flags), Lo(ks), Hi(ks)]
    case BranchNode(_, pgno) =>
      [Lo(pgno), Hi(pgno), Lo(pgno / 0x1_0000), Hi(pgno / 0x1_0000),
       Lo(pgno / 0x1_0000_0000), Hi(pgno / 0x1_0000_0000), Lo(ks), Hi(ks)]
  }

  function Encode(n: Node): (e: seq<byte>)
    ensures |e| == Len(n)
  {
    Header(n) + n.key + if n.LeafNode? then n.payload else []
  }

  function U16(s: seq<byte>, p: nat): nat
    requires p + 2 <= |s|
  {
    s[p] as int + 256 * s[p + 1] as int
  }

  function KeySize(s: seq<byte>, p: nat): nat
    requires p + NODESIZE <= |s|
  {
    U16(s, p + 6)
  }

  function Flags(s: seq<byte>, p: nat): nat
    requires p + NODESIZE <= |s|
  {
    U16(s, p + 4)
  }

  function DataSize(s: seq<byte>, p: nat): nat
    requires p + NODESIZE <= |s|
  {
    U16(s, p) + 0x1_0000 * U16(s, p + 2)
  }

  function PageNumber(s: seq<byte>, p: nat): nat
    requires p + NODESIZE <= |s|
  {
    U16(s, p) + 0x1_0000 * U16(s, p + 2) + 0x1_0000_0000 * Flags(s, p)
  }

  function LenAt(leaf: bool, s: seq<byte>, p: nat): nat
    requires p + NODESIZE <= |s|
  {
    NODESIZE + KeySize(s, p) + if leaf then PayloadLen(Flags(s, p), DataSize(s, p)) else 0
  }

  function NodeAt(leaf: bool, s: seq<byte>, p: nat): Node
    requires p + NODESIZE <= |s| && p + LenAt(leaf, s, p) <= |s|
  {
    var k := p + NODESIZE;
    var key := s[k..k + KeySize(s, p)];
    if leaf then LeafNode(key, s[k + KeySize(s, p)..p + LenAt(leaf, s, p)], DataSize(s, p), Flags(s, p))
    else BranchNode(key, PageNumber(s, p))
  }

  ghost predicate Stored(s: seq<byte>, p: nat, n: Node) {
    p + Len(n) <= |s| && forall k :: p <= k < p + Len(n) ==> s[k] == Encode(n)[k - p]
  }

  lemma U16RoundTrip(h: seq<byte>, p: nat, x: nat)
    requires p + 2 <= |h| && h[p] == Lo(x) && h[p + 1] == Hi(x)
    ensures U16(h, p) == x % 0x1_0000
  {
  }

  lemma Words(x: nat)
    requires x < PGNO_LIMIT
    ensures x == x % 0x1_0000 + 0x1_0000 * (x / 0x1_0000 % 0x1_0000) + 0x1_0000_0000 * (x / 0x1_0000_0000 % 0x1_0000)
  {
  }

  lemma LeafHeaderReads(n: Node)
    requires WellFormed(true, n)
    ensures var h := Header(n); KeySize(h, 0) == |n.key| && DataSize(h, 0) == n.dsz && Flags(h, 0) == n.flags
  {
    hide Lo, Hi, U16;
    var h := Header(n);
    U16RoundTrip(h, 0, n.dsz);
    U16RoundTrip(h, 2, n.dsz / 0x1_0000);
    U16RoundTrip(h, 4, n.flags);
    U16RoundTrip(h, 6, |n.key|);
  }

  lemma BranchHeaderReads(n: Node)
    requires WellFormed(false, n)
    ensures var h := Header(n); KeySize(h, 0) == |n.key| && PageNumber(h, 0) == n.pgno
  {
    hide Lo, Hi, U16;
    var h := Header(n);
    Words(n.pgno);
    U16RoundTrip(h, 0, n.pgno);
    U16RoundTrip(h, 2, n.pgno / 0x1_0000);
    U16RoundTrip(h, 4, n.pgno / 0x1_0000_0000);
    U16RoundTrip(h, 6, |n.key|);
  }

  lemma SameWords(s: seq<byte>, p: nat, h: seq<byte>)
    requires p + NODESIZE <= |s| && |h| == NODESIZE && s[p..p + NODESIZE] == h
    ensures KeySize(s, p) == KeySize(h, 0) && DataSize(s, p) == DataSize(h, 0)
    ensures Flags(s, p) == Flags(h, 0) && PageNumber(s, p) == PageNumber(h, 0)
  {
    forall k | 0 <= k < NODESIZE
      ensures h[k] == s[p + k]
    {
      assert s[p..p + NODESIZE][k] == s[p + k];
    }
  }

  // Reading back what was written: a stored node is read with its key, data, flags and sizes.
  lemma EncodeDecode(leaf: bool, s: seq<byte>, p: nat, n: Node)
    requires WellFormed(leaf, n) && Stored(s, p, n)
    ensures LenAt(leaf, s, p) == Len(n) && NodeAt(leaf, s, p) == n
  {
    hide Header, KeySize, DataSize, Flags, PageNumber;
    if leaf {
      LeafHeaderReads(n);
    } else {
      BranchHeaderReads(n);
    }
    assert s[p..p + NODESIZE] == Header(n);
    SameWords(s, p, Header(n));
    assert s[p + NODESIZE..p + NODESIZE + |n.key|] == n.key;
    if leaf {
      assert s[p + NODESIZE + |n.key|..p + Len(n)] == n.payload;
    }
  }

  // Where the fields are: numbers have their least byte first, and the key starts at byte 8.
  ghost predicate IsLaidOut(s: seq<byte>, n: Node) {
    && |s| >= 8 + |n.key| && s[6] as int + 256 * s[7] as int == |n.key| && s[8..8 + |n.key|] == n.key
    && match n
       case LeafNode(_, payload, dsz, flags) =>
         && dsz == s[0] as int + 256 * s[1] as int + 0x1_0000 * s[2] as int + 0x100_0000 * s[3] as int
         && flags == s[4] as int + 256 * s[5] as int
         && s[8 + |n.key|..] == payload && |payload| == if flags % 2 == 1 then 8 else dsz
       case BranchNode(_, pgno) =>
         && |s| == 8 + |n.key|
         && pgno == s[0] as int + 256 * s[1] as int + 0x1_0000 * s[2] as int + 0x100_0000 * s[3] as int
                    + 0x1_0000_0000 * s[4] as int + 0x100_0000_0000 * s[5] as int
  }

  lemma EncodeIsLaidOut(leaf: bool, n: Node)
    requires WellFormed(leaf, n)
    ensures IsLaidOut(Encode(n), n)
  {
    hide Lo, Hi, Header;
    var e := Encode(n);
    assert e[..8] == Header(n) && forall k :: 0 <= k < 8 ==> e[k] == Header(n)[k];
    assert e[8..8 + |n.key|] == n.key;
    if leaf {
      LeafHeaderReads(n);
      assert e[8 + |n.key|..] == n.payload;
    } else {
      BranchHeaderReads(n);
    }
  }

  // The same bytes elsewhere are the same node.
  lemma StoredMoves(s: seq<byte>, p: nat, t: seq<byte>, q: nat, n: Node)
    requires Stored(s, p, n) && q + Len(n) <= |t|
    requires forall k :: q <= k < q + Len(n) ==> t[k] == s[k - q + p]
    ensures Stored(t, q, n)
  {
  }

  //// Where nodes lie

  ghost predicate Covered(ptrs: seq<nat>, nodes: seq<Node>, b: nat)
    requires |ptrs| == |nodes|
  {
    exists i :: 0 <= i < |ptrs| && ptrs[i] <= b < ptrs[i] + Size(nodes[i])
  }

  ghost predicate Inside(ptrs: seq<nat>, nodes: seq<Node>, upper: nat, end: nat)
    requires |ptrs| == |nodes|
  {
    forall i :: 0 <= i < |ptrs| ==> upper <= ptrs[i] && ptrs[i] + Size(nodes[i]) <= end && IsEven(ptrs[i])
  }

  ghost predicate Apart(ptrs: seq<nat>, nodes: seq<Node>)
    requires |ptrs| == |nodes|
  {
    forall i, j :: 0 <= i < |ptrs| && 0 <= j < |ptrs| && i != j ==>
                     ptrs[i] + Size(nodes[i]) <= ptrs[j] || ptrs[j] + Size(nodes[j]) <= ptrs[i]
  }

  // The nodes tile the page from upper to its end: no overlap and no gap.
  ghost predicate Tiles(ptrs: seq<nat>, nodes: seq<Node>, upper: nat, end: nat) {
    && |ptrs| == |nodes|
    && Inside(ptrs, nodes, upper, end)
    && Apart(ptrs, nodes)
    && forall b: nat :: upper <= b < end ==> Covered(ptrs, nodes, b)
  }

  function Inserted<T>(s: seq<T>, i: nat, x: T): (r: seq<T>)
    requires i <= |s|
    ensures |r| == |s| + 1
  {
    s[..i] + [x] + s[i..]
  }

  lemma InsertedSlices<T>(s: seq<T>, i: nat, x: T, k: nat)
    requires i <= |s| && k <= |s|
    ensures k <= i ==> Inserted(s, i, x)[..k] == s[..k]
    ensures i <= k ==> Inserted(s, i, x)[k + 1..] == s[k..]
  {
  }

  function Removed<T>(s: seq<T>, i: nat): (r: seq<T>)
    requires i < |s|
    ensures |r| == |s| - 1
  {
    s[..i] + s[i + 1..]
  }

  lemma TilesInsert(ptrs: seq<nat>, nodes: seq<Node>, upper: nat, end: nat, i: nat, ofs: nat, n: Node)
    requires Tiles(ptrs, nodes, upper, end) && i <= |ptrs|
    requires ofs + Size(n) == upper <= end && IsEven(ofs)
    ensures Tiles(Inserted(ptrs, i, ofs), Inserted(nodes, i, n), ofs, end)
  {
    hide Size, Covered, Inside, Apart, Inserted;
    InsideInsert(ptrs, nodes, upper, end, i, ofs, n);
    ApartInsert(ptrs, nodes, upper, end, i, ofs, n);
    forall b: nat | ofs <= b < end
      ensures Covered(Inserted(ptrs, i, ofs), Inserted(nodes, i, n), b)
    {
      CoveredInsert(ptrs, nodes, i, ofs, n, b);
    }
  }

  lemma InsideInsert(ptrs: seq<nat>, nodes: seq<Node>, upper: nat, end: nat, i: nat, ofs: nat, n: Node)
    requires |ptrs| == |nodes| && Inside(ptrs, nodes, upper, end) && i <= |ptrs|
    requires ofs + Size(n) == upper <= end && IsEven(ofs)
    ensures Inside(Inserted(ptrs, i, ofs), Inserted(nodes, i, n), ofs, end)
  {
    hide Size;
  }

  lemma ApartInsert(ptrs: seq<nat>, nodes: seq<Node>, upper: nat, end: nat, i: nat, ofs: nat, n: Node)
    requires |ptrs| == |nodes| && Inside(ptrs, nodes, upper, end) && Apart(ptrs, nodes) && i <= |ptrs|
    requires ofs + Size(n) == upper
    ensures Apart(Inserted(ptrs, i, ofs), Inserted(nodes, i, n))
  {
    hide Size;
    var p, m := Inserted(ptrs, i, ofs), Inserted(nodes, i, n);
    forall k, j | 0 <= k < |p| && 0 <= j < |p| && k != j
      ensures p[k] + Size(m[k]) <= p[j] || p[j] + Size(m[j]) <= p[k]
    {
      var x, y := if k < i then k else k - 1, if j < i then j else j - 1;
      assert k != i ==> p[k] == ptrs[x] && m[k] == nodes[x];
      assert j != i ==> p[j] == ptrs[y] && m[j] == nodes[y];
    }
  }

  lemma CoveredInsert(ptrs: seq<nat>, nodes: seq<Node>, i: nat, ofs: nat, n: Node, b: nat)
    requires |ptrs| == |nodes| && i <= |ptrs|
    requires ofs <= b < ofs + Size(n) || Covered(ptrs, nodes, b)
    ensures Covered(Inserted(ptrs, i, ofs), Inserted(nodes, i, n), b)
  {
    hide Size;
    var p, m := Inserted(ptrs, i, ofs), Inserted(nodes, i, n);
    if ofs <= b < ofs + Size(n) {
      assert p[i] == ofs && m[i] == n;
    } else {
      var k :| 0 <= k < |ptrs| && ptrs[k] <= b < ptrs[k] + Size(nodes[k]);
      var k' := if k < i then k else k + 1;
      assert p[k'] == ptrs[k] && m[k'] == nodes[k];
    }
  }

  lemma TilesAt(ptrs: seq<nat>, nodes: seq<Node>, upper: nat, end: nat, i: nat)
    requires Tiles(ptrs, nodes, upper, end) && i < |ptrs|
    ensures Inside(ptrs, nodes, upper, end) && Apart(ptrs, nodes)
    ensures upper <= ptrs[i] <= ptrs[i] + Size(nodes[i]) <= end
  {
  }

  // Where a pointer goes when the node at ptr leaves and those below it slide up over it.
  function SlidUp(ptr: nat, sz: nat, p: nat): nat {
    if p < ptr then p + sz else p
  }

  ghost predicate AreSlid(ptrs: seq<nat>, i: nat, sz: nat, moved: seq<nat>)
    requires i < |ptrs|
  {
    && |moved| == |ptrs| - 1
    && (forall k :: 0 <= k < i ==> moved[k] == SlidUp(ptrs[i], sz, ptrs[k]))
    && (forall k :: i <= k < |moved| ==> moved[k] == SlidUp(ptrs[i], sz, ptrs[k + 1]))
  }

  lemma SlidStaysInside(ptrs: seq<nat>, nodes: seq<Node>, upper: nat, end: nat, i: nat, k: nat)
    requires |ptrs| == |nodes| && Inside(ptrs, nodes, upper, end) && Apart(ptrs, nodes)
    requires i < |ptrs| && k < |ptrs| && i != k
    ensures var q := SlidUp(ptrs[i], Size(nodes[i]), ptrs[k]);
            upper + Size(nodes[i]) <= q <= q + Size(nodes[k]) <= end && IsEven(q)
  {
    hide Size;
  }

  lemma SlidStayApart(ptrs: seq<nat>, nodes: seq<Node>, i: nat, k: nat, j: nat)
    requires |ptrs| == |nodes| && Apart(ptrs, nodes)
    requires i < |ptrs| && k < |ptrs| && j < |ptrs| && i != k && i != j && k != j
    ensures var sz := Size(nodes[i]);
            var q, r := SlidUp(ptrs[i], sz, ptrs[k]), SlidUp(ptrs[i], sz, ptrs[j]);
            q + Size(nodes[k]) <= r || r + Size(nodes[j]) <= q
  {
    hide Size;
  }

  lemma TilesRemove(ptrs: seq<nat>, nodes: seq<Node>, upper: nat, end: nat, i: nat, moved: seq<nat>)
    requires Tiles(ptrs, nodes, upper, end) && i < |ptrs| && AreSlid(ptrs, i, Size(nodes[i]), moved)
    ensures Tiles(moved, Removed(nodes, i), upper + Size(nodes[i]), end)
  {
    hide Len;
    var m := Removed(nodes, i);
    assert forall k :: 0 <= k < |m| ==> m[k] == nodes[if k < i then k else k + 1];
    assert Inside(moved, m, upper + Size(nodes[i]), end) by {
      forall k | 0 <= k < |m|
        ensures upper + Size(nodes[i]) <= moved[k] <= moved[k] + Size(m[k]) <= end && IsEven(moved[k])
      {
        SlidStaysInside(ptrs, nodes, upper, end, i, if k < i then k else k + 1);
      }
    }
    assert Apart(moved, m) by {
      forall k, j | 0 <= k < |m| && 0 <= j < |m| && k != j
        ensures moved[k] + Size(m[k]) <= moved[j] || moved[j] + Size(m[j]) <= moved[k]
      {
        SlidStayApart(ptrs, nodes, i, if k < i then k else k + 1, if j < i then j else j + 1);
      }
    }
    forall b: nat | upper + Size(nodes[i]) <= b < end
      ensures Covered(moved, m, b)
    {
      CoveredRemove(ptrs, nodes, upper, end, i, moved, b);
    }
  }

  lemma CoveredRemove(ptrs: seq<nat>, nodes: seq<Node>, upper: nat, end: nat, i: nat, moved: seq<nat>, b: nat)
    requires Tiles(ptrs, nodes, upper, end) && i < |ptrs| && AreSlid(ptrs, i, Size(nodes[i]), moved)
    requires upper + Size(nodes[i]) <= b < end
    ensures Covered(moved, Removed(nodes, i), b)
  {
    hide Size, Inside;
    var m, ptr, sz := Removed(nodes, i), ptrs[i], Size(nodes[i]);
    var c := if b < ptr + sz then b - sz else b;
    assert Covered(ptrs, nodes, c);
    var k :| 0 <= k < |ptrs| && ptrs[k] <= c < ptrs[k] + Size(nodes[k]);
    assert k != i;
    var k' := if k < i then k else k - 1;
    assert moved[k'] == SlidUp(ptr, sz, ptrs[k]) && m[k'] == nodes[k];
  }

  // Where a pointer goes when the node at ptr grows by delta bytes towards the page's start.
  function Shifted(ptr: nat, delta: int, p: nat): int {
    if p <= ptr then p - delta else p
  }

  ghost predicate AreShifted(ptrs: seq<nat>, i: nat, delta: int, moved: seq<nat>)
    requires i < |ptrs|
  {
    |moved| == |ptrs| && forall k :: 0 <= k < |ptrs| ==> moved[k] == Shifted(ptrs[i], delta, ptrs[k])
  }

  lemma ShiftedStaysInside(ptrs: seq<nat>, nodes: seq<Node>, upper: nat, end: nat, i: nat, n: Node, k: nat)
    requires |ptrs| == |nodes| && Inside(ptrs, nodes, upper, end) && Apart(ptrs, nodes)
    requires i < |ptrs| && k < |ptrs|
    ensures var delta := Size(n) - Size(nodes[i]);
            var q := Shifted(ptrs[i], delta, ptrs[k]);
            upper - delta <= q <= q + Size(nodes[i := n][k]) <= end && IsEven(q)
  {
    hide Size;
  }

  lemma ShiftedStayApart(ptrs: seq<nat>, nodes: seq<Node>, i: nat, n: Node, k: nat, j: nat)
    requires |ptrs| == |nodes| && Apart(ptrs, nodes)
    requires i < |ptrs| && k < |ptrs| && j < |ptrs| && k != j
    ensures var delta := Size(n) - Size(nodes[i]);
            var q, r := Shifted(ptrs[i], delta, ptrs[k]), Shifted(ptrs[i], delta, ptrs[j]);
            q + Size(nodes[i := n][k]) <= r || r + Size(nodes[i := n][j]) <= q
  {
    hide Size;
  }

  lemma CoveredResize(ptrs: seq<nat>, nodes: seq<Node>, upper: nat, end: nat, i: nat, n: Node, moved: seq<nat>, b: nat)
    requires Tiles(ptrs, nodes, upper, end) && i < |ptrs| && AreShifted(ptrs, i, Size(n) - Size(nodes[i]), moved)
    requires upper - (Size(n) - Size(nodes[i])) <= b < end
    ensures Covered(moved, nodes[i := n], b)
  {
    hide Size;
    var m, ptr, delta := nodes[i := n], ptrs[i], Size(n) - Size(nodes[i]);
    if ptr - delta <= b < ptr - delta + Size(n) {
      assert moved[i] == ptr - delta && m[i] == n;
    } else {
      var c := if b < ptr - delta then b + delta else b;
      assert Covered(ptrs, nodes, c);
      var k :| 0 <= k < |ptrs| && ptrs[k] <= c < ptrs[k] + Size(nodes[k]);
      assert k != i && moved[k] == Shifted(ptr, delta, ptrs[k]) && m[k] == nodes[k];
    }
  }

  lemma TilesResize(ptrs: seq<nat>, nodes: seq<Node>, upper: nat, end: nat, i: nat, n: Node, moved: seq<nat>)
    requires Tiles(ptrs, nodes, upper, end) && i < |ptrs| && AreShifted(ptrs, i, Size(n) - Size(nodes[i]), moved)
    requires upper >= Size(n) - Size(nodes[i])
    ensures Tiles(moved, nodes[i := n], upper - (Size(n) - Size(nodes[i])), end)
  {
    hide Len;
    var m, delta := nodes[i := n], Size(n) - Size(nodes[i]);
    assert Inside(moved, m, upper - delta, end) by {
      forall k | 0 <= k < |m|
        ensures upper - delta <= moved[k] <= moved[k] + Size(m[k]) <= end && IsEven(moved[k])
      {
        ShiftedStaysInside(ptrs, nodes, upper, end, i, n, k);
      }
    }
    assert Apart(moved, m) by {
      forall k, j | 0 <= k < |m| && 0 <= j < |m| && k != j
        ensures moved[k] + Size(m[k]) <= moved[j] || moved[j] + Size(m[j]) <= moved[k]
      {
        ShiftedStayApart(ptrs, nodes, i, n, k, j);
      }
    }
    forall b: nat | upper - delta <= b < end
      ensures Covered(moved, m, b)
    {
      CoveredResize(ptrs, nodes, upper, end, i, n, moved, b);
    }
  }

  //// What the bytes hold

  ghost predicate AllStored(s: seq<byte>, ptrs: seq<nat>, nodes: seq<Node>) {
    |ptrs| == |nodes| && forall i :: 0 <= i < |ptrs| ==> Stored(s, ptrs[i], nodes[i])
  }

  lemma StoredInsert(s: seq<byte>, t: seq<byte>, ptrs: seq<nat>, nodes: seq<Node>, upper: nat, i: nat, ofs: nat, n: Node)
    requires AllStored(s, ptrs, nodes) && Inside(ptrs, nodes, upper, |s|) && i <= |ptrs|
    requires |t| == |s| && Stored(t, ofs, n) && forall b :: upper <= b < |s| ==> t[b] == s[b]
    ensures AllStored(t, Inserted(ptrs, i, ofs), Inserted(nodes, i, n))
  {
    hide Size, Len, Encode;
    var p, m := Inserted(ptrs, i, ofs), Inserted(nodes, i, n);
    forall k | 0 <= k < |p|
      ensures Stored(t, p[k], m[k])
    {
      if k != i {
        var o := if k < i then k else k - 1;
        assert p[k] == ptrs[o] && m[k] == nodes[o] && Stored(s, ptrs[o], nodes[o]);
        StoredMoves(s, ptrs[o], t, ptrs[o], nodes[o]);
      }
    }
  }

  // t is s with the sz bytes at ptr gone and those from upper to ptr moved up over them.
  ghost predicate BytesSlid(s: seq<byte>, t: seq<byte>, upper: nat, ptr: nat, sz: nat) {
    && |t| == |s| && ptr + sz <= |s|
    && (forall b :: upper + sz <= b < ptr + sz ==> t[b] == s[b - sz])
    && (forall b :: ptr + sz <= b < |s| ==> t[b] == s[b])
  }

  lemma StoredSlides(s: seq<byte>, t: seq<byte>, upper: nat, ptr: nat, sz: nat, p: nat, n: Node)
    requires Stored(s, p, n) && upper <= p && p + Size(n) <= |s| == |t|
    requires p + Size(n) <= ptr || ptr + sz <= p
    requires BytesSlid(s, t, upper, ptr, sz)
    ensures Stored(t, SlidUp(ptr, sz, p), n)
  {
    hide Size, Len, Encode;
    SizeBounds(n);
    StoredMoves(s, p, t, SlidUp(ptr, sz, p), n);
  }

  lemma StoredRemove(s: seq<byte>, t: seq<byte>, ptrs: seq<nat>, nodes: seq<Node>, upper: nat, i: nat, moved: seq<nat>)
    requires AllStored(s, ptrs, nodes) && Inside(ptrs, nodes, upper, |s|) && Apart(ptrs, nodes)
    requires i < |ptrs| && AreSlid(ptrs, i, Size(nodes[i]), moved) && BytesSlid(s, t, upper, ptrs[i], Size(nodes[i]))
    ensures AllStored(t, moved, Removed(nodes, i))
  {
    hide Size, Len, Stored;
    var m := Removed(nodes, i);
    forall k | 0 <= k < |m|
      ensures Stored(t, moved[k], m[k])
    {
      var o := if k < i then k else k + 1;
      assert m[k] == nodes[o] && moved[k] == SlidUp(ptrs[i], Size(nodes[i]), ptrs[o]) && Stored(s, ptrs[o], nodes[o]);
      StoredSlides(s, t, upper, ptrs[i], Size(nodes[i]), ptrs[o], nodes[o]);
    }
  }

  lemma SizeBounds(n: Node)
    ensures Len(n) <= Size(n) <= Len(n) + 1
  {
  }

  // t is s with the bytes from upper to the one that lands at lo moved down by delta, and with
  // those from hi on unchanged.
  ghost predicate BytesShifted(s: seq<byte>, t: seq<byte>, upper: nat, delta: int, lo: nat, hi: nat) {
    && |t| == |s| && delta <= upper && lo <= |s| && lo + delta <= |s|
    && (forall b :: upper - delta <= b < lo ==> t[b] == s[b + delta])
    && (forall b :: hi <= b < |s| ==> t[b] == s[b])
  }

  lemma StoredResize(s: seq<byte>, t: seq<byte>, ptrs: seq<nat>, nodes: seq<Node>, upper: nat, i: nat, n: Node, moved: seq<nat>)
    requires AllStored(s, ptrs, nodes) && Inside(ptrs, nodes, upper, |s|) && Apart(ptrs, nodes)
    requires i < |ptrs| && AreShifted(ptrs, i, Size(n) - Size(nodes[i]), moved) && |t| == |s|
    requires Stored(t, moved[i], n)
    requires BytesShifted(s, t, upper, Size(n) - Size(nodes[i]), moved[i], ptrs[i] + Size(nodes[i]))
    ensures AllStored(t, moved, nodes[i := n])
  {
    var m, delta := nodes[i := n], Size(n) - Size(nodes[i]);
    forall k | 0 <= k < |m|
      ensures Stored(t, moved[k], m[k])
    {
      hide Size, Len, Encode;
      if k != i {
        assert Stored(s, ptrs[k], nodes[k]) && moved[k] == Shifted(ptrs[i], delta, ptrs[k]);
        SizeBounds(nodes[k]);
        StoredMoves(s, ptrs[k], t, moved[k], nodes[k]);
      }
    }
  }

  //// The page

  // The node mdb_node_add stores for a request: data too large for the page goes to the overflow
  // page whose number is given, unless it is on one already.
  function Placed(n: Node, psize: nat, overflow: seq<byte>): Node {
    if n.LeafNode? && !Big(n.flags) && Len(n) > NodeMax(psize)
    then LeafNode(n.key, overflow, n.dsz, n.flags + F_BIGDATA)
    else n
  }

  // mdb_leaf_size and mdb_branch_size: only the first rounds up.
  function NodeRoom(psize: nat, n: Node): nat {
    match n
    case LeafNode(_, data, _, _) =>
      var sz := Len(n);
      Even((if sz > NodeMax(psize) then sz - |data| + 8 else sz) + 2)
    case BranchNode(_, _) => Len(n) + 2
  }

  // The size callers check is enough: with that much free space the node fits, and with less it
  // does not. For a branch key of odd length this needs the free space to be even, as it always is.
  lemma RoomIsEnough(psize: nat, n: Node, overflow: seq<byte>, left: int)
    requires RequestOk(n.LeafNode?, psize, n) && |overflow| == 8
    requires n.LeafNode? ==> !Big(n.flags)
    requires IsEven(left)
    ensures NodeRoom(psize, n) <= left <==> Size(Placed(n, psize, overflow)) + 2 <= left
  {
  }

  // With odd free space the branch check would pass for a node that does not fit.
  lemma OddRoomIsNotEnough(psize: nat, n: Node, overflow: seq<byte>)
    requires n.BranchNode? && |n.key| % 2 == 1
    ensures NodeRoom(psize, n) < Size(Placed(n, psize, overflow)) + 2
  {
  }

  lemma PlacedOk(leaf: bool, psize: nat, n: Node, overflow: seq<byte>)
    requires RequestOk(leaf, psize, n) && |overflow| == 8
    ensures NodeOk(leaf, psize, Placed(n, psize, overflow))
  {
  }

  // The bytes s and the pointers hold the nodes, and the free space is from lower to upper.
  ghost predicate PageOk(leaf: bool, s: seq<byte>, ptrs: seq<nat>, nodes: seq<Node>, lower: nat, upper: nat) {
    && IsEven(|s|) && IsEven(upper)
    && lower == PAGEHDRSZ + 2 * |nodes| && lower <= upper <= |s|
    && (forall i :: 0 <= i < |nodes| ==> NodeOk(leaf, |s|, nodes[i]))
    && upper - lower + Total(nodes) == |s| - PAGEHDRSZ
    && AllStored(s, ptrs, nodes)
    && Tiles(ptrs, nodes, upper, |s|)
  }

  lemma PageInsert(leaf: bool, s: seq<byte>, t: seq<byte>, ptrs: seq<nat>, nodes: seq<Node>, lower: nat, upper: nat,
                   i: nat, ofs: nat, n: Node)
    requires PageOk(leaf, s, ptrs, nodes, lower, upper) && i <= |nodes|
    requires NodeOk(leaf, |s|, n) && lower + 2 <= ofs && ofs + Size(n) == upper
    requires |t| == |s| && Stored(t, ofs, n) && forall b :: upper <= b < |s| ==> t[b] == s[b]
    ensures PageOk(leaf, t, Inserted(ptrs, i, ofs), Inserted(nodes, i, n), lower + 2, ofs)
  {
    hide Size, Total, NodeOk, Stored;
    EvenStaysEven(upper, Size(n), 0);
    TotalAround(nodes[..i], n, nodes[i..]);
    TotalConcat(nodes[..i], nodes[i..]);
    assert nodes[..i] + nodes[i..] == nodes;
    TilesInsert(ptrs, nodes, upper, |s|, i, ofs, n);
    StoredInsert(s, t, ptrs, nodes, upper, i, ofs, n);
  }

  lemma PageRemove(leaf: bool, s: seq<byte>, t: seq<byte>, ptrs: seq<nat>, nodes: seq<Node>, lower: nat, upper: nat,
                   i: nat, moved: seq<nat>)
    requires PageOk(leaf, s, ptrs, nodes, lower, upper) && i < |nodes|
    requires AreSlid(ptrs, i, Size(nodes[i]), moved) && BytesSlid(s, t, upper, ptrs[i], Size(nodes[i]))
    ensures PageOk(leaf, t, moved, Removed(nodes, i), lower - 2, upper + Size(nodes[i]))
  {
    hide Size, Total, NodeOk, Stored, AllStored;
    EvenStaysEven(upper, 0, Size(nodes[i]));
    TotalAround(nodes[..i], nodes[i], nodes[i + 1..]);
    TotalConcat(nodes[..i], nodes[i + 1..]);
    assert nodes[..i] + [nodes[i]] + nodes[i + 1..] == nodes;
    TilesAt(ptrs, nodes, upper, |s|, i);
    TilesRemove(ptrs, nodes, upper, |s|, i, moved);
    StoredRemove(s, t, ptrs, nodes, upper, i, moved);
  }

  lemma PageResize(leaf: bool, s: seq<byte>, t: seq<byte>, ptrs: seq<nat>, nodes: seq<Node>, lower: nat, upper: nat,
                   i: nat, n: Node, moved: seq<nat>)
    requires PageOk(leaf, s, ptrs, nodes, lower, upper) && i < |nodes| && NodeOk(leaf, |s|, n)
    requires AreShifted(ptrs, i, Size(n) - Size(nodes[i]), moved) && lower <= upper - (Size(n) - Size(nodes[i]))
    requires Stored(t, moved[i], n)
    requires BytesShifted(s, t, upper, Size(n) - Size(nodes[i]), moved[i], ptrs[i] + Size(nodes[i]))
    ensures PageOk(leaf, t, moved, nodes[i := n], lower, upper - (Size(n) - Size(nodes[i])))
  {
    hide Size, Total, NodeOk, Stored, AllStored, AreShifted;
    EvenStaysEven(upper, Size(n), Size(nodes[i]));
    TotalAround(nodes[..i], nodes[i], nodes[i + 1..]);
    TotalAround(nodes[..i], n, nodes[i + 1..]);
    assert nodes[..i] + [nodes[i]] + nodes[i + 1..] == nodes && nodes[..i] + [n] + nodes[i + 1..] == nodes[i := n];
    TilesAt(ptrs, nodes, upper, |s|, i);
    TilesResize(ptrs, nodes, upper, |s|, i, n, moved);
    StoredResize(s, t, ptrs, nodes, upper, i, n, moved);
  }

  // Everything a page says is in the bytes from upper on.
  lemma PageCopied(leaf: bool, s: seq<byte>, t: seq<byte>, ptrs: seq<nat>, nodes: seq<Node>, lower: nat, upper: nat)
    requires PageOk(leaf, s, ptrs, nodes, lower, upper)
    requires |t| == |s| && forall b :: upper <= b < |s| ==> t[b] == s[b]
    ensures PageOk(leaf, t, ptrs, nodes, lower, upper)
  {
    hide Size, Total, NodeOk, Len, Encode;
    forall i | 0 <= i < |ptrs|
      ensures Stored(t, ptrs[i], nodes[i])
    {
      assert Stored(s, ptrs[i], nodes[i]);
      SizeBounds(nodes[i]);
      StoredMoves(s, ptrs[i], t, ptrs[i], nodes[i]);
    }
  }

  lemma EvenStaysEven(u: nat, a: nat, b: nat)
    requires IsEven(a) && IsEven(b)
    ensures IsEven(u) ==> IsEven(u - (a - b))
  {
  }

  class Page {
    const leaf: bool
    const psize: nat
    const ptrs: array<nat>    // mp_ptrs, of which the first NumKeys() are in use
    const bytes: array<byte>  // the page; the part below upper is not used by the model
    var lower: nat
    var upper: nat
    ghost var nodes: seq<Node>

    ghost predicate Valid()
      reads this, ptrs, bytes
    {
      && bytes.Length == psize && PAGEHDRSZ + 2 * ptrs.Length == psize && |nodes| <= ptrs.Length
      && PageOk(leaf, bytes[..], ptrs[..|nodes|], nodes, lower, upper)
    }

    function NumKeys(): nat
      requires lower >= PAGEHDRSZ
      reads this
    {
      (lower - PAGEHDRSZ) / 2
    }

    function SizeLeft(): int
      reads this
    {
      upper - lower
    }

    // Every byte of the page is header, pointer, node or free.
    lemma Accounted()
      requires Valid()
      ensures SizeLeft() + Total(nodes) == psize - PAGEHDRSZ && SizeLeft() >= 0 && IsEven(SizeLeft())
      ensures lower >= PAGEHDRSZ && NumKeys() == |nodes| <= ptrs.Length
      ensures forall k :: 0 <= k < |nodes| ==> NodeOk(leaf, psize, nodes[k])
    {
      hide NodeOk, Total, Tiles, AllStored;
    }

    constructor (leaf: bool, psize: nat)
      requires IsEven(psize) && psize >= PAGEHDRSZ
      ensures Valid() && fresh(ptrs) && fresh(bytes)
      ensures this.leaf == leaf && this.psize == psize && nodes == [] && SizeLeft() == psize - PAGEHDRSZ
    {
      this.leaf, this.psize := leaf, psize;
      ptrs := new nat[(psize - PAGEHDRSZ) / 2];
      bytes := new byte[psize];
      lower, upper := PAGEHDRSZ, psize;
      nodes := [];
    }

    // The end of mdb_page_split: this page becomes what src is. The node added last to src lies
    // lowest, so the bytes from it to the page's end are all there is.
    method CopyFrom(src: Page)
      requires src != this && src.ptrs != ptrs && src.bytes != bytes
      requires Valid() && src.Valid() && src.leaf == leaf && src.psize == psize
      requires src.nodes != [] && src.ptrs[|src.nodes| - 1] == src.upper
      modifies this`lower, this`upper, this`nodes, ptrs, bytes
      ensures Valid() && nodes == src.nodes
    {
      hide AllStored, Tiles, NodeOk, Total;
      ghost var oldPtrs, oldBytes := src.ptrs[..|src.nodes|], src.bytes[..];
      assert PageOk(leaf, oldBytes, oldPtrs, src.nodes, src.lower, src.upper);
      var nkeys := src.NumKeys();
      var i := 0;
      while i < nkeys
        invariant 0 <= i <= nkeys
        invariant forall k :: 0 <= k < i ==> ptrs[k] == src.ptrs[k]
      {
        ptrs[i] := src.ptrs[i];
        i := i + 1;
      }
      assert ptrs[..nkeys] == oldPtrs;
      lower, upper := src.lower, src.upper;
      var from, len := src.ptrs[nkeys - 1], psize - src.upper;
      forall b | from <= b < from + len {
        bytes[b] := src.bytes[b];
      }
      nodes := src.nodes;
      PageCopied(leaf, oldBytes, bytes[..], oldPtrs, nodes, lower, upper);
      assert ptrs[..|nodes|] == oldPtrs;
    }

    method Memmove(dst: nat, src: nat, len: nat)
      requires dst + len <= bytes.Length && src + len <= bytes.Length
      modifies bytes
      ensures forall b :: dst <= b < dst + len ==> bytes[b] == old(bytes[b - dst + src])
      ensures forall b :: 0 <= b < bytes.Length && !(dst <= b < dst + len) ==> bytes[b] == old(bytes[b])
    {
      forall b | dst <= b < dst + len {
        bytes[b] := bytes[b - dst + src];
      }
    }

    method Write(p: nat, s: seq<byte>)
      requires p + |s| <= bytes.Length
      modifies bytes
      ensures forall b :: p <= b < p + |s| ==> bytes[b] == s[b - p]
      ensures forall b :: 0 <= b < bytes.Length && !(p <= b < p + |s|) ==> bytes[b] == old(bytes[b])
    {
      forall b | p <= b < p + |s| {
        bytes[b] := s[b - p];
      }
    }

    // Moves the pointers from indx on up one slot.
    method OpenSlot(indx: nat, n: nat)
      requires indx <= n < ptrs.Length
      modifies ptrs
      ensures forall k :: indx < k <= n ==> ptrs[k] == old(ptrs[k - 1])
      ensures forall k :: 0 <= k < ptrs.Length && !(indx < k <= n) ==> ptrs[k] == old(ptrs[k])
    {
      var i := n;
      while i > indx
        invariant indx <= i <= n
        invariant forall k :: i < k <= n ==> ptrs[k] == old(ptrs[k - 1])
        invariant forall k :: 0 <= k < ptrs.Length && !(i < k <= n) ==> ptrs[k] == old(ptrs[k])
      {
        ptrs[i] := ptrs[i - 1];
        i := i - 1;
      }
    }

    // The end of mdb_cursor_put, for a leaf, and mdb_page_split's insertion of a separator into the
    // parent, for a branch page: a node goes into the page if there is room for it, and otherwise
    // the caller must split the page.
    method AddOrSplit(indx: nat, n: Node, overflow: seq<byte>) returns (split: bool)
      requires Valid() && indx <= |nodes|
      requires RequestOk(leaf, psize, n) && |overflow| == 8 && (leaf ==> !Big(n.flags))
      modifies this`lower, this`upper, this`nodes, ptrs, bytes
      ensures Valid()
      ensures split ==> nodes == old(nodes) && SizeLeft() < Size(Placed(n, psize, overflow)) + 2
      ensures !split ==> nodes == Inserted(old(nodes), indx, Placed(n, psize, overflow))
    {
      RoomIsEnough(psize, n, overflow, SizeLeft());
      if SizeLeft() < NodeRoom(psize, n) {
        return true;
      }
      var full := NodeAdd(indx, n, overflow);
      return false;
    }

    // mdb_node_add. overflow is the number of the page that mdb_page_new would give for large data.
    method NodeAdd(indx: nat, n: Node, overflow: seq<byte>) returns (full: bool)
      requires Valid() && indx <= |nodes|
      requires RequestOk(leaf, psize, n) && |overflow| == 8
      modifies this`lower, this`upper, this`nodes, ptrs, bytes
      ensures Valid()
      ensures full <==> Size(Placed(n, psize, overflow)) + 2 > old(SizeLeft())
      ensures full ==> nodes == old(nodes) && SizeLeft() == old(SizeLeft())
      ensures !full ==> nodes == Inserted(old(nodes), indx, Placed(n, psize, overflow))
      ensures !full ==> SizeLeft() == old(SizeLeft()) - Size(Placed(n, psize, overflow)) - 2 && ptrs[indx] == upper
    {
      var room := SizeLeft() - 2;
      var nodeSize := NODESIZE + |n.key|;
      var stored := n;
      if leaf {
        if Big(n.flags) {
          nodeSize := nodeSize + 8;
        } else if nodeSize + |n.payload| > NodeMax(psize) {
          nodeSize := nodeSize + 8;
          stored := LeafNode(n.key, overflow, n.dsz, n.flags + F_BIGDATA);
        } else {
          nodeSize := nodeSize + |n.payload|;
        }
      }
      nodeSize := Even(nodeSize);
      assert stored == Placed(n, psize, overflow) && nodeSize == Size(stored);
      if nodeSize > room {
        return true;
      }
      PlacedOk(leaf, psize, n, overflow);
      Store(indx, stored);
      return false;
    }

    method PutNode(indx: nat, keys: nat, ofs: nat, n: Node)
      requires indx <= keys < ptrs.Length && ofs + Len(n) <= bytes.Length
      modifies ptrs, bytes
      ensures ptrs[..keys + 1] == Inserted(old(ptrs[..keys]), indx, ofs) && ptrs[indx] == ofs
      ensures Stored(bytes[..], ofs, n)
      ensures forall b :: ofs + Len(n) <= b < bytes.Length ==> bytes[b] == old(bytes[b])
    {
      hide Len, Encode;
      OpenSlot(indx, keys);
      ptrs[indx] := ofs;
      Write(ofs, Encode(n));
    }

    method Store(indx: nat, n: Node)
      requires Valid() && indx <= |nodes| && NodeOk(leaf, psize, n) && Size(n) + 2 <= SizeLeft()
      modifies this`lower, this`upper, this`nodes, ptrs, bytes
      ensures Valid() && nodes == Inserted(old(nodes), indx, n)
      ensures lower == old(lower) + 2 && upper == old(upper) - Size(n) && ptrs[indx] == upper
    {
      hide Size, Stored, AllStored, NodeOk, Tiles, Encode, Len;
      ghost var oldPtrs, oldBytes := ptrs[..|nodes|], bytes[..];
      SizeBounds(n);
      var ofs := upper - Size(n);
      PutNode(indx, NumKeys(), ofs, n);
      PageInsert(leaf, oldBytes, bytes[..], oldPtrs, nodes, lower, upper, indx, ofs, n);
      nodes := Inserted(nodes, indx, n);
      lower, upper := lower + 2, ofs;
    }

    // The bytes of the node at indx, from its header.
    method SizeAt(indx: nat) returns (sz: nat)
      requires Valid() && indx < |nodes|
      ensures sz == Size(nodes[indx])
    {
      hide Tiles, Total, NodeAt, U16, KeySize, Flags, DataSize;
      ghost var n, p := nodes[indx], ptrs[indx];
      assert Stored(bytes[..], ptrs[..|nodes|][indx], n);
      EncodeDecode(leaf, bytes[..], p, n);
      var ptr := ptrs[indx];
      sz := NODESIZE + KeySize(bytes[..], ptr);
      if leaf {
        sz := sz + if Big(Flags(bytes[..], ptr)) then 8 else DataSize(bytes[..], ptr);
      }
      sz := Even(sz);
    }

    method ReadNode(indx: nat) returns (n: Node)
      requires Valid() && indx < |nodes|
      ensures n == nodes[indx]
    {
      hide Tiles, Total, LenAt, NodeAt;
      ghost var p := ptrs[indx];
      assert Stored(bytes[..], ptrs[..|nodes|][indx], nodes[indx]);
      EncodeDecode(leaf, bytes[..], p, nodes[indx]);
      n := NodeAt(leaf, bytes[..], ptrs[indx]);
    }

    // Closes the gap at indx and moves the pointers below ptr up by sz.
    method CloseSlot(indx: nat, keys: nat, sz: nat)
      requires indx < keys <= ptrs.Length
      modifies ptrs
      ensures AreSlid(old(ptrs[..keys]), indx, sz, ptrs[..keys - 1])
    {
      var ptr := ptrs[indx];
      ghost var was := ptrs[..keys];
      var i, j := 0, 0;
      while i < keys
        invariant 0 <= i <= keys && j == if i <= indx then i else i - 1
        invariant forall k :: i <= k < keys ==> ptrs[k] == was[k]
        invariant forall k :: 0 <= k < j ==> ptrs[k] == SlidUp(ptr, sz, was[if k < indx then k else k + 1])
      {
        if i != indx {
          ptrs[j] := if ptrs[i] < ptr then ptrs[i] + sz else ptrs[i];
          j := j + 1;
        }
        i := i + 1;
      }
    }

    method SlideBytes(ptr: nat, sz: nat)
      requires upper <= ptr && ptr + sz <= bytes.Length
      modifies bytes
      ensures BytesSlid(old(bytes[..]), bytes[..], upper, ptr, sz)
    {
      Memmove(upper + sz, upper, ptr - upper);
    }

    // mdb_node_del
    method NodeDel(indx: nat)
      requires Valid() && indx < |nodes|
      modifies this`lower, this`upper, this`nodes, ptrs, bytes
      ensures Valid() && nodes == Removed(old(nodes), indx)
      ensures SizeLeft() == old(SizeLeft()) + Size(old(nodes)[indx]) + 2
    {
      hide Removed, Stored, AllStored, Tiles, Size, Total, NodeOk, AreSlid;
      ghost var oldPtrs, oldBytes := ptrs[..|nodes|], bytes[..];
      var sz := SizeAt(indx);
      var ptr := ptrs[indx];
      TilesAt(oldPtrs, nodes, upper, psize, indx);
      assert NumKeys() == |nodes|;
      hide PageOk, BytesSlid, NumKeys, Even;
      CloseSlot(indx, NumKeys(), sz);
      SlideBytes(ptr, sz);
      PageRemove(leaf, oldBytes, bytes[..], oldPtrs, nodes, lower, upper, indx, ptrs[..|nodes| - 1]);
      nodes := Removed(nodes, indx);
      lower, upper := lower - 2, upper + sz;
    }

    // Moves the pointers at or below ptr by delta bytes, down when the node grows.
    method ShiftPointers(indx: nat, keys: nat, delta: int)
      requires indx < keys <= ptrs.Length
      requires forall k :: 0 <= k < keys ==> ptrs[k] >= delta
      modifies ptrs
      ensures AreShifted(old(ptrs[..keys]), indx, delta, ptrs[..keys])
    {
      var ptr := ptrs[indx];
      ghost var was := ptrs[..keys];
      var i := 0;
      while i < keys
        invariant 0 <= i <= keys
        invariant forall k :: i <= k < keys ==> ptrs[k] == was[k]
        invariant forall k :: 0 <= k < i ==> ptrs[k] == Shifted(ptr, delta, was[k])
      {
        if ptrs[i] <= ptr {
          ptrs[i] := ptrs[i] - delta;
        }
        i := i + 1;
      }
    }

    // mdb_update_key. If the longer key does not fit, the node is deleted and ok is false: the
    // caller must split the page to put it back.
    method UpdateKey(indx: nat, key: seq<byte>) returns (ok: bool)
      requires Valid() && !leaf && indx < |nodes|
      requires NODESIZE + |key| + 8 <= NodeMax(psize) && |key| < 0x1_0000
      modifies this`lower, this`upper, this`nodes, ptrs, bytes
      ensures Valid()
      ensures ok <==> Even(|key|) - Even(|old(nodes)[indx].key|) <= old(SizeLeft())
      ensures ok ==> nodes == old(nodes)[indx := BranchNode(key, old(nodes)[indx].pgno)]
      ensures !ok ==> nodes == Removed(old(nodes), indx)
      ensures !ok ==> SizeLeft() < Size(BranchNode(key, old(nodes)[indx].pgno)) + 2
    {
      ghost var node := nodes[indx];
      BranchSizes(node, BranchNode(key, node.pgno));
      var oldSize := KeySizeAt(indx);
      var delta := Even(|key|) - Even(oldSize);
      if delta > 0 && SizeLeft() < delta {
        NodeDel(indx);
        return false;
      }
      ResizeFacts(indx, key, delta);
      ResizeKey(indx, key, delta, BranchNode(key, node.pgno));
      return true;
    }

    method KeySizeAt(indx: nat) returns (ks: nat)
      requires Valid() && indx < |nodes|
      ensures ks == |nodes[indx].key|
    {
      ghost var n, p := nodes[indx], ptrs[indx];
      assert Stored(bytes[..], ptrs[..|nodes|][indx], n);
      EncodeDecode(leaf, bytes[..], p, n);
      ks := KeySize(bytes[..], ptrs[indx]);
    }

    // Shifts the bytes from upper to the end of indx's header, then writes the key and its size.
    method MoveAndWrite(ptr: nat, delta: int, key: seq<byte>, ghost n: Node)
      requires !leaf && n.BranchNode? && n.key == key && upper <= ptr && delta <= upper
      requires 0 <= ptr - delta && ptr - delta + Len(n) <= bytes.Length && ptr + NODESIZE <= bytes.Length
      requires forall k :: 0 <= k < 6 ==> bytes[ptr + k] == Header(n)[k]
      modifies bytes
      ensures Stored(bytes[..], ptr - delta, n)
      ensures forall b :: upper - delta <= b < ptr - delta ==> bytes[b] == old(bytes[b + delta])
      ensures forall b :: ptr - delta + Len(n) <= b < bytes.Length && ptr + NODESIZE - delta <= b ==> bytes[b] == old(bytes[b])
    {
      hide Header, Encode;
      if delta != 0 {
        Memmove(upper - delta, upper, ptr - upper + NODESIZE);
      }
      var p := ptr - delta;
      forall k | 0 <= k < 6
        ensures bytes[p + k] == Header(n)[k]
      {
        assert old(bytes[ptr + k]) == Header(n)[k];
      }
      WriteKey(p, key, n);
    }

    method WriteKey(p: nat, key: seq<byte>, ghost n: Node)
      requires n.BranchNode? && n.key == key && p + Len(n) <= bytes.Length
      requires forall k :: 0 <= k < 6 ==> bytes[p + k] == Header(n)[k]
      modifies bytes
      ensures Stored(bytes[..], p, n)
      ensures forall b :: 0 <= b < bytes.Length && !(p <= b < p + Len(n)) ==> bytes[b] == old(bytes[b])
    {
      Write(p + 6, [Lo(|key|), Hi(|key|)]);
      Write(p + NODESIZE, key);
      forall k | p <= k < p + Len(n)
        ensures bytes[..][k] == Encode(n)[k - p]
      {
        if k < p + 6 {
          assert bytes[p + (k - p)] == Header(n)[k - p];
        }
      }
    }

    // What Valid() says of the node at indx, as far as a resize by delta needs it.
    ghost predicate CanResize(indx: nat, delta: int)
      requires indx < |nodes| <= ptrs.Length
      reads this, ptrs, bytes
    {
      && delta <= upper <= ptrs[indx] && ptrs[indx] + Size(nodes[indx]) <= bytes.Length
      && (forall k :: 0 <= k < |nodes| ==> ptrs[k] >= delta)
      && Stored(bytes[..], ptrs[indx], nodes[indx])
    }

    method ShiftAndWrite(indx: nat, keys: nat, key: seq<byte>, delta: int, ghost n: Node)
      requires !leaf && indx < |nodes| == keys <= ptrs.Length && CanResize(indx, delta)
      requires nodes[indx].BranchNode? && n == BranchNode(key, nodes[indx].pgno) && delta == Size(n) - Size(nodes[indx])
      modifies ptrs, bytes
      ensures AreShifted(old(ptrs[..keys]), indx, delta, ptrs[..keys])
      ensures ptrs[indx] == old(ptrs[indx]) - delta && Stored(bytes[..], ptrs[indx], n)
      ensures BytesShifted(old(bytes[..]), bytes[..], upper, delta, ptrs[indx], old(ptrs[indx]) + Size(nodes[indx]))
    {
      hide Stored, Size, Header, Encode;
      var ptr := ptrs[indx];
      SharedHeader(bytes[..], ptr, nodes[indx], n);
      ghost var was := ptrs[..keys];
      if delta != 0 {
        ShiftPointers(indx, keys, delta);
      }
      assert AreShifted(was, indx, delta, ptrs[..keys]) && ptrs[..keys][indx] == ptr - delta;
      SizeBounds(n);
      MoveAndWrite(ptr, delta, key, n);
    }

    lemma ResizeFacts(indx: nat, key: seq<byte>, delta: int)
      requires Valid() && !leaf && indx < |nodes|
      requires NODESIZE + |key| + 8 <= NodeMax(psize) && |key| < 0x1_0000
      requires delta == Even(|key|) - Even(|nodes[indx].key|) <= SizeLeft()
      ensures nodes[indx].BranchNode? && NumKeys() == |nodes| && lower <= upper - delta
      ensures var n := BranchNode(key, nodes[indx].pgno);
              NodeOk(leaf, psize, n) && delta == Size(n) - Size(nodes[indx])
      ensures CanResize(indx, delta)
    {
      hide Stored, Size;
      BranchSizes(nodes[indx], BranchNode(key, nodes[indx].pgno));
      assert forall k :: 0 <= k < |nodes| ==> ptrs[..|nodes|][k] == ptrs[k];
    }

    method ResizeInPlace(indx: nat, key: seq<byte>, delta: int, ghost n: Node)
      requires Valid() && !leaf && indx < |nodes| && lower >= PAGEHDRSZ && NumKeys() == |nodes|
      requires nodes[indx].BranchNode? && n == BranchNode(key, nodes[indx].pgno) && NodeOk(leaf, psize, n)
      requires delta == Size(n) - Size(nodes[indx]) && lower <= upper - delta && CanResize(indx, delta)
      modifies ptrs, bytes
      ensures PageOk(leaf, bytes[..], ptrs[..|nodes|], nodes[indx := n], lower, upper - delta)
    {
      hide PageOk, Stored, Size, Len, NodeOk, AreShifted, BytesShifted, CanResize;
      ghost var oldPtrs, oldBytes := ptrs[..|nodes|], bytes[..];
      ShiftAndWrite(indx, NumKeys(), key, delta, n);
      PageResize(leaf, oldBytes, bytes[..], oldPtrs, nodes, lower, upper, indx, n, ptrs[..|nodes|]);
    }

    method ResizeKey(indx: nat, key: seq<byte>, delta: int, ghost n: Node)
      requires Valid() && !leaf && indx < |nodes| && lower >= PAGEHDRSZ && NumKeys() == |nodes|
      requires nodes[indx].BranchNode? && n == BranchNode(key, nodes[indx].pgno) && NodeOk(leaf, psize, n)
      requires delta == Size(n) - Size(nodes[indx]) && lower <= upper - delta && CanResize(indx, delta)
      modifies this`upper, this`nodes, ptrs, bytes
      ensures Valid() && nodes == old(nodes)[indx := n]
    {
      hide Tiles;
      ResizeInPlace(indx, key, delta, n);
      nodes := nodes[indx := n];
      upper := upper - delta;
    }
  }

  lemma BranchSizes(n: Node, m: Node)
    requires n.BranchNode? && m.BranchNode?
    ensures Size(m) - Size(n) == Even(|m.key|) - Even(|n.key|)
  {
  }

  // The page number is all a branch node's header says besides the key's size.
  lemma SharedHeader(s: seq<byte>, p: nat, n: Node, m: Node)
    requires n.BranchNode? && m.BranchNode? && n.pgno == m.pgno && Stored(s, p, n)
    ensures forall k :: 0 <= k < 6 ==> s[p + k] == Header(m)[k]
  {
    forall k | 0 <= k < 6
      ensures s[p + k] == Header(m)[k]
    {
      assert s[p + k] == Encode(n)[k];
    }
  }
}
