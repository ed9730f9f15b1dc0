// Where every page of the file is, from the point of view of a top-level write transaction.

module Pages {
  type Pgno = nat
  type Txnid = nat

  const FIRST_PAGE := 2  // pages 0 and 1 are the meta pages

  // tree: pages of the working trees; own: pages this transaction allocated, the only ones it
  // may write; head: me_pghead, None until a record was read; last: me_pglast; freed:
  // mt_free_pgs; loose: mt_loose_pgs; records: the free-page database.
  datatype Writer = Writer(
    id: Txnid,
    next: Pgno,
    tree: set<Pgno>,
    own: set<Pgno>,
    head: Head,
    last: Txnid,
    freed: set<Pgno>,
    loose: set<Pgno>,
    records: map<Txnid, set<Pgno>>)

  datatype Head = None | Some(pages: set<Pgno>)

  function Reclaimed(w: Writer): set<Pgno> {
    if w.head.Some? then w.head.pages else {}
  }

  // The pages p .. p + num - 1.
  function Range(p: Pgno, num: nat): (r: set<Pgno>)
    ensures forall q: Pgno :: q in r <==> p <= q < p + num
  {
    var run := seq(num, i requires 0 <= i < num => p + i);
    assert forall q: Pgno :: p <= q < p + num ==> q in run by {
      forall q: Pgno | p <= q < p + num
        ensures q in run
      {
        assert run[q - p] == q;
      }
    }
    set q | q in run
  }

  // A record whose pages have not been moved to me_pghead.
  ghost predicate Unread(w: Writer, k: Txnid) {
    k in w.records && w.last < k
  }

  ghost predicate InRecord(w: Writer, p: Pgno) {
    exists k :: Unread(w, k) && p in w.records[k]
  }

  // Nothing is in two places.
  ghost predicate Apart(w: Writer) {
    && (forall p :: p in w.tree ==> p !in Reclaimed(w) && p !in w.freed && p !in w.loose && !InRecord(w, p))
    && (forall p :: p in Reclaimed(w) ==> p !in w.freed && p !in w.loose && !InRecord(w, p))
    && (forall p :: p in w.freed ==> p !in w.loose && !InRecord(w, p))
    && (forall p :: p in w.loose ==> !InRecord(w, p))
    && InOneRecord(w)
  }

  ghost predicate InOneRecord(w: Writer) {
    forall k, m, p :: Unread(w, k) && Unread(w, m) && p in w.records[k] && p in w.records[m] ==> k == m
  }

  ghost predicate Somewhere(w: Writer, p: Pgno) {
    p in w.tree || p in Reclaimed(w) || p in w.freed || p in w.loose || InRecord(w, p)
  }

  // Pages 2 .. mt_next_pgno - 1 are exactly the pages that are somewhere.
  ghost predicate Complete(w: Writer) {
    forall p: Pgno :: FIRST_PAGE <= p < w.next <==> Somewhere(w, p)
  }

  ghost predicate Partition(w: Writer) {
    && FIRST_PAGE <= w.next
    && Apart(w)
    && Complete(w)
    && (w.head.None? ==> w.last == 0)
    && w.loose <= w.own
    && (forall k :: k in w.records ==> 0 < k)
  }

  // Before the free list is saved, all records are from earlier transactions.
  ghost predicate OldRecords(w: Writer) {
    w.last < w.id && forall k :: k in w.records ==> k < w.id
  }

  // --- where an allocation takes its pages from ---

  datatype Source = FromLoose | FromHead | FromMap

  // mdb_page_alloc: a loose page for a single-page request, a run out of me_pghead, or new
  // pages at the end of the file.
  ghost predicate CanTake(w: Writer, src: Source, p: Pgno, num: nat) {
    0 < num && match src
    case FromLoose => num == 1 && p in w.loose
    case FromHead => (num == 1 ==> w.loose == {}) && w.head.Some? && Range(p, num) <= w.head.pages
    case FromMap => (num == 1 ==> w.loose == {}) && p == w.next
  }

  ghost function Take(w: Writer, src: Source, p: Pgno, num: nat): Writer
    requires CanTake(w, src, p, num)
  {
    match src
    case FromLoose => w.(loose := w.loose - {p})
    case FromHead => w.(head := Some(w.head.pages - Range(p, num)), own := w.own + Range(p, num))
    case FromMap => w.(next := w.next + num, own := w.own + Range(p, num))
  }

  // mdb_page_new: the pages join the tree.
  ghost function NewPages(w: Writer, src: Source, p: Pgno, num: nat): Writer
    requires CanTake(w, src, p, num)
  {
    var t := Take(w, src, p, num);
    t.(tree := t.tree + Range(p, num))
  }

  // mdb_page_touch of a page from an earlier transaction: a copy replaces it in the tree.
  ghost function Touch(w: Writer, old_: Pgno, src: Source, p: Pgno): Writer
    requires CanTake(w, src, p, 1)
  {
    var t := Take(w, src, p, 1);
    t.(tree := t.tree - {old_} + {p}, freed := t.freed + {old_})
  }

  // mdb_page_loose of a page this transaction wrote.
  ghost function Loosen(w: Writer, p: Pgno): Writer {
    w.(tree := w.tree - {p}, loose := w.loose + {p})
  }

  // Pages leave the tree for mt_free_pgs.
  ghost function Free(w: Writer, pages: set<Pgno>): Writer {
    w.(tree := w.tree - pages, freed := w.freed + pages)
  }

  // Loose pages leave for mt_free_pgs, if there is no me_pghead to return them to.
  ghost function FreeLoose(w: Writer): Writer {
    w.(freed := w.freed + w.loose, loose := {})
  }

  // mdb_ovpage_free of an overflow run written by this transaction, when me_pghead exists.
  ghost function GiveBack(w: Writer, pages: set<Pgno>): Writer
    requires w.head.Some?
  {
    w.(tree := w.tree - pages, head := Some(w.head.pages + pages))
  }

  // Reading the next free-page record into me_pghead.
  ghost predicate CanRead(w: Writer, k: Txnid) {
    Unread(w, k) && forall m :: Unread(w, m) ==> k <= m
  }

  ghost function Read(w: Writer, k: Txnid): Writer
    requires CanRead(w, k)
  {
    w.(head := Some(Reclaimed(w) + w.records[k]), last := k)
  }

  ghost predicate InSome(m: map<Txnid, set<Pgno>>, q: Pgno) {
    exists k :: k in m && q in m[k]
  }

  // mdb_freelist_save with its records settled: consumed records are gone, the pages freed
  // now are under this transaction's ID, and what is left of me_pghead (with the loose pages)
  // is spread over records with keys 1 .. me_pglast. Without me_pghead loose pages are freed.
  ghost predicate CanSave(w: Writer, left: map<Txnid, set<Pgno>>) {
    && (w.head.None? ==> left == map[])
    && (forall k :: k in left ==> 0 < k <= w.last)
    && (forall k, m :: k in left && m in left && k != m ==> left[k] !! left[m])
    && (w.head.Some? ==> forall p: Pgno :: InSome(left, p) <==> p in w.head.pages || p in w.loose)
  }

  ghost function FreedAtSave(w: Writer): set<Pgno> {
    if w.head.None? then w.freed + w.loose else w.freed
  }

  // The record of this transaction; none if it freed nothing.
  ghost function FreedRecord(w: Writer): map<Txnid, set<Pgno>> {
    if FreedAtSave(w) == {} then map[] else map[w.id := FreedAtSave(w)]
  }

  ghost function Save(w: Writer, left: map<Txnid, set<Pgno>>): Writer
    requires CanSave(w, left)
  {
    var unread := map k | k in w.records && w.last < k :: w.records[k];
    w.(records := unread + left + FreedRecord(w), head := None, last := 0, freed := {}, loose := {})
  }

  // --- every step keeps the partition ---

  lemma TakenPagesUnused(w: Writer, src: Source, p: Pgno, num: nat)
    requires Partition(w) && CanTake(w, src, p, num)
    ensures forall q :: q in Range(p, num) ==> !InRecord(w, q) && q !in w.tree && q !in w.freed
    ensures forall q :: q in Range(p, num) && src != FromLoose ==> q !in w.loose
    ensures forall q :: q in Range(p, num) && src != FromHead ==> q !in Reclaimed(w)
  {
    forall q | q in Range(p, num)
      ensures !InRecord(w, q) && q !in w.tree && q !in w.freed
      ensures src != FromLoose ==> q !in w.loose
      ensures src != FromHead ==> q !in Reclaimed(w)
    {
      assert src == FromMap ==> !Somewhere(w, q);
    }
  }

  lemma SameRecords(w: Writer, t: Writer)
    requires w.records == t.records && w.last == t.last && InOneRecord(w)
    ensures InOneRecord(t)
    ensures forall q :: InRecord(t, q) <==> InRecord(w, q)
  {
    assert forall k :: Unread(t, k) <==> Unread(w, k);
    forall q
      ensures InRecord(t, q) <==> InRecord(w, q)
    {
      if InRecord(w, q) {
        var k :| Unread(w, k) && q in w.records[k];
        assert Unread(t, k);
      }
    }
  }

  lemma NewPagesKeepsPartition(w: Writer, src: Source, p: Pgno, num: nat)
    requires Partition(w) && CanTake(w, src, p, num)
    ensures Partition(NewPages(w, src, p, num))
  {
    hide InRecord, InOneRecord;
    var t := NewPages(w, src, p, num);
    SameRecords(w, t);
    TakenPagesUnused(w, src, p, num);
    forall q: Pgno
      ensures FIRST_PAGE <= q < t.next <==> Somewhere(t, q)
    {
      assert FIRST_PAGE <= q < w.next <==> Somewhere(w, q);
    }
  }

  lemma TouchKeepsPartition(w: Writer, old_: Pgno, src: Source, p: Pgno)
    requires Partition(w) && CanTake(w, src, p, 1) && old_ in w.tree
    ensures Partition(Touch(w, old_, src, p))
  {
    hide InRecord, InOneRecord;
    var t := Touch(w, old_, src, p);
    SameRecords(w, t);
    TakenPagesUnused(w, src, p, 1);
    forall q: Pgno
      ensures FIRST_PAGE <= q < t.next <==> Somewhere(t, q)
    {
      assert FIRST_PAGE <= q < w.next <==> Somewhere(w, q);
    }
  }

  // Moving pages out of the tree to somewhere else.
  lemma LeavingTreeKeepsPartition(w: Writer, t: Writer, pages: set<Pgno>)
    requires Partition(w) && pages <= w.tree
    requires t == Free(w, pages) || (pages <= w.own && t == w.(tree := w.tree - pages, loose := w.loose + pages)) || (w.head.Some? && t == GiveBack(w, pages))
    ensures Partition(t)
  {
    hide InRecord, InOneRecord;
    SameRecords(w, t);
    forall q: Pgno
      ensures FIRST_PAGE <= q < t.next <==> Somewhere(t, q)
    {
      assert FIRST_PAGE <= q < w.next <==> Somewhere(w, q);
    }
  }

  lemma FreeLooseKeepsPartition(w: Writer)
    requires Partition(w)
    ensures Partition(FreeLoose(w))
  {
    hide InRecord, InOneRecord;
    var t := FreeLoose(w);
    SameRecords(w, t);
    forall q: Pgno
      ensures FIRST_PAGE <= q < t.next <==> Somewhere(t, q)
    {
      assert FIRST_PAGE <= q < w.next <==> Somewhere(w, q);
    }
  }

  lemma ReadKeepsPartition(w: Writer, k: Txnid)
    requires Partition(w) && CanRead(w, k)
    ensures Partition(Read(w, k))
  {
    var t := Read(w, k);
    assert forall m :: Unread(t, m) <==> Unread(w, m) && m != k;
    forall q
      ensures InRecord(w, q) <==> InRecord(t, q) || q in w.records[k]
      ensures InRecord(t, q) ==> q !in w.records[k]
    {
      if InRecord(w, q) && q !in w.records[k] {
        var m :| Unread(w, m) && q in w.records[m];
        assert Unread(t, m);
      }
    }
    forall q: Pgno
      ensures FIRST_PAGE <= q < t.next <==> Somewhere(t, q)
    {
      assert FIRST_PAGE <= q < w.next <==> Somewhere(w, q);
    }
  }

  lemma SavedRecords(w: Writer, left: map<Txnid, set<Pgno>>, q: Pgno)
    requires Partition(w) && OldRecords(w) && CanSave(w, left)
    ensures InRecord(Save(w, left), q) <==> InSome(Save(w, left).records, q)
    ensures InSome(Save(w, left).records, q) <==> InRecord(w, q) || q in FreedAtSave(w) || InSome(left, q)
  {
    var t := Save(w, left);
    if InRecord(w, q) {
      var k :| Unread(w, k) && q in w.records[k];
      assert k in t.records && t.records[k] == w.records[k];
    }
    if q in FreedAtSave(w) {
      assert t.records[w.id] == FreedAtSave(w);
    }
    if InSome(left, q) {
      var k :| k in left && q in left[k];
      assert t.records[k] == left[k];
    }
    if InSome(t.records, q) {
      var k :| k in t.records && q in t.records[k];
      assert Unread(t, k);
      if k != w.id && k !in left {
        assert Unread(w, k);
      }
    }
  }

  // At commit only trees and records are left, each page in exactly one of them.
  lemma SaveKeepsPartition(w: Writer, left: map<Txnid, set<Pgno>>)
    requires Partition(w) && OldRecords(w) && CanSave(w, left)
    ensures Partition(Save(w, left))
  {
    hide InRecord;
    var t := Save(w, left);
    forall q: Pgno
      ensures FIRST_PAGE <= q < t.next <==> Somewhere(t, q)
      ensures q in t.tree ==> !InRecord(t, q)
    {
      SavedRecords(w, left, q);
      assert FIRST_PAGE <= q < w.next <==> Somewhere(w, q);
      assert w.head.None? ==> !InSome(left, q);
    }
    SavedInOneRecord(w, left);
  }

  lemma SavedInOneRecord(w: Writer, left: map<Txnid, set<Pgno>>)
    requires Partition(w) && OldRecords(w) && CanSave(w, left)
    ensures InOneRecord(Save(w, left))
  {
    var t := Save(w, left);
    forall k, m, q | Unread(t, k) && Unread(t, m) && q in t.records[k] && q in t.records[m]
      ensures k == m
    {
      SavedRecordsApart(w, left, k, m, q);
    }
  }

  lemma SavedRecordsApart(w: Writer, left: map<Txnid, set<Pgno>>, k: Txnid, m: Txnid, q: Pgno)
    requires Partition(w) && OldRecords(w) && CanSave(w, left)
    requires k in Save(w, left).records && m in Save(w, left).records
    requires q in Save(w, left).records[k] && q in Save(w, left).records[m]
    ensures k == m
  {
    if k in w.records && w.last < k && k !in left && k != w.id {
      assert InRecord(w, q) by { assert Unread(w, k); }
    }
    if m in w.records && w.last < m && m !in left && m != w.id {
      assert InRecord(w, q) by { assert Unread(w, m); }
    }
    if k in left {
      assert InSome(left, q);
    }
    if m in left {
      assert InSome(left, q);
    }
  }

  // --- the mdb_audit equation ---

  ghost function Pick(m: map<Txnid, set<Pgno>>): (k: Txnid)
    requires m != map[]
    ensures k in m
  {
    var k :| k in m;
    k
  }

  // Sum of the record lengths.
  ghost function FreeCount(m: map<Txnid, set<Pgno>>): nat {
    if m == map[] then 0 else var k := Pick(m); |m[k]| + FreeCount(m - {k})
  }

  ghost function Union(m: map<Txnid, set<Pgno>>): set<Pgno> {
    if m == map[] then {} else var k := Pick(m); m[k] + Union(m - {k})
  }

  lemma {:induction false} UnionMembers(m: map<Txnid, set<Pgno>>, q: Pgno)
    ensures q in Union(m) <==> InSome(m, q)
  {
    if m != map[] {
      var k := Pick(m);
      UnionMembers(m - {k}, q);
      if InSome(m, q) && q !in m[k] {
        var j :| j in m && q in m[j];
        assert j in m - {k} && (m - {k})[j] == m[j];
      }
    }
  }

  lemma {:induction false} FreeCountIsUnion(m: map<Txnid, set<Pgno>>)
    requires forall j, k, q :: j in m && k in m && q in m[j] && q in m[k] ==> j == k
    ensures FreeCount(m) == |Union(m)|
  {
    if m != map[] {
      var k := Pick(m);
      FreeCountIsUnion(m - {k});
      forall q | q in m[k]
        ensures q !in Union(m - {k})
      {
        UnionMembers(m - {k}, q);
      }
      assert m[k] !! Union(m - {k});
    }
  }

  lemma {:induction false} RangeSize(p: Pgno, num: nat)
    ensures |Range(p, num)| == num
  {
    if num == 0 {
      assert Range(p, num) == {};
    } else {
      RangeSize(p, num - 1);
      assert Range(p, num) == Range(p, num - 1) + {p + num - 1};
    }
  }

  lemma SavedPagesAreAll(w: Writer, left: map<Txnid, set<Pgno>>)
    requires Partition(w) && OldRecords(w) && CanSave(w, left)
    ensures var t := Save(w, left);
      && Range(FIRST_PAGE, t.next - FIRST_PAGE) == t.tree + Union(t.records)
      && t.tree !! Union(t.records)
  {
    var t := Save(w, left);
    SaveKeepsPartition(w, left);
    hide InRecord, Apart, CanSave;
    forall q: Pgno
      ensures q in Range(FIRST_PAGE, t.next - FIRST_PAGE) <==> q in t.tree + Union(t.records)
      ensures !(q in t.tree && q in Union(t.records))
    {
      UnionMembers(t.records, q);
      SavedRecords(w, left, q);
      SavedSomewhere(t, q);
    }
  }

  lemma SavedSomewhere(t: Writer, q: Pgno)
    requires Partition(t) && t.head.None? && t.freed == {} && t.loose == {}
    ensures FIRST_PAGE <= q < t.next <==> q in t.tree || InRecord(t, q)
    ensures !(q in t.tree && InRecord(t, q))
  {
    assert FIRST_PAGE <= q < t.next <==> Somewhere(t, q);
  }

  // mdb_audit: free pages plus tree pages plus the two meta pages is every page there is.
  lemma AuditBalances(w: Writer, left: map<Txnid, set<Pgno>>)
    requires Partition(w) && OldRecords(w) && CanSave(w, left)
    ensures var t := Save(w, left); FreeCount(t.records) + |t.tree| + 2 == t.next
  {
    hide Partition, CanSave, FreeCount, Union, OldRecords, Range;
    var t := Save(w, left);
    FreeCountAtSave(w, left);
    SavedPagesAreAll(w, left);
    DisjointSize(t.tree, Union(t.records));
    RangeSize(FIRST_PAGE, t.next - FIRST_PAGE);
  }

  lemma DisjointSize(a: set<Pgno>, b: set<Pgno>)
    requires a !! b
    ensures |a + b| == |a| + |b|
  {
  }

  lemma FreeCountAtSave(w: Writer, left: map<Txnid, set<Pgno>>)
    requires Partition(w) && OldRecords(w) && CanSave(w, left)
    ensures var t := Save(w, left); FIRST_PAGE <= t.next && FreeCount(t.records) == |Union(t.records)|
  {
    var t := Save(w, left);
    SaveKeepsPartition(w, left);
    assert forall k :: k in t.records ==> Unread(t, k);
    FreeCountIsUnion(t.records);
  }
}
