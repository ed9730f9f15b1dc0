// Runs of the protocol that show what can happen. The pages are those of a database with a page
// size of 4096: page 2 is the first root page, and the free-page database has its own.

module MvccRuns {
  import opened Pages
  import opened Mvcc

  const MAXFREE_1PG := 509  // me_maxfree_1pg: IDs of a record that fills an overflow page

  datatype Trace = Trace(states: seq<State>, acts: seq<Action>)

  // A run that ends in state s.
  ghost predicate Reaches(tr: Trace, s: State) {
    Run(tr.states, tr.acts) && tr.states[|tr.acts|] == s && Inv(s)
  }

  lemma Do(tr: Trace, s: State, a: Action) returns (tr': Trace)
    requires Reaches(tr, s) && Enabled(s, a)
    ensures Reaches(tr', Apply(s, a))
  {
    hide Inv, Enabled, Apply, Init;
    var states, acts := tr.states, tr.acts;
    var t, b := states + [Apply(s, a)], acts + [a];
    forall i | 0 <= i < |b|
      ensures Enabled(t[i], b[i]) && t[i + 1] == Apply(t[i], b[i])
    {
      assert i < |acts| ==> t[i] == states[i] && t[i + 1] == states[i + 1] && b[i] == acts[i];
    }
    RunKeepsInvariant(t, b, |b|);
    tr' := Trace(t, b);
  }

  lemma ReachedInvariant(tr: Trace, s: State)
    requires Reaches(tr, s)
    ensures MetasOk(s) && |s.metas| == 2 && s.lastTxn in s.snaps
    ensures s.writer.Writing? ==> s.writer.w.id == s.lastTxn + 1 && forall k :: k in s.writer.w.records ==> 0 < k
  {
    hide OldRecords, FreedLater, Intact, OutOfReach, Apart, Complete, AllProtected;
  }

  lemma BeginAt(tr: Trace, s: State) returns (tr': Trace, t: State)
    requires Reaches(tr, s) && s.writer.NoWriter? && 0 < |s.pgoldest|
    ensures Reaches(tr', t) && WriterIs(t, Working) && t == s.(writer := t.writer)
    ensures s.lastTxn in s.snaps && t.writer.w == WriterAt(s.lastTxn + 1, s.snaps[s.lastTxn])
    ensures t.writer.mem == map[] && t.writer.scan.NoScan? && t.writer.env == 0
  {
    ReachedInvariant(tr, s);
    hide Reaches, Inv;
    MetaForReader(s, s.lastTxn);
    tr' := Do(tr, s, Begin(0));
    t := Apply(s, Begin(0));
  }

  // The writer's own steps.
  lemma AllocAt(tr: Trace, s: State, src: Source, p: Pgno, num: nat) returns (tr': Trace, t: State)
    requires Reaches(tr, s) && WriterIs(s, Working) && CanTake(s.writer.w, src, p, num)
    ensures Reaches(tr', t) && WriterIs(t, Working) && t == SetWriter(s, NewPages(s.writer.w, src, p, num), t.writer.mem)
  {
    ReachedInvariant(tr, s);
    hide Reaches, MetasOk, CanTake, NewPages;
    tr' := Do(tr, s, Allocate(src, p, num, []));
    t := Apply(s, Allocate(src, p, num, []));
  }

  lemma TouchAt(tr: Trace, s: State, from: Pgno, src: Source, p: Pgno) returns (tr': Trace, t: State)
    requires Reaches(tr, s) && WriterIs(s, Working) && CanTake(s.writer.w, src, p, 1)
    requires from in s.writer.w.tree && from !in s.writer.w.own
    ensures Reaches(tr', t) && WriterIs(t, Working) && t == SetWriter(s, Touch(s.writer.w, from, src, p), t.writer.mem)
  {
    ReachedInvariant(tr, s);
    hide Reaches, MetasOk, CanTake, Touch;
    tr' := Do(tr, s, TouchPage(from, src, p));
    t := Apply(s, TouchPage(from, src, p));
  }

  lemma FreeAt(tr: Trace, s: State, gone: set<Pgno>) returns (tr': Trace, t: State)
    requires Reaches(tr, s) && WriterIs(s, Working) && gone <= s.writer.w.tree
    ensures Reaches(tr', t) && t == SetWriter(s, Free(s.writer.w, gone), s.writer.mem)
  {
    ReachedInvariant(tr, s);
    hide Reaches, MetasOk;
    tr' := Do(tr, s, FreePages(gone));
    t := Apply(s, FreePages(gone));
  }

  lemma ScanAt(tr: Trace, s: State) returns (tr': Trace, t: State)
    requires Reaches(tr, s) && WriterIs(s, Working) && s.writer.scan.NoScan? && s.writer.env == 0
    requires s.readers == [] && |s.pgoldest| == 1 && 0 < s.writer.w.id
    ensures Reaches(tr', t) && t == s.(pgoldest := [s.writer.w.id - 1])
  {
    ReachedInvariant(tr, s);
    hide Reaches, MetasOk;
    tr' := Do(tr, s, StartScan);
    t := Apply(s, StartScan);
    tr' := Do(tr', t, EndScan);
    t := Apply(t, EndScan);
  }

  lemma ReadAt(tr: Trace, s: State, k: Txnid) returns (tr': Trace, t: State)
    requires Reaches(tr, s) && WriterIs(s, Working) && s.writer.env == 0 && |s.pgoldest| == 1
    requires CanRead(s.writer.w, k) && k < s.pgoldest[0]
    ensures Reaches(tr', t) && WriterIs(t, Working) && t == s.(writer := t.writer)
    ensures t.writer.w == Read(s.writer.w, k)
  {
    ReachedInvariant(tr, s);
    hide Reaches, MetasOk, CanRead, Read;
    tr' := Do(tr, s, ReadRecord(k));
    t := Apply(s, ReadRecord(k));
  }

  // The steps of a commit: saving what there is to save, with the leftover pages spread as given,
  // syncing, the meta page and the new ID.
  lemma SaveAt(tr: Trace, s: State, left: map<Txnid, set<Pgno>>) returns (tr': Trace, t: State)
    requires Reaches(tr, s) && WriterIs(s, Working) && CanSave(s.writer.w, left)
    ensures Reaches(tr', t) && WriterIs(t, Saved) && t == s.(writer := t.writer)
    ensures t.writer.w == Save(s.writer.w, left) && t.writer.mem == s.writer.mem
  {
    ReachedInvariant(tr, s);
    hide Reaches, MetasOk, CanSave, Save;
    tr' := Do(tr, s, SaveFreeList(left));
    t := Apply(s, SaveFreeList(left));
  }

  lemma FlushOne(tr: Trace, s: State, p: Pgno) returns (tr': Trace, t: State)
    requires Reaches(tr, s) && WriterIs(s, Saved) && s.writer.w.loose == {} && p in s.writer.mem
    ensures Reaches(tr', t) && t == SetWriter(s, s.writer.w, s.writer.mem - {p}).(cache := t.cache)
  {
    ReachedInvariant(tr, s);
    hide Reaches, MetasOk;
    tr' := Do(tr, s, Flush(p));
    t := Apply(s, Flush(p));
  }

  // mdb_page_flush: every dirty page.
  lemma {:induction false} FlushAll(tr: Trace, s: State) returns (tr': Trace, t: State)
    requires Reaches(tr, s) && WriterIs(s, Saved) && s.writer.w.loose == {}
    ensures Reaches(tr', t) && t == SetWriter(s, s.writer.w, map[]).(cache := t.cache)
    decreases |s.writer.mem|
  {
    hide Reaches;
    if s.writer.mem == map[] {
      return tr, s;
    }
    var p :| p in s.writer.mem;
    var u, v;
    u, v := FlushOne(tr, s, p);
    Shorter(s.writer.mem, p);
    tr', t := FlushAll(u, v);
  }

  lemma Shorter(m: map<Pgno, Content>, p: Pgno)
    requires p in m
    ensures |m - {p}| < |m|
  {
    assert (m - {p}).Keys == m.Keys - {p};
    assert |(m - {p}).Keys| == |m.Keys| - 1;
  }

  lemma SyncAt(tr: Trace, s: State) returns (tr': Trace, t: State)
    requires Reaches(tr, s) && WriterIs(s, Saved) && s.writer.mem.Keys == {}
    ensures Reaches(tr', t) && WriterIs(t, Synced) && t == s.(writer := t.writer, durable := t.durable)
    ensures t.writer.w == s.writer.w
  {
    ReachedInvariant(tr, s);
    hide Reaches, MetasOk;
    tr' := Do(tr, s, Sync);
    t := Apply(s, Sync);
  }

  lemma WriteMetaAt(tr: Trace, s: State) returns (tr': Trace, t: State)
    requires Reaches(tr, s) && WriterIs(s, Synced)
    ensures Reaches(tr', t) && WriterIs(t, MetaWritten) && t.writer.w == s.writer.w && t.lastTxn == s.lastTxn
    ensures t.pgoldest == s.pgoldest && t.readers == s.readers && t.snaps == s.snaps[s.lastTxn + 1 := Committed(s)]
  {
    ReachedInvariant(tr, s);
    hide Reaches, MetasOk, Committed;
    tr' := Do(tr, s, WriteMeta);
    t := Apply(s, WriteMeta);
  }

  lemma PublishAt(tr: Trace, s: State) returns (tr': Trace, t: State)
    requires Reaches(tr, s) && WriterIs(s, MetaWritten)
    ensures Reaches(tr', t) && t.writer.NoWriter? && t.lastTxn == s.lastTxn + 1
    ensures t.pgoldest == s.pgoldest && t.readers == s.readers && t.snaps == s.snaps
  {
    ReachedInvariant(tr, s);
    hide Reaches, MetasOk;
    tr' := Do(tr, s, Publish);
    t := Apply(s, Publish);
  }

  lemma CommitAt(tr: Trace, s: State, left: map<Txnid, set<Pgno>>) returns (tr': Trace, t: State)
    requires Reaches(tr, s) && WriterIs(s, Working) && CanSave(s.writer.w, left)
    ensures Reaches(tr', t) && t.writer.NoWriter? && t.lastTxn == s.lastTxn + 1
    ensures t.pgoldest == s.pgoldest && t.readers == s.readers
    ensures t.lastTxn in t.snaps && t.snaps == s.snaps[t.lastTxn := t.snaps[t.lastTxn]]
    ensures var sn, w := t.snaps[t.lastTxn], Save(s.writer.w, left);
            sn.pages.Keys == w.tree && sn.records == w.records && sn.next == w.next
  {
    SavedEmpty(s.writer.w, left);
    hide Reaches, Committed, CanSave, Save;
    tr', t := SaveAt(tr, s, left);
    tr', t := FlushAll(tr', t);
    tr', t := SyncAt(tr', t);
    CommittedIs(t);
    tr', t := WriteMetaAt(tr', t);
    tr', t := PublishAt(tr', t);
  }

  lemma SavedEmpty(w: Writer, left: map<Txnid, set<Pgno>>)
    requires CanSave(w, left)
    ensures Save(w, left).loose == {}
  {
  }

  // What a transaction that read no record saves.
  lemma SaveFreed(w: Writer)
    requires w.head.None? && w.loose == {} && w.last == 0 && forall k :: k in w.records ==> 0 < k
    ensures CanSave(w, map[])
    ensures var t := Save(w, map[]);
            && t.records == w.records + (if w.freed == {} then map[] else map[w.id := w.freed])
            && t.tree == w.tree && t.next == w.next
  {
    assert w.freed + w.loose == w.freed;
  }

  lemma CommittedIs(s: State)
    requires s.writer.Writing?
    ensures Committed(s).pages.Keys == s.writer.w.tree && Committed(s).records == s.writer.w.records && Committed(s).next == s.writer.w.next
  {
  }

  lemma Start() returns (tr: Trace, s: State)
    ensures Reaches(tr, s) && s.readers == [] && s.writer.NoWriter? && s.pgoldest == [0] && s.lastTxn == 0
    ensures s.snaps == map[0 := Snapshot(map[], map[], FIRST_PAGE)]
  {
    s := State([0, 0], 0, [], NoWriter, [0], map[], map[], map[0 := Snapshot(map[], map[], FIRST_PAGE)]);
    tr := Trace([s], []);
    InitHolds(s);
  }

  //// A reader on a newer version than its ID

  lemma ValidateReader() returns (tr: Trace, s: State)
    ensures Reaches(tr, s) && s.readers == [Reader(Txn(0), Live)] && s.writer.NoWriter? && s.pgoldest == [0] && s.lastTxn == 0
    ensures s.snaps == map[0 := Snapshot(map[], map[], FIRST_PAGE)]
  {
    tr, s := Start();
    ReachedInvariant(tr, s);
    hide Reaches, Inv;
    tr := Do(tr, s, NewReader);
    s := Apply(s, NewReader);
    tr := Do(tr, s, LoadId(0));
    s := Apply(s, LoadId(0));
    tr, s := StoreAndRecheck(tr, s);
  }

  lemma StoreAndRecheck(tr: Trace, s: State) returns (tr': Trace, t: State)
    requires Reaches(tr, s) && |s.metas| == 2 && s.lastTxn in s.snaps && s.readers == [Reader(NoTxn, Loaded(s.lastTxn))]
    ensures Reaches(tr', t) && t == s.(readers := [Reader(Txn(s.lastTxn), Live)])
  {
    hide Reaches, Inv;
    tr' := Do(tr, s, StoreId(0));
    t := Apply(s, StoreId(0));
    tr' := Do(tr', t, Recheck(0));
    t := Apply(t, Recheck(0));
  }

  // The first transaction makes the root page, the second touches it and makes a page for the
  // record of the page freed.
  lemma FirstRoot(tr: Trace, s: State) returns (tr': Trace, t: State)
    requires Reaches(tr, s) && s.writer.NoWriter? && 0 < |s.pgoldest| && s.lastTxn == 0
    requires s.snaps == map[0 := Snapshot(map[], map[], FIRST_PAGE)]
    ensures Reaches(tr', t) && t.writer.NoWriter? && t.lastTxn == 1 && t.pgoldest == s.pgoldest && t.readers == s.readers
    ensures 1 in t.snaps && t.snaps[1].pages.Keys == {2} && t.snaps[1].records == map[] && t.snaps[1].next == 3
  {
    hide Reaches, Save;
    tr', t := BeginAt(tr, s);
    tr', t := AllocAt(tr', t, FromMap, 2, 1);
    SaveFreed(t.writer.w);
    tr', t := CommitAt(tr', t, map[]);
  }

  lemma NextRoot(tr: Trace, s: State) returns (tr': Trace, t: State)
    requires Reaches(tr, s) && s.writer.NoWriter? && 0 < |s.pgoldest| && s.lastTxn == 1
    requires 1 in s.snaps && s.snaps[1].pages.Keys == {2} && s.snaps[1].records == map[] && s.snaps[1].next == 3
    ensures Reaches(tr', t) && t.writer.NoWriter? && t.lastTxn == 2 && t.pgoldest == s.pgoldest && t.readers == s.readers
  {
    hide Reaches, Save;
    tr', t := BeginAt(tr, s);
    tr', t := TouchAt(tr', t, 2, FromMap, 3);
    tr', t := AllocAt(tr', t, FromMap, 4, 1);
    SaveFreed(t.writer.w);
    tr', t := CommitAt(tr', t, map[]);
  }

  // A reader can validate ID 0 and then copy the roots of version 2.
  lemma NewerVersionIsPossible() returns (tr: Trace, s: State)
    ensures Run(tr.states, tr.acts) && tr.states[|tr.acts|] == s
    ensures s.readers == [Reader(Txn(0), Reading(2))]
  {
    hide Reaches, Inv;
    tr, s := ValidateReader();
    tr, s := FirstRoot(tr, s);
    tr, s := NextRoot(tr, s);
    ReachedInvariant(tr, s);
    MetaForReader(s, 0);
    tr := Do(tr, s, ReadMeta(0));
    s := Apply(s, ReadMeta(0));
    EndsIn(tr, s);
  }

  lemma EndsIn(tr: Trace, s: State)
    requires Reaches(tr, s)
    ensures Run(tr.states, tr.acts) && tr.states[|tr.acts|] == s
  {
  }

  //// Leftover pages under smaller keys

  // The keys that mdb_freelist_save gives leftover pages: it starts at me_pglast, and goes on to the
  // next smaller key when a record has at least me_maxfree_1pg IDs.
  ghost predicate StepsDown(left: map<Txnid, set<Pgno>>, last: Txnid) {
    forall k, j :: k in left && k < j <= last ==> j in left && |left[j]| >= MAXFREE_1PG
  }

  lemma JoinRanges(p: Pgno, n: nat, m: nat)
    ensures Range(p, n) + Range(p + n, m) == Range(p, n + m)
  {
  }

  // The root page and a value of 600 overflow pages.
  lemma MakeValue(tr: Trace, s: State) returns (tr': Trace, t: State)
    requires Reaches(tr, s) && s.writer.NoWriter? && |s.pgoldest| == 1 && s.lastTxn == 0 && s.readers == []
    requires s.snaps == map[0 := Snapshot(map[], map[], FIRST_PAGE)]
    ensures Reaches(tr', t) && t.writer.NoWriter? && t.lastTxn == 1 && |t.pgoldest| == 1 && t.readers == []
    ensures 1 in t.snaps && t.snaps[1].pages.Keys == Range(2, 601) && t.snaps[1].records == map[] && t.snaps[1].next == 603
  {
    hide Reaches, Save;
    tr', t := BeginAt(tr, s);
    tr', t := AllocAt(tr', t, FromMap, 2, 1);
    tr', t := AllocAt(tr', t, FromMap, 3, 600);
    JoinRanges(2, 1, 600);
    SaveFreed(t.writer.w);
    tr', t := CommitAt(tr', t, map[]);
  }

  // The value is deleted. The record of the 601 pages freed needs a root page of the free-page
  // database and two overflow pages.
  lemma DeleteValue(tr: Trace, s: State) returns (tr': Trace, t: State)
    requires Reaches(tr, s) && s.writer.NoWriter? && |s.pgoldest| == 1 && s.lastTxn == 1 && s.readers == []
    requires 1 in s.snaps && s.snaps[1].pages.Keys == Range(2, 601) && s.snaps[1].records == map[] && s.snaps[1].next == 603
    ensures Reaches(tr', t) && t.writer.NoWriter? && t.lastTxn == 2 && |t.pgoldest| == 1 && t.readers == []
    ensures 2 in t.snaps && t.snaps == s.snaps[2 := t.snaps[2]]
    ensures t.snaps[2].pages.Keys == Range(603, 4) && t.snaps[2].records == map[2 := Range(2, 601)] && t.snaps[2].next == 607
  {
    hide Reaches, Save;
    tr', t := BeginAt(tr, s);
    tr', t := ScanAt(tr', t);
    tr', t := TouchAt(tr', t, 2, FromMap, 603);
    tr', t := FreeAt(tr', t, Range(3, 600));
    tr', t := AllocAt(tr', t, FromMap, 604, 1);
    tr', t := AllocAt(tr', t, FromMap, 605, 2);
    var w := t.writer.w;
    assert w.tree == Range(603, 4);
    assert w.freed == Range(2, 601) && 2 in w.freed;
    SaveFreed(w);
    tr', t := CommitAt(tr', t, map[]);
  }

  // Some other change: both root pages are touched.
  lemma ChangeRoots(tr: Trace, s: State) returns (tr': Trace, t: State)
    requires Reaches(tr, s) && s.writer.NoWriter? && |s.pgoldest| == 1 && s.lastTxn == 2 && s.readers == []
    requires 2 in s.snaps && s.snaps[2].pages.Keys == Range(603, 4) && s.snaps[2].records == map[2 := Range(2, 601)] && s.snaps[2].next == 607
    ensures Reaches(tr', t) && t.writer.NoWriter? && t.lastTxn == 3 && |t.pgoldest| == 1 && t.readers == []
    ensures 3 in t.snaps && t.snaps == s.snaps[3 := t.snaps[3]]
    ensures t.snaps[3].pages.Keys == Range(605, 4) && t.snaps[3].next == 609
    ensures t.snaps[3].records == map[2 := Range(2, 601), 3 := {603, 604}]
  {
    hide Reaches, Save;
    tr', t := BeginAt(tr, s);
    tr', t := ScanAt(tr', t);
    tr', t := TouchAt(tr', t, 603, FromMap, 607);
    tr', t := TouchAt(tr', t, 604, FromMap, 608);
    var w := t.writer.w;
    assert w.tree == Range(605, 4);
    assert w.freed == {603, 604};
    SaveFreed(w);
    tr', t := CommitAt(tr', t, map[]);
  }

  // No reader keeps the pages of record 2 from being used any more: they are taken over.
  lemma ReadOldRecord(tr: Trace, s: State) returns (tr': Trace, t: State)
    requires Reaches(tr, s) && s.writer.NoWriter? && |s.pgoldest| == 1 && s.lastTxn == 3 && s.readers == []
    requires 3 in s.snaps && s.snaps[3].pages.Keys == Range(605, 4) && s.snaps[3].records == map[2 := Range(2, 601), 3 := {603, 604}]
    ensures Reaches(tr', t) && WriterIs(t, Working) && t.snaps == s.snaps
    ensures var w := t.writer.w;
            && w.id == 4 && w.last == 2 && w.records == s.snaps[3].records && w.head == Some(Range(2, 601))
            && w.tree == Range(605, 4) && w.own == {} && w.freed == {} && w.loose == {}
  {
    hide Reaches;
    tr', t := BeginAt(tr, s);
    tr', t := ScanAt(tr', t);
    var records := t.writer.w.records;
    assert 2 in records && records[2] == Range(2, 601);
    assert CanRead(t.writer.w, 2);
    tr', t := ReadAt(tr', t, 2);
    assert t.writer.w.head == Some(Range(2, 601));
  }

  // Two of them replace the root pages, one is for the new record at 2, and 598 are left. The old
  // record's overflow pages are freed.
  lemma TakeOver(tr: Trace, s: State) returns (tr': Trace, t: State)
    requires Reaches(tr, s) && WriterIs(s, Working)
    requires var w := s.writer.w;
             && w.head == Some(Range(2, 601)) && w.tree == Range(605, 4) && w.own == {} && w.freed == {} && w.loose == {}
    ensures Reaches(tr', t) && WriterIs(t, Working) && t.snaps == s.snaps
    ensures var v, w := s.writer.w, t.writer.w;
            && w.id == v.id && w.last == v.last && w.records == v.records && w.loose == {}
            && w.head == Some(Range(5, 598)) && w.freed == Range(605, 4)
  {
    hide Reaches;
    tr', t := TouchAt(tr, s, 607, FromHead, 2);
    tr', t := TouchAt(tr', t, 608, FromHead, 3);
    tr', t := FreeAt(tr', t, Range(605, 2));
    tr', t := AllocAt(tr', t, FromHead, 4, 1);
    assert t.writer.w.head.pages == Range(5, 598);
    assert t.writer.w.freed == Range(605, 4);
  }

  // Version 1 has pages 2 to 602. In the end some of them are under key 1.
  lemma LeftoverUnderOldKey() returns (tr: Trace, s: State)
    ensures Run(tr.states, tr.acts) && tr.states[|tr.acts|] == s && WriterIs(s, Saved)
    ensures 1 in s.snaps && s.snaps[1].pages.Keys == Range(2, 601)
    ensures s.writer.w.records == Leftover() + map[3 := {603, 604}, 4 := Range(605, 4)]
    ensures StepsDown(Leftover(), 2) && !FreedLater(s.writer.w.records, s.snaps[1], 1)
  {
    hide Reaches, Save, CanSave;
    tr, s := Start();
    tr, s := MakeValue(tr, s);
    tr, s := DeleteValue(tr, s);
    tr, s := ChangeRoots(tr, s);
    tr, s := ReadOldRecord(tr, s);
    tr, s := TakeOver(tr, s);
    SaveLeftover(s.writer.w);
    tr, s := SaveAt(tr, s, Leftover());
    EndsIn(tr, s);
    RangeSize(94, 509);
    assert 5 in s.writer.w.records[1] && 5 in s.snaps[1].pages;
  }

  // A full record at 2, and the rest at 1.
  ghost function Leftover(): map<Txnid, set<Pgno>> {
    map[1 := Range(5, 89), 2 := Range(94, 509)]
  }

  lemma SaveLeftover(w: Writer)
    requires w.records == map[2 := Range(2, 601), 3 := {603, 604}] && w.last == 2 && w.id == 4
    requires w.head == Some(Range(5, 598)) && w.freed == Range(605, 4) && w.loose == {}
    ensures CanSave(w, Leftover())
    ensures Save(w, Leftover()).records == Leftover() + map[3 := {603, 604}, 4 := Range(605, 4)]
  {
    LeftoverIsAll();
    hide Leftover, InSome;
    assert CanSave(w, Leftover());
    assert 605 in w.freed;
    assert FreedRecord(w) == map[4 := Range(605, 4)];
  }

  lemma LeftoverIsAll()
    ensures forall p: Pgno :: InSome(Leftover(), p) <==> p in Range(5, 598)
    ensures Leftover().Keys == {1, 2} && Leftover()[1] !! Leftover()[2]
  {
    forall p: Pgno
      ensures InSome(Leftover(), p) <==> p in Range(5, 598)
    {
      assert 1 in Leftover() && 2 in Leftover();
    }
  }
}
