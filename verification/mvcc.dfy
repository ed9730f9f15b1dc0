// One writer, any number of lock-free readers, and crashes: the steps that run concurrently,
// and the invariant they keep.

module Mvcc {
  import opened Pages

  // What a page holds.
  type Content = seq<nat>

  // A committed version: its tree pages, its free-page records and mm_last_pg + 1.
  datatype Snapshot = Snapshot(pages: map<Pgno, Content>, records: map<Txnid, set<Pgno>>, next: Pgno)

  // A reader-table slot (mr_txnid) and where its owner is in mdb_txn_renew0: Loaded holds the
  // ID it read but has not yet stored; Stored still has to recheck; Live has passed the
  // recheck; Reading has copied the roots of version snap out of a meta page.
  datatype Slot = NoTxn | Txn(id: Txnid)
  datatype Phase = Idle | Loaded(reg: Txnid) | Stored | Live | Reading(snap: Txnid)
  datatype Reader = Reader(slot: Slot, phase: Phase)

  // mdb_find_oldest in progress: slots below i are still to be looked at.
  datatype Scan = NoScan | Scanning(i: nat, oldest: Txnid)

  datatype Stage = Working | Saved | Synced | MetaWritten

  // mem: dirty pages held in memory; env: the process, which has its own me_pgoldest.
  datatype WriteTxn = NoWriter | Writing(w: Writer, mem: map<Pgno, Content>, env: nat, stage: Stage, scan: Scan)

  // metas[a]: the version whose roots meta page a holds; lastTxn: mti_txnid; cache: the file
  // as mapped; durable: the file as a crash would leave it; snaps: every version committed.
  datatype State = State(
    metas: seq<Txnid>,
    lastTxn: Txnid,
    readers: seq<Reader>,
    writer: WriteTxn,
    pgoldest: seq<Txnid>,
    cache: map<Pgno, Content>,
    durable: map<Pgno, Content>,
    snaps: map<Txnid, Snapshot>)

  datatype Action =
    | NewReader | LoadId(r: nat) | StoreId(r: nat) | Recheck(r: nat) | ReadMeta(r: nat) | EndRead(r: nat)
    | Begin(env: nat)
    | StartScan | ScanSlot | EndScan
    | ReadRecord(k: Txnid)
    | Allocate(src: Source, p: Pgno, num: nat, fill: Content)
    | TouchPage(from: Pgno, src: Source, p: Pgno)
    | LoosenPage(p: Pgno)
    | FreePages(pages: set<Pgno>)
    | GiveBackPages(pages: set<Pgno>)
    | FreeLoosePages
    | Modify(p: Pgno, data: Content)
    | Flush(p: Pgno)
    | Unspill(p: Pgno)
    | SaveFreeList(left: map<Txnid, set<Pgno>>)
    | Sync
    | WriteMeta
    | Publish
    | Abort
    | WriteBack(p: Pgno)
    | Crash

  // mdb_env_pick_meta.
  function Newest(s: State): Txnid
    requires |s.metas| == 2
  {
    if s.metas[0] < s.metas[1] then s.metas[1] else s.metas[0]
  }

  ghost predicate Init(s: State) {
    && s.metas == [0, 0] && s.lastTxn == 0 && s.readers == [] && s.writer == NoWriter
    && (forall e :: 0 <= e < |s.pgoldest| ==> s.pgoldest[e] == 0)
    && s.cache == map[] && s.durable == map[]
    && s.snaps == map[0 := Snapshot(map[], map[], FIRST_PAGE)]
  }

  ghost predicate WriterIs(s: State, stage: Stage) {
    s.writer.Writing? && s.writer.stage == stage
  }

  // The content the transaction sees for a page of its trees.
  function Seen(mem: map<Pgno, Content>, cache: map<Pgno, Content>, p: Pgno): Content {
    if p in mem then mem[p] else if p in cache then cache[p] else []
  }

  ghost predicate Enabled(s: State, a: Action) {
    |s.metas| == 2 && s.lastTxn in s.snaps && match a
    case NewReader => true
    case LoadId(r) => r < |s.readers| && s.readers[r].phase.Idle?
    case StoreId(r) => r < |s.readers| && s.readers[r].phase.Loaded?
    case Recheck(r) => r < |s.readers| && s.readers[r].phase.Stored?
    case ReadMeta(r) => r < |s.readers| && s.readers[r].phase.Live? && s.readers[r].slot.Txn?
    case EndRead(r) => r < |s.readers| && (s.readers[r].phase.Live? || s.readers[r].phase.Reading?)
    case Begin(env) => s.writer.NoWriter? && env < |s.pgoldest| && s.metas[s.lastTxn % 2] in s.snaps
    case StartScan => WriterIs(s, Working) && s.writer.scan.NoScan? && 0 < s.writer.w.id
    case ScanSlot => WriterIs(s, Working) && s.writer.scan.Scanning? && 0 < s.writer.scan.i <= |s.readers|
    case EndScan => WriterIs(s, Working) && s.writer.scan.Scanning? && s.writer.scan.i == 0 && s.writer.env < |s.pgoldest|
    case ReadRecord(k) => WriterIs(s, Working) && s.writer.env < |s.pgoldest| && CanRead(s.writer.w, k) && k < s.pgoldest[s.writer.env]
    case Allocate(src, p, num, _) => WriterIs(s, Working) && CanTake(s.writer.w, src, p, num)
    case TouchPage(from, src, p) => WriterIs(s, Working) && from in s.writer.w.tree && from !in s.writer.w.own && CanTake(s.writer.w, src, p, 1)
    case LoosenPage(p) => WriterIs(s, Working) && p in s.writer.w.tree && p in s.writer.mem
    case FreePages(pages) => WriterIs(s, Working) && pages <= s.writer.w.tree
    case GiveBackPages(pages) => WriterIs(s, Working) && s.writer.w.head.Some? && pages <= s.writer.w.tree && pages <= s.writer.w.own
    case FreeLoosePages => WriterIs(s, Working) && s.writer.w.head.None?
    case Modify(p, _) => WriterIs(s, Working) && p in s.writer.mem
    case Flush(p) => (WriterIs(s, Working) || WriterIs(s, Saved)) && p in s.writer.mem && p !in s.writer.w.loose
    case Unspill(p) => WriterIs(s, Working) && p in s.writer.w.tree && p in s.writer.w.own && p !in s.writer.mem
    case SaveFreeList(left) => WriterIs(s, Working) && CanSave(s.writer.w, left)
    case Sync => WriterIs(s, Saved) && s.writer.mem.Keys !! s.writer.w.tree
    case WriteMeta => WriterIs(s, Synced)
    case Publish => WriterIs(s, MetaWritten)
    case Abort => s.writer.Writing? && s.writer.stage != MetaWritten
    case WriteBack(p) => p in s.cache
    case Crash => true
  }

  ghost function WriterAt(id: Txnid, sn: Snapshot): Writer {
    Writer(id, sn.next, sn.pages.Keys, {}, None, 0, {}, {}, sn.records)
  }

  ghost function Committed(s: State): Snapshot
    requires s.writer.Writing?
  {
    var w := s.writer.w;
    Snapshot(map p | p in w.tree :: Seen(s.writer.mem, s.cache, p), w.records, w.next)
  }

  ghost function SetReader(s: State, r: nat, rd: Reader): State
    requires r < |s.readers|
  {
    s.(readers := s.readers[r := rd])
  }

  ghost function SetWriter(s: State, w: Writer, mem: map<Pgno, Content>): State
    requires s.writer.Writing?
  {
    s.(writer := s.writer.(w := w, mem := mem))
  }

  ghost function Apply(s: State, a: Action): State
    requires Enabled(s, a)
  {
    match a
    case NewReader => s.(readers := s.readers + [Reader(NoTxn, Idle)])
    case LoadId(r) => SetReader(s, r, s.readers[r].(phase := Loaded(s.lastTxn)))
    case StoreId(r) => SetReader(s, r, Reader(Txn(s.readers[r].phase.reg), Stored))
    case Recheck(r) => SetReader(s, r, s.readers[r].(phase := if s.readers[r].slot == Txn(s.lastTxn) then Live else Idle))
    case ReadMeta(r) => SetReader(s, r, s.readers[r].(phase := Reading(s.metas[s.readers[r].slot.id % 2])))
    case EndRead(r) => SetReader(s, r, Reader(NoTxn, Idle))
    case Begin(env) => s.(writer := Writing(WriterAt(s.lastTxn + 1, s.snaps[s.metas[s.lastTxn % 2]]), map[], env, Working, NoScan))
    case StartScan => s.(writer := s.writer.(scan := Scanning(|s.readers|, s.writer.w.id - 1)))
    case ScanSlot =>
      var i, oldest := s.writer.scan.i - 1, s.writer.scan.oldest;
      var slot := s.readers[i].slot;
      s.(writer := s.writer.(scan := Scanning(i, if slot.Txn? && slot.id < oldest then slot.id else oldest)))
    case EndScan => s.(pgoldest := s.pgoldest[s.writer.env := s.writer.scan.oldest], writer := s.writer.(scan := NoScan))
    case ReadRecord(k) => SetWriter(s, Read(s.writer.w, k), s.writer.mem)
    case Allocate(src, p, num, fill) =>
      SetWriter(s, NewPages(s.writer.w, src, p, num), s.writer.mem + map q | q in Range(p, num) :: fill)
    case TouchPage(from, src, p) =>
      SetWriter(s, Touch(s.writer.w, from, src, p), s.writer.mem[p := Seen(s.writer.mem, s.cache, from)])
    case LoosenPage(p) => SetWriter(s, Loosen(s.writer.w, p), s.writer.mem)
    case FreePages(pages) => SetWriter(s, Free(s.writer.w, pages), s.writer.mem)
    case GiveBackPages(pages) => SetWriter(s, GiveBack(s.writer.w, pages), s.writer.mem - pages)
    case FreeLoosePages => SetWriter(s, FreeLoose(s.writer.w), s.writer.mem)
    case Modify(p, data) => SetWriter(s, s.writer.w, s.writer.mem[p := data])
    case Flush(p) => SetWriter(s, s.writer.w, s.writer.mem - {p}).(cache := s.cache[p := s.writer.mem[p]])
    case Unspill(p) => SetWriter(s, s.writer.w, s.writer.mem[p := Seen(map[], s.cache, p)])
    case SaveFreeList(left) => s.(writer := s.writer.(w := Save(s.writer.w, left), stage := Saved))
    case Sync => s.(durable := s.durable + s.cache, writer := s.writer.(stage := Synced))
    case WriteMeta =>
      var id := s.writer.w.id;
      s.(metas := s.metas[id % 2 := id], snaps := s.snaps[id := Committed(s)], writer := s.writer.(stage := MetaWritten))
    case Publish => s.(lastTxn := s.writer.w.id, writer := NoWriter)
    case Abort => s.(writer := NoWriter)
    case WriteBack(p) => s.(durable := s.durable[p := s.cache[p]])
    case Crash => Recovered(s)
  }

  // Everything in memory is lost; the environment is opened again on the newer meta page.
  ghost function Recovered(s: State): State
    requires |s.metas| == 2
  {
    s.(lastTxn := Newest(s), readers := [], writer := NoWriter, pgoldest := seq(|s.pgoldest|, e => 0), cache := s.durable)
  }

  // --- the invariant ---

  ghost predicate Validated(r: Reader) {
    r.slot.Txn? && (r.phase.Live? || r.phase.Reading?)
  }

  ghost predicate MetasOk(s: State) {
    && |s.metas| == 2
    && (s.metas == [0, 0] || (s.metas[0] % 2 == 0 && s.metas[1] % 2 == 1 && (s.metas[0] == s.metas[1] + 1 || s.metas[1] == s.metas[0] + 1)))
    && Newest(s) == (if WriterIs(s, MetaWritten) then s.lastTxn + 1 else s.lastTxn)
    && s.metas[0] in s.snaps && s.metas[1] in s.snaps && s.lastTxn in s.snaps
    && (forall v :: v in s.snaps ==> v <= Newest(s))
  }

  ghost predicate ReaderOk(s: State, r: Reader)
    requires |s.metas| == 2
  {
    match r.phase
    case Idle => true
    case Loaded(v) => v <= s.lastTxn
    case Stored => r.slot.Txn? && r.slot.id <= s.lastTxn
    case Live => r.slot.Txn? && r.slot.id <= s.lastTxn
    case Reading(u) => r.slot.Txn? && r.slot.id <= s.lastTxn && r.slot.id <= u <= Newest(s) && u in s.snaps
  }

  ghost predicate ReadersOk(s: State) {
    |s.metas| == 2 && forall i :: 0 <= i < |s.readers| ==> ReaderOk(s, s.readers[i])
  }

  // No validated reader's ID is below o, from slot lo on.
  ghost predicate NotAbove(s: State, o: Txnid, lo: nat) {
    o <= s.lastTxn && forall i :: lo <= i < |s.readers| && Validated(s.readers[i]) ==> o <= s.readers[i].slot.id
  }

  ghost predicate OldestOk(s: State) {
    && (forall e :: 0 <= e < |s.pgoldest| ==> NotAbove(s, s.pgoldest[e], 0))
    && (s.writer.Writing? && s.writer.scan.Scanning? ==> NotAbove(s, s.writer.scan.oldest, s.writer.scan.i))
  }

  ghost predicate WriterOk(s: State) {
    s.writer.Writing? && s.lastTxn in s.snaps ==>
      var w, mem := s.writer.w, s.writer.mem;
      && w.id == s.lastTxn + 1
      && Partition(w)
      && s.snaps[s.lastTxn].next <= w.next
      && mem.Keys <= w.own
      && (forall p :: p in w.tree ==> p in mem || p in s.cache)
      && (s.writer.stage == Working ==> OldRecords(w))
      && (s.writer.stage != Working ==> w.head.None? && w.freed == {} && w.loose == {} && w.last == 0 && forall k :: k in w.records ==> k <= w.id)
      && (s.writer.stage == Synced || s.writer.stage == MetaWritten ==>
           && mem.Keys !! w.tree
           && (forall p :: p in w.tree ==> p in s.cache && p in s.durable && s.durable[p] == s.cache[p]))
      && (s.writer.stage == MetaWritten ==> w.id in s.snaps && s.snaps[w.id] == Committed(s))
  }

  // The last committed version is itself a partition of its pages.
  ghost predicate CommittedOk(s: State) {
    s.lastTxn in s.snaps && Partition(WriterAt(s.lastTxn + 1, s.snaps[s.lastTxn])) && OldRecords(WriterAt(s.lastTxn + 1, s.snaps[s.lastTxn]))
  }

  // The versions someone may still read: those no older than a validated reader's ID, and
  // the last one or two.
  ghost predicate Needed(s: State, v: Txnid)
    requires |s.metas| == 2
  {
    v in s.snaps && (v == s.lastTxn || v == Newest(s) || exists i :: 0 <= i < |s.readers| && Validated(s.readers[i]) && s.readers[i].slot.id <= v)
  }

  // Both the mapped file and the durable one hold exactly this version's pages.
  ghost predicate Intact(s: State, sn: Snapshot) {
    forall p :: p in sn.pages ==> p in s.cache && s.cache[p] == sn.pages[p] && p in s.durable && s.durable[p] == sn.pages[p]
  }

  // The writer neither wrote nor may allocate a page of this version.
  ghost predicate OutOfReach(w: Writer, sn: Snapshot) {
    forall p :: p in sn.pages ==> p !in w.own && p !in Reclaimed(w) && p < w.next
  }

  // A free-page record with a page of version v is from a later transaction.
  ghost predicate FreedLater(records: map<Txnid, set<Pgno>>, sn: Snapshot, v: Txnid) {
    forall k, p :: k in records && p in records[k] && p in sn.pages ==> v < k
  }

  ghost predicate Protected(s: State, v: Txnid) {
    && v in s.snaps && s.lastTxn in s.snaps
    && Intact(s, s.snaps[v])
    && (v <= s.lastTxn ==>
         && FreedLater(s.snaps[s.lastTxn].records, s.snaps[v], v)
         && (forall p :: p in s.snaps[v].pages ==> p < s.snaps[s.lastTxn].next)
         && (s.writer.Writing? ==> OutOfReach(s.writer.w, s.snaps[v]) && FreedLater(s.writer.w.records, s.snaps[v], v)))
  }

  ghost predicate AllProtected(s: State) {
    |s.metas| == 2 && forall v: Txnid :: Needed(s, v) ==> Protected(s, v)
  }

  ghost predicate Inv(s: State) {
    MetasOk(s) && ReadersOk(s) && OldestOk(s) && WriterOk(s) && CommittedOk(s) && AllProtected(s)
  }

  lemma InitHolds(s: State)
    requires Init(s)
    ensures Inv(s)
  {
  }

  // --- readers ---

  // A reader's step is safe if it does not claim protection that was not checked: a newly
  // validated ID must be the last committed one.
  lemma ReaderStep(s: State, r: nat, rd: Reader)
    requires Inv(s) && r < |s.readers| && ReaderOk(s, rd)
    requires Validated(rd) ==> (Validated(s.readers[r]) && rd.slot == s.readers[r].slot) || rd.slot.id == s.lastTxn
    ensures Inv(SetReader(s, r, rd))
  {
    hide Protected, WriterOk, CommittedOk, Partition;
    var t := SetReader(s, r, rd);
    assert MetasOk(t);
    assert forall i :: 0 <= i < |s.readers| ==> ReaderOk(t, s.readers[i]) == ReaderOk(s, s.readers[i]);
    assert ReaderOk(t, rd) == ReaderOk(s, rd);
    assert WriterOk(t) by { SameWriter(s, t); }
    assert CommittedOk(t) by { SameWriter(s, t); }
    forall v: Txnid | Needed(t, v)
      ensures Protected(t, v)
    {
      assert v <= Newest(s);
      if v != t.lastTxn && v != Newest(t) {
        var i :| 0 <= i < |t.readers| && Validated(t.readers[i]) && t.readers[i].slot.id <= v;
        assert i != r ==> Validated(s.readers[i]) && s.readers[i].slot.id <= v;
      }
      assert Needed(s, v);
      SameProtection(s, t, v);
    }
  }

  lemma SameWriter(s: State, t: State)
    requires s.writer == t.writer && s.lastTxn == t.lastTxn && s.cache == t.cache && s.durable == t.durable && s.snaps == t.snaps
    ensures WriterOk(s) == WriterOk(t) && CommittedOk(s) == CommittedOk(t)
  {
  }

  lemma SameProtection(s: State, t: State, v: Txnid)
    requires s.writer == t.writer && s.lastTxn == t.lastTxn && s.cache == t.cache && s.durable == t.durable && s.snaps == t.snaps
    ensures Protected(s, v) == Protected(t, v)
  {
  }

  lemma NewReaderStep(s: State)
    requires Inv(s)
    ensures Inv(s.(readers := s.readers + [Reader(NoTxn, Idle)]))
  {
    hide Protected, WriterOk, CommittedOk, Partition;
    var t := s.(readers := s.readers + [Reader(NoTxn, Idle)]);
    assert forall i :: 0 <= i < |s.readers| ==> t.readers[i] == s.readers[i];
    assert forall i :: 0 <= i < |s.readers| ==> ReaderOk(t, s.readers[i]) == ReaderOk(s, s.readers[i]);
    SameWriter(s, t);
    forall v: Txnid | Needed(t, v)
      ensures Protected(t, v)
    {
      assert Needed(s, v);
      SameProtection(s, t, v);
    }
  }

  // The meta page a validated reader copies is never older than its ID.
  lemma MetaForReader(s: State, id: Txnid)
    requires MetasOk(s) && id <= s.lastTxn
    ensures id <= s.metas[id % 2] <= Newest(s) && s.metas[id % 2] in s.snaps
    ensures s.metas[id % 2] % 2 == id % 2
    ensures s.metas[id % 2] == id <==> Newest(s) < id + 2
    ensures s.metas[id % 2] == Newest(s) || s.metas[id % 2] + 1 == Newest(s)
  {
  }

  // --- steps of the writer that stay in its own memory ---

  lemma WorkingStep(s: State, w: Writer, mem: map<Pgno, Content>)
    requires Inv(s) && WriterIs(s, Working)
    requires Partition(w) && OldRecords(w) && w.id == s.writer.w.id && w.records == s.writer.w.records && s.writer.w.next <= w.next
    requires mem.Keys <= w.own
    requires forall p :: p in w.tree ==> p in mem || p in s.cache
    requires forall v: Txnid :: Needed(s, v) && v <= s.lastTxn ==> OutOfReach(w, s.snaps[v])
    ensures Inv(SetWriter(s, w, mem))
  {
    hide Partition, OldRecords, Intact, FreedLater, OutOfReach;
    var t := SetWriter(s, w, mem);
    assert MetasOk(t);
    assert forall i :: 0 <= i < |s.readers| ==> ReaderOk(t, s.readers[i]) == ReaderOk(s, s.readers[i]);
    forall v: Txnid | Needed(t, v)
      ensures Protected(t, v)
    {
      assert Needed(s, v) && Protected(s, v);
      assert Intact(t, t.snaps[v]) by { SameFiles(s, t, s.snaps[v]); }
    }
  }

  lemma SameFiles(s: State, t: State, sn: Snapshot)
    requires s.cache == t.cache && s.durable == t.durable
    ensures Intact(s, sn) == Intact(t, sn)
  {
  }

  // A record older than the cached oldest reader holds no page anyone still needs.
  lemma ReadRecordStep(s: State, k: Txnid)
    requires Inv(s) && Enabled(s, ReadRecord(k))
    ensures Inv(Apply(s, ReadRecord(k)))
  {
    var w := s.writer.w;
    ReadKeepsPartition(w, k);
    forall v: Txnid | Needed(s, v) && v <= s.lastTxn
      ensures OutOfReach(Read(w, k), s.snaps[v])
    {
      assert Protected(s, v);
      assert NotAbove(s, s.pgoldest[s.writer.env], 0);
      assert k <= v;
    }
    WorkingStep(s, Read(w, k), s.writer.mem);
  }

  lemma AllocateStep(s: State, src: Source, p: Pgno, num: nat, fill: Content)
    requires Inv(s) && Enabled(s, Allocate(src, p, num, fill))
    ensures Inv(Apply(s, Allocate(src, p, num, fill)))
  {
    var w := s.writer.w;
    var t := NewPages(w, src, p, num);
    NewPagesKeepsPartition(w, src, p, num);
    TakenStaysOutOfReach(s, t, src, p, num);
    hide AllProtected, CommittedOk, OldestOk, ReadersOk, Partition, OutOfReach, Range;
    WorkingStep(s, t, s.writer.mem + map q | q in Range(p, num) :: fill);
  }

  lemma TakenStaysOutOfReach(s: State, t: Writer, src: Source, p: Pgno, num: nat)
    requires Inv(s) && WriterIs(s, Working) && CanTake(s.writer.w, src, p, num)
    requires t.own <= s.writer.w.own + Range(p, num) && Reclaimed(t) <= Reclaimed(s.writer.w) && s.writer.w.next <= t.next
    ensures forall v: Txnid :: Needed(s, v) && v <= s.lastTxn ==> OutOfReach(t, s.snaps[v])
  {
    var w := s.writer.w;
    forall v: Txnid, q | Needed(s, v) && v <= s.lastTxn && q in s.snaps[v].pages
      ensures q !in t.own && q !in Reclaimed(t) && q < t.next
    {
      assert Protected(s, v);
      assert OutOfReach(w, s.snaps[v]);
    }
  }

  lemma TouchStep(s: State, from: Pgno, src: Source, p: Pgno)
    requires Inv(s) && Enabled(s, TouchPage(from, src, p))
    ensures Inv(Apply(s, TouchPage(from, src, p)))
  {
    var w := s.writer.w;
    var t := Touch(w, from, src, p);
    TouchKeepsPartition(w, from, src, p);
    TakenStaysOutOfReach(s, t, src, p, 1);
    WorkingStep(s, t, s.writer.mem[p := Seen(s.writer.mem, s.cache, from)]);
  }

  // Loosening, freeing, giving back, editing and unspilling reach no page they did not own.
  lemma OwnPagesStep(s: State, w: Writer, mem: map<Pgno, Content>)
    requires Inv(s) && WriterIs(s, Working)
    requires Partition(w) && w == s.writer.w.(tree := w.tree, head := w.head, loose := w.loose, freed := w.freed)
    requires w.tree <= s.writer.w.tree && Reclaimed(w) <= Reclaimed(s.writer.w) + s.writer.w.own
    requires mem.Keys <= w.own
    requires forall p :: p in w.tree ==> p in mem || p in s.cache
    ensures Inv(SetWriter(s, w, mem))
  {
    forall v: Txnid, q | Needed(s, v) && v <= s.lastTxn && q in s.snaps[v].pages
      ensures q !in w.own && q !in Reclaimed(w) && q < w.next
    {
      assert Protected(s, v);
      assert OutOfReach(s.writer.w, s.snaps[v]);
    }
    WorkingStep(s, w, mem);
  }

  ghost predicate OwnPagesAction(a: Action) {
    a.LoosenPage? || a.FreePages? || a.GiveBackPages? || a.FreeLoosePages? || a.Modify? || a.Unspill?
  }

  lemma OwnPagesActionStep(s: State, a: Action)
    requires Inv(s) && Enabled(s, a) && OwnPagesAction(a)
    ensures Inv(Apply(s, a))
  {
    var w, mem := s.writer.w, s.writer.mem;
    match a
    case LoosenPage(p) =>
      LeavingTreeKeepsPartition(w, Loosen(w, p), {p});
      OwnPagesStep(s, Loosen(w, p), mem);
    case FreePages(pages) =>
      LeavingTreeKeepsPartition(w, Free(w, pages), pages);
      OwnPagesStep(s, Free(w, pages), mem);
    case GiveBackPages(pages) =>
      LeavingTreeKeepsPartition(w, GiveBack(w, pages), pages);
      OwnPagesStep(s, GiveBack(w, pages), mem - pages);
    case FreeLoosePages =>
      FreeLooseKeepsPartition(w);
      OwnPagesStep(s, FreeLoose(w), mem);
    case Modify(p, data) =>
      OwnPagesStep(s, w, mem[p := data]);
    case Unspill(p) =>
      OwnPagesStep(s, w, mem[p := Seen(map[], s.cache, p)]);
  }

  // --- steps that reach the file ---

  // Writing out a page of the writer's own leaves every needed version as it was.
  lemma FlushStep(s: State, p: Pgno)
    requires Inv(s) && Enabled(s, Flush(p))
    ensures Inv(Apply(s, Flush(p)))
  {
    hide Partition, OldRecords, FreedLater;
    var t := Apply(s, Flush(p));
    assert MetasOk(t);
    assert forall i :: 0 <= i < |s.readers| ==> ReaderOk(t, s.readers[i]) == ReaderOk(s, s.readers[i]);
    forall v: Txnid | Needed(t, v)
      ensures Protected(t, v)
    {
      assert Needed(s, v) && Protected(s, v);
    }
  }

  lemma WriteBackStep(s: State, p: Pgno)
    requires Inv(s) && Enabled(s, WriteBack(p))
    ensures Inv(Apply(s, WriteBack(p)))
  {
    hide Partition, OldRecords, FreedLater, OutOfReach;
    var t := Apply(s, WriteBack(p));
    assert MetasOk(t);
    assert forall i :: 0 <= i < |s.readers| ==> ReaderOk(t, s.readers[i]) == ReaderOk(s, s.readers[i]);
    forall v: Txnid | Needed(t, v)
      ensures Protected(t, v)
    {
      assert Needed(s, v) && Protected(s, v);
    }
  }

  lemma SyncStep(s: State)
    requires Inv(s) && Enabled(s, Sync)
    ensures Inv(Apply(s, Sync))
  {
    hide Partition, OldRecords, FreedLater, OutOfReach;
    var t := Apply(s, Sync);
    assert MetasOk(t);
    assert forall i :: 0 <= i < |s.readers| ==> ReaderOk(t, s.readers[i]) == ReaderOk(s, s.readers[i]);
    forall v: Txnid | Needed(t, v)
      ensures Protected(t, v)
    {
      assert Needed(s, v) && Protected(s, v);
    }
  }

  // --- begin, oldest-reader scan, save, commit, abort, crash ---

  lemma BeginStep(s: State, env: nat)
    requires Inv(s) && Enabled(s, Begin(env))
    ensures Inv(Apply(s, Begin(env)))
  {
    hide Partition, FreedLater;
    var t := Apply(s, Begin(env));
    MetaForReader(s, s.lastTxn);
    assert Needed(s, s.lastTxn) && Protected(s, s.lastTxn);
    assert MetasOk(t);
    assert forall i :: 0 <= i < |s.readers| ==> ReaderOk(t, s.readers[i]) == ReaderOk(s, s.readers[i]);
    forall v: Txnid | Needed(t, v)
      ensures Protected(t, v)
    {
      assert Needed(s, v) && Protected(s, v);
    }
  }

  // The scan looks at one slot at a time while readers come and go. A reader that validates
  // behind its back has the last committed ID, which bounds the scan from the start.
  lemma ScanStep(s: State, a: Action)
    requires Inv(s) && Enabled(s, a) && (a.StartScan? || a.ScanSlot? || a.EndScan?)
    ensures Inv(Apply(s, a))
  {
    hide Partition, OldRecords, Intact, FreedLater, OutOfReach;
    var t := Apply(s, a);
    assert MetasOk(t);
    assert forall i :: 0 <= i < |s.readers| ==> ReaderOk(t, s.readers[i]) == ReaderOk(s, s.readers[i]);
    assert OldestOk(t);
    forall v: Txnid | Needed(t, v)
      ensures Protected(t, v)
    {
      assert Needed(s, v) && Protected(s, v);
      assert Intact(t, t.snaps[v]) by { SameFiles(s, t, s.snaps[v]); }
    }
  }

  lemma SaveStep(s: State, left: map<Txnid, set<Pgno>>)
    requires Inv(s) && Enabled(s, SaveFreeList(left))
    ensures Inv(Apply(s, SaveFreeList(left)))
  {
    hide Partition, OldRecords, FreedLater, Intact, CanSave, OutOfReach;
    var t := Apply(s, SaveFreeList(left));
    var w := s.writer.w;
    SaveKeepsPartition(w, left);
    SavedShape(w, left);
    assert MetasOk(t);
    assert forall i :: 0 <= i < |s.readers| ==> ReaderOk(t, s.readers[i]) == ReaderOk(s, s.readers[i]);
    forall v: Txnid | Needed(t, v)
      ensures Protected(t, v)
    {
      assert Needed(s, v) && Protected(s, v);
      SavedFreedLater(w, left, s.snaps[v], v);
      assert Intact(t, t.snaps[v]) by { SameFiles(s, t, s.snaps[v]); }
    }
  }

  lemma SavedShape(w: Writer, left: map<Txnid, set<Pgno>>)
    requires CanSave(w, left) && OldRecords(w)
    ensures forall k :: k in Save(w, left).records ==> k <= w.id
  {
  }

  // Leftover pages may go under keys smaller than the ones they came from; it does not
  // matter, because no needed version has them.
  lemma SavedFreedLater(w: Writer, left: map<Txnid, set<Pgno>>, sn: Snapshot, v: Txnid)
    requires Partition(w) && CanSave(w, left) && v < w.id
    requires OutOfReach(w, sn) && FreedLater(w.records, sn, v)
    ensures FreedLater(Save(w, left).records, sn, v) && OutOfReach(Save(w, left), sn)
  {
    var t := Save(w, left);
    forall k, p | k in t.records && p in t.records[k] && p in sn.pages
      ensures v < k
    {
      if k != w.id && k in left {
        assert InSome(left, p);
      }
    }
  }

  lemma WriteMetaStep(s: State)
    requires Inv(s) && Enabled(s, WriteMeta)
    ensures Inv(Apply(s, WriteMeta))
  {
    hide Partition, OldRecords, FreedLater;
    var t := Apply(s, WriteMeta);
    var id := s.writer.w.id;
    assert s.lastTxn in s.snaps;
    MetaForReader(s, s.lastTxn);
    assert MetasOk(t);
    forall i | 0 <= i < |t.readers|
      ensures ReaderOk(t, t.readers[i])
    {
      assert ReaderOk(s, s.readers[i]);
    }
    forall v: Txnid | Needed(t, v)
      ensures Protected(t, v)
    {
      if v != id {
        assert Needed(s, v) && Protected(s, v);
      }
    }
  }

  lemma PublishStep(s: State)
    requires Inv(s) && Enabled(s, Publish)
    ensures Inv(Apply(s, Publish))
  {
    var t := Apply(s, Publish);
    var w := s.writer.w;
    assert t.snaps[t.lastTxn].pages.Keys == w.tree;
    assert Partition(WriterAt(t.lastTxn + 1, t.snaps[t.lastTxn])) by { CommittedPartition(w, WriterAt(t.lastTxn + 1, t.snaps[t.lastTxn])); }
    assert MetasOk(t);
    assert forall i :: 0 <= i < |s.readers| ==> ReaderOk(s, s.readers[i]);
    forall v: Txnid | Needed(t, v)
      ensures Protected(t, v)
    {
      assert Needed(s, v) && Protected(s, v);
      if v == t.lastTxn {
        CommittedFreedLater(WriterAt(t.lastTxn + 1, t.snaps[t.lastTxn]), t.snaps[v], v);
      }
    }
  }

  lemma CommittedPartition(w: Writer, t: Writer)
    requires Partition(w) && w.head.None? && w.freed == {} && w.loose == {}
    requires t.next == w.next && t.tree == w.tree && t.own == {} && t.head.None? && t.last == w.last == 0 && t.freed == {} && t.loose == {} && t.records == w.records
    ensures Partition(t)
  {
    SameRecords(w, t);
    forall q: Pgno
      ensures FIRST_PAGE <= q < t.next <==> Somewhere(t, q)
    {
      assert FIRST_PAGE <= q < w.next <==> Somewhere(w, q);
    }
  }

  // A version's own records share no page with its trees.
  lemma CommittedFreedLater(t: Writer, sn: Snapshot, v: Txnid)
    requires Partition(t) && t.last == 0 && t.tree == sn.pages.Keys
    ensures FreedLater(t.records, sn, v)
    ensures forall p :: p in sn.pages ==> p < t.next
  {
    forall k, p | k in t.records && p in t.records[k]
      ensures p !in sn.pages
    {
      assert Unread(t, k);
      assert InRecord(t, p);
    }
    forall p | p in sn.pages
      ensures p < t.next
    {
      assert Somewhere(t, p);
    }
  }

  lemma AbortStep(s: State)
    requires Inv(s) && Enabled(s, Abort)
    ensures Inv(Apply(s, Abort))
  {
    hide Partition, OldRecords, FreedLater, Intact;
    var t := Apply(s, Abort);
    assert MetasOk(t);
    assert forall i :: 0 <= i < |s.readers| ==> ReaderOk(t, s.readers[i]) == ReaderOk(s, s.readers[i]);
    forall v: Txnid | Needed(t, v)
      ensures Protected(t, v)
    {
      assert Needed(s, v) && Protected(s, v);
      assert Intact(t, t.snaps[v]) by { SameFiles(s, t, s.snaps[v]); }
    }
  }

  lemma CrashStep(s: State)
    requires Inv(s)
    ensures Inv(Recovered(s))
  {
    var t := Recovered(s);
    var n := Newest(s);
    assert Needed(s, n) && Protected(s, n);
    assert MetasOk(t);
    if n != s.lastTxn {
      CommittedPartition(s.writer.w, WriterAt(n + 1, s.snaps[n]));
    }
    CommittedFreedLater(WriterAt(n + 1, s.snaps[n]), s.snaps[n], n);
    forall v: Txnid | Needed(t, v)
      ensures Protected(t, v)
    {
      assert v == n;
    }
  }

  lemma ReaderActionStep(s: State, a: Action)
    requires Inv(s) && Enabled(s, a) && (a.LoadId? || a.StoreId? || a.Recheck? || a.ReadMeta? || a.EndRead?)
    ensures Inv(Apply(s, a))
  {
    hide Protected, WriterOk, CommittedOk, Needed;
    var rd := s.readers[a.r];
    assert ReaderOk(s, rd);
    match a
    case LoadId(r) => ReaderStep(s, r, rd.(phase := Loaded(s.lastTxn)));
    case StoreId(r) => ReaderStep(s, r, Reader(Txn(rd.phase.reg), Stored));
    case Recheck(r) => ReaderStep(s, r, rd.(phase := if rd.slot == Txn(s.lastTxn) then Live else Idle));
    case ReadMeta(r) =>
      MetaForReader(s, rd.slot.id);
      ReaderStep(s, r, rd.(phase := Reading(s.metas[rd.slot.id % 2])));
    case EndRead(r) => ReaderStep(s, r, Reader(NoTxn, Idle));
  }

  // Every step of every interleaving, crashes included, keeps the invariant.
  lemma StepKeepsInvariant(s: State, a: Action)
    requires Inv(s) && Enabled(s, a)
    ensures Inv(Apply(s, a))
  {
    hide Inv;
    match a
    case NewReader => NewReaderStep(s);
    case LoadId(r) => ReaderActionStep(s, a);
    case StoreId(r) => ReaderActionStep(s, a);
    case Recheck(r) => ReaderActionStep(s, a);
    case ReadMeta(r) => ReaderActionStep(s, a);
    case EndRead(r) => ReaderActionStep(s, a);
    case Begin(env) => BeginStep(s, env);
    case StartScan => ScanStep(s, a);
    case ScanSlot => ScanStep(s, a);
    case EndScan => ScanStep(s, a);
    case ReadRecord(k) => ReadRecordStep(s, k);
    case Allocate(src, p, num, fill) => AllocateStep(s, src, p, num, fill);
    case TouchPage(from, src, p) => TouchStep(s, from, src, p);
    case LoosenPage(p) => OwnPagesActionStep(s, a);
    case FreePages(pages) => OwnPagesActionStep(s, a);
    case GiveBackPages(pages) => OwnPagesActionStep(s, a);
    case FreeLoosePages => OwnPagesActionStep(s, a);
    case Modify(p, data) => OwnPagesActionStep(s, a);
    case Flush(p) => FlushStep(s, p);
    case Unspill(p) => OwnPagesActionStep(s, a);
    case SaveFreeList(left) => SaveStep(s, left);
    case Sync => SyncStep(s);
    case WriteMeta => WriteMetaStep(s);
    case Publish => PublishStep(s);
    case Abort => AbortStep(s);
    case WriteBack(p) => WriteBackStep(s, p);
    case Crash => CrashStep(s);
  }

  // A run: the states passed through and the steps between them.
  ghost predicate Run(states: seq<State>, acts: seq<Action>) {
    && |states| == |acts| + 1
    && Init(states[0])
    && forall i :: 0 <= i < |acts| ==> Enabled(states[i], acts[i]) && states[i + 1] == Apply(states[i], acts[i])
  }

  lemma {:induction false} RunKeepsInvariant(states: seq<State>, acts: seq<Action>, i: nat)
    requires Run(states, acts) && i < |states|
    ensures Inv(states[i])
  {
    hide Inv, Enabled, Apply;
    if i == 0 {
      InitHolds(states[0]);
    } else {
      RunKeepsInvariant(states, acts, i - 1);
      assert Enabled(states[i - 1], acts[i - 1]);
      StepKeepsInvariant(states[i - 1], acts[i - 1]);
    }
  }

  // --- main results ---

  // Whatever pages an allocation hands out, none of them belongs to a version that a
  // validated reader can be reading, or to the last committed one.
  lemma AllocationAvoidsReaders(s: State, a: Action, v: Txnid, q: Pgno)
    requires Inv(s) && Enabled(s, a) && (a.Allocate? || a.TouchPage?)
    requires v in s.snaps && v <= s.lastTxn && q in s.snaps[v].pages
    requires v == s.lastTxn || exists r :: 0 <= r < |s.readers| && Validated(s.readers[r]) && s.readers[r].slot.id <= v
    ensures q !in Range(a.p, if a.Allocate? then a.num else 1)
  {
    assert Needed(s, v) && Protected(s, v);
    assert OutOfReach(s.writer.w, s.snaps[v]);
  }

  // A version, once committed, is never redefined.
  lemma SnapshotsOnlyGrow(s: State, a: Action)
    requires Inv(s) && Enabled(s, a)
    ensures forall v :: v in s.snaps ==> v in Apply(s, a).snaps && Apply(s, a).snaps[v] == s.snaps[v]
  {
    hide ReadersOk, OldestOk, CommittedOk, AllProtected, Partition, OldRecords;
  }

  lemma {:induction false} SnapshotsPersist(states: seq<State>, acts: seq<Action>, i: nat, j: nat, v: Txnid)
    requires Run(states, acts) && i <= j < |states| && v in states[i].snaps
    ensures v in states[j].snaps && states[j].snaps[v] == states[i].snaps[v]
    decreases j - i
  {
    if i < j {
      hide Inv, Enabled, Apply;
      RunKeepsInvariant(states, acts, i);
      assert Enabled(states[i], acts[i]);
      SnapshotsOnlyGrow(states[i], acts[i]);
      SnapshotsPersist(states, acts, i + 1, j, v);
    }
  }

  // In every run a reader that has copied the roots of version u sees, at any later moment,
  // exactly the pages version u was committed with, whatever the writer does meanwhile.
  lemma ReaderSeesOneVersion(states: seq<State>, acts: seq<Action>, i: nat, j: nat, r: nat, u: Txnid)
    requires Run(states, acts) && i <= j < |states|
    requires r < |states[j].readers| && states[j].readers[r].phase == Reading(u) && u in states[i].snaps
    ensures forall p :: p in states[i].snaps[u].pages ==> p in states[j].cache && states[j].cache[p] == states[i].snaps[u].pages[p]
  {
    RunKeepsInvariant(states, acts, j);
    SnapshotsPersist(states, acts, i, j, u);
    var s := states[j];
    assert ReaderOk(s, s.readers[r]);
    assert Needed(s, u) && Protected(s, u);
  }

  // Stopping anywhere and recovering gives the last version whose meta page was written, with
  // every page of it intact: the old one, or the new one once its meta page is down.
  lemma CrashYieldsOldOrNew(states: seq<State>, acts: seq<Action>, i: nat)
    requires Run(states, acts) && i < |states|
    ensures |states[i].metas| == 2
    ensures var s := states[i]; var t := Recovered(s);
      && t.lastTxn == (if WriterIs(s, MetaWritten) then s.lastTxn + 1 else s.lastTxn)
      && t.lastTxn in s.snaps
      && (forall p :: p in s.snaps[t.lastTxn].pages ==> p in t.cache && t.cache[p] == s.snaps[t.lastTxn].pages[p])
      && (WriterIs(s, MetaWritten) ==> s.snaps[t.lastTxn] == Committed(s))
  {
    RunKeepsInvariant(states, acts, i);
    var s := states[i];
    assert Needed(s, Newest(s)) && Protected(s, Newest(s));
  }

  // Spilling, flushing, reading back and saving the free list never change what the
  // transaction sees, so the version committed is the one that was built in memory.
  lemma WritingOutKeepsContent(s: State, a: Action)
    requires Inv(s) && Enabled(s, a) && s.writer.Writing?
    requires a.Flush? || a.Unspill? || a.SaveFreeList? || a.Sync? || a.WriteBack? || a.ReadRecord?
    ensures Apply(s, a).writer.Writing? && Committed(Apply(s, a)).pages == Committed(s).pages
  {
    hide MetasOk, ReadersOk, OldestOk, CommittedOk, AllProtected, Partition, OldRecords;
  }

  // The version a reader ends up on is its own ID, unless two or more commits finished
  // between its recheck and its copy of the meta page; then it is a later one.
  lemma ReaderVersion(s: State, r: nat)
    requires Inv(s) && Enabled(s, ReadMeta(r))
    ensures var t := Apply(s, ReadMeta(r)); var id := s.readers[r].slot.id;
      && t.readers[r].phase.Reading? && t.readers[r].slot == Txn(id)
      && id <= t.readers[r].phase.snap
      && (t.readers[r].phase.snap == id <==> Newest(s) < id + 2)
  {
    assert ReaderOk(s, s.readers[r]);
    MetaForReader(s, s.readers[r].slot.id);
  }
}
