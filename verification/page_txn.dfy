// The page bookkeeping of a top-level write transaction, as mdb.c does it: me_pghead is a
// page-number list in an array, and every operation updates the transaction in place.

module PageTxn {
  import opened Midl
  import opened FreeList
  import opened Pages

  // A free-page record: the pages freed by transaction key.
  datatype Record = Record(key: Txnid, ids: seq<Id>)

  datatype Rc = Success | TxnFull | MapFull

  // No num consecutive pages in the list.
  ghost predicate NoRunIn(s: seq<Id>, num: nat) {
    forall p :: !HasRun(s, p, num)
  }

  // No num consecutive pages in me_pghead.
  ghost predicate NoneFree(w: Writer, num: nat) {
    forall p :: !(Range(p, num) <= Reclaimed(w))
  }

  lemma NoRunIsNoneFree(s: seq<Id>, w: Writer, num: nat)
    requires Reclaimed(w) == Members(s)
    ensures NoRunIn(s, num) ==> NoneFree(w, num)
  {
    forall p: Pgno | NoRunIn(s, num)
      ensures !(Range(p, num) <= Reclaimed(w))
    {
      if Range(p, num) <= Reclaimed(w) {
        forall q | p <= q < p + num
          ensures q in s
        {
          assert q in Range(p, num) && q in Members(s);
        }
        assert HasRun(s, p, num);
      }
    }
  }

  // The lowest num consecutive pages in me_pghead.
  ghost predicate LowestFree(w: Writer, num: nat, q: Pgno) {
    Range(q, num) <= Reclaimed(w) && forall p :: Range(p, num) <= Reclaimed(w) ==> q <= p
  }

  lemma LowestRunIsLowestFree(s: seq<Id>, w: Writer, num: nat, q: Pgno)
    requires Reclaimed(w) == Members(s) && HasRun(s, q, num) && forall p :: HasRun(s, p, num) ==> q <= p
    ensures LowestFree(w, num, q)
  {
    forall p: Pgno | Range(p, num) <= Reclaimed(w)
      ensures q <= p
    {
      forall r | p <= r < p + num
        ensures r in s
      {
        assert r in Range(p, num) && r in Members(s);
      }
      assert HasRun(s, p, num);
    }
  }

  ghost function Members(s: seq<Id>): set<Pgno> {
    set p | p in s
  }

  ghost predicate Distinct(s: seq<Id>) {
    forall i, j :: 0 <= i < j < |s| ==> s[i] != s[j]
  }

  // The free-page database in key order.
  ghost predicate KeyOrder(db: seq<Record>) {
    && (forall i :: 0 <= i < |db| ==> 0 < db[i].key && StrictlyDescending(db[i].ids))
    && (forall i, j :: 0 <= i < j < |db| ==> db[i].key < db[j].key)
  }

  ghost function RecordMap(db: seq<Record>): map<Txnid, set<Pgno>> {
    if db == [] then map[] else RecordMap(db[..|db| - 1])[db[|db| - 1].key := Members(db[|db| - 1].ids)]
  }

  lemma {:induction false} RecordAt(db: seq<Record>, i: nat)
    requires KeyOrder(db) && i < |db|
    ensures db[i].key in RecordMap(db) && RecordMap(db)[db[i].key] == Members(db[i].ids)
  {
    if i < |db| - 1 {
      RecordAt(db[..|db| - 1], i);
    }
  }

  lemma {:induction false} KeyIndex(db: seq<Record>, k: Txnid) returns (i: nat)
    requires k in RecordMap(db)
    ensures i < |db| && db[i].key == k
  {
    i := |db| - 1;
    if k != db[i].key {
      i := KeyIndex(db[..|db| - 1], k);
    }
  }

  // Reading records ks one after the other.
  ghost predicate CanReadAll(w: Writer, ks: seq<Txnid>)
    decreases |ks|, 0
  {
    ks == [] || (CanReadAll(w, ks[..|ks| - 1]) && CanRead(ReadAll(w, ks[..|ks| - 1]), ks[|ks| - 1]))
  }

  ghost function ReadAll(w: Writer, ks: seq<Txnid>): Writer
    requires CanReadAll(w, ks)
    decreases |ks|, 1
  {
    if ks == [] then w else Read(ReadAll(w, ks[..|ks| - 1]), ks[|ks| - 1])
  }

  lemma NoneNeeded(w: Writer, num: nat)
    ensures CanReadAll(w, []) && Needed(w, [], num)
  {
  }

  // No record was read while there was a run.
  ghost predicate Needed(w: Writer, ks: seq<Txnid>, num: nat)
    requires CanReadAll(w, ks)
  {
    ks == [] || (Needed(w, ks[..|ks| - 1], num) && NoneFree(ReadAll(w, ks[..|ks| - 1]), num))
  }

  lemma NeededOneMore(w: Writer, ks: seq<Txnid>, k: Txnid, num: nat)
    requires CanReadAll(w, ks) && CanRead(ReadAll(w, ks), k)
    requires Needed(w, ks, num) && NoneFree(ReadAll(w, ks), num)
    ensures CanReadAll(w, ks + [k]) && Needed(w, ks + [k], num)
  {
    ReadOneMore(w, ks, k);
    assert (ks + [k])[..|ks|] == ks;
  }

  // How a search for num pages went: records were read one by one while there was no run, the
  // lowest run was taken, and new pages only if there was none and either 60 records a page had been
  // read or all those left are too recent for the oldest reader.
  ghost predicate Searched(w: Writer, ks: seq<Txnid>, num: nat, rc: Rc, src: Source, pgno: Pgno, oldest: Txnid)
    requires CanReadAll(w, ks)
  {
    && Needed(w, ks, num)
    && (rc == TxnFull || (rc == Success && src == FromLoose) ==> ks == [])
    && (rc == Success && src == FromHead ==> LowestFree(ReadAll(w, ks), num, pgno))
    && (rc == MapFull || (rc == Success && src == FromMap) ==>
          NoneFree(ReadAll(w, ks), num) && (|ks| >= 60 * num || forall k :: Unread(ReadAll(w, ks), k) ==> oldest <= k))
  }

  // The outcomes of a search.
  lemma NoSearch(w: Writer, num: nat, rc: Rc, src: Source, pgno: Pgno, oldest: Txnid)
    requires rc == TxnFull || (rc == Success && src == FromLoose)
    ensures CanReadAll(w, []) && Searched(w, [], num, rc, src, pgno, oldest)
  {
  }

  lemma RunFound(w: Writer, ks: seq<Txnid>, num: nat, pgno: Pgno, oldest: Txnid)
    requires CanReadAll(w, ks) && Needed(w, ks, num) && LowestFree(ReadAll(w, ks), num, pgno)
    ensures Searched(w, ks, num, Success, FromHead, pgno, oldest) && !NoneFree(ReadAll(w, ks), num)
  {
  }

  lemma NoneFound(w: Writer, ks: seq<Txnid>, num: nat, pgno: Pgno, oldest: Txnid)
    requires CanReadAll(w, ks) && Needed(w, ks, num) && NoneFree(ReadAll(w, ks), num)
    requires |ks| >= 60 * num || forall k :: Unread(ReadAll(w, ks), k) ==> oldest <= k
    ensures Searched(w, ks, num, Success, FromMap, pgno, oldest) && Searched(w, ks, num, MapFull, FromMap, pgno, oldest)
  {
  }

  lemma ReadOneMore(w: Writer, ks: seq<Txnid>, k: Txnid)
    requires CanReadAll(w, ks) && CanRead(ReadAll(w, ks), k)
    ensures CanReadAll(w, ks + [k]) && ReadAll(w, ks + [k]) == Read(ReadAll(w, ks), k)
  {
    assert (ks + [k])[..|ks|] == ks;
  }

  lemma {:induction false} ReadAllKeepsPartition(w: Writer, ks: seq<Txnid>)
    requires Partition(w) && CanReadAll(w, ks)
    ensures Partition(ReadAll(w, ks))
    ensures ReadAll(w, ks) == w.(head := ReadAll(w, ks).head, last := ReadAll(w, ks).last)
  {
    if ks != [] {
      ReadAllKeepsPartition(w, ks[..|ks| - 1]);
      ReadKeepsPartition(ReadAll(w, ks[..|ks| - 1]), ks[|ks| - 1]);
    }
  }

  // Merging a record into me_pghead: same pages, still strictly descending.
  lemma MergeDisjoint(x: seq<Id>, y: seq<Id>)
    requires StrictlyDescending(x) && StrictlyDescending(y) && Members(x) !! Members(y)
    ensures StrictlyDescending(MergeDesc(x, y)) && Members(MergeDesc(x, y)) == Members(x) + Members(y)
  {
    var r := MergeDesc(x, y);
    MergeSorted(x, y);
    MergeKeepsAll(x, y);
    forall p
      ensures p in r <==> p in x || p in y
    {
      assert p in r <==> p in multiset(r);
      assert p in x <==> p in multiset(x);
      assert p in y <==> p in multiset(y);
    }
    forall i, j | 0 <= i < j < |r|
      ensures r[i] != r[j]
    {
      OnceInMultiset(x, r[i]);
      OnceInMultiset(y, r[i]);
      assert !(r[i] in Members(x) && r[i] in Members(y));
      NotTwice(r, i, j);
    }
  }

  lemma NotTwice(r: seq<Id>, i: nat, j: nat)
    requires i < j < |r| && multiset(r)[r[i]] <= 1
    ensures r[i] != r[j]
  {
    assert r == r[..i] + [r[i]] + r[i + 1..j] + [r[j]] + r[j + 1..];
  }

  lemma {:induction false} OnceInMultiset(s: seq<Id>, v: Id)
    requires StrictlyDescending(s)
    ensures multiset(s)[v] <= 1
    ensures multiset(s)[v] == 1 <==> v in s
  {
    if s != [] {
      OnceInMultiset(s[1..], v);
      assert s == [s[0]] + s[1..];
    }
  }

  class Txn {
    const id: Txnid
    const maxPg: nat           // me_maxpg
    var nextPgno: nat          // mt_next_pgno
    var pghead: array?<Id>     // me_pghead
    var pglast: Txnid          // me_pglast
    var pgoldest: Txnid        // me_pgoldest
    var freePgs: seq<Id>       // mt_free_pgs
    var loose: seq<Id>         // mt_loose_pgs, first to be reused first
    var dirtyRoom: nat         // mt_dirty_room
    var error: bool            // MDB_TXN_ERROR
    var freeDb: seq<Record>
    ghost var tree: set<Pgno>  // pages of the working trees
    ghost var own: set<Pgno>   // pages allocated by this transaction

    // mdb_txn_renew0 for a writer: the transaction after the last one, with the pages and the
    // free-page records that one left. pgoldest is what the process has cached.
    constructor (last: Txnid, nextPgno: nat, maxPg: nat, pgoldest: Txnid, freeDb: seq<Record>, ghost tree: set<Pgno>)
      requires KeyOrder(freeDb) && nextPgno <= maxPg <= MAX_ID
      requires Partition(Writer(last + 1, nextPgno, tree, {}, None, 0, {}, {}, RecordMap(freeDb)))
      ensures Valid() && View() == Writer(last + 1, nextPgno, tree, {}, None, 0, {}, {}, RecordMap(freeDb))
      ensures dirtyRoom == UM_MAX && this.pgoldest == pgoldest && this.maxPg == maxPg && !error && pghead == null
    {
      id, this.maxPg, this.nextPgno := last + 1, maxPg, nextPgno;
      pghead, pglast, this.pgoldest := null, 0, pgoldest;
      freePgs, loose, dirtyRoom, error := [], [], UM_MAX, false;
      this.freeDb := freeDb;
      this.tree, own := tree, {};
      new;
      NoLoosePages([]);
    }

    ghost function Head(): seq<Id>
      requires pghead != null ==> IsIdl(pghead)
      reads this, pghead
    {
      if pghead == null then [] else Contents(pghead)
    }

    ghost function View(): Writer
      requires pghead != null ==> IsIdl(pghead)
      reads this, pghead
    {
      Writer(id, nextPgno, tree, own, if pghead == null then None else Some(Members(Head())), pglast, Members(freePgs), Members(loose), RecordMap(freeDb))
    }

    // The lists are well formed: ordered where the code relies on it, nowhere repeating a page.
    ghost predicate Lists()
      reads this, pghead
    {
      && (pghead != null ==> IsIdl(pghead) && StrictlyDescending(Contents(pghead)))
      && Distinct(freePgs) && Distinct(loose) && KeyOrder(freeDb)
      && nextPgno <= maxPg <= MAX_ID
    }

    ghost predicate Valid()
      reads this, pghead
    {
      Lists() && Partition(View())
    }

    // The first record with a key of at least k (MDB_SET_RANGE).
    method SeekRecord(k: Txnid) returns (i: nat)
      requires Lists()
      ensures i <= |freeDb|
      ensures forall j :: 0 <= j < i ==> freeDb[j].key < k
      ensures i < |freeDb| ==> k <= freeDb[i].key
    {
      i := 0;
      while i < |freeDb| && freeDb[i].key < k
        invariant i <= |freeDb|
        invariant forall j :: 0 <= j < i ==> freeDb[j].key < k
      {
        i := i + 1;
      }
    }

    method MergeIn(ids: seq<Id>)
      requires pghead != null ==> IsIdl(pghead)
      requires forall p :: p in ids ==> p <= MAX_ID
      modifies this`pghead, pghead
      ensures pghead != null && IsIdl(pghead) && Contents(pghead) == MergeDesc(old(Head()), ids)
      ensures pghead == old(pghead) || fresh(pghead)
    {
      var idl := ListOf(ids);
      if pghead == null {
        pghead := new Id[|ids| + 1];
        pghead[0] := 0;
      } else {
        pghead := Need(pghead, |ids|);
      }
      XMerge(pghead, idl, 0);
    }

    // MDB_SET_RANGE (or MDB_FIRST, which amounts to the same) the first time, then MDB_NEXT.
    method NextRecord(at: nat, first: bool) returns (at': nat)
      requires Lists() && (if first then at == 0 else at < |freeDb| && freeDb[at].key == pglast)
      ensures at' <= |freeDb| && (!first ==> at < at')
      ensures forall j :: 0 <= j < at' ==> freeDb[j].key <= pglast
      ensures at' < |freeDb| ==> pglast < freeDb[at'].key
    {
      if first {
        at' := SeekRecord(pglast + 1);
      } else {
        at' := at + 1;
      }
    }

    // The body of the fetch loop: record i is merged into me_pghead.
    method FetchRecord(i: nat)
      requires Valid() && i < |freeDb| && pglast < freeDb[i].key
      requires forall j :: 0 <= j < i ==> freeDb[j].key <= pglast
      modifies this`pghead, this`pglast, pghead
      ensures Valid() && CanRead(old(View()), freeDb[i].key) && View() == Read(old(View()), freeDb[i].key)
      ensures pglast == freeDb[i].key
      ensures pghead != null && (pghead == old(pghead) || fresh(pghead))
    {
      hide Partition, KeyOrder, RecordMap, MergeDesc, Members, StrictlyDescending, Distinct;
      NextToRead(freeDb, View(), i);
      ghost var w, k := View(), freeDb[i].key;
      ReadKeepsPartition(w, k);
      RecordPages(w, freeDb, i);
      ghost var x := Head();
      EmptyHead(x);
      MergeIn(freeDb[i].ids);
      pglast := freeDb[i].key;
      MergeDisjoint(x, freeDb[i].ids);
      assert View().head == Read(w, k).head;
    }

    // The run found at position i leaves me_pghead.
    method TakeFromHead(i: nat, num: nat) returns (pgno: Id)
      requires Valid() && pghead != null && 0 < num <= i <= pghead[0] && (num == 1 ==> loose == [])
      requires pghead[i + 1 - num] == pghead[i] + num - 1
      modifies pghead, this`own
      ensures Lists() && CanTake(old(View()), FromHead, pgno, num) && View() == Take(old(View()), FromHead, pgno, num)
      ensures pgno == old(pghead[i])
    {
      hide Partition, KeyOrder, RecordMap, Distinct;
      ghost var s := Contents(pghead);
      ghost var w := View();
      pgno := pghead[i];
      TakenRun(s, i - 1, num);
      TakeRun(pghead, i, num);
      own := own + Range(pgno, num);
      assert View().head == Take(w, FromHead, pgno, num).head;
    }

    // New pages from the map, unless it is full.
    method TakeFromMap(num: nat) returns (full: bool, pgno: Id)
      requires Lists() && 0 < num && (num == 1 ==> loose == [])
      modifies this`nextPgno, this`own, this`error
      ensures full <==> old(nextPgno) + num >= maxPg
      ensures pgno == old(nextPgno) && Lists() && Head() == old(Head())
      ensures error == (old(error) || full)
      ensures full ==> View() == old(View())
      ensures !full ==> CanTake(old(View()), FromMap, pgno, num) && View() == Take(old(View()), FromMap, pgno, num)
    {
      hide KeyOrder, RecordMap, StrictlyDescending, Distinct;
      pgno := nextPgno;
      full := pgno + num >= maxPg;
      if full {
        error := true;
      } else {
        nextPgno := pgno + num;
        own := own + Range(pgno, num);
      }
    }

    // The run search in the current me_pghead, if it is long enough to try.
    method SearchHead(num: nat) returns (i: nat, tried: bool)
      requires Lists() && 0 < num
      ensures i > 0 ==> pghead != null && num <= i <= pghead[0] && pghead[i + 1 - num] == pghead[i] + num - 1
      ensures i > 0 ==> LowestFree(View(), num, pghead[i])
      ensures i == 0 ==> NoneFree(View(), num)
      ensures tried <==> pghead != null && num <= pghead[0]
    {
      hide KeyOrder, Distinct, LowestFree, NoneFree, Members, RecordMap, NoRunIn;
      tried := pghead != null && pghead[0] > num - 1;
      EmptyHead(Head());
      NoRunIsNoneFree(Head(), View(), num);
      if tried {
        i := FindRun(pghead, num);
        if i > 0 {
          LowestRunIsLowestFree(Head(), View(), num, pghead[i]);
        } else {
          NoRunFound(Head(), num);
        }
      } else {
        i := 0;
        ShortListHasNoRun(Head(), num);
      }
    }

    // "Do not fetch more if the record will be too recent": the cached oldest reader decides
    // until it is in the way; then the readers are looked at, once.
    method TooRecent(last: Txnid, oldest: Txnid, foundOld: bool, scan: Txnid) returns (stop: bool, oldest': Txnid, foundOld': bool)
      requires oldest == pgoldest && (foundOld ==> pgoldest == scan)
      modifies this`pgoldest
      ensures oldest' == pgoldest == (if foundOld' then scan else old(pgoldest))
      ensures stop <==> pgoldest <= last
      ensures foundOld ==> foundOld'
      ensures stop ==> foundOld'
    {
      stop, oldest', foundOld' := false, oldest, foundOld;
      if oldest <= last {
        if !foundOld {
          oldest', pgoldest, foundOld' := scan, scan, true;
        }
        stop := oldest' <= last;
      }
    }

    // One fetch: the next record moves into me_pghead, unless there is none or it is too recent.
    method FetchNext(at: nat, first: bool, foundOld: bool, scan: Txnid) returns (fetched: bool, at': nat, foundOld': bool)
      requires Valid() && (if first then at == 0 else at < |freeDb| && freeDb[at].key == pglast)
      requires foundOld ==> pgoldest == scan
      modifies this`pghead, this`pglast, this`pgoldest, pghead
      ensures Valid() && (pghead == old(pghead) || fresh(pghead))
      ensures pgoldest == if foundOld' then scan else old(pgoldest)
      ensures foundOld ==> foundOld'
      ensures fetched ==> at' < |freeDb| && pglast == freeDb[at'].key < pgoldest && (!first ==> at < at')
      ensures fetched ==> CanRead(old(View()), pglast) && View() == Read(old(View()), pglast)
      ensures !fetched ==> View() == old(View()) && Head() == old(Head()) && forall k :: Unread(View(), k) ==> pgoldest <= k
    {
      hide Partition, KeyOrder, RecordMap, Members, StrictlyDescending, Distinct, CanRead, Read, Unread;
      fetched, at', foundOld' := false, at, foundOld;
      var stop, oldest;
      var last := pglast + 1;
      stop, oldest, foundOld' := TooRecent(last, pgoldest, foundOld, scan);
      if stop {
        UnreadFrom(View(), last);
        return;
      }
      at' := NextRecord(at, first);
      if at' >= |freeDb| {
        NoneUnread(freeDb, View());
        return;
      }
      last := freeDb[at'].key;
      NextToRead(freeDb, View(), at');
      stop, oldest, foundOld' := TooRecent(last, oldest, foundOld', scan);
      if stop {
        SmallestUnread(View(), last);
        return;
      }
      FetchRecord(at');
      fetched := true;
    }

    // The fetch loop of mdb_page_alloc: search me_pghead, and as long as that fails move in
    // the next record that is older than every reader.
    method FindPages(num: nat, scan: Txnid) returns (i: nat, ghost ks: seq<Txnid>)
      requires Valid() && 0 < num
      modifies this`pghead, this`pglast, this`pgoldest, pghead
      ensures Valid() && CanReadAll(old(View()), ks) && View() == ReadAll(old(View()), ks)
      ensures forall k :: k in ks ==> k < old(pgoldest) || k < scan == pgoldest
      ensures pghead == old(pghead) || fresh(pghead)
      ensures i > 0 ==> pghead != null && num <= i <= pghead[0] && pghead[i + 1 - num] == pghead[i] + num - 1
      ensures pgoldest == old(pgoldest) || pgoldest == scan
      ensures Needed(old(View()), ks, num)
      ensures if i > 0 then LowestFree(View(), num, pghead[i]) else NoneFree(View(), num)
      ensures i == 0 ==> |ks| >= 60 * num || forall k :: Unread(View(), k) ==> pgoldest <= k
    {
      hide Partition, KeyOrder, RecordMap, Members, StrictlyDescending, Distinct, NoRunIn, CanRead, Read, Unread, CanReadAll, ReadAll, Needed, LowestFree, NoneFree;
      ghost var w := View();
      ReadNone(w);
      NoneNeeded(w, num);
      var retry, at: nat := num * 60, 0;
      var foundOld, first, fetched := false, true, true;
      ks := [];
      while true
        invariant Valid() && CanReadAll(w, ks) && View() == ReadAll(w, ks)
        invariant pghead == old(pghead) || fresh(pghead)
        invariant pgoldest == if foundOld then scan else old(pgoldest)
        invariant if first then at == 0 else at < |freeDb| && pglast == freeDb[at].key
        invariant forall k :: k in ks ==> k < old(pgoldest) || k < scan == pgoldest
        invariant Needed(w, ks, num) && retry + |ks| >= 60 * num && retry >= 0
        decreases |freeDb| - at, first
      {
        var tried;
        i, tried := SearchHead(num);
        if i > 0 {
          return;
        }
        if tried {
          retry := retry - 1;
          if retry < 0 {
            return;
          }
        }
        fetched, at, foundOld := FetchNext(at, first, foundOld, scan);
        if !fetched {
          return;
        }
        first := false;
        NeededOneMore(w, ks, pglast, num);
        ReadOneMore(w, ks, pglast);
        ks := ks + [pglast];
      }
    }

    // mdb_page_alloc. scan is what mdb_find_oldest returns if it is asked. The pages found are
    // not linked anywhere yet.
    method PageAlloc(num: nat, scan: Txnid) returns (rc: Rc, pgno: Id, ghost src: Source, ghost ks: seq<Txnid>)
      requires Valid() && 0 < num
      modifies this`pghead, this`pglast, this`pgoldest, this`loose, this`own, this`nextPgno, this`dirtyRoom, this`error, pghead
      ensures Lists() && CanReadAll(old(View()), ks)
      ensures rc == Success ==> CanTake(ReadAll(old(View()), ks), src, pgno, num) && View() == Take(ReadAll(old(View()), ks), src, pgno, num)
      ensures rc != Success ==> error && View() == ReadAll(old(View()), ks)
      ensures Searched(old(View()), ks, num, rc, src, pgno, pgoldest)
      ensures pgoldest == old(pgoldest) || pgoldest == scan
      ensures forall k :: k in ks ==> k < old(pgoldest) || k < scan == pgoldest
      ensures rc == TxnFull <==> old(dirtyRoom) == 0 && !(num == 1 && old(loose) != [])
      ensures rc == MapFull <==>
                && old(dirtyRoom) > 0 && !(num == 1 && old(loose) != [])
                && old(nextPgno) + num >= maxPg && NoneFree(ReadAll(old(View()), ks), num)
      ensures rc == Success && src == FromLoose ==> pgno == old(loose)[0] && loose == old(loose)[1..]
      ensures dirtyRoom == old(dirtyRoom) - (if rc == Success && src != FromLoose then 1 else 0)
      ensures error == (old(error) || rc != Success)
      ensures pghead == old(pghead) || fresh(pghead)
    {
      hide Partition, KeyOrder, RecordMap, Members, StrictlyDescending, Distinct, CanReadAll, ReadAll, Read, Range, NoneFree, LowestFree, Needed, Unread, Searched, Take, CanTake, RunEndsAt;
      ghost var was := View();
      ReadNone(was);
      NoneNeeded(was, num);
      ks, pgno, src := [], 0, FromMap;
      if num == 1 && loose != [] {
        pgno := loose[0];
        TakeLooseView(was, loose);
        NoSearch(was, num, Success, FromLoose, pgno, pgoldest);
        loose := loose[1..];
        return Success, pgno, FromLoose, ks;
      }
      if dirtyRoom == 0 {
        error := true;
        NoSearch(was, num, TxnFull, src, pgno, pgoldest);
        return TxnFull, pgno, src, ks;
      }
      NoLoosePages(loose);
      var i;
      i, ks := FindPages(num, scan);
      rc, pgno, src := TakeFound(i, num, was, ks);
    }

    // The end of mdb_page_alloc: the run at position i, or new pages if i is 0.
    method TakeFound(i: nat, num: nat, ghost w: Writer, ghost ks: seq<Txnid>) returns (rc: Rc, pgno: Id, ghost src: Source)
      requires Valid() && 0 < num && (num == 1 ==> loose == []) && dirtyRoom > 0
      requires CanReadAll(w, ks) && View() == ReadAll(w, ks) && Needed(w, ks, num)
      requires if i > 0 then pghead != null && num <= i <= pghead[0] && pghead[i + 1 - num] == pghead[i] + num - 1 && LowestFree(View(), num, pghead[i])
               else NoneFree(View(), num) && (|ks| >= 60 * num || forall k :: Unread(View(), k) ==> pgoldest <= k)
      modifies this`own, this`nextPgno, this`dirtyRoom, this`error, pghead
      ensures Lists()
      ensures rc == Success || rc == MapFull
      ensures rc == Success ==> CanTake(ReadAll(w, ks), src, pgno, num) && View() == Take(ReadAll(w, ks), src, pgno, num) && src != FromLoose
      ensures rc == MapFull ==> View() == old(View())
      ensures Searched(w, ks, num, rc, src, pgno, pgoldest)
      ensures rc == MapFull <==> old(nextPgno) + num >= maxPg && NoneFree(ReadAll(w, ks), num)
      ensures dirtyRoom == old(dirtyRoom) - (if rc == Success then 1 else 0)
      ensures error == (old(error) || rc != Success)
    {
      hide Partition, KeyOrder, RecordMap, Members, StrictlyDescending, Distinct, CanReadAll, ReadAll, Read, Range, NoneFree, LowestFree, Needed, Unread, Searched, Take, CanTake;
      if i > 0 {
        RunFound(w, ks, num, pghead[i], pgoldest);
        pgno := TakeFromHead(i, num);
        src := FromHead;
      } else {
        NoneFound(w, ks, num, nextPgno, pgoldest);
        src := FromMap;
        var full;
        full, pgno := TakeFromMap(num);
        if full {
          return MapFull, pgno, src;
        }
      }
      dirtyRoom := dirtyRoom - 1;  // mdb_page_dirty
      rc := Success;
    }

    // mdb_page_new: allocated pages are linked into a tree.
    method PageNew(num: nat, scan: Txnid) returns (rc: Rc, pgno: Id, ghost src: Source, ghost ks: seq<Txnid>)
      requires Valid() && 0 < num
      modifies this`pghead, this`pglast, this`pgoldest, this`loose, this`own, this`nextPgno, this`dirtyRoom, this`error, this`tree, pghead
      ensures Valid() && CanReadAll(old(View()), ks) && (pghead == old(pghead) || fresh(pghead))
      ensures rc == Success ==> CanTake(ReadAll(old(View()), ks), src, pgno, num) && View() == NewPages(ReadAll(old(View()), ks), src, pgno, num)
      ensures rc != Success ==> View() == ReadAll(old(View()), ks)
      ensures Searched(old(View()), ks, num, rc, src, pgno, pgoldest)
      ensures forall k :: k in ks ==> k < old(pgoldest) || k < scan == pgoldest
      ensures dirtyRoom == old(dirtyRoom) - (if rc == Success && src != FromLoose then 1 else 0)
      ensures error == (old(error) || rc != Success)
    {
      hide Partition, KeyOrder, RecordMap, StrictlyDescending, Distinct, CanReadAll, ReadAll, Searched;
      ghost var w := View();
      rc, pgno, src, ks := PageAlloc(num, scan);
      ReadAllKeepsPartition(w, ks);
      if rc == Success {
        NewPagesKeepsPartition(ReadAll(w, ks), src, pgno, num);
        tree := tree + Range(pgno, num);
      }
    }

    // mdb_page_touch of a page this transaction has not written: a new page takes its place.
    method PageTouch(from: Id, scan: Txnid) returns (rc: Rc, pgno: Id, ghost src: Source, ghost ks: seq<Txnid>)
      requires Valid() && from in tree && from !in own
      modifies this`pghead, this`pglast, this`pgoldest, this`loose, this`own, this`nextPgno, this`dirtyRoom, this`error, this`tree, this`freePgs, pghead
      ensures Valid() && CanReadAll(old(View()), ks) && (pghead == old(pghead) || fresh(pghead))
      ensures rc == Success ==> pgno != from && CanTake(ReadAll(old(View()), ks), src, pgno, 1)
      ensures rc == Success ==> View() == Touch(ReadAll(old(View()), ks), from, src, pgno)
      ensures rc != Success ==> View() == ReadAll(old(View()), ks)
      ensures Searched(old(View()), ks, 1, rc, src, pgno, pgoldest)
      ensures forall k :: k in ks ==> k < old(pgoldest) || k < scan == pgoldest
      ensures dirtyRoom == old(dirtyRoom) - (if rc == Success && src != FromLoose then 1 else 0)
      ensures error == (old(error) || rc != Success)
    {
      hide Partition, KeyOrder, RecordMap, StrictlyDescending, CanReadAll, ReadAll, Members, Distinct, Searched;
      ghost var w := View();
      rc, pgno, src, ks := PageAlloc(1, scan);
      ReadAllKeepsPartition(w, ks);
      if rc == Success {
        TouchKeepsPartition(ReadAll(w, ks), from, src, pgno);
        TouchedApart(ReadAll(w, ks), from, src, pgno);
        AppendOne(freePgs, from);
        freePgs := freePgs + [from];
        tree := tree - {from} + {pgno};
      }
    }

    // mdb_page_loose: a page this transaction wrote can be reused at once, unless it belongs
    // to the free-page database; any other page waits in mt_free_pgs.
    method PageLoose(p: Id, dirty: bool, inFreeDb: bool)
      requires Valid() && p in tree && (dirty ==> p in own)
      modifies this`loose, this`freePgs, this`tree
      ensures Valid()
      ensures View() == if dirty && !inFreeDb then Loosen(old(View()), p) else Free(old(View()), {p})
      ensures loose == if dirty && !inFreeDb then [p] + old(loose) else old(loose)
    {
      hide Partition, KeyOrder, RecordMap, StrictlyDescending, Members, Distinct;
      ghost var w := View();
      InTreeOnly(w, {p});
      if dirty && !inFreeDb {
        LeavingTreeKeepsPartition(w, Loosen(w, p), {p});
        PushMembers(loose, p);
        loose := [p] + loose;
      } else {
        LeavingTreeKeepsPartition(w, Free(w, {p}), {p});
        AppendOne(freePgs, p);
        freePgs := freePgs + [p];
      }
      tree := tree - {p};
    }

    // mdb_ovpage_free: a run this transaction wrote goes back into me_pghead, if there is one.
    method OvpageFree(pg: Id, num: nat, ours: bool)
      requires Valid() && 0 < num && Range(pg, num) <= tree && (ours ==> Range(pg, num) <= own)
      modifies this`pghead, this`freePgs, this`tree, pghead
      ensures Valid() && (pghead == old(pghead) || fresh(pghead))
      ensures View() == if old(pghead) != null && ours then GiveBack(old(View()), Range(pg, num)) else Free(old(View()), Range(pg, num))
    {
      hide Partition, KeyOrder, RecordMap, StrictlyDescending, Members, Distinct;
      ghost var w := View();
      ghost var run := Range(pg, num);
      assert pg + num - 1 in run;
      hide Range, RangeDesc, WithRun, Reclaimed;
      InTreeOnly(w, run);
      if pghead != null && ours {
        LeavingTreeKeepsPartition(w, GiveBack(w, run), run);
        ghost var s := Head();
        RunPut(s, pg, num);
        pghead := Need(pghead, num);
        PutRun(pghead, pg, num);
      } else {
        LeavingTreeKeepsPartition(w, Free(w, run), run);
        RangeMembers(pg, num);
        AppendMembers(freePgs, RangeDesc(pg, num));
        freePgs := freePgs + RangeDesc(pg, num);
      }
      tree := tree - run;
    }

    // The loose pages join me_pghead.
    method MergeLoose()
      requires Lists() && pghead != null && |loose| <= MAX_SORT
      requires Members(loose) !! Members(Head()) && forall p :: p in loose ==> p <= MAX_ID
      modifies this`pghead, this`loose, pghead
      ensures Lists() && pghead != null && (pghead == old(pghead) || fresh(pghead))
      ensures View() == old(View()).(head := Some(Members(old(Head())) + Members(old(loose))), loose := {})
      ensures |Head()| == old(|Head()| + |loose|)
      ensures freeDb == old(freeDb) && freePgs == old(freePgs) && pglast == old(pglast) && loose == []
    {
      hide KeyOrder, RecordMap, Members, Distinct, StrictlyDescending, Descending;
      ghost var x, y := Head(), loose;
      StrictIsDescending(x);
      pghead := ReturnLoose(pghead, loose);
      MergedIsStrict(x, y, Head());
      loose := [];
      NoLoosePages(loose);
    }

    // Before the records are sized, loose pages that cannot be returned are freed.
    method FreeLoosePages()
      requires Valid()
      modifies this`freePgs, this`loose
      ensures Valid() && View() == if pghead == null then FreeLoose(old(View())) else old(View())
      ensures |freePgs| <= old(|freePgs| + |loose|)
      ensures if pghead == null then loose == [] else loose == old(loose)
    {
      hide Partition, KeyOrder, RecordMap, Members, Distinct, StrictlyDescending;
      ghost var w := View();
      LooseApart(w, loose);
      if pghead == null {
        AppendMembers(freePgs, loose);
        FreeLooseKeepsPartition(w);
        freePgs := freePgs + loose;
        loose := [];
        NoLoosePages(loose);
      }
    }

    // Loose pages are returned before the records are written.
    method SettleLoose()
      requires Lists() && Partition(View()) && |loose| <= MAX_SORT
      modifies this`pghead, this`loose, this`freePgs, pghead
      ensures Lists() && loose == [] && (pghead == old(pghead) || fresh(pghead)) && (pghead == null <==> old(pghead) == null)
      ensures freeDb == old(freeDb) && pglast == old(pglast) && |freePgs| <= old(|freePgs| + |loose|)
      ensures Members(freePgs) == FreedAtSave(old(View()))
      ensures pghead != null ==> Members(Head()) == old(Members(Head()) + Members(loose)) && |Head()| == old(|Head()| + |loose|)
      ensures tree == old(tree) && own == old(own) && nextPgno == old(nextPgno)
    {
      hide Partition, KeyOrder, RecordMap, Members, Distinct, StrictlyDescending;
      LooseApart(View(), loose);
      FreeLoosePages();
      if pghead != null {
        MergeLoose();
      }
    }

    // mdb_freelist_save once its reservations have settled: the records that were read are
    // gone, reserved stands in for them, and their room is to take me_pghead and the loose
    // pages. found is false if it cannot.
    method FreelistSave(reserved: seq<Reservation>) returns (found: bool)
      requires Valid() && OldRecords(View())
      requires |freePgs| + |loose| <= MAX_SORT
      requires ReservedOk(reserved, pglast) && (pghead == null ==> reserved == [])
      modifies this`pghead, this`pglast, this`freePgs, this`loose, this`freeDb, pghead
      ensures found <==> old(if pghead == null then 0 else |Head()| + |loose|) <= Sum(Rooms(reserved))
      ensures found ==> Valid() && exists left :: CanSave(old(View()), left) && View() == Save(old(View()), left)
    {
      hide Partition, KeyOrder, RecordMap, Members, Distinct, StrictlyDescending, OldRecords, ReservedOk, CanSave;
      ghost var w := View();
      SettleLoose();
      var sorted := SortIds(freePgs);
      var recs: seq<seq<Id>> := [];
      found := true;
      if pghead != null {
        recs, found := FillRecords(pghead, Rooms(reserved));
      }
      ghost var head := Head();
      EmptyHead(head);
      if found {
        var i := SeekRecord(pglast + 1);
        SavedDb(w, freeDb, i, reserved, recs, head, sorted);
        freeDb := Filled(reserved, recs) + freeDb[i..] + OwnRecord(id, sorted);
        pghead, pglast, freePgs := null, 0, [];
        NoLoosePages(freePgs);
        ghost var left := RecordMap(Filled(reserved, recs));
        SaveKeepsPartition(w, left);
        assert View() == Save(w, left);
      }
    }
  }

  method SortIds(ids: seq<Id>) returns (sorted: seq<Id>)
    requires Distinct(ids) && |ids| <= MAX_SORT
    ensures StrictlyDescending(sorted) && Members(sorted) == Members(ids) && (sorted == [] <==> ids == [])
  {
    hide Distinct, StrictlyDescending, Descending, Members;
    var a := ListOf(ids);
    MidlSort.Sort(a);
    sorted := a[1..a[0] + 1];
    NoLoosePages(sorted);
    EmptyHead([]);
    MergedIsStrict([], ids, sorted);
  }

  function Filled(reserved: seq<Reservation>, recs: seq<seq<Id>>): (db: seq<Record>)
    ensures |db| == |reserved|
  {
    seq(|reserved|, i requires 0 <= i < |reserved| => Record(reserved[i].key, if i < |recs| then recs[i] else []))
  }

  lemma LooseApart(w: Writer, loose: seq<Id>)
    requires Partition(w) && w.loose == Members(loose)
    ensures Members(loose) !! Reclaimed(w) && Members(loose) !! w.freed
    ensures forall p :: p in loose ==> p < w.next
  {
    forall p | p in loose
      ensures p < w.next
    {
      assert p in w.loose && Somewhere(w, p);
    }
  }

  lemma {:induction false} RecordMapConcat(a: seq<Record>, b: seq<Record>)
    ensures RecordMap(a + b) == RecordMap(a) + RecordMap(b)
  {
    if b == [] {
      assert a + b == a;
    } else {
      assert (a + b)[..|a + b| - 1] == a + b[..|b| - 1];
      RecordMapConcat(a, b[..|b| - 1]);
    }
  }

  // The records after the ones that were read are the unread ones.
  lemma UnreadSuffix(w: Writer, db: seq<Record>, i: nat)
    requires KeyOrder(db) && w.records == RecordMap(db) && i <= |db|
    requires forall j :: 0 <= j < i ==> db[j].key <= w.last
    requires i < |db| ==> w.last < db[i].key
    ensures KeyOrder(db[i..]) && forall j :: 0 <= j < |db[i..]| ==> w.last < db[i..][j].key
    ensures RecordMap(db[i..]) == map k | k in w.records && w.last < k :: w.records[k]
  {
    hide RecordMap, Members, StrictlyDescending;
    var t := db[i..];
    forall k | k in RecordMap(t)
      ensures k in w.records && w.last < k && RecordMap(t)[k] == w.records[k]
    {
      var j := KeyIndex(t, k);
      RecordAt(t, j);
      RecordAt(db, i + j);
    }
    forall k | k in w.records && w.last < k
      ensures k in RecordMap(t)
    {
      var j := KeyIndex(db, k);
      RecordAt(t, j - i);
    }
  }

  // The refilled records hold exactly the pages of me_pghead, each once.
  lemma FilledRecords(reserved: seq<Reservation>, recs: seq<seq<Id>>, head: seq<Id>, last: Txnid)
    requires ReservedOk(reserved, last) && |recs| <= |reserved| && Gathered(recs) == head && StrictlyDescending(head)
    ensures var db := Filled(reserved, recs); KeyOrder(db)
    ensures var left := RecordMap(Filled(reserved, recs));
      && (forall k :: k in left ==> 0 < k <= last)
      && (forall k, m :: k in left && m in left && k != m ==> left[k] !! left[m])
      && (forall p: Pgno :: InSome(left, p) <==> p in Members(head))
  {
    FilledOrder(reserved, recs, last);
    hide KeyOrder, RecordMap, Gathered, StrictlyDescending, ReservedOk, Filled, Members;
    var db := Filled(reserved, recs);
    var left := RecordMap(db);
    forall k | k in left
      ensures 0 < k <= last
    {
      var i := KeyIndex(db, k);
    }
    forall k, m | k in left && m in left && k != m
      ensures left[k] !! left[m]
    {
      FilledApart(reserved, recs, k, m);
    }
    forall p: Pgno
      ensures InSome(left, p) <==> p in Members(head)
    {
      FilledMembers(reserved, recs, p);
    }
  }

  lemma FilledOrder(reserved: seq<Reservation>, recs: seq<seq<Id>>, last: Txnid)
    requires ReservedOk(reserved, last) && |recs| <= |reserved| && StrictlyDescending(Gathered(recs))
    ensures var db := Filled(reserved, recs);
            KeyOrder(db) && forall i :: 0 <= i < |db| ==> 0 < db[i].key <= last
  {
    hide Gathered;
    var db := Filled(reserved, recs);
    forall i | 0 <= i < |db|
      ensures StrictlyDescending(db[i].ids)
    {
      if i < |recs| {
        GatheredParts(recs, i);
      }
    }
  }

  lemma FilledApart(reserved: seq<Reservation>, recs: seq<seq<Id>>, k: Txnid, m: Txnid)
    requires KeyOrder(Filled(reserved, recs)) && |recs| <= |reserved| && StrictlyDescending(Gathered(recs)) && k != m
    requires k in RecordMap(Filled(reserved, recs)) && m in RecordMap(Filled(reserved, recs))
    ensures RecordMap(Filled(reserved, recs))[k] !! RecordMap(Filled(reserved, recs))[m]
  {
    hide RecordMap, StrictlyDescending, KeyOrder, Gathered;
    var db := Filled(reserved, recs);
    var i := KeyIndex(db, k);
    var j := KeyIndex(db, m);
    RecordAt(db, i);
    RecordAt(db, j);
    if i < |recs| && j < |recs| {
      GatheredParts(recs, if i < j then i else j);
    }
  }

  lemma FilledMembers(reserved: seq<Reservation>, recs: seq<seq<Id>>, p: Pgno)
    requires KeyOrder(Filled(reserved, recs)) && |recs| <= |reserved|
    ensures InSome(RecordMap(Filled(reserved, recs)), p) <==> p in Gathered(recs)
  {
    hide RecordMap, KeyOrder, Gathered;
    var db := Filled(reserved, recs);
    var left := RecordMap(db);
    if p in Gathered(recs) {
      var i := PartOf(recs, p);
      RecordAt(db, i);
      assert db[i].key in left && p in left[db[i].key];
    }
    if InSome(left, p) {
      var k :| k in left && p in left[k];
      var i := KeyIndex(db, k);
      RecordAt(db, i);
      InGathered(recs, i, p);
    }
  }

  lemma {:induction false} PartOf(recs: seq<seq<Id>>, p: Id) returns (i: nat)
    requires p in Gathered(recs)
    ensures i < |recs| && p in recs[i]
  {
    if p in recs[0] {
      i := 0;
    } else {
      i := PartOf(recs[1..], p);
      i := i + 1;
    }
  }

  // The new free-page database is the one Save describes.
  lemma SavedDb(w: Writer, db: seq<Record>, i: nat, reserved: seq<Reservation>, recs: seq<seq<Id>>, head: seq<Id>, sorted: seq<Id>)
    requires KeyOrder(db) && w.records == RecordMap(db) && i <= |db| && OldRecords(w) && Partition(w)
    requires forall j :: 0 <= j < i ==> db[j].key <= w.last
    requires i < |db| ==> w.last < db[i].key
    requires ReservedOk(reserved, w.last) && |recs| <= |reserved| && Gathered(recs) == head && StrictlyDescending(head)
    requires if w.head.None? then reserved == [] else Members(head) == w.head.pages + w.loose
    requires StrictlyDescending(sorted) && Members(sorted) == FreedAtSave(w)
    ensures CanSave(w, RecordMap(Filled(reserved, recs)))
    ensures var r := Filled(reserved, recs) + db[i..] + OwnRecord(w.id, sorted);
      KeyOrder(r) && RecordMap(r) == Save(w, RecordMap(Filled(reserved, recs))).records
  {
    hide KeyOrder, RecordMap, Members, StrictlyDescending, Gathered, Partition, OldRecords, ReservedOk, CanSave, FreedRecord, OwnRecord;
    var f, u, own := Filled(reserved, recs), db[i..], OwnRecord(w.id, sorted);
    FilledRecords(reserved, recs, head, w.last);
    FilledKeys(reserved, recs, w.last);
    UnreadSuffix(w, db, i);
    NoReservations(reserved, recs);
    LeftIsSaved(w, RecordMap(f), head);
    RecordMapConcat(f, u);
    RecordMapConcat(f + u, own);
    KeysBelow(w, db);
    OwnRecordMap(w, sorted);
    KeyOrderConcat(f, u, w.last);
    KeyOrderConcat(f + u, own, w.id - 1);
    SavedMaps(w, RecordMap(f), RecordMap(u), RecordMap(own));
  }

  lemma LeftIsSaved(w: Writer, left: map<Txnid, set<Pgno>>, head: seq<Id>)
    requires w.head.None? ==> left == map[]
    requires forall k :: k in left ==> 0 < k <= w.last
    requires forall k, m :: k in left && m in left && k != m ==> left[k] !! left[m]
    requires forall p: Pgno :: InSome(left, p) <==> p in Members(head)
    requires w.head.Some? ==> Members(head) == w.head.pages + w.loose
    ensures CanSave(w, left)
  {
  }

  lemma NoReservations(reserved: seq<Reservation>, recs: seq<seq<Id>>)
    ensures reserved == [] ==> RecordMap(Filled(reserved, recs)) == map[]
  {
  }

  function OwnRecord(id: Txnid, sorted: seq<Id>): seq<Record> {
    if sorted == [] then [] else [Record(id, sorted)]
  }

  lemma FilledKeys(reserved: seq<Reservation>, recs: seq<seq<Id>>, last: Txnid)
    requires ReservedOk(reserved, last)
    ensures forall i :: 0 <= i < |Filled(reserved, recs)| ==> Filled(reserved, recs)[i].key <= last
  {
  }

  lemma KeysBelow(w: Writer, db: seq<Record>)
    requires KeyOrder(db) && w.records == RecordMap(db) && OldRecords(w)
    ensures forall i :: 0 <= i < |db| ==> db[i].key < w.id
    ensures w.last < w.id
  {
    forall i | 0 <= i < |db|
      ensures db[i].key < w.id
    {
      RecordAt(db, i);
    }
  }

  lemma OwnRecordMap(w: Writer, sorted: seq<Id>)
    requires StrictlyDescending(sorted) && Members(sorted) == FreedAtSave(w) && w.last < w.id
    ensures RecordMap(OwnRecord(w.id, sorted)) == FreedRecord(w) && KeyOrder(OwnRecord(w.id, sorted))
    ensures forall i :: 0 <= i < |OwnRecord(w.id, sorted)| ==> OwnRecord(w.id, sorted)[i].key == w.id
  {
    if sorted != [] {
      assert sorted[0] in Members(sorted);
      assert RecordMap([]) == map[];
    }
  }

  lemma KeyOrderConcat(a: seq<Record>, b: seq<Record>, mid: Txnid)
    requires KeyOrder(a) && KeyOrder(b)
    requires forall i :: 0 <= i < |a| ==> a[i].key <= mid
    requires forall i :: 0 <= i < |b| ==> mid < b[i].key
    ensures KeyOrder(a + b)
  {
  }

  lemma SavedMaps(w: Writer, left: map<Txnid, set<Pgno>>, unread: map<Txnid, set<Pgno>>, own: map<Txnid, set<Pgno>>)
    requires CanSave(w, left) && own == FreedRecord(w)
    requires unread == map k | k in w.records && w.last < k :: w.records[k]
    ensures Save(w, left).records == left + unread + own
  {
    assert left.Keys !! unread.Keys;
    assert unread + left == left + unread;
  }

  // A record kept for me_pghead, with room for so many pages.
  datatype Reservation = Reservation(key: Txnid, room: nat)

  ghost predicate ReservedOk(reserved: seq<Reservation>, last: Txnid) {
    && (forall i :: 0 <= i < |reserved| ==> 0 < reserved[i].key <= last)
    && (forall i, j :: 0 <= i < j < |reserved| ==> reserved[i].key < reserved[j].key)
  }

  function Rooms(reserved: seq<Reservation>): (r: seq<nat>)
    ensures |r| == |reserved|
  {
    seq(|reserved|, i requires 0 <= i < |reserved| => reserved[i].room)
  }

  lemma StrictIsDescending(s: seq<Id>)
    requires StrictlyDescending(s)
    ensures Descending(s)
  {
  }

  lemma {:induction false} DistinctOnce(s: seq<Id>, v: Id)
    requires Distinct(s)
    ensures multiset(s)[v] == if v in Members(s) then 1 else 0
  {
    if s != [] {
      assert s == [s[0]] + s[1..];
      DistinctOnce(s[1..], v);
      assert v in Members(s) <==> v == s[0] || v in Members(s[1..]);
      assert s[0] !in Members(s[1..]) by {
        forall i | 0 <= i < |s[1..]|
          ensures s[1..][i] != s[0]
        {
          assert s[0] != s[i + 1];
        }
      }
    }
  }

  lemma StrictFromOnce(s: seq<Id>)
    requires Descending(s) && forall v :: multiset(s)[v] <= 1
    ensures StrictlyDescending(s)
  {
    forall i, j | 0 <= i < j < |s|
      ensures s[i] > s[j]
    {
      NotTwice(s, i, j);
    }
  }

  lemma StrictIsDistinct(s: seq<Id>)
    requires StrictlyDescending(s)
    ensures Distinct(s)
  {
  }

  lemma MergedIsStrict(x: seq<Id>, y: seq<Id>, r: seq<Id>)
    requires StrictlyDescending(x) && Distinct(y) && Members(x) !! Members(y)
    requires Descending(r) && multiset(r) == multiset(x) + multiset(y)
    ensures StrictlyDescending(r) && Members(r) == Members(x) + Members(y) && |r| == |x| + |y|
  {
    StrictIsDistinct(x);
    forall v
      ensures multiset(r)[v] <= 1 && (v in r <==> v in Members(x) + Members(y))
    {
      DistinctOnce(x, v);
      DistinctOnce(y, v);
      assert v in r <==> multiset(r)[v] > 0;
    }
    StrictFromOnce(r);
    assert |r| == |multiset(r)| == |multiset(x)| + |multiset(y)|;
  }

  lemma ReadNone(w: Writer)
    ensures CanReadAll(w, []) && ReadAll(w, []) == w
  {
  }

  lemma NoLoosePages(loose: seq<Id>)
    ensures loose == [] ==> Members(loose) == {} && Distinct(loose)
  {
  }

  lemma NoRunFound(s: seq<Id>, num: nat)
    requires forall p :: !HasRun(s, p, num)
    ensures NoRunIn(s, num)
  {
  }

  lemma ShortListHasNoRun(s: seq<Id>, num: nat)
    requires StrictlyDescending(s) && |s| < num
    ensures NoRunIn(s, num)
  {
    forall p
      ensures !HasRun(s, p, num)
    {
      if HasRun(s, p, num) {
        var k := ConsecutiveIsRun(s, p, num);
      }
    }
  }

  lemma UnreadFrom(w: Writer, k: Txnid)
    requires k == w.last + 1
    ensures forall m :: Unread(w, m) ==> k <= m
  {
  }

  lemma SmallestUnread(w: Writer, k: Txnid)
    requires CanRead(w, k)
    ensures forall m :: Unread(w, m) ==> k <= m
  {
  }

  lemma NoneUnread(db: seq<Record>, w: Writer)
    requires KeyOrder(db) && w.records == RecordMap(db)
    requires forall j :: 0 <= j < |db| ==> db[j].key <= w.last
    ensures forall m :: !Unread(w, m)
  {
    forall m
      ensures !Unread(w, m)
    {
      if m in w.records {
        var j := KeyIndex(db, m);
      }
    }
  }

  lemma TouchedApart(w: Writer, from: Id, src: Source, p: Id)
    requires Partition(w) && CanTake(w, src, p, 1) && from in w.tree
    ensures from !in w.freed && from != p
  {
    TakenPagesUnused(w, src, p, 1);
  }

  lemma InTreeOnly(w: Writer, pages: set<Pgno>)
    requires Partition(w) && pages <= w.tree
    ensures pages !! w.freed && pages !! w.loose && pages !! Reclaimed(w)
    ensures forall p :: p in pages ==> p < w.next
  {
    forall p | p in pages
      ensures p < w.next
    {
      assert Somewhere(w, p);
    }
  }

  lemma AppendMembers(s: seq<Id>, t: seq<Id>)
    requires Distinct(s) && Distinct(t) && Members(s) !! Members(t)
    ensures Distinct(s + t) && Members(s + t) == Members(s) + Members(t)
  {
    var r := s + t;
    forall i, j | 0 <= i < j < |r|
      ensures r[i] != r[j]
    {
      if i < |s| <= j {
        assert r[i] in Members(s) && r[j] in Members(t);
      }
    }
  }

  lemma AppendOne(s: seq<Id>, p: Id)
    requires Distinct(s) && p !in Members(s)
    ensures Distinct(s + [p]) && Members(s + [p]) == Members(s) + {p}
  {
    assert Members([p]) == {p};
    AppendMembers(s, [p]);
  }

  lemma PushMembers(s: seq<Id>, p: Id)
    requires Distinct(s) && p !in Members(s)
    ensures Distinct([p] + s) && Members([p] + s) == Members(s) + {p}
  {
    AppendMembers([p], s);
    assert Members([p]) == {p};
  }

  lemma RangeMembers(pg: Id, num: nat)
    requires pg + num <= MAX_ID + 1
    ensures Distinct(RangeDesc(pg, num)) && Members(RangeDesc(pg, num)) == Range(pg, num)
  {
    var r := RangeDesc(pg, num);
    forall q: Pgno | pg <= q < pg + num
      ensures q in r
    {
      assert r[pg + num - 1 - q] == q;
    }
  }

  lemma RunPut(s: seq<Id>, pg: Id, num: nat)
    requires StrictlyDescending(s) && 0 < num && pg + num <= MAX_ID + 1 && Members(s) !! Range(pg, num)
    ensures StrictlyDescending(WithRun(s, pg, num)) && Members(WithRun(s, pg, num)) == Members(s) + Range(pg, num)
  {
    forall q | pg <= q < pg + num
      ensures q !in s
    {
      assert q in Range(pg, num);
    }
    TakeUndoesPut(s, pg, num);
  }

  lemma TakeLooseView(w: Writer, loose: seq<Id>)
    requires loose != [] && Distinct(loose) && w.loose == Members(loose)
    ensures Distinct(loose[1..]) && CanTake(w, FromLoose, loose[0], 1)
    ensures Take(w, FromLoose, loose[0], 1) == w.(loose := Members(loose[1..]))
  {
    assert loose == [loose[0]] + loose[1..];
    assert Members(loose) - {loose[0]} == Members(loose[1..]);
  }

  lemma TakenRun(s: seq<Id>, k: nat, num: nat)
    requires StrictlyDescending(s) && RunEndsAt(s, k, num)
    ensures StrictlyDescending(WithoutRun(s, k + 1, num))
    ensures Range(s[k], num) <= Members(s) && Members(WithoutRun(s, k + 1, num)) == Members(s) - Range(s[k], num)
  {
    RunIsConsecutive(s, k, num);
    TakeRemovesExactlyRun(s, k, num);
  }

  lemma EmptyHead(x: seq<Id>)
    ensures x == [] ==> StrictlyDescending(x) && Members(x) == {}
  {
  }

  // The pages of an unread record are on file, and not in me_pghead.
  lemma RecordPages(w: Writer, db: seq<Record>, i: nat)
    requires Partition(w) && KeyOrder(db) && w.records == RecordMap(db) && i < |db| && w.last < db[i].key
    ensures Members(db[i].ids) !! Reclaimed(w) && StrictlyDescending(db[i].ids)
    ensures forall p :: p in db[i].ids ==> p < w.next
  {
    RecordAt(db, i);
    forall p | p in db[i].ids
      ensures p < w.next && p !in Reclaimed(w)
    {
      assert Unread(w, db[i].key) && p in w.records[db[i].key];
      assert InRecord(w, p) && Somewhere(w, p);
    }
  }

  // A record's data as the list it is.
  method ListOf(ids: seq<Id>) returns (idl: array<Id>)
    ensures fresh(idl) && IsIdl(idl) && Contents(idl) == ids
  {
    idl := new Id[|ids| + 1];
    idl[0] := |ids|;
    for k := 0 to |ids|
      invariant idl[0] == |ids| && forall m :: 0 <= m < k ==> idl[m + 1] == ids[m]
    {
      idl[k + 1] := ids[k];
    }
    assert idl[1..|ids| + 1] == ids;
  }

  lemma NextToRead(db: seq<Record>, w: Writer, i: nat)
    requires KeyOrder(db) && w.records == RecordMap(db) && i < |db| && w.last < db[i].key
    requires forall j :: 0 <= j < i ==> db[j].key <= w.last
    ensures CanRead(w, db[i].key) && w.records[db[i].key] == Members(db[i].ids)
  {
    RecordAt(db, i);
    hide RecordMap, Members;
    forall m | Unread(w, m)
      ensures db[i].key <= m
    {
      var j := KeyIndex(db, m);
    }
  }
}
