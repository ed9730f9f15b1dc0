// What a committed version holds: the version before it, its pages renamed by the touches, and
// changed by the writes of the transaction alone.

module MvccContent {
  import opened Pages
  import opened Mvcc

  type Contents = map<Pgno, Content>

  // What a step of the transaction that is under way does to the pages of its trees, as it sees them.
  ghost function After(old_: Contents, a: Action): Contents {
    match a
    case Allocate(_, p, num, fill) => old_ + map q | q in Range(p, num) :: fill
    case TouchPage(from, _, p) => if from in old_ then (old_ - {from})[p := old_[from]] else old_
    case Modify(p, data) => if p in old_ then old_[p := data] else old_
    case LoosenPage(p) => old_ - {p}
    case FreePages(pages) => old_ - pages
    case GiveBackPages(pages) => old_ - pages
    case _ => old_
  }

  // The pages of the trees, as the transaction sees them.
  ghost function Sees(s: State): Contents
    requires s.writer.Writing?
  {
    Committed(s).pages
  }

  // A transaction begins with the last committed version.
  lemma BeginContent(s: State, env: nat)
    requires Inv(s) && Enabled(s, Begin(env))
    ensures Sees(Apply(s, Begin(env))) == s.snaps[s.lastTxn].pages
  {
    hide Partition, OldRecords, FreedLater, OutOfReach;
    MetaForReader(s, s.lastTxn);
    assert Needed(s, s.lastTxn) && Protected(s, s.lastTxn);
  }

  ghost predicate TreeAction(a: Action) {
    a.Allocate? || a.TouchPage? || a.Modify? || a.LoosenPage? || a.FreePages? || a.GiveBackPages?
  }

  lemma AllocateContent(s: State, a: Action)
    requires Inv(s) && Enabled(s, a) && a.Allocate?
    ensures Sees(Apply(s, a)) == After(Sees(s), a)
  {
    hide MetasOk, ReadersOk, OldestOk, CommittedOk, AllProtected, OldRecords;
    TakenPagesUnused(s.writer.w, a.src, a.p, a.num);
    hide Partition;
  }

  // The page touched has moved, with what it holds, and every other page is as it was.
  lemma TouchContent(s: State, a: Action)
    requires Inv(s) && Enabled(s, a) && a.TouchPage?
    ensures a.from in Sees(s) && a.p !in Sees(s)
    ensures Sees(Apply(s, a)) == (Sees(s) - {a.from})[a.p := Sees(s)[a.from]]
  {
    hide MetasOk, ReadersOk, OldestOk, CommittedOk, AllProtected, OldRecords;
    TakenPagesUnused(s.writer.w, a.src, a.p, 1);
    hide Partition;
    assert a.p in Range(a.p, 1);
  }

  lemma OtherContent(s: State, a: Action)
    requires Inv(s) && Enabled(s, a) && (a.Modify? || a.LoosenPage? || a.FreePages? || a.GiveBackPages?)
    ensures Sees(Apply(s, a)) == After(Sees(s), a)
  {
    hide MetasOk, ReadersOk, OldestOk, CommittedOk, AllProtected, OldRecords, Partition;
  }

  // No other step changes what the transaction sees, be it of a reader, the system or its own.
  lemma NoContent(s: State, a: Action)
    requires Inv(s) && Enabled(s, a) && s.writer.Writing? && !TreeAction(a)
    requires Apply(s, a).writer.Writing?
    ensures Sees(Apply(s, a)) == Sees(s)
  {
    hide MetasOk, ReadersOk, OldestOk, CommittedOk, AllProtected, OldRecords, Partition;
  }

  lemma StepContent(s: State, a: Action)
    requires Inv(s) && Enabled(s, a) && s.writer.Writing? && Apply(s, a).writer.Writing?
    ensures Sees(Apply(s, a)) == After(Sees(s), a)
  {
    hide Inv, Enabled, Apply, Committed;
    if a.Allocate? {
      AllocateContent(s, a);
    } else if a.TouchPage? {
      TouchContent(s, a);
    } else if TreeAction(a) {
      OtherContent(s, a);
    } else {
      NoContent(s, a);
    }
  }

  //// Over a whole transaction

  // The steps taken one after the other.
  ghost function AfterAll(old_: Contents, acts: seq<Action>): Contents {
    if acts == [] then old_ else After(AfterAll(old_, acts[..|acts| - 1]), acts[|acts| - 1])
  }

  // A transaction begun by step i is still under way after step j - 1.
  ghost predicate UnderWay(states: seq<State>, acts: seq<Action>, i: nat, j: nat) {
    && Run(states, acts) && i < j < |states| == |acts| + 1 && acts[i].Begin?
    && forall k :: i < k <= j ==> states[k].writer.Writing?
  }

  lemma {:induction false} SeesAfterAll(states: seq<State>, acts: seq<Action>, i: nat, j: nat)
    requires UnderWay(states, acts, i, j) && states[i].lastTxn in states[i].snaps
    ensures Sees(states[j]) == AfterAll(states[i].snaps[states[i].lastTxn].pages, acts[i + 1..j])
    decreases j
  {
    hide Inv, Enabled, Apply, Committed, After, Run;
    RunKeepsInvariant(states, acts, j - 1);
    StepEnabled(states, acts, j - 1);
    if j == i + 1 {
      BeginContent(states[i], acts[i].env);
    } else {
      SeesAfterAll(states, acts, i, j - 1);
      StepContent(states[j - 1], acts[j - 1]);
      assert acts[i + 1..j][..j - i - 2] == acts[i + 1..j - 1];
    }
  }

  // In every run the version a transaction commits holds what its steps make of the version before.
  lemma VersionContent(states: seq<State>, acts: seq<Action>, i: nat, j: nat)
    requires UnderWay(states, acts, i, j) && j < |acts| && acts[j] == WriteMeta
    ensures var s, t := states[i], states[j + 1];
            && s.lastTxn in s.snaps && s.lastTxn + 1 in t.snaps
            && t.snaps[s.lastTxn + 1].pages == AfterAll(s.snaps[s.lastTxn].pages, acts[i + 1..j])
  {
    RunKeepsInvariant(states, acts, i);
    RunKeepsInvariant(states, acts, j);
    assert Enabled(states[i], acts[i]) && Enabled(states[j], acts[j]) && states[j + 1] == Apply(states[j], acts[j]);
    SameWriterId(states, acts, i, j);
    SeesAfterAll(states, acts, i, j);
  }

  lemma {:induction false} SameWriterId(states: seq<State>, acts: seq<Action>, i: nat, j: nat)
    requires UnderWay(states, acts, i, j)
    ensures states[j].writer.w.id == states[i].lastTxn + 1
    decreases j
  {
    hide Run, Enabled, Apply;
    StepEnabled(states, acts, j - 1);
    SameId(states[j - 1], acts[j - 1]);
    if j > i + 1 {
      NoOtherBegin(states[j - 1], acts[j - 1]);
      SameWriterId(states, acts, i, j - 1);
    }
  }

  lemma NoOtherBegin(s: State, a: Action)
    requires Enabled(s, a) && s.writer.Writing?
    ensures !a.Begin?
  {
  }

  lemma SameId(s: State, a: Action)
    requires Enabled(s, a) && Apply(s, a).writer.Writing?
    ensures !a.Begin? ==> s.writer.Writing?
    ensures Apply(s, a).writer.w.id == if a.Begin? then s.lastTxn + 1 else s.writer.w.id
  {
    hide CanSave, CanTake, CanRead, Committed, Range, FreedRecord, FreedAtSave, Reclaimed;
  }

  //// Where the content of a page is from

  datatype Origin = Old(p: Pgno) | Written(data: Content)

  // What the page has after the steps: what page p of the version before had, or what a step wrote.
  ghost function OriginOf(acts: seq<Action>, q: Pgno): Origin {
    if acts == [] then Old(q)
    else
      var front := acts[..|acts| - 1];
      match acts[|acts| - 1]
      case Allocate(_, p, num, fill) => if q in Range(p, num) then Written(fill) else OriginOf(front, q)
      case TouchPage(from, _, p) => OriginOf(front, if q == p then from else q)
      case Modify(p, data) => if q == p then Written(data) else OriginOf(front, q)
      case _ => OriginOf(front, q)
  }

  ghost predicate HasOrigin(old_: Contents, data: Content, o: Origin) {
    match o
    case Old(p) => p in old_ && data == old_[p]
    case Written(d) => data == d
  }

  // The touches are of pages that are there, and to pages that are not.
  ghost predicate TouchesOk(old_: Contents, acts: seq<Action>) {
    acts == [] ||
    (TouchesOk(old_, acts[..|acts| - 1]) && TouchOk(AfterAll(old_, acts[..|acts| - 1]), acts[|acts| - 1]))
  }

  ghost predicate TouchOk(c: Contents, a: Action) {
    a.TouchPage? ==> a.from in c && a.p !in c
  }

  lemma {:induction false} EveryPageHasItsOrigin(old_: Contents, acts: seq<Action>, q: Pgno)
    requires TouchesOk(old_, acts) && q in AfterAll(old_, acts)
    ensures HasOrigin(old_, AfterAll(old_, acts)[q], OriginOf(acts, q))
  {
    if acts != [] {
      var front := acts[..|acts| - 1];
      var c := AfterAll(old_, front);
      match acts[|acts| - 1]
      case Allocate(_, p, num, fill) =>
        if q !in Range(p, num) {
          EveryPageHasItsOrigin(old_, front, q);
        }
      case TouchPage(from, _, p) => EveryPageHasItsOrigin(old_, front, if q == p then from else q);
      case Modify(p, data) =>
        if q != p {
          EveryPageHasItsOrigin(old_, front, q);
        }
      case _ => EveryPageHasItsOrigin(old_, front, q);
    }
  }

  datatype Fate = Dropped | Now(q: Pgno)

  // Where a page of the version before is after the steps.
  ghost function FateOf(acts: seq<Action>, p: Pgno): Fate {
    if acts == [] then Now(p)
    else
      match FateOf(acts[..|acts| - 1], p)
      case Dropped => Dropped
      case Now(q) =>
        match acts[|acts| - 1]
        case TouchPage(from, _, to) => if q == from then Now(to) else Now(q)
        case LoosenPage(r) => if q == r then Dropped else Now(q)
        case FreePages(pages) => if q in pages then Dropped else Now(q)
        case GiveBackPages(pages) => if q in pages then Dropped else Now(q)
        case _ => Now(q)
  }

  // A page that was not dropped is there, under the name the touches gave it.
  lemma {:induction false} PagesStay(old_: Contents, acts: seq<Action>, p: Pgno)
    requires TouchesOk(old_, acts) && p in old_ && FateOf(acts, p).Now?
    ensures FateOf(acts, p).q in AfterAll(old_, acts)
  {
    if acts != [] {
      PagesStay(old_, acts[..|acts| - 1], p);
    }
  }

  // In every run: each page of the version a transaction commits holds what the page it was renamed
  // from held in the version before, or what the transaction wrote last; and each page of the
  // version before that the transaction did not drop is there.
  lemma VersionsDifferByWrites(states: seq<State>, acts: seq<Action>, i: nat, j: nat)
    requires UnderWay(states, acts, i, j) && j < |acts| && acts[j] == WriteMeta
    ensures var id := states[i].lastTxn + 1; id - 1 in states[i].snaps && id in states[j + 1].snaps
    ensures var id, steps := states[i].lastTxn + 1, acts[i + 1..j];
            var was, now := states[i].snaps[id - 1].pages, states[j + 1].snaps[id].pages;
            && (forall q :: q in now ==> HasOrigin(was, now[q], OriginOf(steps, q)))
            && (forall p :: p in was && FateOf(steps, p).Now? ==> FateOf(steps, p).q in now)
  {
    VersionContent(states, acts, i, j);
    RunTouchesOk(states, acts, i, j);
    hide UnderWay, OriginOf, FateOf, HasOrigin, TouchesOk;
    var id, steps := states[i].lastTxn + 1, acts[i + 1..j];
    var was, now := states[i].snaps[id - 1].pages, states[j + 1].snaps[id].pages;
    forall q | q in now
      ensures HasOrigin(was, now[q], OriginOf(steps, q))
    {
      EveryPageHasItsOrigin(was, steps, q);
    }
    forall p | p in was && FateOf(steps, p).Now?
      ensures FateOf(steps, p).q in now
    {
      PagesStay(was, steps, p);
    }
  }

  lemma {:induction false} RunTouchesOk(states: seq<State>, acts: seq<Action>, i: nat, j: nat)
    requires UnderWay(states, acts, i, j) && states[i].lastTxn in states[i].snaps
    ensures TouchesOk(states[i].snaps[states[i].lastTxn].pages, acts[i + 1..j])
    decreases j
  {
    hide Inv, Enabled, Apply, Committed, AfterAll, TouchesOk, TouchOk, Run;
    if j == i + 1 {
      assert acts[i + 1..j] == [];
      NoTouches(states[i].snaps[states[i].lastTxn].pages);
    } else {
      RunTouchesOk(states, acts, i, j - 1);
      SeesAfterAll(states, acts, i, j - 1);
      RunKeepsInvariant(states, acts, j - 1);
      StepEnabled(states, acts, j - 1);
      TouchIsOk(states[j - 1], acts[j - 1]);
      TouchesOkOn(states[i].snaps[states[i].lastTxn].pages, acts[i + 1..j - 1], acts[j - 1]);
      assert acts[i + 1..j] == acts[i + 1..j - 1] + [acts[j - 1]];
    }
  }

  lemma NoTouches(old_: Contents)
    ensures TouchesOk(old_, [])
  {
  }

  lemma StepEnabled(states: seq<State>, acts: seq<Action>, k: nat)
    requires Run(states, acts) && k < |acts|
    ensures Enabled(states[k], acts[k]) && states[k + 1] == Apply(states[k], acts[k])
  {
  }

  lemma TouchIsOk(s: State, a: Action)
    requires Inv(s) && Enabled(s, a) && s.writer.Writing?
    ensures TouchOk(Sees(s), a)
  {
    if a.TouchPage? {
      TouchContent(s, a);
    }
  }

  lemma TouchesOkOn(old_: Contents, front: seq<Action>, a: Action)
    requires TouchesOk(old_, front) && TouchOk(AfterAll(old_, front), a)
    ensures TouchesOk(old_, front + [a])
  {
    assert (front + [a])[..|front|] == front;
  }

  // Two pages never come from one.
  lemma {:induction false} RenamingIsOneToOne(old_: Contents, acts: seq<Action>, p: Pgno, q: Pgno)
    requires TouchesOk(old_, acts) && p in AfterAll(old_, acts) && q in AfterAll(old_, acts) && p != q
    requires OriginOf(acts, p).Old? && OriginOf(acts, q).Old?
    ensures OriginOf(acts, p) != OriginOf(acts, q)
  {
    if acts != [] {
      var front, a := acts[..|acts| - 1], acts[|acts| - 1];
      if a.TouchPage? {
        RenamingIsOneToOne(old_, front, if p == a.p then a.from else p, if q == a.p then a.from else q);
      } else {
        RenamingIsOneToOne(old_, front, p, q);
      }
    }
  }
}
