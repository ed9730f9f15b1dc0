// The room counter of a transaction, and the length that the commit of a child of a top-level
// transaction derives from it.

module DirtyRoom {
  import opened Midl
  import opened DirtyList
  import opened NestedCommit

  // dirty: the pages of the dirty list; room: mt_dirty_room; head: whether me_pghead exists.
  datatype Level = Level(dirty: set<Id>, room: int, head: bool)

  datatype State = TopOnly(top: Level) | Nested(top: Level, child: Level)

  // Fetch: mdb_page_alloc moving a record into me_pghead. Dirty: mdb_page_dirty, for a new or
  // unspilled page. FreeRun: mdb_ovpage_free of a run that is dirty, which takes it from the list.
  // Spill: mdb_page_spill before an operation that may need so many pages, with mdb_page_flush of
  // the pages it picked. Copy: mdb_page_touch of a page the parent made dirty.
  datatype Op =
    | Fetch
    | Dirty(p: Id)
    | FreeRun(p: Id)
    | Spill(pages: set<Id>, need: nat)
    | Copy(p: Id)
    | Begin
    | Commit
    | Abort

  ghost predicate Enabled(s: State, op: Op) {
    var l := Current(s);
    match op
    case Fetch => true
    case Dirty(p) => p !in l.dirty && l.room > 0
    case FreeRun(p) => s.TopOnly? && p in l.dirty && l.head
    case Spill(pages, need) => pages <= l.dirty && l.room <= need && |pages| <= Max(need, UM_MAX / 8)
    case Copy(p) => p in Shared(s) && p !in l.dirty
    case Begin => s.TopOnly?
    case Commit => s.Nested? && |s.top.dirty + s.child.dirty| == UM_MAX - s.child.room
    case Abort => s.Nested?
  }

  function Max(a: int, b: int): int {
    if a < b then b else a
  }

  function Current(s: State): Level {
    if s.Nested? then s.child else s.top
  }

  // The pages the parent has made dirty.
  function Shared(s: State): set<Id> {
    if s.Nested? then s.top.dirty else {}
  }

  ghost function Apply(s: State, op: Op): State
    requires Enabled(s, op)
  {
    var l := Current(s);
    match op
    case Fetch => Put(s, l.(head := true))
    case Dirty(p) => Put(s, l.(dirty := l.dirty + {p}, room := l.room - 1))
    case FreeRun(p) => Put(s, l.(dirty := l.dirty - {p}))
    case Spill(pages, _) => Put(s, l.(dirty := l.dirty - pages, room := l.room + |pages|))
    case Copy(p) => Put(s, l.(dirty := l.dirty + {p}))
    case Begin => Nested(s.top, s.top.(dirty := {}))
    case Commit => TopOnly(s.child.(dirty := s.top.dirty + s.child.dirty))
    case Abort => TopOnly(s.top)
  }

  function Put(s: State, l: Level): State {
    if s.Nested? then s.(child := l) else TopOnly(l)
  }

  ghost predicate Run(states: seq<State>, ops: seq<Op>) {
    && |states| == |ops| + 1
    && states[0] == TopOnly(Level({}, UM_MAX, false))
    && forall i :: 0 <= i < |ops| ==> Enabled(states[i], ops[i]) && states[i + 1] == Apply(states[i], ops[i])
  }

  //// What the counter charges

  // What one operation charges beyond the pages it adds to the lists: a run given back stays
  // charged, a page that is in the parent's list too is charged a second time, and spilling it is
  // credited although it stays in the parent's list.
  function Charge(s: State, op: Op): int {
    match op
    case Dirty(p) => if p in Shared(s) then 1 else 0
    case FreeRun(_) => 1
    case Spill(pages, _) => -|pages * Shared(s)|
    case _ => 0
  }

  // The latest Begin among the first i operations.
  function LastBegin(ops: seq<Op>, i: nat): (j: nat)
    requires i <= |ops|
    ensures j <= i
  {
    if i == 0 then 0 else if ops[i - 1].Begin? then i - 1 else LastBegin(ops, i - 1)
  }

  // What the first i operations charge in excess; an aborted child's do not count.
  function Excess(states: seq<State>, ops: seq<Op>, i: nat): int
    requires i <= |ops| < |states|
    decreases i
  {
    if i == 0 then 0
    else if ops[i - 1].Abort? then Excess(states, ops, LastBegin(ops, i - 1))
    else Excess(states, ops, i - 1) + Charge(states[i - 1], ops[i - 1])
  }

  // The counter has charged one entry for every page of this list or the parent's, and off more.
  ghost predicate Counts(shared: set<Id>, l: Level, off: int) {
    UM_MAX - l.room == |shared + l.dirty| + off
  }

  lemma DirtyCounts(shared: set<Id>, l: Level, off: int, p: Id)
    requires Counts(shared, l, off) && p !in l.dirty
    ensures Counts(shared, l.(dirty := l.dirty + {p}, room := l.room - 1), off + if p in shared then 1 else 0)
    ensures p in shared ==> Counts(shared, l.(dirty := l.dirty + {p}), off)
  {
    assert shared + (l.dirty + {p}) == (shared + l.dirty) + {p};
    assert p in shared ==> shared + (l.dirty + {p}) == shared + l.dirty;
  }

  // Pages the parent has too do not leave the union.
  lemma SpillCounts(shared: set<Id>, l: Level, off: int, pages: set<Id>)
    requires Counts(shared, l, off) && pages <= l.dirty
    ensures Counts(shared, l.(dirty := l.dirty - pages, room := l.room + |pages|), off - |pages * shared|)
  {
    var gone, rest := pages - shared, shared + (l.dirty - pages);
    assert shared + l.dirty == rest + gone && rest !! gone;
    assert pages == gone + pages * shared && gone !! pages * shared;
  }

  lemma FreeCounts(l: Level, off: int, p: Id)
    requires Counts({}, l, off) && p in l.dirty
    ensures Counts({}, l.(dirty := l.dirty - {p}), off + 1)
  {
    assert {} + l.dirty == ({} + (l.dirty - {p})) + {p};
  }

  // An operation that neither begins nor ends a child.
  lemma ListStep(s: State, op: Op, off: int)
    requires Enabled(s, op) && (op.Dirty? || op.FreeRun? || op.Copy? || op.Fetch?)
    requires Counts(Shared(s), Current(s), off)
    ensures Counts(Shared(Apply(s, op)), Current(Apply(s, op)), off + Charge(s, op))
  {
    hide Counts;
    match op
    case Fetch => SameCounts(Shared(s), Current(s), Current(s).(head := true), off);
    case Dirty(p) => DirtyCounts(Shared(s), Current(s), off, p);
    case FreeRun(p) => FreeCounts(s.top, off, p);
    case Copy(p) => DirtyCounts(Shared(s), Current(s), off, p);
  }

  lemma SpillStep(s: State, op: Op, off: int)
    requires Enabled(s, op) && op.Spill?
    requires Counts(Shared(s), Current(s), off)
    ensures Counts(Shared(Apply(s, op)), Current(Apply(s, op)), off + Charge(s, op))
  {
    hide Counts;
    SpillCounts(Shared(s), Current(s), off, op.pages);
  }

  lemma NestStep(s: State, op: Op, off: int)
    requires Enabled(s, op) && (op.Begin? || op.Commit?)
    requires Counts(Shared(s), Current(s), off)
    ensures Counts(Shared(Apply(s, op)), Current(Apply(s, op)), off + Charge(s, op))
  {
    hide Counts;
    match op
    case Begin => BeginCounts(s.top, off);
    case Commit => CommitCounts(s.top, s.child, off);
  }

  lemma StepKeepsTally(s: State, op: Op, off: int)
    requires Enabled(s, op) && !op.Abort?
    requires Counts(Shared(s), Current(s), off)
    ensures Counts(Shared(Apply(s, op)), Current(Apply(s, op)), off + Charge(s, op))
  {
    hide Counts, Charge, Enabled, Apply, Shared, Current;
    if op.Spill? {
      SpillStep(s, op, off);
    } else if op.Begin? || op.Commit? {
      NestStep(s, op, off);
    } else {
      ListStep(s, op, off);
    }
  }

  lemma SameCounts(shared: set<Id>, l: Level, m: Level, off: int)
    requires l.dirty == m.dirty && l.room == m.room
    ensures Counts(shared, l, off) == Counts(shared, m, off)
  {
  }

  lemma BeginCounts(top: Level, off: int)
    requires Counts({}, top, off)
    ensures Counts(top.dirty, top.(dirty := {}), off)
  {
    assert top.dirty + {} == {} + top.dirty;
  }

  // A child may only be committed when nothing is charged in excess.
  lemma CommitCounts(top: Level, child: Level, off: int)
    requires Counts(top.dirty, child, off) && |top.dirty + child.dirty| == UM_MAX - child.room
    ensures off == 0 && Counts({}, child.(dirty := top.dirty + child.dirty), off)
  {
    assert {} + (top.dirty + child.dirty) == top.dirty + child.dirty;
  }

  // A child's parent is as it was when the child began.
  lemma {:induction false} ParentIsKept(states: seq<State>, ops: seq<Op>, i: nat)
    requires Run(states, ops) && i < |states| && states[i].Nested?
    ensures var j := LastBegin(ops, i); j < i && states[j] == TopOnly(states[i].top)
    decreases i
  {
    assert i > 0 && Enabled(states[i - 1], ops[i - 1]) && states[i] == Apply(states[i - 1], ops[i - 1]);
    if !ops[i - 1].Begin? {
      ParentIsKept(states, ops, i - 1);
    }
  }

  lemma {:induction false} RunKeepsTally(states: seq<State>, ops: seq<Op>, i: nat)
    requires Run(states, ops) && i < |states|
    ensures Counts(Shared(states[i]), Current(states[i]), Excess(states, ops, i))
    decreases i
  {
    if i == 0 {
      assert Shared(states[0]) + Current(states[0]).dirty == {};
      return;
    }
    RunKeepsTally(states, ops, i - 1);
    if ops[i - 1].Abort? {
      ParentIsKept(states, ops, i - 1);
      RunKeepsTally(states, ops, LastBegin(ops, i - 1));
    } else {
      hide Counts, Charge, Apply, Enabled, Shared, Current;
      assert Enabled(states[i - 1], ops[i - 1]);
      StepKeepsTally(states[i - 1], ops[i - 1], Excess(states, ops, i - 1));
    }
  }

  // In every run, the length taken from the counter is that of the union of the two lists if and
  // only if the operations so far charged nothing in excess: the runs given back and the pages of
  // the parent's made dirty anew balance the pages of the parent's that were spilled.
  lemma ShortcutLength(states: seq<State>, ops: seq<Op>, i: nat, p: seq<Id2>, c: seq<Id2>)
    requires Run(states, ops) && i < |states| && states[i].Nested?
    requires Ascending(p) && PageMap(p).Keys == states[i].top.dirty
    requires Ascending(c) && PageMap(c).Keys == states[i].child.dirty
    ensures UM_MAX - states[i].child.room == |MergeDirty(p, c)| + Excess(states, ops, i)
    ensures UM_MAX - states[i].child.room == |MergeDirty(p, c)| <==> Excess(states, ops, i) == 0
  {
    RunKeepsTally(states, ops, i);
    MergeOverrides(p, c);
    MergeAscending(p, c);
    MapLength(MergeDirty(p, c));
    assert PageMap(MergeDirty(p, c)).Keys == states[i].top.dirty + states[i].child.dirty;
  }

  lemma {:induction false} MapLength(s: seq<Id2>)
    requires Ascending(s)
    ensures |PageMap(s).Keys| == |s|
  {
    if s != [] {
      FrontFacts(s);
      MapLength(Front(s));
      assert PageMap(s).Keys == PageMap(Front(s)).Keys + {Last(s).mid};
    }
  }

  //// Both ways of being off occur

  datatype Trace = Trace(states: seq<State>, ops: seq<Op>)

  // A run that ends in state s, with this much charged in excess.
  ghost predicate Reaches(tr: Trace, s: State, off: int) {
    && Run(tr.states, tr.ops) && tr.states[|tr.ops|] == s
    && Excess(tr.states, tr.ops, |tr.ops|) == off
  }

  lemma Start() returns (tr: Trace)
    ensures Reaches(tr, TopOnly(Level({}, UM_MAX, false)), 0)
  {
    tr := Trace([TopOnly(Level({}, UM_MAX, false))], []);
  }

  lemma Do(tr: Trace, s: State, off: int, op: Op) returns (tr': Trace, t: State)
    requires Reaches(tr, s, off) && Enabled(s, op) && !op.Abort?
    ensures t == Apply(s, op) && Reaches(tr', t, off + Charge(s, op))
  {
    hide Enabled, Apply, Charge;
    var n := |tr.ops|;
    t := Apply(s, op);
    tr' := Trace(tr.states + [t], tr.ops + [op]);
    forall i | 0 <= i < |tr'.ops|
      ensures Enabled(tr'.states[i], tr'.ops[i]) && tr'.states[i + 1] == Apply(tr'.states[i], tr'.ops[i])
    {
      assert i < n ==> tr'.ops[i] == tr.ops[i] && tr'.states[i] == tr.states[i] && tr'.states[i + 1] == tr.states[i + 1];
    }
    SamePrefix(tr, tr', n);
  }

  lemma {:induction false} SamePrefix(tr: Trace, u: Trace, i: nat)
    requires i <= |tr.ops| < |tr.states| && |u.ops| < |u.states|
    requires tr.ops <= u.ops && tr.states <= u.states
    ensures Excess(tr.states, tr.ops, i) == Excess(u.states, u.ops, i) && LastBegin(tr.ops, i) == LastBegin(u.ops, i)
    decreases i
  {
    if i > 0 {
      SamePrefix(tr, u, i - 1);
      SamePrefix(tr, u, LastBegin(tr.ops, i - 1));
    }
  }

  // A run of overflow pages is made and given back while me_pghead exists; then a child copies the
  // root page and makes a leaf: the length taken is 3, that of the union is 2.
  lemma GivenBackIsCharged() returns (tr: Trace, s: State)
    ensures Reaches(tr, s, 1) && s.Nested? && s.top.dirty == {2} && s.child.dirty == {2, 8} && UM_MAX - s.child.room == 3
  {
    hide Reaches;
    tr := Start();
    s := TopOnly(Level({}, UM_MAX, false));
    tr, s := Do(tr, s, 0, Fetch);
    tr, s := Do(tr, s, 0, Dirty(2));
    tr, s := Do(tr, s, 0, Dirty(7));
    tr, s := Do(tr, s, 0, FreeRun(7));
    tr, s := Do(tr, s, 1, Begin);
    tr, s := Do(tr, s, 1, Copy(2));
    tr, s := Do(tr, s, 1, Dirty(8));
  }

  // The n pages from the root page 2 on.
  ghost function Upto(n: nat): (r: set<Id>)
    ensures forall p: Id :: p in r <==> 2 <= p < n + 2
  {
    if n == 0 then {} else Upto(n - 1) + {n + 1}
  }

  // Putting n pages on the dirty list.
  lemma {:induction false} DirtyMany(n: nat) returns (tr: Trace)
    requires n <= UM_MAX
    ensures Reaches(tr, TopOnly(Level(Upto(n), UM_MAX - n, false)), 0)
  {
    if n == 0 {
      tr := Start();
      assert Upto(0) == {};
    } else {
      tr := DirtyMany(n - 1);
      hide Reaches;
      var s := TopOnly(Level(Upto(n - 1), UM_MAX - (n - 1), false));
      tr, s := Do(tr, s, 0, Dirty(n + 1));
      assert Upto(n) == Upto(n - 1) + {n + 1};
    }
  }

  // A transaction has used up all room but for 8 entries. A child copies the root page 2, a branch
  // page and a leaf, and spills the leaf when it turns to another one: a tree of depth three may
  // need 8 pages. The length taken is one less than that of the union.
  lemma SpilledCopyIsCredited() returns (tr: Trace, s: State)
    ensures Reaches(tr, s, -1) && s.Nested? && s.top.dirty == Upto(UM_MAX - 8) && s.child.dirty == {2, 3} && s.child.room == 9
  {
    hide Reaches;
    tr := DirtyMany(UM_MAX - 8);
    s := TopOnly(Level(Upto(UM_MAX - 8), 8, false));
    tr, s := Do(tr, s, 0, Begin);
    tr, s := Do(tr, s, 0, Copy(2));
    tr, s := Do(tr, s, 0, Copy(3));
    tr, s := Do(tr, s, 0, Copy(4));
    assert {4} * Shared(s) == {4} && s.child.dirty - {4} == {2, 3};
    tr, s := Do(tr, s, 0, Spill({4}, 8));
  }

  // With the lists and the length of the first of these runs, the merge does not come out even.
  method MergeTooLong() returns (exact: bool)
    ensures !exact
  {
    var dst := new Id2[8](i => if i == 1 then Id2(2, 0) else Id2(0, 0));
    var src := new Id2[3](i => if i == 0 then Id2(2, 0) else if i == 1 then Id2(2, 1) else Id2(8, 2));
    ghost var p, c := [Id2(2, 0)], [Id2(2, 1), Id2(8, 2)];
    assert src[0].mid == 2 && src[1] == c[0] && src[2] == c[1];
    assert Entries(src) == c;
    TwoPages();
    var freed;
    exact, freed := MergeInPlace(dst, src, 1, 3, p);
  }

  lemma TwoPages()
    ensures |MergeDirty([Id2(2, 0)], [Id2(2, 1), Id2(8, 2)])| == 2
  {
    var p, c := [Id2(2, 0)], [Id2(2, 1), Id2(8, 2)];
    assert Front(c) == [Id2(2, 1)] && Front(p) == [] && Front(Front(c)) == [];
  }
}
