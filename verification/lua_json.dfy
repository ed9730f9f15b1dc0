// From a graph of Lua tables to a JSON tree.

module LuaJson {
  import opened Bytes
  import opened JsonText

  type Id = nat

  // The values the encoder takes; a number is given by its text.
  datatype Value = Nil | Boolean(b: bool) | Number(text: seq<byte>) | String(s: seq<byte>) | Ref(id: Id)

  // The key of a field: a string, a number as it is printed, or something else.
  datatype FieldKey = StringKey(s: seq<byte>) | NumberKey(text: seq<byte>) | OtherKey

  datatype Field = Field(key: FieldKey, value: Value)

  // A table in the order in which lua_next gives its fields, marked as an array or not.
  datatype Table = Table(isArray: bool, fields: seq<Field>)

  type Heap = map<Id, Table>

  datatype Error = Cycle | BadKey

  datatype Result<T> = Done(value: T) | Raised(error: Error)

  ghost predicate Closed(h: Heap) {
    forall id, k :: id in h && 0 <= k < |h[id].fields| ==> InHeap(h, h[id].fields[k].value)
  }

  ghost predicate InHeap(h: Heap, v: Value) {
    v.Ref? ==> v.id in h
  }

  // What a C string keeps of a Lua string: all of it, or all before its first NUL.
  ghost predicate IsCString(t: seq<byte>, s: seq<byte>) {
    t <= s && 0 !in t && (|t| < |s| ==> s[|t|] == 0)
  }

  lemma CStringIsUnique(t: seq<byte>, u: seq<byte>, s: seq<byte>)
    requires IsCString(t, s) && IsCString(u, s)
    ensures t == u && (0 !in s ==> t == s)
  {
    assert t == s[..|t|] && u == s[..|u|];
  }

  function UntilNul(s: seq<byte>): (t: seq<byte>)
    ensures IsCString(t, s)
  {
    if s == [] || s[0] == 0 then [] else [s[0]] + UntilNul(s[1..])
  }

  // The key of a field, as text: a number's is the number as printed.
  ghost predicate IsKeyText(text: seq<byte>, k: FieldKey) {
    match k
    case StringKey(s) => IsCString(text, s)
    case NumberKey(printed) => text == printed
    case OtherKey => false
  }

  function KeyText(k: FieldKey): (text: seq<byte>)
    requires !k.OtherKey?
    ensures IsKeyText(text, k)
  {
    match k
    case StringKey(s) => UntilNul(s)
    case NumberKey(text) => text
  }

  //// What the encoder computes

  // on holds the tables being converted.
  ghost function Convert(h: Heap, on: set<Id>, v: Value): Result<Json>
    requires Closed(h) && InHeap(h, v)
    decreases |h.Keys - on|, 0
  {
    match v
    case Nil => Done(Json.Null)
    case Boolean(b) => Done(Json.Bool(b))
    case Number(text) => Done(Json.Num(text))
    case String(s) => Done(Json.Str(UntilNul(s)))
    case Ref(id) =>
      if id in on then Raised(Cycle)
      else
        Smaller(h.Keys, on, id);
        match ConvertFields(h, on + {id}, h[id].fields, 0)
        case Raised(e) => Raised(e)
        case Done(members) => Done(FromMembers(h[id].isArray, members))
  }

  lemma Smaller(all: set<Id>, on: set<Id>, id: Id)
    requires id in all && id !in on
    ensures |all - (on + {id})| < |all - on|
  {
    assert all - on == (all - (on + {id})) + {id};
  }

  // The fields from i on.
  ghost function ConvertFields(h: Heap, on: set<Id>, fields: seq<Field>, i: nat): Result<seq<Member>>
    requires Closed(h) && i <= |fields| && forall k :: 0 <= k < |fields| ==> InHeap(h, fields[k].value)
    decreases |h.Keys - on|, 1 + |fields| - i
  {
    if i == |fields| then Done([])
    else if fields[i].key.OtherKey? then Raised(BadKey)
    else
      match Convert(h, on, fields[i].value)
      case Raised(e) => Raised(e)
      case Done(j) =>
        match ConvertFields(h, on, fields, i + 1)
        case Raised(e) => Raised(e)
        case Done(rest) => Done([Member(KeyText(fields[i].key), j)] + rest)
  }

  // An array drops the keys.
  function FromMembers(isArray: bool, members: seq<Member>): Json {
    if isArray then Json.Arr(Values(members)) else Json.Obj(members)
  }

  function Values(members: seq<Member>): (js: seq<Json>)
    ensures |js| == |members|
    ensures forall i :: 0 <= i < |members| ==> js[i] == members[i].value
  {
    seq(|members|, i requires 0 <= i < |members| => members[i].value)
  }

  //// What it should compute

  // t is v with every table it refers to written out.
  ghost predicate IsUnfolding(h: Heap, v: Value, t: Json)
    decreases t
  {
    match v
    case Nil => t == Json.Null
    case Boolean(b) => t == Json.Bool(b)
    case Number(text) => t == Json.Num(text)
    case String(s) => t.Str? && IsCString(t.s, s)
    case Ref(id) =>
      && id in h
      && (forall k :: 0 <= k < |h[id].fields| ==> !h[id].fields[k].key.OtherKey?)
      && if h[id].isArray
         then t.Arr? && |t.items| == |h[id].fields|
              && forall k :: 0 <= k < |t.items| ==> IsUnfolding(h, h[id].fields[k].value, t.items[k])
         else t.Obj? && |t.members| == |h[id].fields|
              && forall k :: 0 <= k < |t.members| ==>
                   && IsKeyText(t.members[k].key, h[id].fields[k].key)
                   && IsUnfolding(h, h[id].fields[k].value, t.members[k].value)
  }

  lemma KeyTextIsUnique(t: seq<byte>, u: seq<byte>, k: FieldKey)
    requires IsKeyText(t, k) && IsKeyText(u, k)
    ensures t == u
  {
    if k.StringKey? {
      CStringIsUnique(t, u, k.s);
    }
  }

  // A value has one unfolding at most.
  lemma {:induction false} UnfoldingIsUnique(h: Heap, v: Value, t: Json, u: Json)
    requires IsUnfolding(h, v, t) && IsUnfolding(h, v, u)
    ensures t == u
    decreases t
  {
    if v.String? {
      CStringIsUnique(t.s, u.s, v.s);
    } else if v.Ref? {
      var fields := h[v.id].fields;
      if h[v.id].isArray {
        forall k | 0 <= k < |fields|
          ensures t.items[k] == u.items[k]
        {
          UnfoldingIsUnique(h, fields[k].value, t.items[k], u.items[k]);
        }
      } else {
        forall k | 0 <= k < |fields|
          ensures t.members[k] == u.members[k]
        {
          KeyTextIsUnique(t.members[k].key, u.members[k].key, fields[k].key);
          UnfoldingIsUnique(h, fields[k].value, t.members[k].value, u.members[k].value);
        }
      }
    }
  }

  // Tables that refer to each other, from the one v refers to.
  ghost predicate Chain(h: Heap, v: Value, p: seq<Id>) {
    && p != [] && v == Ref(p[0])
    && (forall i :: 0 <= i < |p| ==> p[i] in h)
    && (forall i :: 0 <= i < |p| - 1 ==> RefersTo(h, p[i], p[i + 1]))
  }

  ghost predicate RefersTo(h: Heap, a: Id, b: Id) {
    a in h && exists k :: 0 <= k < |h[a].fields| && h[a].fields[k].value == Ref(b)
  }

  // A chain that comes back to a table.
  ghost predicate ReachesCycle(h: Heap, v: Value) {
    exists p: seq<Id> :: Chain(h, v, p) && Repeats(p)
  }

  ghost predicate Repeats(p: seq<Id>) {
    exists i, j :: 0 <= i < j < |p| && p[i] == p[j]
  }

  ghost predicate ReachesBadKey(h: Heap, v: Value) {
    exists p: seq<Id> :: Chain(h, v, p) && HasBadKey(h, p[|p| - 1])
  }

  ghost predicate HasBadKey(h: Heap, id: Id) {
    id in h && exists k :: 0 <= k < |h[id].fields| && h[id].fields[k].key.OtherKey?
  }

  //// The two agree

  // What is computed without an error is the unfolding.
  lemma {:induction false} ConvertedIsUnfolding(h: Heap, on: set<Id>, v: Value)
    requires Closed(h) && InHeap(h, v) && Convert(h, on, v).Done?
    ensures IsUnfolding(h, v, Convert(h, on, v).value)
    decreases |h.Keys - on|, 0
  {
    if v.Ref? {
      Smaller(h.Keys, on, v.id);
      FieldsAreUnfoldings(h, on + {v.id}, h[v.id].fields, 0);
    }
  }

  lemma {:induction false} FieldsAreUnfoldings(h: Heap, on: set<Id>, fields: seq<Field>, i: nat)
    requires Closed(h) && i <= |fields| && forall k :: 0 <= k < |fields| ==> InHeap(h, fields[k].value)
    requires ConvertFields(h, on, fields, i).Done?
    ensures var ms := ConvertFields(h, on, fields, i).value;
            && |ms| == |fields| - i
            && forall k :: i <= k < |fields| ==>
                 !fields[k].key.OtherKey? && ms[k - i].key == KeyText(fields[k].key) && IsUnfolding(h, fields[k].value, ms[k - i].value)
    decreases |h.Keys - on|, 1 + |fields| - i
  {
    if i < |fields| {
      ConvertedIsUnfolding(h, on, fields[i].value);
      FieldsAreUnfoldings(h, on, fields, i + 1);
    }
  }

  ghost function Ids(p: seq<Id>): set<Id> {
    set i | 0 <= i < |p| :: p[i]
  }

  // The tables being converted lead from the root to v.
  ghost predicate Leads(h: Heap, root: Value, path: seq<Id>, v: Value) {
    if path == [] then v == root
    else Chain(h, root, path) && (v.Ref? ==> RefersTo(h, path[|path| - 1], v.id))
  }

  lemma Longer(h: Heap, root: Value, path: seq<Id>, id: Id)
    requires Leads(h, root, path, Ref(id)) && id in h
    ensures Chain(h, root, path + [id]) && Ids(path + [id]) == Ids(path) + {id}
    ensures id in Ids(path) ==> Repeats(path + [id])
  {
    var p := path + [id];
    assert forall i :: 0 <= i < |path| ==> p[i] == path[i];
    assert p[|path|] == id;
    if id in Ids(path) {
      var i :| 0 <= i < |path| && path[i] == id;
      assert p[i] == p[|path|];
    }
  }

  // An error is raised only for what it reports.
  lemma {:induction false} RaisedHasReason(h: Heap, root: Value, path: seq<Id>, v: Value)
    requires Closed(h) && InHeap(h, v) && Leads(h, root, path, v) && Convert(h, Ids(path), v).Raised?
    ensures if Convert(h, Ids(path), v).error == Cycle then ReachesCycle(h, root) else ReachesBadKey(h, root)
    decreases |h.Keys - Ids(path)|, 0
  {
    hide Chain, Leads, Repeats;
    var on := Ids(path);
    Longer(h, root, path, v.id);
    if v.id !in on {
      Smaller(h.Keys, on, v.id);
      FieldHasReason(h, root, path + [v.id], 0);
    }
  }

  lemma {:induction false} FieldHasReason(h: Heap, root: Value, path: seq<Id>, i: nat)
    requires Closed(h) && Chain(h, root, path)
    requires i <= |h[path[|path| - 1]].fields| && ConvertFields(h, Ids(path), h[path[|path| - 1]].fields, i).Raised?
    ensures if ConvertFields(h, Ids(path), h[path[|path| - 1]].fields, i).error == Cycle
            then ReachesCycle(h, root) else ReachesBadKey(h, root)
    decreases |h.Keys - Ids(path)|, 1 + |h[path[|path| - 1]].fields| - i
  {
    var id := path[|path| - 1];
    var f := h[id].fields[i];
    if f.key.OtherKey? {
      assert HasBadKey(h, id);
    } else if Convert(h, Ids(path), f.value).Raised? {
      assert f.value.Ref? ==> RefersTo(h, id, f.value.id);
      RaisedHasReason(h, root, path, f.value);
    } else {
      FieldHasReason(h, root, path, i + 1);
    }
  }

  // Each table of a chain has an unfolding within that of the value the chain starts at.
  lemma {:induction false} Within(h: Heap, v: Value, t: Json, p: seq<Id>, j: nat) returns (u: Json)
    requires IsUnfolding(h, v, t) && Chain(h, v, p) && j < |p|
    ensures IsUnfolding(h, Ref(p[j]), u) && if j == 0 then u == t else u < t
  {
    u := t;
    if j > 0 {
      var w := Within(h, v, t, p, j - 1);
      assert RefersTo(h, p[j - 1], p[j]);
      var fields := h[p[j - 1]].fields;
      var k :| 0 <= k < |fields| && fields[k].value == Ref(p[j]);
      if h[p[j - 1]].isArray {
        assert IsUnfolding(h, fields[k].value, w.items[k]);
        u := w.items[k];
      } else {
        assert IsUnfolding(h, fields[k].value, w.members[k].value);
        u := w.members[k].value;
      }
    }
  }

  // Only values without cycles and bad keys have an unfolding, as trees are finite.
  lemma UnfoldingIsFinite(h: Heap, v: Value, t: Json)
    requires IsUnfolding(h, v, t)
    ensures !ReachesCycle(h, v) && !ReachesBadKey(h, v)
  {
    forall p: seq<Id> | Chain(h, v, p)
      ensures !Repeats(p) && !HasBadKey(h, p[|p| - 1])
    {
      NoRepeat(h, v, t, p);
      var u := Within(h, v, t, p, |p| - 1);
    }
  }

  lemma NoRepeat(h: Heap, v: Value, t: Json, p: seq<Id>)
    requires IsUnfolding(h, v, t) && Chain(h, v, p)
    ensures !Repeats(p)
  {
    forall i, j | 0 <= i < j < |p|
      ensures p[i] != p[j]
    {
      var u := Within(h, v, t, p, i);
      var rest := p[i..];
      assert forall k :: 0 <= k < |rest| ==> rest[k] == p[i + k];
      assert Chain(h, Ref(p[i]), rest);
      var w := Within(h, Ref(p[i]), u, rest, j - i);
      if p[i] == p[j] {
        UnfoldingIsUnique(h, Ref(p[i]), u, w);
      }
    }
  }

  // The encoder raises the cycle error only if a cycle is reachable, the key error only if a table
  // with such a key is, and otherwise gives the unfolding: tables that are shared are written out
  // each time.
  lemma ConvertIsCorrect(h: Heap, v: Value)
    requires Closed(h) && InHeap(h, v)
    ensures var r := Convert(h, {}, v);
            && (r.Done? <==> !ReachesCycle(h, v) && !ReachesBadKey(h, v))
            && (r.Done? ==> IsUnfolding(h, v, r.value))
            && (r == Raised(Cycle) ==> ReachesCycle(h, v))
            && (r == Raised(BadKey) ==> ReachesBadKey(h, v))
  {
    hide ReachesCycle, ReachesBadKey, IsUnfolding, Convert;
    var r := Convert(h, {}, v);
    assert Ids([]) == {};
    if r.Done? {
      ConvertedIsUnfolding(h, {}, v);
      UnfoldingIsFinite(h, v, r.value);
    } else {
      RaisedHasReason(h, v, [], v);
    }
  }

  //// The encoder

  class Encoder {
    const h: Heap
    var refs: set<Id>  // JSON_REF_TABLE_IDX

    constructor (h: Heap)
      ensures this.h == h && refs == {}
    {
      this.h, refs := h, {};
    }

    // LuaValueToJson. The reference table holds exactly the tables on the path to the value.
    method ValueToJson(v: Value, ghost path: seq<Id>) returns (r: Result<Json>)
      requires Closed(h) && InHeap(h, v) && refs == Ids(path)
      modifies this
      ensures r == Convert(h, old(refs), v)
      ensures r.Done? ==> refs == old(refs)
      decreases |h.Keys - refs|, 1
    {
      match v {
        case Nil =>
          return Done(Json.Null);
        case Boolean(b) =>
          return Done(Json.Bool(b));
        case Number(text) =>
          return Done(Json.Num(text));
        case String(s) =>
          return Done(Json.Str(UntilNul(s)));
        case Ref(id) =>
          if id in refs {
            return Raised(Cycle);
          }
          Smaller(h.Keys, refs, id);
          AddedIds(path, id);
          refs := refs + {id};
          r := TableToJson(id, path + [id]);
          if r.Done? {
            refs := refs - {id};
          }
      }
    }

    // LuaTableToJsonPrivate
    method TableToJson(id: Id, ghost path: seq<Id>) returns (r: Result<Json>)
      requires Closed(h) && id in h && refs == Ids(path)
      modifies this
      ensures r == match ConvertFields(h, old(refs), h[id].fields, 0)
                   case Raised(e) => Raised(e)
                   case Done(members) => Done(FromMembers(h[id].isArray, members))
      ensures r.Done? ==> refs == old(refs)
      decreases |h.Keys - refs|, 2
    {
      hide Convert, ConvertFields;
      var fields := h[id].fields;
      var members: seq<Member>, i := [], 0;
      ghost var all := ConvertFields(h, refs, fields, 0);
      Joined([], all);
      while i < |fields|
        invariant 0 <= i <= |fields| && refs == old(refs)
        invariant Joining(members, ConvertFields(h, refs, fields, i)) == all
      {
        FieldStep(h, refs, fields, i);
        if fields[i].key.OtherKey? {
          return Raised(BadKey);
        }
        var child := ValueToJson(fields[i].value, path);
        if child.Raised? {
          return Raised(child.error);
        }
        var m := Member(KeyText(fields[i].key), child.value);
        JoinedTwice(members, m, ConvertFields(h, refs, fields, i + 1));
        members := members + [m];
        i := i + 1;
      }
      FieldStep(h, refs, fields, i);
      Joined(members, Done([]));
      return Done(FromMembers(h[id].isArray, members));
    }
  }

  // Members made already, and what becomes of the rest.
  ghost function Joining(done: seq<Member>, rest: Result<seq<Member>>): Result<seq<Member>> {
    match rest
    case Raised(e) => Raised(e)
    case Done(ms) => Done(done + ms)
  }

  lemma Joined(done: seq<Member>, rest: Result<seq<Member>>)
    ensures Joining([], rest) == rest && Joining(done, Done([])) == Done(done)
  {
    assert rest.Done? ==> [] + rest.value == rest.value;
    assert done + [] == done;
  }

  lemma JoinedTwice(done: seq<Member>, m: Member, rest: Result<seq<Member>>)
    ensures Joining(done, Joining([m], rest)) == Joining(done + [m], rest)
  {
    assert rest.Done? ==> done + ([m] + rest.value) == (done + [m]) + rest.value;
  }

  lemma FieldStep(h: Heap, on: set<Id>, fields: seq<Field>, i: nat)
    requires Closed(h) && i <= |fields| && forall k :: 0 <= k < |fields| ==> InHeap(h, fields[k].value)
    ensures ConvertFields(h, on, fields, i) ==
            if i == |fields| then Done([])
            else if fields[i].key.OtherKey? then Raised(BadKey)
            else if Convert(h, on, fields[i].value).Raised? then Raised(Convert(h, on, fields[i].value).error)
            else Joining([Member(KeyText(fields[i].key), Convert(h, on, fields[i].value).value)], ConvertFields(h, on, fields, i + 1))
  {
    hide Convert;
  }

  lemma AddedIds(p: seq<Id>, id: Id)
    ensures Ids(p + [id]) == Ids(p) + {id}
  {
    assert forall i :: 0 <= i < |p| ==> (p + [id])[i] == p[i];
    assert (p + [id])[|p|] == id;
  }

  // LuaDB_JsonEncode, up to the tree it writes out.
  method JsonEncode(h: Heap, v: Value) returns (r: Result<Json>)
    requires Closed(h) && InHeap(h, v)
    ensures r.Done? <==> !ReachesCycle(h, v) && !ReachesBadKey(h, v)
    ensures r.Done? ==> IsUnfolding(h, v, r.value)
    ensures !ReachesBadKey(h, v) ==> (r == Raised(Cycle) <==> ReachesCycle(h, v))
  {
    hide Convert, IsUnfolding, ReachesCycle, ReachesBadKey;
    var encoder := new Encoder(h);
    r := encoder.ValueToJson(v, []);
    assert r.Raised? ==> r.error.Cycle? || r.error.BadKey?;
    ConvertIsCorrect(h, v);
  }
}
