// Writing JSON into a buffer.

module JsonEmit {
  import opened Bytes
  import opened Options
  import opened JsonText
  import opened JsonBuffer
  import JsonRoundTrip
  import JsonValues
  import JsonGrammar
  import JsonDocuments

  // One character of a string, stored at b; at most twelve bytes.
  method EmitChar(out: SB, str: seq<byte>, i: nat, b: nat) returns (b': nat, i': nat)
    requires out.Valid() && out.cur <= b && b + 12 <= out.End()
    requires i < |str| && str[i] != 0 && CharLen(str, i) > 0
    modifies out.start
    ensures out.Valid() && b' == b + |CharText(str, i)| && i' == i + CharLen(str, i)
    ensures out.start[..b'] == old(out.start[..b]) + CharText(str, i)
  {
    var c := str[i];
    var t: seq<byte>;
    i' := i + 1;
    if c == QUOTE || c == BACKSLASH {
      t := [BACKSLASH, c];
    } else if c == 0x08 {
      t := [BACKSLASH, 0x62];
    } else if c == 0x0C {
      t := [BACKSLASH, 0x66];
    } else if c == 0x0A {
      t := [BACKSLASH, 0x6E];
    } else if c == 0x0D {
      t := [BACKSLASH, 0x72];
    } else if c == 0x09 {
      t := [BACKSLASH, 0x74];
    } else {
      var len := CharLen(str, i);
      i' := i + len;
      if c < 0x1F {
        var u := ReadChar(str, i);
        assert u == c as nat;
        t := [BACKSLASH, 0x75] + WriteHex16(u);
      } else {
        t := str[i..i + len];
      }
    }
    out.Poke(b, t);
    b' := b + |t|;
  }

  // emit_string. The fourteen bytes kept ready are never exceeded.
  method EmitString(out: SB, str: seq<byte>)
    requires out.Valid() && IsText(str)
    modifies out, out.start
    ensures out.Valid() && out.Contents() == old(out.Contents()) + StringText(str)
    ensures out.start == old(out.start) || fresh(out.start)
  {
    hide CharsLeft, CharText, CharLen, CharsText, StringText;
    ghost var target := out.Contents() + StringText(str);
    Opening(out.Contents(), str);
    Closing(str);
    out.Need(14);
    var b := out.cur;
    out.Poke(b, [QUOTE]);
    b := b + 1;
    var i := 0;
    while i < |str|
      invariant out.Valid() && (out.start == old(out.start) || fresh(out.start))
      invariant out.cur <= b <= out.cur + 1 && out.cur + 14 <= out.End()
      invariant i <= |str| && ValidFrom(str, i)
      invariant out.start[..b] + CharsLeft(str, i) == target
      decreases |str| - i
    {
      NextChar(out.start[..b], str, i);
      b, i := EmitChar(out, str, i, b);
      out.cur := b;
      out.Need(14);
      b := out.cur;
    }
    out.Poke(b, [QUOTE]);
    out.cur := b + 1;
  }

  // What a string literal still lacks before character i.
  ghost function CharsLeft(str: seq<byte>, i: nat): seq<byte>
    requires i <= |str| && ValidFrom(str, i)
  {
    CharsText(str, i) + [QUOTE]
  }

  lemma Opening(done: seq<byte>, str: seq<byte>)
    requires IsText(str)
    ensures ValidFrom(str, 0) && (done + [QUOTE]) + CharsLeft(str, 0) == done + StringText(str)
  {
    hide CharsText, ValidFrom;
    var q: seq<byte>, t := [QUOTE], CharsText(str, 0);
    assert StringText(str) == q + (t + q);
    Piece(done, q, t + q);
  }

  lemma Closing(str: seq<byte>)
    ensures ValidFrom(str, |str|) && CharsLeft(str, |str|) == [QUOTE]
  {
    hide CharLen, CharText;
    assert CharsText(str, |str|) == [];
  }

  lemma NextChar(done: seq<byte>, str: seq<byte>, i: nat)
    requires i < |str| && ValidFrom(str, i)
    ensures str[i] != 0 && CharLen(str, i) > 0 && i + CharLen(str, i) <= |str| && ValidFrom(str, i + CharLen(str, i))
    ensures |CharText(str, i)| <= 12
    ensures done + CharsLeft(str, i) == (done + CharText(str, i)) + CharsLeft(str, i + CharLen(str, i))
  {
  }

  // emit_value, emit_array and emit_object
  method EmitValue(out: SB, j: Json, ghost level: nat)
    requires out.Valid() && IsJson(j)
    modifies out, out.start
    ensures out.Valid() && out.Contents() == old(out.Contents()) + Text(j, Compact, level)
    ensures out.start == old(out.start) || fresh(out.start)
    decreases j, 2
  {
    match j {
      case Null =>
        out.Put(NULL_TEXT);
      case Bool(b) =>
        out.Put(if b then TRUE_TEXT else FALSE_TEXT);
      case Str(s) =>
        EmitString(out, s);
      case Num(n) =>
        out.Put(n);
      case Arr(items) =>
        EmitArray(out, items, level);
      case Obj(members) =>
        EmitObject(out, members, level);
    }
  }

  // done and what is still to be written make up the whole text, before and after a piece of it.
  lemma Piece(done: seq<byte>, piece: seq<byte>, rest: seq<byte>)
    ensures done + (piece + rest) == (done + piece) + rest
  {
  }

  lemma Nothing(done: seq<byte>, rest: seq<byte>)
    ensures done + ([] + rest) == done + rest
  {
  }

  // What an array still lacks before item i.
  ghost function ItemsLeft(items: seq<Json>, i: nat, level: nat): seq<byte>
    requires i <= |items| && IsJson(Arr(items))
  {
    if i < |items| then ItemsText(items, i, Compact, level) else [0x5D]
  }

  lemma ItemThen(items: seq<Json>, i: nat, level: nat)
    requires i < |items| && IsJson(Arr(items))
    ensures ItemsLeft(items, i, level) ==
            Text(items[i], Compact, level + 1) + ((if i + 1 < |items| then [0x2C] else []) + ItemsLeft(items, i + 1, level))
  {
    hide Text;
    Nothing([0x2C], ItemsLeft(items, i + 1, level));
    Nothing([], [0x5D]);
  }

  // The loop body of emit_array.
  method EmitItem(out: SB, items: seq<Json>, i: nat, ghost level: nat)
    requires out.Valid() && i < |items| && IsJson(Arr(items))
    modifies out, out.start
    ensures out.Valid() && out.Contents() + ItemsLeft(items, i + 1, level) == old(out.Contents()) + ItemsLeft(items, i, level)
    ensures out.start == old(out.start) || fresh(out.start)
    decreases items, 0
  {
    assert IsJson(items[i]);
    hide *;
    ghost var comma: seq<byte> := if i + 1 < |items| then [0x2C] else [];
    ItemThen(items, i, level);
    Piece(out.Contents(), Text(items[i], Compact, level + 1), comma + ItemsLeft(items, i + 1, level));
    EmitValue(out, items[i], level + 1);
    Piece(out.Contents(), comma, ItemsLeft(items, i + 1, level));
    if i + 1 < |items| {
      out.Putc(0x2C);
    } else {
      Nothing([], out.Contents());
    }
  }

  method EmitArray(out: SB, items: seq<Json>, ghost level: nat)
    requires out.Valid() && IsJson(Arr(items))
    modifies out, out.start
    ensures out.Valid() && out.Contents() == old(out.Contents()) + Text(Arr(items), Compact, level)
    ensures out.start == old(out.start) || fresh(out.start)
    decreases items, 1
  {
    ArrayIs(items, level);
    hide *;
    ghost var target := old(out.Contents()) + Text(Arr(items), Compact, level);
    Piece(out.Contents(), [0x5B], ItemsLeft(items, 0, level));
    out.Putc(0x5B);
    var i := 0;
    while i < |items|
      invariant out.Valid() && (out.start == old(out.start) || fresh(out.start)) && i <= |items|
      invariant out.Contents() + ItemsLeft(items, i, level) == target
    {
      EmitItem(out, items, i, level);
      i := i + 1;
    }
    out.Putc(0x5D);
  }

  lemma ArrayIs(items: seq<Json>, level: nat)
    requires IsJson(Arr(items))
    ensures Text(Arr(items), Compact, level) == [0x5B] + ItemsLeft(items, 0, level)
    ensures ItemsLeft(items, |items|, level) == [0x5D]
  {
    hide ItemsText;
  }

  ghost function MembersLeft(members: seq<Member>, i: nat, level: nat): seq<byte>
    requires i <= |members| && IsJson(Obj(members))
  {
    if i < |members| then MembersText(members, i, Compact, level) else [0x7D]
  }

  lemma MemberThen(members: seq<Member>, i: nat, level: nat)
    requires i < |members| && IsJson(Obj(members))
    ensures MembersLeft(members, i, level) ==
            MemberText(members[i], Compact, level + 1)
            + ((if i + 1 < |members| then [0x2C] else []) + MembersLeft(members, i + 1, level))
  {
    hide MemberText;
    Nothing([0x2C], MembersLeft(members, i + 1, level));
    Nothing([], [0x7D]);
  }

  // A member with its value, in either layout.
  method EmitKey(out: SB, m: Member, st: Style, ghost level: nat)
    requires out.Valid() && IsText(m.key) && IsJson(m.value)
    modifies out, out.start
    ensures out.Valid() && out.Contents() + Text(m.value, st, level) == old(out.Contents()) + MemberText(m, st, level)
    ensures out.start == old(out.start) || fresh(out.start)
  {
    hide StringText, Text;
    Piece(out.Contents(), StringText(m.key), Colon(st) + Text(m.value, st, level));
    EmitString(out, m.key);
    Piece(out.Contents(), Colon(st), Text(m.value, st, level));
    out.Put(Colon(st));
  }

  // The loop body of emit_object.
  method EmitMember(out: SB, members: seq<Member>, i: nat, ghost level: nat)
    requires out.Valid() && i < |members| && IsJson(Obj(members))
    modifies out, out.start
    ensures out.Valid()
    ensures out.Contents() + MembersLeft(members, i + 1, level) == old(out.Contents()) + MembersLeft(members, i, level)
    ensures out.start == old(out.start) || fresh(out.start)
    decreases members, 0
  {
    assert IsText(members[i].key) && IsJson(members[i].value);
    hide *;
    ghost var comma: seq<byte> := if i + 1 < |members| then [0x2C] else [];
    MemberThen(members, i, level);
    Piece(out.Contents(), MemberText(members[i], Compact, level + 1), comma + MembersLeft(members, i + 1, level));
    EmitKey(out, members[i], Compact, level + 1);
    EmitValue(out, members[i].value, level + 1);
    Piece(out.Contents(), comma, MembersLeft(members, i + 1, level));
    if i + 1 < |members| {
      out.Putc(0x2C);
    } else {
      Nothing([], out.Contents());
    }
  }

  method EmitObject(out: SB, members: seq<Member>, ghost level: nat)
    requires out.Valid() && IsJson(Obj(members))
    modifies out, out.start
    ensures out.Valid() && out.Contents() == old(out.Contents()) + Text(Obj(members), Compact, level)
    ensures out.start == old(out.start) || fresh(out.start)
    decreases members, 1
  {
    ObjectIs(members, level);
    hide *;
    ghost var target := old(out.Contents()) + Text(Obj(members), Compact, level);
    Piece(out.Contents(), [0x7B], MembersLeft(members, 0, level));
    out.Putc(0x7B);
    var i := 0;
    while i < |members|
      invariant out.Valid() && (out.start == old(out.start) || fresh(out.start)) && i <= |members|
      invariant out.Contents() + MembersLeft(members, i, level) == target
    {
      EmitMember(out, members, i, level);
      i := i + 1;
    }
    out.Putc(0x7D);
  }

  lemma ObjectIs(members: seq<Member>, level: nat)
    requires IsJson(Obj(members))
    ensures Text(Obj(members), Compact, level) == [0x7B] + MembersLeft(members, 0, level)
    ensures MembersLeft(members, |members|, level) == [0x7D]
  {
    hide MembersText;
  }

  //// The indented form

  method Indent(out: SB, space: seq<byte>, n: nat)
    requires out.Valid()
    modifies out, out.start
    ensures out.Valid() && out.Contents() == old(out.Contents()) + Repeat(space, n)
    ensures out.start == old(out.start) || fresh(out.start)
  {
    var i := 0;
    while i < n
      invariant out.Valid() && (out.start == old(out.start) || fresh(out.start)) && i <= n
      invariant out.Contents() == old(out.Contents()) + Repeat(space, i)
    {
      Piece(old(out.Contents()), Repeat(space, i), space);
      out.Put(space);
      i := i + 1;
    }
  }

  // emit_value_indented
  method EmitValueIndented(out: SB, j: Json, space: seq<byte>, level: nat)
    requires out.Valid() && IsJson(j)
    modifies out, out.start
    ensures out.Valid() && out.Contents() == old(out.Contents()) + Text(j, Indented(space), level)
    ensures out.start == old(out.start) || fresh(out.start)
    decreases j, 2
  {
    match j {
      case Null =>
        out.Put(NULL_TEXT);
      case Bool(b) =>
        out.Put(if b then TRUE_TEXT else FALSE_TEXT);
      case Str(s) =>
        EmitString(out, s);
      case Num(n) =>
        out.Put(n);
      case Arr(items) =>
        EmitArrayIndented(out, items, space, level);
      case Obj(members) =>
        EmitObjectIndented(out, members, space, level);
    }
  }

  // What an indented array still lacks before item i, when the line before has been ended.
  ghost function ItemLines(items: seq<Json>, i: nat, space: seq<byte>, level: nat): seq<byte>
    requires i <= |items| && IsJson(Arr(items))
  {
    if i < |items| then Repeat(space, level + 1) + ItemsText(items, i, Indented(space), level)
    else Repeat(space, level) + [0x5D]
  }

  lemma LineBreak(a: seq<byte>, space: seq<byte>, n: nat, rest: seq<byte>)
    ensures a + (Break(Indented(space), n) + rest) == (a + [0x0A]) + (Repeat(space, n) + rest)
  {
  }

  lemma ItemLine(items: seq<Json>, i: nat, space: seq<byte>, level: nat)
    requires i < |items| && IsJson(Arr(items))
    ensures ItemLines(items, i, space, level) ==
            Repeat(space, level + 1) + (Text(items[i], Indented(space), level + 1)
            + ((if i + 1 < |items| then [0x2C, 0x0A] else [0x0A]) + ItemLines(items, i + 1, space, level)))
  {
    hide Text, Break;
    if i + 1 < |items| {
      LineBreak([0x2C], space, level + 1, ItemsText(items, i + 1, Indented(space), level));
      assert [0x2C] + [0x0A] == [0x2C, 0x0A];
    } else {
      LineBreak([], space, level, [0x5D]);
      assert [] + [0x0A] == [0x0A] && [] + (Break(Indented(space), level) + [0x5D]) == Break(Indented(space), level) + [0x5D];
    }
  }

  lemma ArrayLines(items: seq<Json>, space: seq<byte>, level: nat)
    requires IsJson(Arr(items)) && items != []
    ensures Text(Arr(items), Indented(space), level) == [0x5B, 0x0A] + ItemLines(items, 0, space, level)
  {
    hide Break, ItemsText;
    LineBreak([0x5B], space, level + 1, ItemsText(items, 0, Indented(space), level));
    assert [0x5B] + [0x0A] == [0x5B, 0x0A];
  }

  lemma EmptyLines(space: seq<byte>, level: nat)
    ensures Text(Arr([]), Indented(space), level) == [0x5B, 0x5D] && Text(Obj([]), Indented(space), level) == [0x7B, 0x7D]
  {
    assert [0x5B] + [0x5D] == [0x5B, 0x5D] && [0x7B] + [0x7D] == [0x7B, 0x7D];
  }

  // A line of an indented array.
  method EmitItemLine(out: SB, items: seq<Json>, i: nat, space: seq<byte>, level: nat)
    requires out.Valid() && i < |items| && IsJson(Arr(items))
    modifies out, out.start
    ensures out.Valid()
    ensures out.Contents() + ItemLines(items, i + 1, space, level) == old(out.Contents()) + ItemLines(items, i, space, level)
    ensures out.start == old(out.start) || fresh(out.start)
    decreases items, 0
  {
    assert IsJson(items[i]);
    hide *;
    ghost var st, more := Indented(space), ItemLines(items, i + 1, space, level);
    var sep := if i + 1 < |items| then [0x2C, 0x0A] else [0x0A];
    ItemLine(items, i, space, level);
    Piece(out.Contents(), Repeat(space, level + 1), Text(items[i], st, level + 1) + (sep + more));
    Indent(out, space, level + 1);
    Piece(out.Contents(), Text(items[i], st, level + 1), sep + more);
    EmitValueIndented(out, items[i], space, level + 1);
    Piece(out.Contents(), sep, more);
    out.Put(sep);
  }

  method EmitArrayIndented(out: SB, items: seq<Json>, space: seq<byte>, level: nat)
    requires out.Valid() && IsJson(Arr(items))
    modifies out, out.start
    ensures out.Valid() && out.Contents() == old(out.Contents()) + Text(Arr(items), Indented(space), level)
    ensures out.start == old(out.start) || fresh(out.start)
    decreases items, 1
  {
    hide *;
    if items == [] {
      out.Put([0x5B, 0x5D]);
      EmptyLines(space, level);
      return;
    }
    LastItemLine(items, space, level);
    ArrayLines(items, space, level);
    ghost var target := old(out.Contents()) + Text(Arr(items), Indented(space), level);
    Piece(out.Contents(), [0x5B, 0x0A], ItemLines(items, 0, space, level));
    out.Put([0x5B, 0x0A]);
    var i := 0;
    while i < |items|
      invariant out.Valid() && (out.start == old(out.start) || fresh(out.start)) && i <= |items|
      invariant out.Contents() + ItemLines(items, i, space, level) == target
    {
      EmitItemLine(out, items, i, space, level);
      i := i + 1;
    }
    Piece(out.Contents(), Repeat(space, level), [0x5D]);
    Indent(out, space, level);
    out.Putc(0x5D);
  }

  lemma LastItemLine(items: seq<Json>, space: seq<byte>, level: nat)
    requires IsJson(Arr(items))
    ensures ItemLines(items, |items|, space, level) == Repeat(space, level) + [0x5D]
  {
  }

  ghost function MemberLines(members: seq<Member>, i: nat, space: seq<byte>, level: nat): seq<byte>
    requires i <= |members| && IsJson(Obj(members))
  {
    if i < |members| then Repeat(space, level + 1) + MembersText(members, i, Indented(space), level)
    else Repeat(space, level) + [0x7D]
  }

  lemma MemberLine(members: seq<Member>, i: nat, space: seq<byte>, level: nat)
    requires i < |members| && IsJson(Obj(members))
    ensures MemberLines(members, i, space, level) ==
            Repeat(space, level + 1) + (MemberText(members[i], Indented(space), level + 1)
            + ((if i + 1 < |members| then [0x2C, 0x0A] else [0x0A]) + MemberLines(members, i + 1, space, level)))
  {
    hide MemberText, Break;
    if i + 1 < |members| {
      LineBreak([0x2C], space, level + 1, MembersText(members, i + 1, Indented(space), level));
      assert [0x2C] + [0x0A] == [0x2C, 0x0A];
    } else {
      LineBreak([], space, level, [0x7D]);
      assert [] + [0x0A] == [0x0A] && [] + (Break(Indented(space), level) + [0x7D]) == Break(Indented(space), level) + [0x7D];
    }
  }

  lemma ObjectLines(members: seq<Member>, space: seq<byte>, level: nat)
    requires IsJson(Obj(members)) && members != []
    ensures Text(Obj(members), Indented(space), level) == [0x7B, 0x0A] + MemberLines(members, 0, space, level)
  {
    hide Break, MembersText;
    LineBreak([0x7B], space, level + 1, MembersText(members, 0, Indented(space), level));
    assert [0x7B] + [0x0A] == [0x7B, 0x0A];
  }

  lemma LastMemberLine(members: seq<Member>, space: seq<byte>, level: nat)
    requires IsJson(Obj(members))
    ensures MemberLines(members, |members|, space, level) == Repeat(space, level) + [0x7D]
  {
  }

  // A line of an indented object.
  method EmitMemberLine(out: SB, members: seq<Member>, i: nat, space: seq<byte>, level: nat)
    requires out.Valid() && i < |members| && IsJson(Obj(members))
    modifies out, out.start
    ensures out.Valid()
    ensures out.Contents() + MemberLines(members, i + 1, space, level) == old(out.Contents()) + MemberLines(members, i, space, level)
    ensures out.start == old(out.start) || fresh(out.start)
    decreases members, 0
  {
    assert IsText(members[i].key) && IsJson(members[i].value);
    hide *;
    ghost var st, more := Indented(space), MemberLines(members, i + 1, space, level);
    var sep := if i + 1 < |members| then [0x2C, 0x0A] else [0x0A];
    MemberLine(members, i, space, level);
    Piece(out.Contents(), Repeat(space, level + 1), MemberText(members[i], st, level + 1) + (sep + more));
    Indent(out, space, level + 1);
    Piece(out.Contents(), MemberText(members[i], st, level + 1), sep + more);
    EmitKey(out, members[i], Indented(space), level + 1);
    EmitValueIndented(out, members[i].value, space, level + 1);
    Piece(out.Contents(), sep, more);
    out.Put(sep);
  }

  method EmitObjectIndented(out: SB, members: seq<Member>, space: seq<byte>, level: nat)
    requires out.Valid() && IsJson(Obj(members))
    modifies out, out.start
    ensures out.Valid() && out.Contents() == old(out.Contents()) + Text(Obj(members), Indented(space), level)
    ensures out.start == old(out.start) || fresh(out.start)
    decreases members, 1
  {
    hide *;
    if members == [] {
      out.Put([0x7B, 0x7D]);
      EmptyLines(space, level);
      return;
    }
    LastMemberLine(members, space, level);
    ObjectLines(members, space, level);
    ghost var target := old(out.Contents()) + Text(Obj(members), Indented(space), level);
    Piece(out.Contents(), [0x7B, 0x0A], MemberLines(members, 0, space, level));
    out.Put([0x7B, 0x0A]);
    var i := 0;
    while i < |members|
      invariant out.Valid() && (out.start == old(out.start) || fresh(out.start)) && i <= |members|
      invariant out.Contents() + MemberLines(members, i, space, level) == target
    {
      EmitMemberLine(out, members, i, space, level);
      i := i + 1;
    }
    Piece(out.Contents(), Repeat(space, level), [0x7D]);
    Indent(out, space, level);
    out.Putc(0x7D);
  }

  // json_stringify, and json_encode, which is the same without an indent.
  method Stringify(j: Json, space: Option<seq<byte>>) returns (s: seq<byte>)
    requires IsJson(j)
    ensures s == Text(j, if space.None? then Compact else Indented(space.value), 0)
    ensures (space.Some? ==> JsonRoundTrip.IsBlank(space.value)) ==>
              forall k :: JsonGrammar.IsDocument(s, k) <==> k == j && JsonValues.Clean(j)
  {
    hide Text, JsonGrammar.IsDocument, JsonValues.Clean;
    ghost var st := if space.None? then Compact else Indented(space.value);
    forall k | space.Some? ==> JsonRoundTrip.IsBlank(space.value)
      ensures JsonGrammar.IsDocument(Text(j, st, 0), k) <==> k == j && JsonValues.Clean(j)
    {
      JsonDocuments.TextIsDocument(j, st, k);
    }
    var out := new SB();
    if space.Some? {
      EmitValueIndented(out, j, space.value, 0);
    } else {
      EmitValue(out, j, 0);
    }
    s := out.Finish();
  }
}
