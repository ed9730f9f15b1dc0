// How the printer lays out arrays and objects.

module JsonLayout {
  import opened Bytes
  import opened Options
  import opened JsonText
  import opened JsonGrammar
  import opened JsonValues

  // The texts in order with sep between them.
  function Joined(ts: seq<seq<byte>>, sep: seq<byte>): seq<byte> {
    if ts == [] then [] else if |ts| == 1 then ts[0] else ts[0] + sep + Joined(ts[1..], sep)
  }

  ghost predicate ItemTexts(ts: seq<seq<byte>>, items: seq<Json>, st: Style, level: nat) {
    && ItemsOk(items) && |ts| == |items|
    && forall k :: 0 <= k < |items| ==> ts[k] == Text(items[k], st, level)
  }

  ghost predicate MemberTexts(ts: seq<seq<byte>>, members: seq<Member>, st: Style, level: nat) {
    && MembersOk(members) && |ts| == |members|
    && forall k :: 0 <= k < |members| ==>
         ts[k] == StringText(members[k].key) + Ascii(if st.Compact? then ":" else ": ") + Text(members[k].value, st, level)
  }

  // As many copies of the indent as there are levels.
  lemma {:induction false} RepeatIs(space: seq<byte>, n: nat, k: nat)
    requires k < n
    ensures |Repeat(space, n)| == n * |space| && |space| * k <= |space| * k + |space| <= n * |space|
    ensures Repeat(space, n)[|space| * k..|space| * k + |space|] == space
  {
    RepeatLength(space, n - 1);
    Copies(|space|, k, n);
    var t, from := Repeat(space, n - 1), |space| * k;
    if k < n - 1 {
      RepeatIs(space, n - 1, k);
      Kept(t, space, from, from + |space|);
    } else {
      assert from == |t|;
      Last(t, space);
    }
  }

  lemma Kept(t: seq<byte>, more: seq<byte>, a: nat, b: nat)
    requires a <= b <= |t|
    ensures (t + more)[a..b] == t[a..b]
  {
  }

  lemma Last(t: seq<byte>, more: seq<byte>)
    ensures (t + more)[|t|..|t| + |more|] == more
  {
  }

  lemma Copies(size: nat, k: nat, n: nat)
    requires k < n
    ensures size * k + size <= n * size && (n - 1) * size + size == n * size
  {
    assert size * (k + 1) <= size * n;
  }

  lemma {:induction false} RepeatLength(space: seq<byte>, n: nat)
    ensures |Repeat(space, n)| == n * |space|
  {
    if n > 0 {
      RepeatLength(space, n - 1);
    }
  }

  lemma JoinedFrom(ts: seq<seq<byte>>, i: nat, sep: seq<byte>)
    requires i < |ts|
    ensures Joined(ts[i..], sep) == if i + 1 == |ts| then ts[i] else ts[i] + sep + Joined(ts[i + 1..], sep)
  {
    assert ts[i..][1..] == ts[i + 1..];
  }

  lemma {:induction false} ItemsJoined(ts: seq<seq<byte>>, items: seq<Json>, i: nat, st: Style, level: nat)
    requires ItemTexts(ts, items, st, level + 1) && i < |items|
    ensures ItemsText(items, i, st, level) ==
            Joined(ts[i..], [0x2C] + Break(st, level + 1)) + (Break(st, level) + [0x5D])
    decreases |items| - i
  {
    hide Text, Break, Joined;
    var sep, end := [0x2C] + Break(st, level + 1), Break(st, level) + [0x5D];
    JoinedFrom(ts, i, sep);
    if i + 1 < |items| {
      ItemsJoined(ts, items, i + 1, st, level);
      Regroup(ts[i], [0x2C], Break(st, level + 1), Joined(ts[i + 1..], sep), end);
    }
  }

  lemma {:induction false} MembersJoined(ts: seq<seq<byte>>, members: seq<Member>, i: nat, st: Style, level: nat)
    requires MemberTexts(ts, members, st, level + 1) && i < |members|
    ensures MembersText(members, i, st, level) ==
            Joined(ts[i..], [0x2C] + Break(st, level + 1)) + (Break(st, level) + [0x7D])
    decreases |members| - i
  {
    hide Text, StringText, MemberText, Break, Joined;
    var sep, end := [0x2C] + Break(st, level + 1), Break(st, level) + [0x7D];
    JoinedFrom(ts, i, sep);
    MemberIs(members[i], st, level + 1);
    if i + 1 < |members| {
      MembersJoined(ts, members, i + 1, st, level);
      Regroup(ts[i], [0x2C], Break(st, level + 1), Joined(ts[i + 1..], sep), end);
    }
  }

  lemma Regroup(a: seq<byte>, b: seq<byte>, c: seq<byte>, d: seq<byte>, e: seq<byte>)
    ensures a + (b + (c + (d + e))) == (a + (b + c) + d) + e
  {
  }

  lemma MemberIs(m: Member, st: Style, level: nat)
    requires IsText(m.key) && IsJson(m.value)
    ensures MemberText(m, st, level) ==
            StringText(m.key) + Ascii(if st.Compact? then ":" else ": ") + Text(m.value, st, level)
  {
    hide Text, StringText;
    var key, colon, v := StringText(m.key), Colon(st), Text(m.value, st, level);
    assert colon == Ascii(if st.Compact? then ":" else ": ");
    assert key + (colon + v) == key + colon + v;
  }

  // What is around the parts of an array or object, and between them.
  function Opening(st: Style, bracket: string, level: nat): seq<byte>
    requires bracket == "[" || bracket == "{"
  {
    match st
    case Compact => Ascii(bracket)
    case Indented(space) => Ascii(bracket + "\n") + Repeat(space, level + 1)
  }

  function Between(st: Style, level: nat): seq<byte> {
    match st
    case Compact => Ascii(",")
    case Indented(space) => Ascii(",\n") + Repeat(space, level + 1)
  }

  function Closing(st: Style, bracket: string, level: nat): seq<byte>
    requires bracket == "]" || bracket == "}"
  {
    match st
    case Compact => Ascii(bracket)
    case Indented(space) => Ascii("\n") + Repeat(space, level) + Ascii(bracket)
  }

  lemma Separators(st: Style, level: nat)
    ensures [0x5B] + Break(st, level + 1) == Opening(st, "[", level)
    ensures [0x7B] + Break(st, level + 1) == Opening(st, "{", level)
    ensures [0x2C] + Break(st, level + 1) == Between(st, level)
    ensures Break(st, level) + [0x5D] == Closing(st, "]", level)
    ensures Break(st, level) + [0x7D] == Closing(st, "}", level)
  {
    hide Repeat;
    if st.Indented? {
      assert Ascii("[\n") == [0x5B] + [0x0A] && Ascii("{\n") == [0x7B] + [0x0A] && Ascii(",\n") == [0x2C] + [0x0A];
      assert Ascii("\n") == [0x0A] && Ascii("]") == [0x5D] && Ascii("}") == [0x7D];
    }
  }

  // An array: compact, or with each item on a line of its own, one level deeper.
  lemma ArrayLayout(ts: seq<seq<byte>>, items: seq<Json>, st: Style, level: nat)
    requires ItemTexts(ts, items, st, level + 1)
    ensures Text(Arr(items), st, level) ==
            if items == [] then Ascii("[]") else Opening(st, "[", level) + Joined(ts, Between(st, level)) + Closing(st, "]", level)
  {
    hide Joined, Opening, Between, Closing, ItemsText, Break;
    if items != [] {
      ItemsJoined(ts, items, 0, st, level);
      assert ts[0..] == ts;
      Separators(st, level);
      Outside([0x5B], Break(st, level + 1), Joined(ts, Between(st, level)), Closing(st, "]", level));
    }
  }

  lemma ObjectLayout(ts: seq<seq<byte>>, members: seq<Member>, st: Style, level: nat)
    requires MemberTexts(ts, members, st, level + 1)
    ensures Text(Obj(members), st, level) ==
            if members == [] then Ascii("{}") else Opening(st, "{", level) + Joined(ts, Between(st, level)) + Closing(st, "}", level)
  {
    hide Joined, Opening, Between, Closing, MembersText, Break;
    if members != [] {
      MembersJoined(ts, members, 0, st, level);
      assert ts[0..] == ts;
      Separators(st, level);
      Outside([0x7B], Break(st, level + 1), Joined(ts, Between(st, level)), Closing(st, "}", level));
    }
  }

  lemma Outside(a: seq<byte>, b: seq<byte>, c: seq<byte>, d: seq<byte>)
    ensures a + (b + (c + d)) == (a + b) + c + d
  {
  }
}
