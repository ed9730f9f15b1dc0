// Encoding and decoding put together, on C strings.

module JsonCodec {
  import opened Bytes
  import opened Options
  import opened JsonText
  import opened JsonRoundTrip
  import opened JsonValues
  import JsonEmit
  import JsonParse

  lemma CharHasNoNul(s: seq<byte>, i: nat)
    requires i < |s| && s[i] != 0 && CharLen(s, i) > 0
    ensures 0 !in CharText(s, i)
  {
    if EscapeLetter(s[i]) == 0 && s[i] >= 0x1F {
      var t := s[i..i + CharLen(s, i)];
      assert forall k :: 0 <= k < |t| ==> t[k] == At(s, i + k) && t[k] != 0;
    }
  }

  lemma {:induction false} CharsHaveNoNul(s: seq<byte>, i: nat)
    requires i <= |s| && ValidFrom(s, i)
    ensures 0 !in CharsText(s, i)
    decreases |s| - i
  {
    hide CharText, CharLen;
    if i < |s| {
      CharHasNoNul(s, i);
      CharsHaveNoNul(s, i + CharLen(s, i));
    }
  }

  lemma NumberHasNoNul(n: seq<byte>)
    requires ParseNumber(n, 0) == Some(|n|)
    ensures 0 !in n
  {
    hide Integer, Fraction, Exponent;
    var b := Integer(n, 0).value;
    var c := Fraction(n, b).value;
    PartsHaveNoNul(n);
    forall k | 0 <= k < |n|
      ensures n[k] != 0
    {
      assert At(n, k) != 0;
    }
  }

  lemma PartsHaveNoNul(n: seq<byte>)
    requires Integer(n, 0).Some? && Fraction(n, Integer(n, 0).value).Some?
    ensures forall k :: 0 <= k < Integer(n, 0).value ==> At(n, k) != 0
    ensures var b := Integer(n, 0).value; forall k :: b <= k < Fraction(n, b).value ==> At(n, k) != 0
    ensures var c := Fraction(n, Integer(n, 0).value).value;
            Exponent(n, c).Some? ==> forall k :: c <= k < Exponent(n, c).value ==> At(n, k) != 0
  {
    hide Digits;
  }

  lemma {:induction false} RepeatHasNoNul(space: seq<byte>, n: nat)
    requires 0 !in space
    ensures 0 !in Repeat(space, n)
  {
    if n > 0 {
      RepeatHasNoNul(space, n - 1);
    }
  }

  ghost predicate StyleOk(st: Style) {
    st.Indented? ==> 0 !in st.space
  }

  lemma BreakHasNoNul(st: Style, level: nat)
    requires StyleOk(st)
    ensures 0 !in Break(st, level)
  {
    if st.Indented? {
      RepeatHasNoNul(st.space, level);
    }
  }

  lemma StringHasNoNul(s: seq<byte>)
    requires IsText(s)
    ensures 0 !in StringText(s)
  {
    CharsHaveNoNul(s, 0);
  }

  // The text written has no NUL in it, so as a C string it is whole.
  lemma {:induction false} TextHasNoNul(j: Json, st: Style, level: nat)
    requires IsJson(j) && StyleOk(st)
    ensures 0 !in Text(j, st, level)
    decreases j, 1, 0
  {
    hide StringText, Break, ParseNumber;
    match j {
      case Str(s) =>
        StringHasNoNul(s);
      case Num(n) =>
        NumberHasNoNul(n);
      case Arr(items) =>
        BreakHasNoNul(st, level + 1);
        if items != [] {
          ItemsHaveNoNul(items, 0, st, level);
        }
      case Obj(members) =>
        BreakHasNoNul(st, level + 1);
        if members != [] {
          MembersHaveNoNul(members, 0, st, level);
        }
      case _ =>
    }
  }

  lemma {:induction false} ItemsHaveNoNul(items: seq<Json>, i: nat, st: Style, level: nat)
    requires ItemsOk(items) && i < |items| && StyleOk(st)
    ensures 0 !in ItemsText(items, i, st, level)
    decreases items, 0, |items| - i
  {
    hide Text, Break;
    TextHasNoNul(items[i], st, level + 1);
    BreakHasNoNul(st, level);
    BreakHasNoNul(st, level + 1);
    if i + 1 < |items| {
      ItemsHaveNoNul(items, i + 1, st, level);
    }
  }

  lemma {:induction false} MembersHaveNoNul(members: seq<Member>, i: nat, st: Style, level: nat)
    requires MembersOk(members) && i < |members| && StyleOk(st)
    ensures 0 !in MembersText(members, i, st, level)
    decreases members, 0, |members| - i
  {
    hide Text, Break, StringText;
    StringHasNoNul(members[i].key);
    TextHasNoNul(members[i].value, st, level + 1);
    BreakHasNoNul(st, level);
    BreakHasNoNul(st, level + 1);
    if i + 1 < |members| {
      MembersHaveNoNul(members, i + 1, st, level);
    }
  }

  // json_stringify and then json_decode.
  method EncodeDecode(j: Json, space: Option<seq<byte>>) returns (r: Option<Json>)
    requires IsJson(j) && (space.Some? ==> 0 !in space.value && IsBlank(space.value))
    ensures r == if Clean(j) then Some(j) else None
  {
    hide Text, Decode;
    ghost var st := if space.None? then Compact else Indented(space.value);
    var text := JsonEmit.Stringify(j, space);
    TextHasNoNul(j, st, 0);
    DecodeEncode(j, st, [], []);
    assert [] + Text(j, st, 0) + [] == Text(j, st, 0);
    r := JsonParse.JsonDecode(text);
  }
}
