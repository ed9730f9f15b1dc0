// Decoding what was encoded.

module JsonValues {
  import opened Bytes
  import opened Options
  import opened JsonText
  import opened JsonRoundTrip

  // No string and no key holds byte 0x1F.
  predicate Clean(j: Json) {
    match j
    case Null => true
    case Bool(_) => true
    case Str(s) => 0x1F !in s
    case Num(_) => true
    case Arr(items) => forall i :: 0 <= i < |items| ==> Clean(items[i])
    case Obj(members) => forall i :: 0 <= i < |members| ==> 0x1F !in members[i].key && Clean(members[i].value)
  }

  // A value's text starts with neither white space nor a closing bracket.
  lemma TextStarts(j: Json, st: Style, level: nat)
    requires IsJson(j)
    ensures var t := Text(j, st, level); t != [] && !IsSpace(t[0]) && t[0] != 0x5D
  {
    if j.Num? {
      assert Integer(j.lexeme, 0).Some?;
    }
  }

  // Skipping a line break, or nothing, up to something that is not white space.
  lemma SkipBreak(s: seq<byte>, p: nat, st: Style, level: nat, t: seq<byte>)
    requires BlankStyle(st) && t != [] && !IsSpace(t[0]) && HasAt(s, p, Break(st, level) + t)
    ensures SkipSpace(s, p) == p + |Break(st, level)| && HasAt(s, p + |Break(st, level)|, t)
    ensures At(s, p + |Break(st, level)|) == t[0]
  {
    hide HasAt, Break;
    HasAtSplit(s, p, Break(st, level), t);
    HasAtByte(s, p + |Break(st, level)|, t, 0);
    BlankBreak(st, level);
    SkipBlank(s, p, Break(st, level));
  }

  // What comes first at a line break, or after it, ends a number.
  lemma BreakStops(s: seq<byte>, p: nat, st: Style, level: nat, t: seq<byte>)
    requires t != [] && Stops(t[0]) && HasAt(s, p, Break(st, level) + t)
    ensures Stops(At(s, p))
  {
    HasAtByte(s, p, Break(st, level) + t, 0);
  }

  ghost predicate AllClean(items: seq<Json>, i: nat) {
    forall k :: i <= k < |items| ==> Clean(items[k])
  }

  ghost predicate ItemsOk(items: seq<Json>) {
    forall k :: 0 <= k < |items| ==> IsJson(items[k])
  }

  ghost predicate MemberClean(m: Member) {
    0x1F !in m.key && Clean(m.value)
  }

  ghost predicate AllMembersClean(members: seq<Member>, i: nat) {
    forall k :: i <= k < |members| ==> MemberClean(members[k])
  }

  ghost predicate MembersOk(members: seq<Member>) {
    forall k :: 0 <= k < |members| ==> IsText(members[k].key) && IsJson(members[k].value)
  }

  // Literals, strings and numbers.
  lemma ScalarRoundTrip(j: Json, st: Style, level: nat, s: seq<byte>, p: nat)
    requires IsJson(j) && !j.Arr? && !j.Obj?
    requires HasAt(s, p, Text(j, st, level)) && Stops(At(s, p + |Text(j, st, level)|))
    ensures ParseValue(s, p) == if Clean(j) then Ok(j, p + |Text(j, st, level)|) else Fail
  {
    hide ParseString, ParseNumber;
    var t := Text(j, st, level);
    TextStarts(j, st, level);
    HasAtByte(s, p, t, 0);
    match j {
      case Null =>
      case Bool(_) =>
      case Str(str) =>
        assert t[0] == QUOTE;
        StringRoundTrip(str, s, p);
      case Num(n) =>
        assert Holds(s, p, n) by {
          forall k | 0 <= k < |n|
            ensures At(s, p + k) == n[k]
          {
            HasAtByte(s, p, n, k);
          }
        }
        NumberRoundTrip(s, p, n);
        NumberStarts(n);
    }
  }

  lemma NumberStarts(n: seq<byte>)
    requires ParseNumber(n, 0) == Some(|n|)
    ensures n != [] && (n[0] == 0x2D || IsDigit(n[0]))
  {
    assert Integer(n, 0).Some?;
  }

  // A whole value, in either layout: it comes back, unless byte 0x1F is in one of its strings, and
  // then the text is refused.
  lemma {:induction false} ValueRoundTrip(j: Json, st: Style, level: nat, s: seq<byte>, p: nat)
    requires IsJson(j) && BlankStyle(st)
    requires HasAt(s, p, Text(j, st, level)) && Stops(At(s, p + |Text(j, st, level)|))
    ensures ParseValue(s, p) == if Clean(j) then Ok(j, p + |Text(j, st, level)|) else Fail
    decreases j, 1, 0
  {
    match j {
      case Arr(items) =>
        ArrayRoundTrip(items, st, level, s, p);
      case Obj(members) =>
        ObjectRoundTrip(members, st, level, s, p);
      case _ =>
        ScalarRoundTrip(j, st, level, s, p);
    }
  }

  lemma {:induction false} ArrayRoundTrip(items: seq<Json>, st: Style, level: nat, s: seq<byte>, p: nat)
    requires IsJson(Arr(items)) && BlankStyle(st) && HasAt(s, p, Text(Arr(items), st, level))
    ensures ParseValue(s, p) == if Clean(Arr(items)) then Ok(Arr(items), p + |Text(Arr(items), st, level)|) else Fail
    decreases items, 1, 0
  {
    hide HasAt, SkipSpace, Break, ParseItems, ItemsText;
    HasAtByte(s, p, Text(Arr(items), st, level), 0);
    if items == [] {
      HasAtByte(s, p, Text(Arr(items), st, level), 1);
      SkipNothing(s, p + 1);
    } else {
      var inner := ItemsText(items, 0, st, level);
      HasAtSplit(s, p, [0x5B], Break(st, level + 1) + inner);
      ItemsStart(items, 0, st, level);
      SkipBreak(s, p + 1, st, level + 1, inner);
      ItemsRoundTrip(items, 0, st, level, s, p + 1 + |Break(st, level + 1)|);
      assert items[0..] == items;
    }
  }

  lemma SkipNothing(s: seq<byte>, p: nat)
    requires !IsSpace(At(s, p))
    ensures SkipSpace(s, p) == p
  {
  }

  lemma ItemsStart(items: seq<Json>, i: nat, st: Style, level: nat)
    requires ItemsOk(items) && i < |items|
    ensures var t := ItemsText(items, i, st, level); t != [] && !IsSpace(t[0]) && t[0] != 0x5D
  {
    TextStarts(items[i], st, level + 1);
  }

  lemma {:induction false} ItemsRoundTrip(items: seq<Json>, i: nat, st: Style, level: nat, s: seq<byte>, p: nat)
    requires i < |items| && ItemsOk(items) && BlankStyle(st) && HasAt(s, p, ItemsText(items, i, st, level))
    ensures ParseItems(s, p) ==
            if AllClean(items, i) then Ok(items[i..], p + |ItemsText(items, i, st, level)|) else Fail
    decreases items, 0, |items| - i
  {
    hide Text, ItemsText, ParseValue, IsJson, Break, SkipSpace, HasAt, StringText;
    assert IsJson(items[i]);
    var t := Text(items[i], st, level + 1);
    if i + 1 == |items| {
      LastItem(items, i, st, level, s, p);
      ValueRoundTrip(items[i], st, level + 1, s, p);
      assert items[i..] == [items[i]];
    } else {
      MoreItems(items, i, st, level, s, p);
      ValueRoundTrip(items[i], st, level + 1, s, p);
      ItemsRoundTrip(items, i + 1, st, level, s, p + |t| + 1 + |Break(st, level + 1)|);
      assert items[i..] == [items[i]] + items[i + 1..];
    }
  }

  lemma LastItem(items: seq<Json>, i: nat, st: Style, level: nat, s: seq<byte>, p: nat)
    requires i + 1 == |items| && ItemsOk(items) && BlankStyle(st) && HasAt(s, p, ItemsText(items, i, st, level))
    ensures var t := Text(items[i], st, level + 1);
            var q, k := p + |t|, p + |t| + |Break(st, level)|;
            && HasAt(s, p, t) && Stops(At(s, q)) && SkipSpace(s, q) == k && At(s, k) == 0x5D
            && k + 1 == p + |ItemsText(items, i, st, level)| && IsJson(items[i])
  {
    hide HasAt, SkipSpace, Break, Text, Stops;
    var t, end := Text(items[i], st, level + 1), Break(st, level) + [0x5D];
    HasAtSplit(s, p, t, end);
    EndStops(s, p + |t|, st, level, 0x5D);
    SkipBreak(s, p + |t|, st, level, [0x5D]);
  }

  lemma MoreItems(items: seq<Json>, i: nat, st: Style, level: nat, s: seq<byte>, p: nat)
    requires i + 1 < |items| && ItemsOk(items) && BlankStyle(st) && HasAt(s, p, ItemsText(items, i, st, level))
    ensures var t := Text(items[i], st, level + 1);
            var q, k := p + |t|, p + |t| + 1 + |Break(st, level + 1)|;
            && HasAt(s, p, t) && Stops(At(s, q)) && SkipSpace(s, q) == q && At(s, q) == 0x2C && SkipSpace(s, q + 1) == k
            && HasAt(s, k, ItemsText(items, i + 1, st, level)) && IsJson(items[i])
            && k + |ItemsText(items, i + 1, st, level)| == p + |ItemsText(items, i, st, level)|
  {
    hide HasAt, SkipSpace, Break, Text, Stops;
    var t, br, more := Text(items[i], st, level + 1), Break(st, level + 1), ItemsText(items, i + 1, st, level);
    HasAtSplit(s, p, t, [0x2C] + (br + more));
    HasAtSplit(s, p + |t|, [0x2C], br + more);
    CommaStops(s, p + |t|);
    SkipNothing(s, p + |t|);
    ItemsStart(items, i + 1, st, level);
    SkipBreak(s, p + |t| + 1, st, level + 1, more);
  }

  lemma CommaStops(s: seq<byte>, p: nat)
    requires HasAt(s, p, [0x2C])
    ensures At(s, p) == 0x2C && Stops(At(s, p)) && !IsSpace(At(s, p))
  {
    HasAtByte(s, p, [0x2C], 0);
  }

  lemma EndStops(s: seq<byte>, p: nat, st: Style, level: nat, bracket: byte)
    requires (bracket == 0x5D || bracket == 0x7D) && HasAt(s, p, Break(st, level) + [bracket])
    ensures Stops(At(s, p)) && !IsSpace(bracket)
  {
    BreakStops(s, p, st, level, [bracket]);
  }

  //// Objects

  lemma {:induction false} ObjectRoundTrip(members: seq<Member>, st: Style, level: nat, s: seq<byte>, p: nat)
    requires IsJson(Obj(members)) && BlankStyle(st) && HasAt(s, p, Text(Obj(members), st, level))
    ensures ParseValue(s, p) ==
            if Clean(Obj(members)) then Ok(Obj(members), p + |Text(Obj(members), st, level)|) else Fail
    decreases members, 1, 0
  {
    hide HasAt, SkipSpace, Break, ParseMembers, MembersText;
    HasAtByte(s, p, Text(Obj(members), st, level), 0);
    if members == [] {
      HasAtByte(s, p, Text(Obj(members), st, level), 1);
      SkipNothing(s, p + 1);
    } else {
      var inner := MembersText(members, 0, st, level);
      HasAtSplit(s, p, [0x7B], Break(st, level + 1) + inner);
      MembersStart(members, 0, st, level);
      SkipBreak(s, p + 1, st, level + 1, inner);
      MembersRoundTrip(members, 0, st, level, s, p + 1 + |Break(st, level + 1)|);
      assert members[0..] == members;
    }
  }

  lemma MembersStart(members: seq<Member>, i: nat, st: Style, level: nat)
    requires MembersOk(members) && i < |members|
    ensures var t := MembersText(members, i, st, level); t != [] && t[0] == QUOTE
  {
  }

  lemma MemberRoundTrip(m: Member, st: Style, level: nat, s: seq<byte>, p: nat)
    requires IsText(m.key) && IsJson(m.value) && BlankStyle(st)
    requires HasAt(s, p, MemberText(m, st, level)) && Stops(At(s, p + |MemberText(m, st, level)|))
    ensures ParseMember(s, p) == if MemberClean(m) then Ok(m, p + |MemberText(m, st, level)|) else Fail
    decreases m, 2, 0
  {
    hide HasAt, SkipSpace, Text, Stops, ParseString, ParseValue, StringText;
    var k, c, v := StringText(m.key), Colon(st), Text(m.value, st, level);
    HasAtSplit(s, p, k, c + v);
    HasAtSplit(s, p + |k|, c, v);
    StringRoundTrip(m.key, s, p);
    TextStarts(m.value, st, level);
    SkipColon(s, p + |k|, st, v);
    ValueRoundTrip(m.value, st, level, s, p + |k| + |c|);
  }

  lemma SkipColon(s: seq<byte>, p: nat, st: Style, v: seq<byte>)
    requires HasAt(s, p, Colon(st)) && HasAt(s, p + |Colon(st)|, v) && v != [] && !IsSpace(v[0])
    ensures SkipSpace(s, p) == p && At(s, p) == 0x3A && SkipSpace(s, p + 1) == p + |Colon(st)|
  {
    HasAtByte(s, p, Colon(st), 0);
    HasAtByte(s, p + |Colon(st)|, v, 0);
    if st.Indented? {
      HasAtByte(s, p, Colon(st), 1);
      SkipNothing(s, p + 2);
    }
  }

  lemma {:induction false} MembersRoundTrip(members: seq<Member>, i: nat, st: Style, level: nat, s: seq<byte>, p: nat)
    requires i < |members| && MembersOk(members) && BlankStyle(st) && HasAt(s, p, MembersText(members, i, st, level))
    ensures ParseMembers(s, p) ==
            if AllMembersClean(members, i) then Ok(members[i..], p + |MembersText(members, i, st, level)|) else Fail
    decreases members, 0, |members| - i
  {
    hide Text, StringText, MemberText, MembersText, ParseMember, ParseValue, ParseString, IsJson, Break, SkipSpace, HasAt;
    assert IsText(members[i].key) && IsJson(members[i].value);
    var t := MemberText(members[i], st, level + 1);
    if i + 1 == |members| {
      LastMember(members, i, st, level, s, p);
      MemberRoundTrip(members[i], st, level + 1, s, p);
      assert members[i..] == [members[i]];
    } else {
      MoreMembers(members, i, st, level, s, p);
      MemberRoundTrip(members[i], st, level + 1, s, p);
      MembersRoundTrip(members, i + 1, st, level, s, p + |t| + 1 + |Break(st, level + 1)|);
      assert members[i..] == [members[i]] + members[i + 1..];
    }
  }

  lemma LastMember(members: seq<Member>, i: nat, st: Style, level: nat, s: seq<byte>, p: nat)
    requires i + 1 == |members| && MembersOk(members) && BlankStyle(st) && HasAt(s, p, MembersText(members, i, st, level))
    ensures var t := MemberText(members[i], st, level + 1);
            var q, k := p + |t|, p + |t| + |Break(st, level)|;
            && HasAt(s, p, t) && Stops(At(s, q)) && SkipSpace(s, q) == k && At(s, k) == 0x7D
            && k + 1 == p + |MembersText(members, i, st, level)|
  {
    hide HasAt, SkipSpace, Break, MemberText, Stops;
    var t, end := MemberText(members[i], st, level + 1), Break(st, level) + [0x7D];
    HasAtSplit(s, p, t, end);
    EndStops(s, p + |t|, st, level, 0x7D);
    SkipBreak(s, p + |t|, st, level, [0x7D]);
  }

  lemma MoreMembers(members: seq<Member>, i: nat, st: Style, level: nat, s: seq<byte>, p: nat)
    requires i + 1 < |members| && MembersOk(members) && BlankStyle(st) && HasAt(s, p, MembersText(members, i, st, level))
    ensures var t := MemberText(members[i], st, level + 1);
            var q, k := p + |t|, p + |t| + 1 + |Break(st, level + 1)|;
            && HasAt(s, p, t) && Stops(At(s, q)) && SkipSpace(s, q) == q && At(s, q) == 0x2C && SkipSpace(s, q + 1) == k
            && HasAt(s, k, MembersText(members, i + 1, st, level))
            && k + |MembersText(members, i + 1, st, level)| == p + |MembersText(members, i, st, level)|
  {
    hide HasAt, SkipSpace, Break, MemberText, Stops;
    var t, br, more := MemberText(members[i], st, level + 1), Break(st, level + 1), MembersText(members, i + 1, st, level);
    HasAtSplit(s, p, t, [0x2C] + (br + more));
    HasAtSplit(s, p + |t|, [0x2C], br + more);
    CommaStops(s, p + |t|);
    SkipNothing(s, p + |t|);
    MembersStart(members, i + 1, st, level);
    SkipBreak(s, p + |t| + 1, st, level + 1, more);
  }

  //// json_encode, json_stringify and json_decode

  // With white space before and after it, and any white-space indent or none, the text of a value
  // decodes to that value if and only if byte 0x1F is in none of its strings and keys.
  lemma DecodeEncode(j: Json, st: Style, before: seq<byte>, after: seq<byte>)
    requires IsJson(j) && BlankStyle(st) && IsBlank(before) && IsBlank(after)
    ensures Decode(before + Text(j, st, 0) + after) == if Clean(j) then Some(j) else None
  {
    hide HasAt, SkipSpace, Text, ParseValue;
    var t := Text(j, st, 0);
    var s := before + t + after;
    TextStarts(j, st, 0);
    Pieces(before, t, after);
    HasAtByte(s, |before|, t, 0);
    SkipBlank(s, 0, before);
    AfterBlank(s, |before| + |t|, after);
    ValueRoundTrip(j, st, 0, s, |before|);
    SkipBlank(s, |before| + |t|, after);
  }

  lemma Pieces(a: seq<byte>, b: seq<byte>, c: seq<byte>)
    ensures var s := a + b + c; HasAt(s, 0, a) && HasAt(s, |a|, b) && HasAt(s, |a| + |b|, c)
  {
    var s := a + b + c;
    assert s[0..|a|] == a && s[|a|..|a| + |b|] == b && s[|a| + |b|..|a| + |b| + |c|] == c;
  }

  lemma AfterBlank(s: seq<byte>, p: nat, ws: seq<byte>)
    requires HasAt(s, p, ws) && IsBlank(ws) && p + |ws| == |s|
    ensures Stops(At(s, p)) && !IsSpace(At(s, p + |ws|))
  {
    if ws != [] {
      HasAtByte(s, p, ws, 0);
    }
  }

  //// What decoding gives can be encoded

  lemma CharsConcat(a: seq<byte>, b: seq<byte>)
    requires 0 < |a| && a[0] != 0 && CharLen(a, 0) == |a| && IsText(b)
    ensures IsText(a + b)
  {
    var s := a + b;
    assert s[0..|a|] == a;
    assert HasAt(s, 0, a[0..|a|]);
    SameLength(a, 0, s, 0);
    ShiftText(b, 0, a);
  }

  lemma {:induction false} ShiftText(b: seq<byte>, i: nat, a: seq<byte>)
    requires i <= |b| && ValidFrom(b, i)
    ensures ValidFrom(a + b, |a| + i)
    decreases |b| - i
  {
    if i < |b| {
      var n, s := CharLen(b, i), a + b;
      assert s[|a| + i..|a| + i + n] == b[i..i + n];
      SameLength(b, i, s, |a| + i);
      ShiftText(b, i + n, a);
    }
  }

  // Whatever character the parser takes is one valid UTF-8 character, and not a NUL.
  lemma OneCharIsText(s: seq<byte>, i: nat)
    requires OneChar(s, i).Ok?
    ensures var c := OneChar(s, i).value; c[0] != 0 && CharLen(c, 0) == |c|
  {
    var c := At(s, i);
    if c == BACKSLASH {
      if At(s, i + 1) == 0x75 {
        EscapeIsText(s, i + 2);
      }
    } else {
      var n := CharLen(s, i);
      var t := s[i..i + n];
      assert HasAt(t, 0, s[i..i + n]);
      SameLength(s, i, t, 0);
    }
  }

  lemma EscapeIsText(s: seq<byte>, i: nat)
    requires UnicodeEscape(s, i).Ok?
    ensures var c := UnicodeEscape(s, i).value; c[0] != 0 && CharLen(c, 0) == |c|
  {
    var uc := ParseHex16(s, i).value;
    if 0xD800 <= uc <= 0xDFFF {
      WriteRead(FromPair(uc, ParseHex16(s, i + 6).value).value);
    } else {
      WriteRead(uc);
    }
  }

  lemma {:induction false} CharsAreText(s: seq<byte>, i: nat)
    requires Chars(s, i).Ok?
    ensures IsText(Chars(s, i).value)
    decreases if i < |s| then |s| - i else 0
  {
    hide OneChar;
    if At(s, i) == QUOTE {
      assert IsText([]);
    } else {
      var c := OneChar(s, i);
      OneCharIsText(s, i);
      CharsAreText(s, c.next);
      CharsConcat(c.value, Chars(s, c.next).value);
    }
  }

  // n is cut out of s.
  ghost predicate IsCut(s: seq<byte>, i: nat, n: seq<byte>) {
    forall q :: 0 <= q < |n| ==> At(s, i + q) == n[q]
  }

  lemma CutByte(s: seq<byte>, i: nat, n: seq<byte>, k: nat)
    requires IsCut(s, i, n)
    ensures if k < |n| then At(n, k) == At(s, i + k) else At(n, k) == 0
  {
    assert k < |n| ==> At(s, i + k) == n[k];
  }

  lemma {:induction false} CutDigits(s: seq<byte>, i: nat, n: seq<byte>, k: nat)
    requires k <= |n| && IsCut(s, i, n) && Digits(s, i + k) <= i + |n|
    ensures Digits(n, k) == Digits(s, i + k) - i
    decreases |n| - k
  {
    hide IsCut;
    CutByte(s, i, n, k);
    if k < |n| && IsDigit(n[k]) {
      CutDigits(s, i, n, k + 1);
    }
  }

  lemma CutDigits1(s: seq<byte>, i: nat, n: seq<byte>, k: nat)
    requires IsCut(s, i, n) && Digits1(s, i + k).Some? && Digits1(s, i + k).value <= i + |n|
    ensures Digits1(n, k) == Some(Digits1(s, i + k).value - i)
  {
    hide IsCut;
    CutByte(s, i, n, k);
    CutDigits(s, i, n, k);
  }

  // Parts of a number that end within n are the same in n alone.
  lemma CutInteger(s: seq<byte>, i: nat, n: seq<byte>)
    requires IsCut(s, i, n) && Integer(s, i).Some? && Integer(s, i).value <= i + |n|
    ensures Integer(n, 0) == Some(Integer(s, i).value - i)
  {
    hide IsCut, Digits1;
    CutByte(s, i, n, 0);
    var a := if At(s, i) == 0x2D then 1 else 0;
    CutByte(s, i, n, a);
    if At(s, i + a) != 0x30 {
      CutDigits1(s, i, n, a);
    }
  }

  lemma CutFraction(s: seq<byte>, i: nat, n: seq<byte>, k: nat)
    requires k <= |n| && IsCut(s, i, n) && Fraction(s, i + k).Some? && Fraction(s, i + k).value <= i + |n|
    ensures Fraction(n, k) == Some(Fraction(s, i + k).value - i)
  {
    hide IsCut, Digits1;
    CutByte(s, i, n, k);
    if At(s, i + k) == 0x2E {
      CutDigits1(s, i, n, k + 1);
    }
  }

  lemma CutExponent(s: seq<byte>, i: nat, n: seq<byte>, k: nat)
    requires k <= |n| && IsCut(s, i, n) && Exponent(s, i + k).Some? && Exponent(s, i + k).value <= i + |n|
    ensures Exponent(n, k) == Some(Exponent(s, i + k).value - i)
  {
    hide IsCut, Digits1;
    CutByte(s, i, n, k);
    CutByte(s, i, n, k + 1);
    if At(s, i + k) == 0x45 || At(s, i + k) == 0x65 {
      CutDigits1(s, i, n, if At(s, i + k + 1) == 0x2B || At(s, i + k + 1) == 0x2D then k + 2 else k + 1);
    }
  }

  lemma NumberIsNumber(s: seq<byte>, i: nat)
    requires ParseNumber(s, i).Some?
    ensures var n := s[i..ParseNumber(s, i).value]; ParseNumber(n, 0) == Some(|n|)
  {
    hide Integer, Fraction, Exponent;
    var b := Integer(s, i).value;
    var c := Fraction(s, b).value;
    var n := s[i..ParseNumber(s, i).value];
    assert IsCut(s, i, n);
    CutInteger(s, i, n);
    CutFraction(s, i, n, b - i);
    CutExponent(s, i, n, c - i);
  }

  // Every value the parser gives is one that may be written.
  lemma {:induction false} ParsedIsJson(s: seq<byte>, i: nat)
    requires ParseValue(s, i).Ok?
    ensures IsJson(ParseValue(s, i).value)
    decreases if i < |s| then |s| - i else 0, 1
  {
    hide ParseNumber, ParseString, ParseItems, ParseMembers, SkipSpace, IsText, HasAt;
    var j := ParseValue(s, i).value;
    match j {
      case Str(_) =>
        StringIsText(s, i);
      case Num(_) =>
        NumberIsNumber(s, i);
      case Arr(items) =>
        if items != [] {
          ParsedItems(s, SkipSpace(s, i + 1));
        }
      case Obj(members) =>
        if members != [] {
          ParsedMembers(s, SkipSpace(s, i + 1));
        }
      case _ =>
    }
  }

  lemma StringIsText(s: seq<byte>, i: nat)
    requires ParseString(s, i).Ok?
    ensures IsText(ParseString(s, i).value)
  {
    CharsAreText(s, i + 1);
  }

  lemma {:induction false} ParsedItems(s: seq<byte>, i: nat)
    requires ParseItems(s, i).Ok?
    ensures ItemsOk(ParseItems(s, i).value)
    decreases if i < |s| then |s| - i else 0, 2
  {
    hide ParseValue, SkipSpace;
    ParsedIsJson(s, i);
    var k := SkipSpace(s, ParseValue(s, i).next);
    if At(s, k) != 0x5D {
      ParsedItems(s, SkipSpace(s, k + 1));
    }
  }

  lemma {:induction false} ParsedMembers(s: seq<byte>, i: nat)
    requires ParseMembers(s, i).Ok?
    ensures MembersOk(ParseMembers(s, i).value)
    decreases if i < |s| then |s| - i else 0, 3
  {
    hide SkipSpace, IsText;
    var m := ParseMember(s, i);
    assert IsText(m.value.key) && IsJson(m.value.value) by {
      hide ParseString, ParseValue;
      var key := ParseString(s, i);
      StringIsText(s, i);
      ParsedIsJson(s, SkipSpace(s, SkipSpace(s, key.next) + 1));
    }
    var k := SkipSpace(s, m.next);
    if At(s, k) != 0x7D {
      ParsedMembers(s, SkipSpace(s, k + 1));
    }
  }

  lemma DecodedIsJson(s: seq<byte>)
    requires Decode(s).Some?
    ensures IsJson(Decode(s).value)
  {
    ParsedIsJson(s, SkipSpace(s, 0));
  }

  // So decoding, encoding and decoding again gives the same value unless it holds byte 0x1F.
  lemma DecodeAgain(s: seq<byte>, st: Style)
    requires Decode(s).Some? && BlankStyle(st)
    ensures IsJson(Decode(s).value)
    ensures Decode(Text(Decode(s).value, st, 0)) == if Clean(Decode(s).value) then Decode(s) else None
  {
    DecodedIsJson(s);
    var t := Text(Decode(s).value, st, 0);
    DecodeEncode(Decode(s).value, st, [], []);
    assert [] + t + [] == t;
  }

  // Text can make such a value, by an escape: this one can be decoded, but not once written again.
  lemma EscapedUnit()
    ensures var s: seq<byte> := [QUOTE, BACKSLASH, 0x75, 0x30, 0x30, 0x31, 0x46, QUOTE];
            Decode(s) == Some(Str([0x1F])) && IsJson(Str([0x1F])) && Decode(Text(Str([0x1F]), Compact, 0)) == None
  {
    var s: seq<byte> := [QUOTE, BACKSLASH, 0x75, 0x30, 0x30, 0x31, 0x46, QUOTE];
    assert OneChar(s, 1) == Ok([0x1F], 7);
    assert Chars(s, 7) == Ok([], 8);
    assert Chars(s, 1) == Ok([0x1F] + [], 8);
    var unit: seq<byte> := [0x1F];
    assert unit + [] == unit;
    assert ParseString(s, 0) == Ok([0x1F], 8);
    assert SkipSpace(s, 0) == 0 && SkipSpace(s, 8) == 8;
    assert ParseValue(s, 0) == Ok(Str([0x1F]), 8);
    DecodeAgain(s, Compact);
  }
}
