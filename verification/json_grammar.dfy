// The JSON grammar of RFC 8259 and the UTF-8 encoding of RFC 3629, as relations between a text and
// what it stands for.

module JsonGrammar {
  import opened Bytes
  import opened JsonText

  // The bytes of an ASCII text.
  function Ascii(t: string): (s: seq<byte>)
    requires forall i :: 0 <= i < |t| ==> t[i] as int < 128
    ensures |s| == |t|
  {
    seq(|t|, i requires 0 <= i < |t| => t[i] as int)
  }

  // The bytes of code point u: section 4 of RFC 3629.
  predicate IsUtf8(c: seq<byte>, u: nat) {
    match |c|
    case 1 => c[0] as nat == u && u < 0x80
    case 2 =>
      && 0xC0 <= c[0] < 0xE0 && IsTail(c[1])
      && u == (c[0] as int - 0xC0) * 0x40 + (c[1] as int - 0x80) && 0x80 <= u < 0x800
    case 3 =>
      && 0xE0 <= c[0] < 0xF0 && IsTail(c[1]) && IsTail(c[2])
      && u == (c[0] as int - 0xE0) * 0x1000 + (c[1] as int - 0x80) * 0x40 + (c[2] as int - 0x80)
      && 0x800 <= u < 0x1_0000 && !(0xD800 <= u < 0xE000)
    case 4 =>
      && 0xF0 <= c[0] < 0xF8 && IsTail(c[1]) && IsTail(c[2]) && IsTail(c[3])
      && u == (c[0] as int - 0xF0) * 0x4_0000 + (c[1] as int - 0x80) * 0x1000 + (c[2] as int - 0x80) * 0x40 + (c[3] as int - 0x80)
      && 0x1_0000 <= u < 0x11_0000
    case _ => false
  }

  predicate IsTail(b: byte) {
    0x80 <= b < 0xC0
  }

  // Code points one after the other, none of them NUL.
  ghost predicate AreUtf8(s: seq<byte>)
    decreases |s|
  {
    s == [] || exists a: nat, u: nat :: 0 < a <= |s| && u != 0 && IsUtf8(s[..a], u) && AreUtf8(s[a..])
  }

  //// Strings: section 7 of RFC 8259

  predicate IsHexDigit(d: byte, v: int) {
    || ('0' as int <= d <= '9' as int && v == d - '0' as int)
    || ('A' as int <= d <= 'F' as int && v == d - 'A' as int + 10)
    || ('a' as int <= d <= 'f' as int && v == d - 'a' as int + 10)
  }

  // A backslash, a u and four digits.
  ghost predicate IsUnit(t: seq<byte>, u: int) {
    && |t| == 6 && t[0] as int == '\\' as int && t[1] as int == 'u' as int
    && exists a: int, b: int, c: int, d: int ::
         && IsHexDigit(t[2], a) && IsHexDigit(t[3], b) && IsHexDigit(t[4], c) && IsHexDigit(t[5], d)
         && u == a * 0x1000 + b * 0x100 + c * 0x10 + d
  }

  // A backslash and a letter.
  predicate IsShort(t: seq<byte>, c: seq<byte>) {
    && |t| == 2 && t[0] as int == '\\' as int && |c| == 1
    && var d, e := t[1] as int, c[0];
       || (d == '\"' as int && e == 0x22)
       || (d == '\\' as int && e == 0x5C)
       || (d == '/' as int && e == 0x2F)
       || (d == 'b' as int && e == 0x08)
       || (d == 'f' as int && e == 0x0C)
       || (d == 'n' as int && e == 0x0A)
       || (d == 'r' as int && e == 0x0D)
       || (d == 't' as int && e == 0x09)
  }

  ghost predicate IsRaw(t: seq<byte>, c: seq<byte>) {
    t == c && exists u: nat :: IsUtf8(c, u) && u >= 0x20 && u != 0x22 && u != 0x5C
  }

  // Any code point but NUL, which a C string cannot hold, and the surrogates.
  ghost predicate IsEscaped(t: seq<byte>, c: seq<byte>) {
    exists u: nat :: IsUnit(t, u) && u != 0 && !(0xD800 <= u < 0xE000) && IsUtf8(c, u)
  }

  // A code point above 0xFFFF as two surrogates.
  ghost predicate IsPair(t: seq<byte>, c: seq<byte>) {
    |t| == 12 && exists hi: nat, lo: nat ::
      && IsUnit(t[..6], hi) && 0xD800 <= hi < 0xDC00
      && IsUnit(t[6..], lo) && 0xDC00 <= lo < 0xE000
      && IsUtf8(c, 0x1_0000 + (hi - 0xD800) * 0x400 + (lo - 0xDC00))
  }

  // The text t stands for the character with bytes c.
  ghost predicate Spells(t: seq<byte>, c: seq<byte>) {
    IsRaw(t, c) || IsShort(t, c) || IsEscaped(t, c) || IsPair(t, c)
  }

  ghost predicate SpellsAll(t: seq<byte>, str: seq<byte>)
    decreases |t|
  {
    if t == [] then str == []
    else exists a: nat, b: nat ::
      0 < a <= |t| && b <= |str| && Spells(t[..a], str[..b]) && SpellsAll(t[a..], str[b..])
  }

  ghost predicate IsString(t: seq<byte>, str: seq<byte>) {
    |t| >= 2 && t[0] == 0x22 && t[|t| - 1] == 0x22 && SpellsAll(t[1..|t| - 1], str)
  }

  //// Numbers: section 6

  predicate AreDigits(t: seq<byte>) {
    t != [] && forall k :: 0 <= k < |t| ==> '0' as int <= t[k] <= '9' as int
  }

  // A zero on its own, or digits of which the first is not zero.
  predicate IsInt(t: seq<byte>) {
    AreDigits(t) && (t[0] as int == '0' as int ==> |t| == 1)
  }

  predicate IsFrac(t: seq<byte>) {
    t == [] || (t[0] as int == '.' as int && AreDigits(t[1..]))
  }

  predicate IsExp(t: seq<byte>) {
    t == [] ||
    ((t[0] as int == 'e' as int || t[0] as int == 'E' as int) &&
     (AreDigits(t[1..]) || (|t| > 1 && (t[1] as int == '+' as int || t[1] as int == '-' as int) && AreDigits(t[2..]))))
  }

  ghost predicate IsNumber(t: seq<byte>) {
    exists a: nat, b: nat, c: nat ::
      && a <= b <= c <= |t| && IsInt(t[a..b]) && IsFrac(t[b..c]) && IsExp(t[c..])
      && (a == 0 || (a == 1 && t[0] as int == '-' as int))
  }

  //// Values: sections 2 to 5

  predicate IsWs(t: seq<byte>) {
    forall k :: 0 <= k < |t| ==> t[k] == 0x20 || t[k] == 0x09 || t[k] == 0x0A || t[k] == 0x0D
  }

  // The text t stands for the value j.
  ghost predicate IsValue(t: seq<byte>, j: Json)
    decreases j, 1, 0
  {
    match j
    case Null => t == Ascii("null")
    case Bool(b) => t == if b then Ascii("true") else Ascii("false")
    case Num(n) => t == n && IsNumber(n)
    case Str(s) => IsString(t, s)
    case Arr(items) =>
      && |t| >= 2 && t[0] as int == '[' as int && t[|t| - 1] as int == ']' as int
      && var b := t[1..|t| - 1]; if items == [] then IsWs(b) else AreItems(b, items, 0)
    case Obj(members) =>
      && |t| >= 2 && t[0] as int == '{' as int && t[|t| - 1] as int == '}' as int
      && var b := t[1..|t| - 1]; if members == [] then IsWs(b) else AreMembers(b, members, 0)
  }

  // A value with white space around it.
  ghost predicate IsDocument(t: seq<byte>, j: Json)
    decreases j, 2, 0
  {
    exists a: nat, b: nat :: a <= b <= |t| && IsWs(t[..a]) && IsValue(t[a..b], j) && IsWs(t[b..])
  }

  // The items from the i-th on, with commas between them.
  ghost predicate AreItems(t: seq<byte>, items: seq<Json>, i: nat)
    requires i < |items|
    decreases items, 0, |items| - i
  {
    if i + 1 == |items| then IsDocument(t, items[i])
    else exists k: nat ::
      k < |t| && t[k] as int == ',' as int && IsDocument(t[..k], items[i]) && AreItems(t[k + 1..], items, i + 1)
  }

  ghost predicate AreMembers(t: seq<byte>, members: seq<Member>, i: nat)
    requires i < |members|
    decreases members, 0, |members| - i
  {
    if i + 1 == |members| then IsMember(t, members[i])
    else exists k: nat ::
      k < |t| && t[k] as int == ',' as int && IsMember(t[..k], members[i]) && AreMembers(t[k + 1..], members, i + 1)
  }

  // A key, a colon and a value.
  ghost predicate IsMember(t: seq<byte>, m: Member)
    decreases m, 3, 0
  {
    exists k: nat ::
      k < |t| && t[k] as int == ':' as int && IsKey(t[..k], m.key) && IsDocument(t[k + 1..], m.value)
  }

  ghost predicate IsKey(t: seq<byte>, key: seq<byte>) {
    exists a: nat, b: nat :: a <= b <= |t| && IsWs(t[..a]) && IsString(t[a..b], key) && IsWs(t[b..])
  }
}
