// JSON values, the text they are written as, and what the parser makes of text.

module JsonText {
  import opened Bytes
  import opened Options

  // A number is kept as it is written.
  datatype Json =
    | Null
    | Bool(b: bool)
    | Str(s: seq<byte>)
    | Num(lexeme: seq<byte>)
    | Arr(items: seq<Json>)
    | Obj(members: seq<Member>)

  datatype Member = Member(key: seq<byte>, value: Json)

  const QUOTE: byte := 0x22
  const BACKSLASH: byte := 0x5C
  const NULL_TEXT: seq<byte> := [0x6E, 0x75, 0x6C, 0x6C]
  const TRUE_TEXT: seq<byte> := [0x74, 0x72, 0x75, 0x65]
  const FALSE_TEXT: seq<byte> := [0x66, 0x61, 0x6C, 0x73, 0x65]

  // Texts are C strings: reading at the end gives the NUL there.
  function At(s: seq<byte>, i: nat): byte {
    if i < |s| then s[i] else 0
  }

  //// UTF-8, section 4 of RFC 3629

  predicate Tail(b: byte) {
    0x80 <= b <= 0xBF
  }

  // utf8_validate_cz: the length of the character at i, or 0.
  function CharLen(s: seq<byte>, i: nat): (n: nat)
    ensures n <= 4
    ensures n > 0 && At(s, i) != 0 ==> i + n <= |s|
  {
    var c, d := At(s, i), At(s, i + 1);
    if c <= 0x7F then 1
    else if c <= 0xC1 then 0
    else if c <= 0xDF then
      if !Tail(d) then 0 else 2
    else if c <= 0xEF then
      if c == 0xE0 && d < 0xA0 then 0
      else if c == 0xED && d > 0x9F then 0
      else if !Tail(d) || !Tail(At(s, i + 2)) then 0 else 3
    else if c <= 0xF4 then
      if c == 0xF0 && d < 0x90 then 0
      else if c == 0xF4 && d > 0x8F then 0
      else if !Tail(d) || !Tail(At(s, i + 2)) || !Tail(At(s, i + 3)) then 0 else 4
    else 0
  }

  // utf8_validate, for a string without NULs.
  predicate ValidFrom(s: seq<byte>, i: nat)
    requires i <= |s|
    decreases |s| - i
  {
    i == |s| || (s[i] != 0 && CharLen(s, i) > 0 && ValidFrom(s, i + CharLen(s, i)))
  }

  predicate IsText(s: seq<byte>) {
    ValidFrom(s, 0)
  }

  predicate IsScalar(u: nat) {
    u <= 0x10FFFF && !(0xD800 <= u <= 0xDFFF)
  }

  // utf8_write_char
  function WriteChar(u: nat): (s: seq<byte>)
    requires IsScalar(u)
    ensures 1 <= |s| <= 4
  {
    if u <= 0x7F then [u]
    else if u <= 0x7FF then [0xC0 + u / 0x40, 0x80 + u % 0x40]
    else if u <= 0xFFFF then [0xE0 + u / 0x1000, 0x80 + u / 0x40 % 0x40, 0x80 + u % 0x40]
    else [0xF0 + u / 0x4_0000, 0x80 + u / 0x1000 % 0x40, 0x80 + u / 0x40 % 0x40, 0x80 + u % 0x40]
  }

  // utf8_read_char
  function ReadChar(s: seq<byte>, i: nat): nat
    requires i < |s| && CharLen(s, i) > 0
  {
    var c, d, e, f := At(s, i) as nat, At(s, i + 1) as nat, At(s, i + 2) as nat, At(s, i + 3) as nat;
    if c <= 0x7F then c
    else if c <= 0xDF then c % 0x20 * 0x40 + d % 0x40
    else if c <= 0xEF then c % 0x10 * 0x1000 + d % 0x40 * 0x40 + e % 0x40
    else c % 8 * 0x4_0000 + d % 0x40 * 0x1000 + e % 0x40 * 0x40 + f % 0x40
  }

  // from_surrogate_pair and to_surrogate_pair
  function FromPair(uc: nat, lc: nat): Option<nat> {
    if 0xD800 <= uc <= 0xDBFF && 0xDC00 <= lc <= 0xDFFF
    then Some(0x1_0000 + uc % 0x400 * 0x400 + lc % 0x400)
    else None
  }

  function ToPair(u: nat): (nat, nat)
    requires 0x1_0000 <= u <= 0x10FFFF
  {
    var n := u - 0x1_0000;
    (n / 0x400 % 0x400 + 0xD800, n % 0x400 + 0xDC00)
  }

  //// Numbers

  predicate IsDigit(c: byte) {
    0x30 <= c <= 0x39
  }

  // The end of the digits from i on.
  function Digits(s: seq<byte>, i: nat): (j: nat)
    ensures i <= j && (i <= |s| ==> j <= |s|) && !IsDigit(At(s, j))
    ensures forall k :: i <= k < j ==> IsDigit(At(s, k))
    decreases if i < |s| then |s| - i else 0
  {
    if IsDigit(At(s, i)) then Digits(s, i + 1) else i
  }

  function Digits1(s: seq<byte>, i: nat): (r: Option<nat>)
    ensures r.Some? ==> i < r.value <= |s|
  {
    if IsDigit(At(s, i)) then Some(Digits(s, i)) else None
  }

  // The three parts of a number: '-'? (0 | [1-9][0-9]*), ('.' [0-9]+)?, ([Ee] [+-]? [0-9]+)?
  function Integer(s: seq<byte>, i: nat): (r: Option<nat>)
    ensures r.Some? ==> i < r.value <= |s|
  {
    var a := if At(s, i) == 0x2D then i + 1 else i;
    if At(s, a) == 0x30 then Some(a + 1) else Digits1(s, a)
  }

  function Fraction(s: seq<byte>, i: nat): (r: Option<nat>)
    ensures r.Some? && i <= |s| ==> i <= r.value <= |s|
  {
    if At(s, i) == 0x2E then Digits1(s, i + 1) else Some(i)
  }

  function Exponent(s: seq<byte>, i: nat): (r: Option<nat>)
    ensures r.Some? && i <= |s| ==> i <= r.value <= |s|
  {
    if At(s, i) == 0x45 || At(s, i) == 0x65 then
      Digits1(s, if At(s, i + 1) == 0x2B || At(s, i + 1) == 0x2D then i + 2 else i + 1)
    else Some(i)
  }

  // parse_number
  function ParseNumber(s: seq<byte>, i: nat): (r: Option<nat>)
    ensures r.Some? ==> i < r.value <= |s|
  {
    match Integer(s, i)
    case None => None
    case Some(b) =>
      match Fraction(s, b)
      case None => None
      case Some(c) => Exponent(s, c)
  }

  //// Writing

  // The layout of arrays and objects: json_encode, or json_stringify with an indent.
  datatype Style = Compact | Indented(space: seq<byte>)

  function Repeat(space: seq<byte>, n: nat): seq<byte> {
    if n == 0 then [] else Repeat(space, n - 1) + space
  }

  // A line break and the indent of a level.
  function Break(st: Style, level: nat): seq<byte> {
    match st
    case Compact => []
    case Indented(space) => [0x0A] + Repeat(space, level)
  }

  function Hex(n: nat): byte
    requires n < 16
  {
    if n < 10 then 0x30 + n else 0x37 + n
  }

  // write_hex16
  function WriteHex16(u: nat): (s: seq<byte>)
    ensures |s| == 4
  {
    [Hex(u / 0x1000 % 16), Hex(u / 0x100 % 16), Hex(u / 0x10 % 16), Hex(u % 16)]
  }

  // The letter of a two-character escape, or 0.
  function EscapeLetter(c: byte): byte {
    if c == QUOTE then QUOTE
    else if c == BACKSLASH then BACKSLASH
    else if c == 0x08 then 0x62
    else if c == 0x0C then 0x66
    else if c == 0x0A then 0x6E
    else if c == 0x0D then 0x72
    else if c == 0x09 then 0x74
    else 0
  }

  // The character at i, as emit_string writes it. Byte 0x1F is not escaped.
  function CharText(s: seq<byte>, i: nat): (t: seq<byte>)
    requires i < |s| && s[i] != 0 && CharLen(s, i) > 0
    ensures 1 <= |t| <= 12
  {
    var c := s[i];
    if EscapeLetter(c) != 0 then [BACKSLASH, EscapeLetter(c)]
    else if c < 0x1F then
      var u := ReadChar(s, i);
      if u <= 0xFFFF then [BACKSLASH, 0x75] + WriteHex16(u)
      else assert false; []
    else s[i..i + CharLen(s, i)]
  }

  function CharsText(s: seq<byte>, i: nat): seq<byte>
    requires i <= |s| && ValidFrom(s, i)
    decreases |s| - i
  {
    if i == |s| then [] else CharText(s, i) + CharsText(s, i + CharLen(s, i))
  }

  // emit_string
  function StringText(s: seq<byte>): seq<byte>
    requires IsText(s)
  {
    [QUOTE] + CharsText(s, 0) + [QUOTE]
  }

  // What may be written: valid UTF-8 without NULs, and grammatical numbers.
  predicate IsJson(j: Json) {
    match j
    case Null => true
    case Bool(_) => true
    case Str(s) => IsText(s)
    case Num(n) => ParseNumber(n, 0) == Some(|n|)
    case Arr(items) => forall i :: 0 <= i < |items| ==> IsJson(items[i])
    case Obj(members) => forall i :: 0 <= i < |members| ==> IsText(members[i].key) && IsJson(members[i].value)
  }

  // emit_value and emit_value_indented
  function Text(j: Json, st: Style, level: nat): seq<byte>
    requires IsJson(j)
    decreases j, 1, 0
  {
    match j
    case Null => NULL_TEXT
    case Bool(b) => if b then TRUE_TEXT else FALSE_TEXT
    case Str(s) => StringText(s)
    case Num(n) => n
    case Arr(items) => [0x5B] + if items == [] then [0x5D] else Break(st, level + 1) + ItemsText(items, 0, st, level)
    case Obj(members) => [0x7B] + if members == [] then [0x7D] else Break(st, level + 1) + MembersText(members, 0, st, level)
  }

  // An array from item i on, to its closing bracket.
  function ItemsText(items: seq<Json>, i: nat, st: Style, level: nat): seq<byte>
    requires i < |items| && forall k :: 0 <= k < |items| ==> IsJson(items[k])
    decreases items, 0, |items| - i
  {
    Text(items[i], st, level + 1)
    + if i + 1 == |items| then Break(st, level) + [0x5D]
      else [0x2C] + (Break(st, level + 1) + ItemsText(items, i + 1, st, level))
  }

  function Colon(st: Style): seq<byte> {
    if st.Compact? then [0x3A] else [0x3A, 0x20]
  }

  function MemberText(m: Member, st: Style, level: nat): seq<byte>
    requires IsText(m.key) && IsJson(m.value)
    decreases m, 2, 0
  {
    StringText(m.key) + (Colon(st) + Text(m.value, st, level))
  }

  function MembersText(members: seq<Member>, i: nat, st: Style, level: nat): seq<byte>
    requires i < |members|
    requires forall k :: 0 <= k < |members| ==> IsText(members[k].key) && IsJson(members[k].value)
    decreases members, 0, |members| - i
  {
    MemberText(members[i], st, level + 1)
    + if i + 1 == |members| then Break(st, level) + [0x7D]
      else [0x2C] + (Break(st, level + 1) + MembersText(members, i + 1, st, level))
  }

  //// Reading

  datatype Parsed<T> = Fail | Ok(value: T, next: nat)

  predicate IsSpace(c: byte) {
    c == 0x09 || c == 0x0A || c == 0x0D || c == 0x20
  }

  function SkipSpace(s: seq<byte>, i: nat): (j: nat)
    ensures i <= j && (i <= |s| ==> j <= |s|)
    decreases if i < |s| then |s| - i else 0
  {
    if IsSpace(At(s, i)) then SkipSpace(s, i + 1) else i
  }

  function HexValue(c: byte): (r: Option<nat>)
    ensures r.Some? ==> r.value < 16
  {
    if 0x30 <= c <= 0x39 then Some(c - 0x30)
    else if 0x41 <= c <= 0x46 then Some(c - 0x37)
    else if 0x61 <= c <= 0x66 then Some(c - 0x57)
    else None
  }

  // parse_hex16
  function ParseHex16(s: seq<byte>, i: nat): (r: Option<nat>)
    ensures r.Some? ==> r.value < 0x1_0000 && i + 4 <= |s|
  {
    var a, b, c, d := HexValue(At(s, i)), HexValue(At(s, i + 1)), HexValue(At(s, i + 2)), HexValue(At(s, i + 3));
    if a.Some? && b.Some? && c.Some? && d.Some? then Some(a.value * 0x1000 + b.value * 0x100 + c.value * 0x10 + d.value)
    else None
  }

  // What follows a backslash and a u.
  function UnicodeEscape(s: seq<byte>, i: nat): (r: Parsed<seq<byte>>)
    ensures r.Ok? ==> i < r.next <= |s| && r.value != []
  {
    match ParseHex16(s, i)
    case None => Fail
    case Some(uc) =>
      if 0xD800 <= uc <= 0xDFFF then
        if At(s, i + 4) != BACKSLASH || At(s, i + 5) != 0x75 then Fail
        else match ParseHex16(s, i + 6)
             case None => Fail
             case Some(lc) =>
               match FromPair(uc, lc)
               case None => Fail
               case Some(u) => Ok(WriteChar(u), i + 10)
      else if uc == 0 then Fail
      else Ok(WriteChar(uc), i + 4)
  }

  // One character of a string literal, and where the next one starts.
  function OneChar(s: seq<byte>, i: nat): (r: Parsed<seq<byte>>)
    ensures r.Ok? ==> i < r.next <= |s| && r.value != []
  {
    var c := At(s, i);
    if c == BACKSLASH then
      var d := At(s, i + 1);
      if d == QUOTE || d == BACKSLASH || d == 0x2F then Ok([d], i + 2)
      else if d == 0x62 then Ok([0x08], i + 2)
      else if d == 0x66 then Ok([0x0C], i + 2)
      else if d == 0x6E then Ok([0x0A], i + 2)
      else if d == 0x72 then Ok([0x0D], i + 2)
      else if d == 0x74 then Ok([0x09], i + 2)
      else if d == 0x75 then UnicodeEscape(s, i + 2)
      else Fail
    else if c <= 0x1F then Fail
    else
      var n := CharLen(s, i);
      if n == 0 then Fail else Ok(s[i..i + n], i + n)
  }

  function Chars(s: seq<byte>, i: nat): (r: Parsed<seq<byte>>)
    ensures r.Ok? ==> i < r.next <= |s|
    decreases if i < |s| then |s| - i else 0
  {
    if At(s, i) == QUOTE then Ok([], i + 1)
    else match OneChar(s, i)
         case Fail => Fail
         case Ok(c, j) =>
           match Chars(s, j)
           case Fail => Fail
           case Ok(rest, k) => Ok(c + rest, k)
  }

  // parse_string
  function ParseString(s: seq<byte>, i: nat): (r: Parsed<seq<byte>>)
    ensures r.Ok? ==> i < r.next <= |s|
  {
    if At(s, i) == QUOTE then Chars(s, i + 1) else Fail
  }

  predicate HasAt(s: seq<byte>, i: nat, t: seq<byte>) {
    i + |t| <= |s| && s[i..i + |t|] == t
  }

  // parse_value
  function ParseValue(s: seq<byte>, i: nat): (r: Parsed<Json>)
    ensures r.Ok? ==> i < r.next <= |s|
    decreases if i < |s| then |s| - i else 0, 1
  {
    var c := At(s, i);
    if c == 0x6E then if HasAt(s, i, NULL_TEXT) then Ok(Null, i + 4) else Fail
    else if c == 0x66 then if HasAt(s, i, FALSE_TEXT) then Ok(Bool(false), i + 5) else Fail
    else if c == 0x74 then if HasAt(s, i, TRUE_TEXT) then Ok(Bool(true), i + 4) else Fail
    else if c == QUOTE then
      match ParseString(s, i)
      case Fail => Fail
      case Ok(str, j) => Ok(Str(str), j)
    else if c == 0x5B then
      var j := SkipSpace(s, i + 1);
      if At(s, j) == 0x5D then Ok(Arr([]), j + 1)
      else match ParseItems(s, j)
           case Fail => Fail
           case Ok(items, k) => Ok(Arr(items), k)
    else if c == 0x7B then
      var j := SkipSpace(s, i + 1);
      if At(s, j) == 0x7D then Ok(Obj([]), j + 1)
      else match ParseMembers(s, j)
           case Fail => Fail
           case Ok(members, k) => Ok(Obj(members), k)
    else
      match ParseNumber(s, i)
      case None => Fail
      case Some(j) => Ok(Num(s[i..j]), j)
  }

  // The loop of parse_array.
  function ParseItems(s: seq<byte>, i: nat): (r: Parsed<seq<Json>>)
    ensures r.Ok? ==> i < r.next <= |s| && r.value != []
    decreases if i < |s| then |s| - i else 0, 2
  {
    match ParseValue(s, i)
    case Fail => Fail
    case Ok(item, j) =>
      var k := SkipSpace(s, j);
      if At(s, k) == 0x5D then Ok([item], k + 1)
      else if At(s, k) == 0x2C then
        match ParseItems(s, SkipSpace(s, k + 1))
        case Fail => Fail
        case Ok(items, n) => Ok([item] + items, n)
      else Fail
  }

  function ParseMember(s: seq<byte>, i: nat): (r: Parsed<Member>)
    ensures r.Ok? ==> i < r.next <= |s|
    decreases if i < |s| then |s| - i else 0, 2
  {
    match ParseString(s, i)
    case Fail => Fail
    case Ok(key, a) =>
      var b := SkipSpace(s, a);
      if At(s, b) != 0x3A then Fail
      else match ParseValue(s, SkipSpace(s, b + 1))
           case Fail => Fail
           case Ok(value, c) => Ok(Member(key, value), c)
  }

  // The loop of parse_object.
  function ParseMembers(s: seq<byte>, i: nat): (r: Parsed<seq<Member>>)
    ensures r.Ok? ==> i < r.next <= |s| && r.value != []
    decreases if i < |s| then |s| - i else 0, 3
  {
    match ParseMember(s, i)
    case Fail => Fail
    case Ok(member, j) =>
      var k := SkipSpace(s, j);
      if At(s, k) == 0x7D then Ok([member], k + 1)
      else if At(s, k) == 0x2C then
        match ParseMembers(s, SkipSpace(s, k + 1))
        case Fail => Fail
        case Ok(members, n) => Ok([member] + members, n)
      else Fail
  }

  // json_decode
  function Decode(s: seq<byte>): Option<Json> {
    match ParseValue(s, SkipSpace(s, 0))
    case Fail => None
    case Ok(j, i) => if SkipSpace(s, i) == |s| then Some(j) else None
  }
}
