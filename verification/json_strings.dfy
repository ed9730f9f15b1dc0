// The parser takes exactly the spellings of a character, and the printer writes one of them.

module JsonStrings {
  import opened Bytes
  import opened Options
  import opened JsonText
  import opened JsonGrammar
  import opened JsonRoundTrip

  //// UTF-8

  lemma WriteCharIs(u: nat)
    requires IsScalar(u)
    ensures IsUtf8(WriteChar(u), u)
  {
    Ungroup(u);
  }

  lemma Utf8IsUnique(c: seq<byte>, u: nat)
    requires IsUtf8(c, u)
    ensures IsScalar(u) && c == WriteChar(u)
  {
    match |c| {
      case 2 =>
        Groups(0, 0, c[0] - 0xC0, c[1] - 0x80);
      case 3 =>
        Groups(0, c[0] - 0xE0, c[1] - 0x80, c[2] - 0x80);
      case 4 =>
        FourAreUnique(c, u);
      case _ =>
    }
  }

  lemma FourAreUnique(c: seq<byte>, u: nat)
    requires IsUtf8(c, u) && |c| == 4
    ensures IsScalar(u) && c == WriteChar(u)
  {
    Groups(c[0] - 0xF0, c[1] - 0x80, c[2] - 0x80, c[3] - 0x80);
  }

  // The validator accepts exactly the bytes of a code point.
  lemma ValidIsUtf8(s: seq<byte>, i: nat) returns (u: nat)
    requires i < |s| && s[i] != 0 && CharLen(s, i) > 0
    ensures IsUtf8(s[i..i + CharLen(s, i)], u) && u == ReadChar(s, i)
  {
    u := ReadChar(s, i);
    ReadWrite(s, i);
    WriteCharIs(u);
  }

  lemma Utf8IsValid(c: seq<byte>, u: nat, s: seq<byte>, p: nat)
    requires IsUtf8(c, u) && u != 0 && HasAt(s, p, c)
    ensures CharLen(s, p) == |c| && At(s, p) != 0
  {
    BytesAt(s, p, c);
  }

  // The bytes of a short text, one by one.
  lemma BytesAt(s: seq<byte>, p: nat, t: seq<byte>)
    requires HasAt(s, p, t)
    ensures forall k :: 0 <= k < |t| ==> At(s, p + k) == t[k]
  {
    forall k | 0 <= k < |t|
      ensures At(s, p + k) == t[k]
    {
      HasAtByte(s, p, t, k);
    }
  }

  // The validator of whole strings takes exactly the texts in UTF-8.
  lemma {:induction false} TextIsUtf8(s: seq<byte>, i: nat)
    requires i <= |s|
    ensures ValidFrom(s, i) <==> AreUtf8(s[i..])
    decreases |s| - i
  {
    hide IsUtf8, CharLen, HasAt;
    var t := s[i..];
    if i < |s| && s[i] != 0 && CharLen(s, i) > 0 {
      var n := CharLen(s, i);
      var u := ValidIsUtf8(s, i);
      assert At(s, i) == s[i];
      assert t[..n] == s[i..i + n] && t[n..] == s[i + n..];
      TextIsUtf8(s, i + n);
      ReadIsNotNul(s, i);
    }
    if t != [] && AreUtf8(t) {
      var a: nat, u: nat :| 0 < a <= |t| && u != 0 && IsUtf8(t[..a], u) && AreUtf8(t[a..]);
      assert t[..a] == s[i..i + a] && t[a..] == s[i + a..];
      assert HasAt(s, i, t[..a]) by {
        HasSlice(s, i, a);
      }
      Utf8IsValid(t[..a], u, s, i);
    }
  }

  lemma HasSlice(s: seq<byte>, i: nat, a: nat)
    requires i + a <= |s|
    ensures HasAt(s, i, s[i..i + a])
  {
  }

  lemma ReadIsNotNul(s: seq<byte>, i: nat)
    requires i < |s| && s[i] != 0 && CharLen(s, i) > 0
    ensures ReadChar(s, i) != 0
  {
    ReadWrite(s, i);
    assert s[i..i + CharLen(s, i)][0] == s[i];
  }

  //// Hexadecimal digits

  lemma HexValueIs(d: byte, v: int)
    ensures HexValue(d) == Some(v) <==> IsHexDigit(d, v)
  {
  }

  lemma UnitIsParsed(t: seq<byte>, u: int, s: seq<byte>, p: nat)
    requires IsUnit(t, u) && HasAt(s, p, t)
    ensures At(s, p) == BACKSLASH && At(s, p + 1) == 0x75 && 0 <= u < 0x1_0000 && ParseHex16(s, p + 2) == Some(u)
  {
    BytesAt(s, p, t);
    var a: int, b: int, c: int, d: int :|
      && IsHexDigit(t[2], a) && IsHexDigit(t[3], b) && IsHexDigit(t[4], c) && IsHexDigit(t[5], d)
      && u == a * 0x1000 + b * 0x100 + c * 0x10 + d;
    assert At(s, p + 2 + 1) == t[3] && At(s, p + 2 + 2) == t[4] && At(s, p + 2 + 3) == t[5];
    HexValueIs(t[2], a);
    HexValueIs(t[3], b);
    HexValueIs(t[4], c);
    HexValueIs(t[5], d);
  }

  lemma ParsedIsUnit(s: seq<byte>, p: nat)
    requires At(s, p) == BACKSLASH && At(s, p + 1) == 0x75 && ParseHex16(s, p + 2).Some?
    ensures p + 6 <= |s| && IsUnit(s[p..p + 6], ParseHex16(s, p + 2).value)
  {
    var t := s[p..p + 6];
    var a, b, c, d := HexValue(At(s, p + 2)).value, HexValue(At(s, p + 3)).value, HexValue(At(s, p + 4)).value, HexValue(At(s, p + 5)).value;
    HexValueIs(t[2], a);
    HexValueIs(t[3], b);
    HexValueIs(t[4], c);
    HexValueIs(t[5], d);
  }

  //// One character

  lemma RawIsParsed(t: seq<byte>, c: seq<byte>, s: seq<byte>, p: nat)
    requires IsRaw(t, c) && HasAt(s, p, t)
    ensures OneChar(s, p) == Ok(c, p + |t|) && At(s, p) != QUOTE
  {
    var u: nat :| IsUtf8(c, u) && u >= 0x20 && u != 0x22 && u != 0x5C;
    BytesAt(s, p, t);
    Utf8IsValid(c, u, s, p);
    assert At(s, p) == c[0] && (|c| == 1 ==> c[0] as nat == u) && (|c| > 1 ==> c[0] >= 0xC0);
    assert s[p..p + |t|] == c;
  }

  lemma ShortIsParsed(t: seq<byte>, c: seq<byte>, s: seq<byte>, p: nat)
    requires IsShort(t, c) && HasAt(s, p, t)
    ensures OneChar(s, p) == Ok(c, p + |t|) && At(s, p) != QUOTE
  {
    BytesAt(s, p, t);
    assert At(s, p + 0) == t[0] && c == [c[0]];
  }

  lemma EscapedIsParsed(t: seq<byte>, c: seq<byte>, s: seq<byte>, p: nat)
    requires IsEscaped(t, c) && HasAt(s, p, t)
    ensures OneChar(s, p) == Ok(c, p + |t|) && At(s, p) != QUOTE
  {
    var u: nat :| IsUnit(t, u) && u != 0 && !(0xD800 <= u < 0xE000) && IsUtf8(c, u);
    UnitIsParsed(t, u, s, p);
    Utf8IsUnique(c, u);
  }

  lemma PairIsParsed(t: seq<byte>, c: seq<byte>, s: seq<byte>, p: nat)
    requires IsPair(t, c) && HasAt(s, p, t)
    ensures OneChar(s, p) == Ok(c, p + |t|) && At(s, p) != QUOTE
  {
    hide IsUnit, IsUtf8, HasAt, ParseHex16, UnicodeEscape;
    var hi: nat, lo: nat :|
      && IsUnit(t[..6], hi) && 0xD800 <= hi < 0xDC00
      && IsUnit(t[6..], lo) && 0xDC00 <= lo < 0xE000
      && IsUtf8(c, 0x1_0000 + (hi - 0xD800) * 0x400 + (lo - 0xDC00));
    assert t == t[..6] + t[6..];
    HasAtSplit(s, p, t[..6], t[6..]);
    UnitIsParsed(t[..6], hi, s, p);
    UnitIsParsed(t[6..], lo, s, p + 6);
    PairEscape(s, p + 2, hi, lo);
    Utf8IsUnique(c, 0x1_0000 + (hi - 0xD800) * 0x400 + (lo - 0xDC00));
  }

  lemma PairEscape(s: seq<byte>, i: nat, hi: nat, lo: nat)
    requires ParseHex16(s, i) == Some(hi) && 0xD800 <= hi < 0xDC00
    requires At(s, i + 4) == BACKSLASH && At(s, i + 5) == 0x75 && ParseHex16(s, i + 6) == Some(lo) && 0xDC00 <= lo < 0xE000
    ensures var u := 0x1_0000 + (hi - 0xD800) * 0x400 + (lo - 0xDC00); IsScalar(u) && UnicodeEscape(s, i) == Ok(WriteChar(u), i + 10)
  {
    hide ParseHex16;
    PairIs(hi, lo);
  }

  lemma PairIs(hi: nat, lo: nat)
    requires 0xD800 <= hi < 0xDC00 && 0xDC00 <= lo < 0xE000
    ensures FromPair(hi, lo) == Some(0x1_0000 + (hi - 0xD800) * 0x400 + (lo - 0xDC00))
  {
    assert hi % 0x400 == hi - 0xD800 && lo % 0x400 == lo - 0xDC00;
  }

  // Every spelling of a character is taken for it.
  lemma SpellingIsParsed(t: seq<byte>, c: seq<byte>, s: seq<byte>, p: nat)
    requires Spells(t, c) && HasAt(s, p, t)
    ensures OneChar(s, p) == Ok(c, p + |t|) && At(s, p) != QUOTE
  {
    hide IsRaw, IsShort, IsEscaped, IsPair, OneChar, HasAt;
    if IsRaw(t, c) {
      RawIsParsed(t, c, s, p);
    } else if IsShort(t, c) {
      ShortIsParsed(t, c, s, p);
    } else if IsEscaped(t, c) {
      EscapedIsParsed(t, c, s, p);
    } else {
      PairIsParsed(t, c, s, p);
    }
  }

  lemma EscapeIsSpelling(s: seq<byte>, i: nat)
    requires At(s, i) == BACKSLASH && At(s, i + 1) == 0x75 && UnicodeEscape(s, i + 2).Ok?
    ensures var r := UnicodeEscape(s, i + 2); i < r.next <= |s| && Spells(s[i..r.next], r.value)
  {
    hide ParseHex16, IsUnit, IsUtf8, WriteChar;
    var r := UnicodeEscape(s, i + 2);
    var t := s[i..r.next];
    ParsedIsUnit(s, i);
    var uc := ParseHex16(s, i + 2).value;
    if 0xD800 <= uc <= 0xDFFF {
      ParsedIsUnit(s, i + 6);
      var lo := ParseHex16(s, i + 8).value;
      PairIs(uc, lo);
      var u := 0x1_0000 + (uc - 0xD800) * 0x400 + (lo - 0xDC00);
      WriteCharIs(u);
      assert t[..6] == s[i..i + 6] && t[6..] == s[i + 6..i + 12];
      assert IsPair(t, r.value);
    } else {
      WriteCharIs(uc);
      assert IsEscaped(t, r.value);
    }
  }

  // And nothing else is.
  lemma ParsedIsSpelling(s: seq<byte>, i: nat)
    requires OneChar(s, i).Ok? && At(s, i) != QUOTE
    ensures var r := OneChar(s, i); i < r.next <= |s| && Spells(s[i..r.next], r.value)
  {
    var r := OneChar(s, i);
    if At(s, i) == BACKSLASH {
      if At(s, i + 1) == 0x75 {
        EscapeIsSpelling(s, i);
      } else {
        assert IsShort(s[i..r.next], r.value);
      }
    } else {
      var u := ValidIsUtf8(s, i);
      assert u >= 0x20 && u != 0x22 && u != 0x5C;
      assert IsRaw(s[i..r.next], r.value);
    }
  }

  //// Strings

  lemma {:induction false} SpelledAreParsed(t: seq<byte>, str: seq<byte>, s: seq<byte>, p: nat)
    requires SpellsAll(t, str) && HasAt(s, p, t + [QUOTE])
    ensures Chars(s, p) == Ok(str, p + |t| + 1)
    decreases |t|
  {
    hide OneChar, Spells, HasAt;
    if t == [] {
      assert t + [QUOTE] == [QUOTE];
      HasAtByte(s, p, [QUOTE], 0);
    } else {
      var a: nat, b: nat :| 0 < a <= |t| && b <= |str| && Spells(t[..a], str[..b]) && SpellsAll(t[a..], str[b..]);
      assert t + [QUOTE] == t[..a] + (t[a..] + [QUOTE]);
      HasAtSplit(s, p, t[..a], t[a..] + [QUOTE]);
      SpellingIsParsed(t[..a], str[..b], s, p);
      SpelledAreParsed(t[a..], str[b..], s, p + a);
      assert str == str[..b] + str[b..];
    }
  }

  lemma {:induction false} ParsedAreSpelled(s: seq<byte>, i: nat)
    requires Chars(s, i).Ok?
    ensures var r := Chars(s, i);
            i < r.next <= |s| && s[r.next - 1] == QUOTE && SpellsAll(s[i..r.next - 1], r.value)
    decreases if i < |s| then |s| - i else 0
  {
    hide OneChar, Spells;
    if At(s, i) != QUOTE {
      var c := OneChar(s, i);
      ParsedIsSpelling(s, i);
      ParsedAreSpelled(s, c.next);
      var r := Chars(s, i);
      var t, a, b := s[i..r.next - 1], c.next - i, |c.value|;
      assert t[..a] == s[i..c.next] && t[a..] == s[c.next..r.next - 1];
      assert r.value[..b] == c.value && r.value[b..] == Chars(s, c.next).value;
    }
  }

  // The parser takes exactly the strings of the grammar, each for what it stands for.
  lemma StringIsParsed(s: seq<byte>, i: nat, str: seq<byte>, j: nat)
    ensures ParseString(s, i) == Ok(str, j) <==> i <= j <= |s| && IsString(s[i..j], str)
  {
    hide Chars, SpellsAll;
    if ParseString(s, i) == Ok(str, j) {
      ParsedAreSpelled(s, i + 1);
      Within(s, i, j);
    }
    if i <= j <= |s| && IsString(s[i..j], str) {
      Within(s, i, j);
      SpelledAreParsed(s[i..j][1..j - i - 1], str, s, i + 1);
    }
  }

  lemma Within(s: seq<byte>, i: nat, j: nat)
    requires i + 2 <= j <= |s|
    ensures s[i..j][1..j - i - 1] == s[i + 1..j - 1] && s[i..j][j - i - 1] == s[j - 1]
    ensures s[i + 1..j - 1] + [s[j - 1]] == s[i + 1..j]
  {
    var t, u := s[i..j], s[i + 1..j - 1];
    forall k | 0 <= k < |u|
      ensures t[1..j - i - 1][k] == u[k]
    {
      assert t[k + 1] == s[i + (k + 1)];
    }
    assert u + [s[j - 1]] == s[i + 1..j];
  }

  // What the printer writes for a character stands for it, but for byte 0x1F, which it writes in a
  // way that stands for nothing.
  lemma WrittenIsSpelling(str: seq<byte>, i: nat)
    requires i < |str| && str[i] != 0 && CharLen(str, i) > 0
    ensures Spells(CharText(str, i), str[i..i + CharLen(str, i)]) <==> str[i] != 0x1F
  {
    hide Spells, OneChar, CharText, CharLen;
    var t, c := CharText(str, i), str[i..i + CharLen(str, i)];
    assert t[0..|t|] == t;
    CharRoundTrip(str, i, t, 0);
    if str[i] != 0x1F {
      ParsedIsSpelling(t, 0);
    } else if Spells(t, c) {
      SpellingIsParsed(t, c, t, 0);
    }
  }

  // Which of its spellings it is.
  lemma WrittenForm(str: seq<byte>, i: nat)
    requires i < |str| && str[i] != 0 && CharLen(str, i) > 0
    ensures var t, c := CharText(str, i), str[i..i + CharLen(str, i)];
            if str[i] in {0x22, 0x5C, 0x08, 0x0C, 0x0A, 0x0D, 0x09} then IsShort(t, c)
            else if str[i] < 0x1F then IsUnit(t, str[i]) && forall k :: 2 <= k < 6 ==> t[k] as int <= 'F' as int
            else t == c
  {
    hide IsUnit;
    var c := str[i];
    if c < 0x1F {
      hide IsShort;
      ControlForm(c);
    }
  }

  lemma ControlForm(c: byte)
    requires c < 0x1F
    ensures var t := [BACKSLASH, 0x75] + WriteHex16(c);
            IsUnit(t, c) && forall k :: 2 <= k < 6 ==> t[k] as int <= 'F' as int
  {
    hide IsUnit;
    HexDigits(c);
    IsUnitOf([BACKSLASH, 0x75] + WriteHex16(c), c / 0x1000 % 16, c / 0x100 % 16, c / 0x10 % 16, c % 16);
  }

  lemma IsUnitOf(t: seq<byte>, a: nat, b: nat, c: nat, d: nat)
    requires a < 16 && b < 16 && c < 16 && d < 16 && t == [BACKSLASH, 0x75] + [Hex(a), Hex(b), Hex(c), Hex(d)]
    ensures IsUnit(t, a * 0x1000 + b * 0x100 + c * 0x10 + d)
  {
    assert IsHexDigit(t[2], a) && IsHexDigit(t[3], b) && IsHexDigit(t[4], c) && IsHexDigit(t[5], d);
  }

  // So what it writes for a string is a string of the grammar that stands for it, unless byte 0x1F
  // is in it; then it is none at all.
  lemma WrittenIsString(str: seq<byte>, other: seq<byte>)
    requires IsText(str)
    ensures IsString(StringText(str), other) <==> other == str && 0x1F !in str
  {
    hide IsString, ParseString, StringText;
    var t := StringText(str);
    assert t[0..|t|] == t;
    StringRoundTrip(str, t, 0);
    StringIsParsed(t, 0, other, |t|);
  }
}
