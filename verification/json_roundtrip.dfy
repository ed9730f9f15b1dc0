// What is written is read back.

module JsonRoundTrip {
  import opened Bytes
  import opened Options
  import opened JsonText

  lemma HasAtSplit(s: seq<byte>, p: nat, a: seq<byte>, b: seq<byte>)
    ensures HasAt(s, p, a + b) <==> HasAt(s, p, a) && HasAt(s, p + |a|, b)
  {
    var t := a + b;
    assert t[..|a|] == a && t[|a|..] == b;
    if p + |t| <= |s| {
      var x := s[p..p + |t|];
      assert x == s[p..p + |a|] + s[p + |a|..p + |t|];
      assert x[..|a|] == s[p..p + |a|] && x[|a|..] == s[p + |a|..p + |t|];
    }
  }

  lemma HasAtByte(s: seq<byte>, p: nat, t: seq<byte>, k: nat)
    requires HasAt(s, p, t) && k < |t|
    ensures At(s, p + k) == t[k]
  {
    assert s[p..p + |t|][k] == s[p + k];
  }

  //// Characters

  lemma HexRoundTrip(u: nat, s: seq<byte>, p: nat)
    requires u < 0x1_0000 && HasAt(s, p, WriteHex16(u))
    ensures ParseHex16(s, p) == Some(u)
  {
    var t := WriteHex16(u);
    HasAtByte(s, p, t, 0);
    HasAtByte(s, p, t, 1);
    HasAtByte(s, p, t, 2);
    HasAtByte(s, p, t, 3);
    HexDigits(u);
  }

  lemma HexDigits(u: nat)
    requires u < 0x1_0000
    ensures u / 0x1000 % 16 * 0x1000 + u / 0x100 % 16 * 0x100 + u / 0x10 % 16 * 0x10 + u % 16 == u
  {
    Nibble(u, 1);
    Nibble(u, 0x10);
    Nibble(u, 0x100);
  }

  // One digit cut off.
  lemma Nibble(u: nat, unit: nat)
    requires unit == 1 || unit == 0x10 || unit == 0x100
    ensures u / unit == u / (unit * 16) * 16 + u / unit % 16
  {
    if unit == 1 {
      assert u == u / 16 * 16 + u % 16;
    } else if unit == 0x10 {
      assert u / 0x10 / 16 == u / 0x100;
    } else {
      assert u / 0x100 / 16 == u / 0x1000;
    }
  }

  // Six-bit groups of a code point.
  lemma Groups(a: nat, b: nat, c: nat, d: nat)
    requires b < 0x40 && c < 0x40 && d < 0x40
    ensures var u := a * 0x4_0000 + b * 0x1000 + c * 0x40 + d;
            u / 0x4_0000 == a && u / 0x1000 == a * 0x40 + b && u / 0x40 == a * 0x1000 + b * 0x40 + c
            && u / 0x1000 % 0x40 == b && u / 0x40 % 0x40 == c && u % 0x40 == d
  {
    var u := a * 0x4_0000 + b * 0x1000 + c * 0x40 + d;
    assert u / 0x40 == a * 0x1000 + b * 0x40 + c;
    assert u / 0x1000 == a * 0x40 + b;
  }

  lemma Ungroup(u: nat)
    ensures u == u / 0x4_0000 * 0x4_0000 + u / 0x1000 % 0x40 * 0x1000 + u / 0x40 % 0x40 * 0x40 + u % 0x40
    ensures u == u / 0x1000 * 0x1000 + u / 0x40 % 0x40 * 0x40 + u % 0x40
    ensures u == u / 0x40 * 0x40 + u % 0x40
  {
  }

  lemma LowSix(d: nat)
    requires 0x80 <= d <= 0xBF
    ensures d % 0x40 == d - 0x80
  {
  }

  // Two, three and four bytes, and the code points they stand for.
  lemma Two(c: nat, d: nat)
    requires 0xC2 <= c <= 0xDF && 0x80 <= d <= 0xBF
    ensures var u := c % 0x20 * 0x40 + d % 0x40;
            0x80 <= u <= 0x7FF && c == 0xC0 + u / 0x40 && d == 0x80 + u % 0x40
  {
    LowSix(d);
    assert c % 0x20 == c - 0xC0;
    Groups(0, 0, c - 0xC0, d - 0x80);
  }

  lemma Three(c: nat, d: nat, e: nat)
    requires 0xE0 <= c <= 0xEF && 0x80 <= d <= 0xBF && 0x80 <= e <= 0xBF
    requires (c == 0xE0 ==> d >= 0xA0) && (c == 0xED ==> d <= 0x9F)
    ensures var u := c % 0x10 * 0x1000 + d % 0x40 * 0x40 + e % 0x40;
            && 0x800 <= u <= 0xFFFF && IsScalar(u)
            && c == 0xE0 + u / 0x1000 && d == 0x80 + u / 0x40 % 0x40 && e == 0x80 + u % 0x40
  {
    LowSix(d);
    LowSix(e);
    assert c % 0x10 == c - 0xE0;
    Groups(0, c - 0xE0, d - 0x80, e - 0x80);
  }

  lemma Four(c: nat, d: nat, e: nat, f: nat)
    requires 0xF0 <= c <= 0xF4 && 0x80 <= d <= 0xBF && 0x80 <= e <= 0xBF && 0x80 <= f <= 0xBF
    requires (c == 0xF0 ==> d >= 0x90) && (c == 0xF4 ==> d <= 0x8F)
    ensures var u := c % 8 * 0x4_0000 + d % 0x40 * 0x1000 + e % 0x40 * 0x40 + f % 0x40;
            && 0x1_0000 <= u <= 0x10FFFF
            && c == 0xF0 + u / 0x4_0000 && d == 0x80 + u / 0x1000 % 0x40 && e == 0x80 + u / 0x40 % 0x40 && f == 0x80 + u % 0x40
  {
    LowSix(d);
    LowSix(e);
    LowSix(f);
    assert c % 8 == c - 0xF0;
    Groups(c - 0xF0, d - 0x80, e - 0x80, f - 0x80);
  }

  // The first groups say how large a code point is.
  lemma TopGroups(u: nat)
    ensures u / 0x1000 == u / 0x4_0000 * 0x40 + u / 0x1000 % 0x40
    ensures u / 0x40 == u / 0x1000 * 0x40 + u / 0x40 % 0x40
  {
  }

  // A code point survives being written and read.
  lemma WriteRead(u: nat)
    requires IsScalar(u)
    ensures var s := WriteChar(u); CharLen(s, 0) == |s| && ReadChar(s, 0) == u
  {
    Ungroup(u);
    TopGroups(u);
    if u <= 0x7F {
      return;
    }
    hide CharLen, ReadChar;
    if u <= 0x7FF {
      ReadTwo(u / 0x40, u % 0x40);
    } else if u <= 0xFFFF {
      ReadThree(u / 0x1000, u / 0x40 % 0x40, u % 0x40);
    } else {
      WriteReadFour(u);
    }
  }

  lemma WriteReadFour(u: nat)
    requires 0xFFFF < u && IsScalar(u)
    ensures var s := WriteChar(u); CharLen(s, 0) == |s| && ReadChar(s, 0) == u
  {
    Ungroup(u);
    TopGroups(u);
    hide CharLen, ReadChar;
    ReadFour(u / 0x4_0000, u / 0x1000 % 0x40, u / 0x40 % 0x40, u % 0x40);
  }

  lemma ReadTwo(a: nat, b: nat)
    requires 2 <= a < 0x20 && b < 0x40
    ensures var s := [0xC0 + a, 0x80 + b]; CharLen(s, 0) == 2 && ReadChar(s, 0) == a * 0x40 + b
  {
    LowSix(0x80 + b);
  }

  lemma ReadThree(a: nat, b: nat, c: nat)
    requires a < 0x10 && b < 0x40 && c < 0x40 && (a == 0 ==> b >= 0x20) && (a == 0xD ==> b < 0x20)
    ensures var s := [0xE0 + a, 0x80 + b, 0x80 + c]; CharLen(s, 0) == 3 && ReadChar(s, 0) == a * 0x1000 + b * 0x40 + c
  {
    LowSix(0x80 + b);
    LowSix(0x80 + c);
  }

  lemma ReadFour(a: nat, b: nat, c: nat, d: nat)
    requires a <= 4 && b < 0x40 && c < 0x40 && d < 0x40 && (a == 0 ==> b >= 0x10) && (a == 4 ==> b < 0x10)
    ensures var s := [0xF0 + a, 0x80 + b, 0x80 + c, 0x80 + d];
            CharLen(s, 0) == 4 && ReadChar(s, 0) == a * 0x4_0000 + b * 0x1000 + c * 0x40 + d
  {
    LowSix(0x80 + b);
    LowSix(0x80 + c);
    LowSix(0x80 + d);
  }

  // So does a character, and nothing but scalar values is read.
  lemma ReadWrite(s: seq<byte>, i: nat)
    requires i < |s| && s[i] != 0 && CharLen(s, i) > 0
    ensures IsScalar(ReadChar(s, i)) && WriteChar(ReadChar(s, i)) == s[i..i + CharLen(s, i)]
  {
    match CharLen(s, i)
    case 2 => ReadWriteTwo(s, i);
    case 3 => ReadWriteThree(s, i);
    case 4 => ReadWriteFour(s, i);
    case _ =>
  }

  lemma ReadWriteTwo(s: seq<byte>, i: nat)
    requires i < |s| && s[i] != 0 && CharLen(s, i) == 2
    ensures IsScalar(ReadChar(s, i)) && WriteChar(ReadChar(s, i)) == s[i..i + 2]
  {
    Two(s[i], s[i + 1]);
  }

  lemma ReadWriteThree(s: seq<byte>, i: nat)
    requires i < |s| && s[i] != 0 && CharLen(s, i) == 3
    ensures IsScalar(ReadChar(s, i)) && WriteChar(ReadChar(s, i)) == s[i..i + 3]
  {
    Three(s[i], s[i + 1], s[i + 2]);
  }

  lemma ReadWriteFour(s: seq<byte>, i: nat)
    requires i < |s| && s[i] != 0 && CharLen(s, i) == 4
    ensures IsScalar(ReadChar(s, i)) && WriteChar(ReadChar(s, i)) == s[i..i + 4]
  {
    Four(s[i], s[i + 1], s[i + 2], s[i + 3]);
  }

  lemma PairRoundTrip(u: nat)
    requires 0x1_0000 <= u <= 0x10FFFF
    ensures FromPair(ToPair(u).0, ToPair(u).1) == Some(u)
  {
  }

  // A character is as long wherever its bytes are.
  lemma SameLength(s: seq<byte>, i: nat, t: seq<byte>, p: nat)
    requires i < |s| && s[i] != 0 && CharLen(s, i) > 0 && HasAt(t, p, s[i..i + CharLen(s, i)])
    ensures CharLen(t, p) == CharLen(s, i)
  {
    var c := s[i..i + CharLen(s, i)];
    HasAtByte(t, p, c, 0);
    if |c| > 1 {
      HasAtByte(t, p, c, 1);
    }
    if |c| > 2 {
      HasAtByte(t, p, c, 2);
    }
    if |c| > 3 {
      HasAtByte(t, p, c, 3);
    }
  }

  // One character of a string: written and read back, except byte 0x1F, which is written as it is
  // and refused by the parser.
  lemma CharRoundTrip(str: seq<byte>, i: nat, s: seq<byte>, p: nat)
    requires i < |str| && str[i] != 0 && CharLen(str, i) > 0 && HasAt(s, p, CharText(str, i))
    ensures At(s, p) != QUOTE
    ensures OneChar(s, p) ==
            if str[i] == 0x1F then Fail else Ok(str[i..i + CharLen(str, i)], p + |CharText(str, i)|)
  {
    var c, t := str[i], CharText(str, i);
    HasAtByte(s, p, t, 0);
    if EscapeLetter(c) != 0 {
      HasAtByte(s, p, t, 1);
      assert str[i..i + 1] == [c];
    } else if c < 0x1F {
      HasAtByte(s, p, t, 1);
      HasAtSplit(s, p, [BACKSLASH, 0x75], WriteHex16(c));
      HexRoundTrip(c, s, p + 2);
      assert str[i..i + 1] == [c];
    } else {
      SameLength(str, i, s, p);
    }
  }

  //// Strings

  // Byte 0x1F within the string from i on.
  predicate HasUnit(str: seq<byte>, i: nat)
    requires i <= |str|
  {
    0x1F in str[i..]
  }

  // The bytes after the first of a character are not below 0x80.
  lemma HasUnitStep(str: seq<byte>, i: nat)
    requires i < |str| && str[i] != 0 && CharLen(str, i) > 0
    ensures HasUnit(str, i) <==> str[i] == 0x1F || HasUnit(str, i + CharLen(str, i))
    ensures str[i..] == str[i..i + CharLen(str, i)] + str[i + CharLen(str, i)..]
  {
    var n := CharLen(str, i);
    var head, tail := str[i..i + n], str[i + n..];
    assert str[i..] == head + tail && head[0] == str[i];
    assert forall k :: 0 < k < n ==> head[k] == At(str, i + k) && Tail(head[k]);
  }

  lemma {:induction false} CharsRoundTrip(str: seq<byte>, i: nat, s: seq<byte>, p: nat)
    requires i <= |str| && ValidFrom(str, i) && HasAt(s, p, CharsText(str, i) + [QUOTE])
    ensures Chars(s, p) == if HasUnit(str, i) then Fail else Ok(str[i..], p + |CharsText(str, i)| + 1)
    decreases |str| - i
  {
    hide OneChar, CharText, CharLen, HasAt;
    if i == |str| {
      assert CharsText(str, i) + [QUOTE] == [QUOTE];
      HasAtByte(s, p, [QUOTE], 0);
    } else {
      var n := CharLen(str, i);
      var c, rest := CharText(str, i), CharsText(str, i + n) + [QUOTE];
      assert CharsText(str, i) + [QUOTE] == c + rest;
      HasAtSplit(s, p, c, rest);
      CharRoundTrip(str, i, s, p);
      CharsRoundTrip(str, i + n, s, p + |c|);
      HasUnitStep(str, i);
    }
  }

  // A string comes back unless byte 0x1F is in it, and then the parser refuses the text.
  lemma StringRoundTrip(str: seq<byte>, s: seq<byte>, p: nat)
    requires IsText(str) && HasAt(s, p, StringText(str))
    ensures ParseString(s, p) == if 0x1F in str then Fail else Ok(str, p + |StringText(str)|)
  {
    hide HasAt, Chars, CharsText;
    assert StringText(str) == [QUOTE] + (CharsText(str, 0) + [QUOTE]);
    HasAtSplit(s, p, [QUOTE], CharsText(str, 0) + [QUOTE]);
    HasAtByte(s, p, [QUOTE], 0);
    CharsRoundTrip(str, 0, s, p + 1);
    assert str[0..] == str;
  }

  //// Numbers

  // A byte that cannot continue a number.
  predicate Stops(c: byte) {
    !IsDigit(c) && c != 0x2E && c != 0x45 && c != 0x65
  }

  // s has the bytes of n at p, and a byte that stops a number after them.
  ghost predicate Holds(s: seq<byte>, p: nat, n: seq<byte>) {
    (forall k :: 0 <= k < |n| ==> At(s, p + k) == n[k]) && Stops(At(s, p + |n|))
  }

  lemma {:induction false} SameDigits(s: seq<byte>, p: nat, n: seq<byte>, k: nat)
    requires k <= |n| && Holds(s, p, n)
    ensures Digits(s, p + k) == p + Digits(n, k)
    decreases |n| - k
  {
    if k < |n| && IsDigit(n[k]) {
      assert At(s, p + k) == n[k];
      SameDigits(s, p, n, k + 1);
    } else if k < |n| {
      assert At(s, p + k) == n[k];
    }
  }

  lemma SameByte(s: seq<byte>, p: nat, n: seq<byte>, k: nat)
    requires k <= |n| && Holds(s, p, n)
    ensures if k < |n| then At(s, p + k) == At(n, k) else Stops(At(s, p + k)) && At(n, k) == 0
  {
  }

  lemma SameParts(s: seq<byte>, p: nat, n: seq<byte>, k: nat)
    requires k <= |n| && Holds(s, p, n)
    ensures Integer(n, k).Some? ==> Integer(s, p + k) == Some(p + Integer(n, k).value)
    ensures Fraction(n, k).Some? ==> Fraction(s, p + k) == Some(p + Fraction(n, k).value)
    ensures Exponent(n, k).Some? ==> Exponent(s, p + k) == Some(p + Exponent(n, k).value)
  {
    hide Holds, Digits;
    SameByte(s, p, n, k);
    if k < |n| {
      SameByte(s, p, n, k + 1);
      SameDigits(s, p, n, k);
      SameDigits(s, p, n, k + 1);
      if k + 1 < |n| {
        SameByte(s, p, n, k + 2);
        SameDigits(s, p, n, k + 2);
      }
    }
  }

  lemma NumberRoundTrip(s: seq<byte>, p: nat, n: seq<byte>)
    requires ParseNumber(n, 0) == Some(|n|) && Holds(s, p, n)
    ensures ParseNumber(s, p) == Some(p + |n|)
  {
    hide Holds, Integer, Fraction, Exponent;
    SameParts(s, p, n, 0);
    var b := Integer(n, 0).value;
    SameParts(s, p, n, b);
    SameParts(s, p, n, Fraction(n, b).value);
  }

  //// White space

  ghost predicate IsBlank(ws: seq<byte>) {
    forall k :: 0 <= k < |ws| ==> IsSpace(ws[k])
  }

  lemma {:induction false} SkipBlank(s: seq<byte>, p: nat, ws: seq<byte>)
    requires HasAt(s, p, ws) && IsBlank(ws) && !IsSpace(At(s, p + |ws|))
    ensures SkipSpace(s, p) == p + |ws|
    decreases |ws|
  {
    if ws != [] {
      HasAtByte(s, p, ws, 0);
      HasAtSplit(s, p, ws[..1], ws[1..]);
      assert ws[..1] + ws[1..] == ws;
      SkipBlank(s, p + 1, ws[1..]);
    }
  }

  lemma {:induction false} BlankRepeat(space: seq<byte>, n: nat)
    requires IsBlank(space)
    ensures IsBlank(Repeat(space, n))
  {
    if n > 0 {
      BlankRepeat(space, n - 1);
    }
  }

  ghost predicate BlankStyle(st: Style) {
    st.Indented? ==> IsBlank(st.space)
  }

  lemma BlankBreak(st: Style, level: nat)
    requires BlankStyle(st)
    ensures IsBlank(Break(st, level))
  {
    if st.Indented? {
      BlankRepeat(st.space, level);
    }
  }
}
