// Reading JSON with an advancing pointer.

module JsonParse {
  import opened Bytes
  import opened Options
  import opened JsonText
  import opened JsonBuffer
  import JsonGrammar
  import JsonDocuments

  // skip_space
  method Skip(s: seq<byte>, i: nat) returns (j: nat)
    ensures j == SkipSpace(s, i)
  {
    j := i;
    while IsSpace(At(s, j))
      invariant SkipSpace(s, j) == SkipSpace(s, i) && i <= j
      decreases |s| - j
    {
      j := j + 1;
    }
  }

  // The loops over digits; at least one is needed.
  method SkipDigits(s: seq<byte>, i: nat) returns (r: Option<nat>)
    ensures r == Digits1(s, i)
  {
    if !IsDigit(At(s, i)) {
      return None;
    }
    var j := i + 1;
    while IsDigit(At(s, j))
      invariant Digits(s, j) == Digits(s, i)
      decreases |s| - j
    {
      j := j + 1;
    }
    return Some(j);
  }

  // parse_number
  method Number(s: seq<byte>, i: nat) returns (r: Option<nat>)
    ensures r == ParseNumber(s, i)
  {
    hide Digits1;
    var p := i;
    if At(s, p) == 0x2D {
      p := p + 1;
    }
    if At(s, p) == 0x30 {
      p := p + 1;
    } else {
      var d := SkipDigits(s, p);
      if d.None? {
        return None;
      }
      p := d.value;
    }
    if At(s, p) == 0x2E {
      var d := SkipDigits(s, p + 1);
      if d.None? {
        return None;
      }
      p := d.value;
    }
    if At(s, p) == 0x45 || At(s, p) == 0x65 {
      p := p + 1;
      if At(s, p) == 0x2B || At(s, p) == 0x2D {
        p := p + 1;
      }
      var d := SkipDigits(s, p);
      if d.None? {
        return None;
      }
      p := d.value;
    }
    return Some(p);
  }

  // parse_hex16
  method Hex16(s: seq<byte>, i: nat) returns (r: Option<nat>)
    ensures r == ParseHex16(s, i)
  {
    var ret: nat, k := 0, 0;
    while k < 4
      invariant 0 <= k <= 4 && Some(ret) == HexPrefix(s, i, k)
    {
      var c := At(s, i + k) as nat;
      var tmp: nat;
      if 0x30 <= c <= 0x39 {
        tmp := c - 0x30;
      } else if 0x41 <= c <= 0x46 {
        tmp := c - 0x41 + 10;
      } else if 0x61 <= c <= 0x66 {
        tmp := c - 0x61 + 10;
      } else {
        assert k == 0 || k == 1 || k == 2 || k == 3;
        return None;
      }
      ret := ret * 16 + tmp;
      k := k + 1;
    }
    FourDigits(s, i);
    return Some(ret);
  }

  // The value of the first k hexadecimal digits.
  function HexPrefix(s: seq<byte>, i: nat, k: nat): Option<nat> {
    if k == 0 then Some(0)
    else match HexPrefix(s, i, k - 1)
         case None => None
         case Some(v) =>
           match HexValue(At(s, i + k - 1))
           case None => None
           case Some(d) => Some(v * 16 + d)
  }

  lemma FourDigits(s: seq<byte>, i: nat)
    ensures HexPrefix(s, i, 4) == ParseHex16(s, i)
  {
    hide HexValue;
    assert HexPrefix(s, i, 4) == HexPrefix(s, i, 3 + 1);
    assert HexPrefix(s, i, 3) == HexPrefix(s, i, 2 + 1);
    assert HexPrefix(s, i, 2) == HexPrefix(s, i, 1 + 1);
    assert HexPrefix(s, i, 1) == HexPrefix(s, i, 0 + 1);
  }

  // What a loop has gathered, and what the rest of the text gives.
  function Prefixed<T>(done: seq<T>, rest: Parsed<seq<T>>): Parsed<seq<T>> {
    match rest
    case Fail => Fail
    case Ok(v, n) => Ok(done + v, n)
  }

  lemma PrefixedTwice<T>(a: seq<T>, b: seq<T>, rest: Parsed<seq<T>>)
    ensures Prefixed(a, Prefixed(b, rest)) == Prefixed(a + b, rest)
  {
    if rest.Ok? {
      assert a + (b + rest.value) == (a + b) + rest.value;
    }
  }

  lemma PrefixedNone<T>(rest: Parsed<seq<T>>)
    ensures Prefixed([], rest) == rest
  {
    if rest.Ok? {
      assert [] + rest.value == rest.value;
    }
  }

  // What follows a backslash and a u.
  method Unicode(s: seq<byte>, i: nat) returns (r: Parsed<seq<byte>>)
    ensures r == UnicodeEscape(s, i)
  {
    hide ParseHex16, WriteChar;
    var uc := Hex16(s, i);
    if uc.None? {
      return Fail;
    }
    if 0xD800 <= uc.value <= 0xDFFF {
      if At(s, i + 4) != BACKSLASH || At(s, i + 5) != 0x75 {
        return Fail;
      }
      var lc := Hex16(s, i + 6);
      if lc.None? {
        return Fail;
      }
      var u := FromPair(uc.value, lc.value);
      if u.None? {
        return Fail;
      }
      return Ok(WriteChar(u.value), i + 10);
    }
    if uc.value == 0 {
      return Fail;
    }
    return Ok(WriteChar(uc.value), i + 4);
  }

  // One character of a string literal.
  method Character(s: seq<byte>, i: nat) returns (r: Parsed<seq<byte>>)
    requires At(s, i) != QUOTE
    ensures r == OneChar(s, i) && (r.Ok? ==> |r.value| <= 4)
  {
    hide CharLen, UnicodeEscape;
    var c := At(s, i);
    if c == BACKSLASH {
      c := At(s, i + 1);
      if c == QUOTE || c == BACKSLASH || c == 0x2F {
        return Ok([c], i + 2);
      } else if c == 0x62 {
        return Ok([0x08], i + 2);
      } else if c == 0x66 {
        return Ok([0x0C], i + 2);
      } else if c == 0x6E {
        return Ok([0x0A], i + 2);
      } else if c == 0x72 {
        return Ok([0x0D], i + 2);
      } else if c == 0x74 {
        return Ok([0x09], i + 2);
      } else if c == 0x75 {
        r := Unicode(s, i + 2);
        ShortEscape(s, i + 2);
        return;
      }
      return Fail;
    }
    if c <= 0x1F {
      return Fail;
    }
    var len := CharLen(s, i);
    if len == 0 {
      return Fail;
    }
    return Ok(s[i..i + len], i + len);
  }

  lemma ShortEscape(s: seq<byte>, i: nat)
    ensures UnicodeEscape(s, i).Ok? ==> |UnicodeEscape(s, i).value| <= 4
  {
  }

  // parse_string. The four bytes kept ready are enough for each character.
  method String(s: seq<byte>, i: nat) returns (r: Parsed<seq<byte>>)
    ensures r == ParseString(s, i)
  {
    hide OneChar;
    if At(s, i) != QUOTE {
      return Fail;
    }
    var p := i + 1;
    var sb := new SB();
    sb.Need(4);
    PrefixedNone(Chars(s, p));
    while At(s, p) != QUOTE
      invariant sb.Valid() && sb.End() - sb.cur >= 4 && fresh(sb) && fresh(sb.start)
      invariant Prefixed(sb.Contents(), Chars(s, p)) == Chars(s, i + 1)
      decreases if p < |s| then |s| - p else 0
    {
      var c := Character(s, p);
      if c.Fail? {
        return Fail;
      }
      PrefixedTwice(sb.Contents(), c.value, Chars(s, c.next));
      sb.Poke(sb.cur, c.value);
      sb.cur := sb.cur + |c.value|;
      sb.Need(4);
      p := c.next;
    }
    var str := sb.Finish();
    assert Chars(s, p) == Ok([], p + 1) && str + [] == str;
    return Ok(str, p + 1);
  }

  lemma HasByte(s: seq<byte>, i: nat, text: seq<byte>, k: nat)
    requires k < |text|
    ensures HasAt(s, i, text) ==> At(s, i + k) == text[k]
  {
    if i + |text| <= |s| {
      assert s[i..i + |text|][k] == s[i + k];
    }
  }

  // expect_literal
  method Literal(s: seq<byte>, i: nat, text: seq<byte>) returns (ok: bool)
    requires 0 !in text && i <= |s|
    ensures ok == HasAt(s, i, text)
  {
    var k := 0;
    while k < |text|
      invariant 0 <= k <= |text| && HasAt(s, i, text[..k])
    {
      if At(s, i + k) != text[k] {
        HasByte(s, i, text, k);
        return false;
      }
      assert s[i..i + k + 1] == s[i..i + k] + [text[k]];
      k := k + 1;
    }
    assert text[..k] == text;
    return true;
  }

  // parse_value
  method Value(s: seq<byte>, i: nat) returns (r: Parsed<Json>)
    ensures r == ParseValue(s, i)
    decreases if i < |s| then |s| - i else 0, 1
  {
    hide HasAt, ParseNumber, ParseString, ParseItems, ParseMembers;
    var c := At(s, i);
    if c == 0x6E {
      var ok := Literal(s, i, NULL_TEXT);
      return if ok then Ok(Null, i + 4) else Fail;
    } else if c == 0x66 {
      var ok := Literal(s, i, FALSE_TEXT);
      return if ok then Ok(Bool(false), i + 5) else Fail;
    } else if c == 0x74 {
      var ok := Literal(s, i, TRUE_TEXT);
      return if ok then Ok(Bool(true), i + 4) else Fail;
    } else if c == QUOTE {
      var str := String(s, i);
      return if str.Ok? then Ok(Str(str.value), str.next) else Fail;
    } else if c == 0x5B {
      var p := Skip(s, i + 1);
      if At(s, p) == 0x5D {
        return Ok(Arr([]), p + 1);
      }
      var items := Items(s, p);
      return if items.Ok? then Ok(Arr(items.value), items.next) else Fail;
    } else if c == 0x7B {
      var p := Skip(s, i + 1);
      if At(s, p) == 0x7D {
        return Ok(Obj([]), p + 1);
      }
      var members := Members(s, p);
      return if members.Ok? then Ok(Obj(members.value), members.next) else Fail;
    } else {
      var n := Number(s, i);
      return if n.Some? then Ok(Num(s[i..n.value]), n.value) else Fail;
    }
  }

  // The loop of parse_array.
  method Items(s: seq<byte>, i: nat) returns (r: Parsed<seq<Json>>)
    ensures r == ParseItems(s, i)
    decreases if i < |s| then |s| - i else 0, 2
  {
    hide ParseValue, SkipSpace;
    var items: seq<Json>, p := [], i;
    PrefixedNone(ParseItems(s, i));
    while true
      invariant i <= p && (p == i || p <= |s|)
      invariant Prefixed(items, ParseItems(s, p)) == ParseItems(s, i)
      decreases if p < |s| then |s| - p else 0
    {
      var item := Value(s, p);
      if item.Fail? {
        return Fail;
      }
      var k := Skip(s, item.next);
      if At(s, k) == 0x5D {
        return Ok(items + [item.value], k + 1);
      }
      if At(s, k) != 0x2C {
        return Fail;
      }
      var next := Skip(s, k + 1);
      PrefixedTwice(items, [item.value], ParseItems(s, next));
      items, p := items + [item.value], next;
    }
  }

  // A key, a colon and a value.
  method KeyAndValue(s: seq<byte>, i: nat) returns (r: Parsed<Member>)
    ensures r == ParseMember(s, i)
    decreases if i < |s| then |s| - i else 0, 2
  {
    hide ParseValue, SkipSpace, ParseString;
    var key := String(s, i);
    if key.Fail? {
      return Fail;
    }
    var k := Skip(s, key.next);
    if At(s, k) != 0x3A {
      return Fail;
    }
    k := Skip(s, k + 1);
    var value := Value(s, k);
    if value.Fail? {
      return Fail;
    }
    return Ok(Member(key.value, value.value), value.next);
  }

  // The loop of parse_object.
  method Members(s: seq<byte>, i: nat) returns (r: Parsed<seq<Member>>)
    ensures r == ParseMembers(s, i)
    decreases if i < |s| then |s| - i else 0, 3
  {
    hide ParseMember, SkipSpace;
    var members: seq<Member>, p := [], i;
    PrefixedNone(ParseMembers(s, i));
    while true
      invariant i <= p && (p == i || p <= |s|)
      invariant Prefixed(members, ParseMembers(s, p)) == ParseMembers(s, i)
      decreases if p < |s| then |s| - p else 0
    {
      var member := KeyAndValue(s, p);
      if member.Fail? {
        return Fail;
      }
      var k := Skip(s, member.next);
      if At(s, k) == 0x7D {
        return Ok(members + [member.value], k + 1);
      }
      if At(s, k) != 0x2C {
        return Fail;
      }
      var next := Skip(s, k + 1);
      PrefixedTwice(members, [member.value], ParseMembers(s, next));
      members, p := members + [member.value], next;
    }
  }

  // json_decode
  method JsonDecode(s: seq<byte>) returns (r: Option<Json>)
    requires 0 !in s
    ensures r == Decode(s)
    ensures forall j :: r == Some(j) <==> JsonGrammar.IsDocument(s, j)
  {
    hide ParseValue, SkipSpace, JsonGrammar.IsDocument;
    forall j
      ensures Decode(s) == Some(j) <==> JsonGrammar.IsDocument(s, j)
    {
      JsonDocuments.DecodeIff(s, j);
    }
    var p := Skip(s, 0);
    var v := Value(s, p);
    if v.Fail? {
      return None;
    }
    p := Skip(s, v.next);
    if At(s, p) != 0 {
      return None;
    }
    return Some(v.value);
  }
}
