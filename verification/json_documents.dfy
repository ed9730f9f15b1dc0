// The parser accepts exactly the texts of the grammar, each for the value it stands for, and the
// printer writes such texts.

module JsonDocuments {
  import opened Bytes
  import opened Options
  import opened JsonText
  import opened JsonGrammar
  import opened JsonRoundTrip
  import opened JsonStrings
  import opened JsonValues

  //// White space

  lemma WsIsBlank(t: seq<byte>)
    ensures IsWs(t) <==> IsBlank(t)
  {
  }

  lemma {:induction false} SkippedIsWs(s: seq<byte>, i: nat)
    requires i <= |s|
    ensures IsWs(s[i..SkipSpace(s, i)]) && !IsSpace(At(s, SkipSpace(s, i)))
    decreases |s| - i
  {
    if IsSpace(At(s, i)) {
      SkippedIsWs(s, i + 1);
      var n := SkipSpace(s, i);
      assert s[i..n] == [s[i]] + s[i + 1..n];
    }
  }

  // White space is skipped up to what comes after it.
  lemma WsIsSkipped(t: seq<byte>, s: seq<byte>, p: nat)
    requires IsWs(t) && HasAt(s, p, t) && !IsSpace(At(s, p + |t|))
    ensures SkipSpace(s, p) == p + |t|
  {
    WsIsBlank(t);
    SkipBlank(s, p, t);
  }

  //// Numbers

  lemma {:induction false} DigitsEnd(s: seq<byte>, i: nat, j: nat)
    requires i <= j && (forall k :: i <= k < j ==> IsDigit(At(s, k))) && !IsDigit(At(s, j))
    ensures Digits(s, i) == j
    decreases j - i
  {
    if i < j {
      DigitsEnd(s, i + 1, j);
    }
  }

  lemma DigitsAre(s: seq<byte>, i: nat, j: nat)
    requires i <= j <= |s|
    ensures AreDigits(s[i..j]) <==> i < j && forall k :: i <= k < j ==> IsDigit(At(s, k))
  {
    if AreDigits(s[i..j]) {
      forall k | i <= k < j
        ensures IsDigit(At(s, k))
      {
        assert s[i..j][k - i] == s[k];
      }
    }
    assert forall k :: 0 <= k < j - i ==> s[i..j][k] == At(s, i + k);
  }

  lemma Digits1Is(s: seq<byte>, i: nat, j: nat)
    requires i <= j <= |s|
    ensures Digits1(s, i) == Some(j) <==> AreDigits(s[i..j]) && !IsDigit(At(s, j))
  {
    DigitsAre(s, i, j);
    if AreDigits(s[i..j]) && !IsDigit(At(s, j)) {
      DigitsEnd(s, i, j);
    }
  }

  lemma FractionIs(n: seq<byte>, b: nat, c: nat)
    requires b <= c <= |n|
    ensures Fraction(n, b) == Some(c) ==> IsFrac(n[b..c])
    ensures IsFrac(n[b..c]) && !IsDigit(At(n, c)) && At(n, c) != 0x2E ==> Fraction(n, b) == Some(c)
  {
    hide AreDigits, Digits1;
    if b < c {
      Digits1Is(n, b + 1, c);
      assert n[b..c][1..] == n[b + 1..c];
    }
  }

  lemma ExponentIs(n: seq<byte>, c: nat)
    requires c <= |n|
    ensures Exponent(n, c) == Some(|n|) <==> IsExp(n[c..])
  {
    hide Digits1;
    if c + 1 <= |n| {
      Digits1Is(n, c + 1, |n|);
      assert n[c..][1..] == n[c + 1..|n|];
    }
    if c + 2 <= |n| {
      Digits1Is(n, c + 2, |n|);
      assert n[c..][2..] == n[c + 2..|n|];
    }
  }

  lemma IntegerIs(n: seq<byte>, a: nat, b: nat)
    requires a <= b <= |n| && a == if At(n, 0) == 0x2D then 1 else 0
    ensures Integer(n, 0) == Some(b) ==> IsInt(n[a..b])
    ensures IsInt(n[a..b]) && !IsDigit(At(n, b)) ==> Integer(n, 0) == Some(b)
  {
    hide Digits1;
    Digits1Is(n, a, b);
    assert a < b ==> n[a..b][0] == At(n, a);
  }

  // Where a number's parts end, no digit follows.
  lemma PartsEnd(n: seq<byte>, b: nat, c: nat)
    requires b <= c <= |n| && IsFrac(n[b..c]) && IsExp(n[c..])
    ensures !IsDigit(At(n, b)) && !IsDigit(At(n, c)) && At(n, c) != 0x2E
  {
    assert b < c ==> n[b..c][0] == At(n, b);
    assert c < |n| ==> n[c..][0] == At(n, c);
  }

  // The scanner takes exactly the numbers of the grammar whole.
  lemma NumberIs(n: seq<byte>)
    ensures IsNumber(n) <==> ParseNumber(n, 0) == Some(|n|)
  {
    hide IsInt, IsFrac, IsExp, Integer, Fraction, Exponent;
    if IsNumber(n) {
      var a: nat, b: nat, c: nat :|
        && a <= b <= c <= |n| && IsInt(n[a..b]) && IsFrac(n[b..c]) && IsExp(n[c..])
        && (a == 0 || (a == 1 && n[0] as int == '-' as int));
      SignIs(n, a, b);
      PartsEnd(n, b, c);
      IntegerIs(n, a, b);
      FractionIs(n, b, c);
      ExponentIs(n, c);
    }
    if ParseNumber(n, 0) == Some(|n|) {
      var a := if At(n, 0) == 0x2D then 1 else 0;
      var b := Integer(n, 0).value;
      var c := Fraction(n, b).value;
      PartsAscend(n);
      IntegerIs(n, a, b);
      FractionIs(n, b, c);
      ExponentIs(n, c);
    }
  }

  lemma SignIs(n: seq<byte>, a: nat, b: nat)
    requires a <= b <= |n| && IsInt(n[a..b]) && (a == 0 || (a == 1 && n[0] as int == '-' as int))
    ensures a == if At(n, 0) == 0x2D then 1 else 0
  {
    assert a < b && n[a..b][0] == n[a];
  }

  lemma PartsAscend(n: seq<byte>)
    requires ParseNumber(n, 0) == Some(|n|)
    ensures var a, b := if At(n, 0) == 0x2D then 1 else 0, Integer(n, 0).value;
            a <= b <= Fraction(n, b).value <= |n|
  {
  }

  //// What is parsed is in the grammar

  lemma Sub(s: seq<byte>, p: nat, n: nat, a: nat, b: nat)
    requires p <= a <= b <= n <= |s|
    ensures s[p..n][a - p..b - p] == s[a..b]
  {
    forall k | 0 <= k < b - a
      ensures s[p..n][a - p..b - p][k] == s[a..b][k]
    {
      assert s[p..n][a - p + k] == s[a + k];
    }
  }

  lemma Sub3(s: seq<byte>, p: nat, i: nat, j: nat, n: nat)
    requires p <= i <= j <= n <= |s|
    ensures var t := s[p..n];
            t[..i - p] == s[p..i] && t[i - p..j - p] == s[i..j] && t[j - p..] == s[j..n]
  {
    Sub(s, p, n, p, i);
    Sub(s, p, n, i, j);
    Sub(s, p, n, j, n);
  }

  lemma DocumentIs(s: seq<byte>, p: nat, i: nat, j: nat, n: nat, v: Json)
    requires p <= i <= j <= n <= |s| && IsWs(s[p..i]) && IsValue(s[i..j], v) && IsWs(s[j..n])
    ensures IsDocument(s[p..n], v)
  {
    hide IsWs, IsValue;
    Sub3(s, p, i, j, n);
  }

  lemma KeyIs(s: seq<byte>, p: nat, i: nat, j: nat, n: nat, key: seq<byte>)
    requires p <= i <= j <= n <= |s| && IsWs(s[p..i]) && IsString(s[i..j], key) && IsWs(s[j..n])
    ensures IsKey(s[p..n], key)
  {
    hide IsWs, IsString;
    Sub3(s, p, i, j, n);
  }

  lemma {:induction false} ParsedIsValue(s: seq<byte>, i: nat)
    requires ParseValue(s, i).Ok?
    ensures var r := ParseValue(s, i); i < r.next <= |s| && IsValue(s[i..r.next], r.value)
    decreases if i < |s| then |s| - i else 0, 1
  {
    hide ParseNumber, ParseString, ParseItems, ParseMembers, SkipSpace, HasAt, IsWs, IsValue, AreItems, AreMembers;
    var r := ParseValue(s, i);
    match r.value {
      case Arr(items) =>
        SkippedIsWs(s, i + 1);
        if items != [] {
          ParsedAreItems(s, i + 1, SkipSpace(s, i + 1), items, 0);
        }
        ArrayIs(s, i, r.next, items);
      case Obj(members) =>
        SkippedIsWs(s, i + 1);
        if members != [] {
          ParsedAreMembers(s, i + 1, SkipSpace(s, i + 1), members, 0);
        }
        ObjectIs(s, i, r.next, members);
      case _ =>
        ParsedScalar(s, i);
    }
  }

  lemma ParsedScalar(s: seq<byte>, i: nat)
    requires ParseValue(s, i).Ok? && !ParseValue(s, i).value.Arr? && !ParseValue(s, i).value.Obj?
    ensures var r := ParseValue(s, i); i < r.next <= |s| && IsValue(s[i..r.next], r.value)
  {
    hide ParseNumber, ParseString, ParseItems, ParseMembers, SkipSpace, IsString, IsNumber;
    var r := ParseValue(s, i);
    match r.value {
      case Str(str) =>
        StringIsParsed(s, i, str, r.next);
      case Num(n) =>
        NumberIsNumber(s, i);
        NumberIs(n);
      case _ =>
    }
  }

  lemma ArrayIs(s: seq<byte>, i: nat, n: nat, items: seq<Json>)
    requires i + 2 <= n <= |s| && s[i] == 0x5B && s[n - 1] == 0x5D
    requires if items == [] then IsWs(s[i + 1..n - 1]) else AreItems(s[i + 1..n - 1], items, 0)
    ensures IsValue(s[i..n], Arr(items))
  {
    hide IsWs, AreItems;
    Within(s, i, n);
  }

  lemma ObjectIs(s: seq<byte>, i: nat, n: nat, members: seq<Member>)
    requires i + 2 <= n <= |s| && s[i] == 0x7B && s[n - 1] == 0x7D
    requires if members == [] then IsWs(s[i + 1..n - 1]) else AreMembers(s[i + 1..n - 1], members, 0)
    ensures IsValue(s[i..n], Obj(members))
  {
    hide IsWs, AreMembers;
    Within(s, i, n);
  }

  // The items from the k-th on, the text from p on starting with white space.
  lemma {:induction false} ParsedAreItems(s: seq<byte>, p: nat, i: nat, items: seq<Json>, k: nat)
    requires p <= i <= |s| && IsWs(s[p..i])
    requires k < |items| && ParseItems(s, i).Ok? && ParseItems(s, i).value == items[k..]
    ensures var n := ParseItems(s, i).next; p < n <= |s| && s[n - 1] == 0x5D && AreItems(s[p..n - 1], items, k)
    decreases if i < |s| then |s| - i else 0, 2
  {
    hide ParseValue, SkipSpace, IsWs, IsDocument, IsValue;
    var n, v := ParseItems(s, i).next, ParseValue(s, i);
    ParsedIsValue(s, i);
    var q := SkipSpace(s, v.next);
    SkippedIsWs(s, v.next);
    DocumentIs(s, p, i, v.next, q, v.value);
    assert items[k..][0] == items[k];
    if At(s, q) == 0x2C {
      var next := SkipSpace(s, q + 1);
      SkippedIsWs(s, q + 1);
      assert items[k + 1..] == items[k..][1..] == ParseItems(s, next).value;
      ParsedAreItems(s, q + 1, next, items, k + 1);
      AtComma(s, p, q, n - 1);
    }
  }

  lemma AtComma(s: seq<byte>, p: nat, q: nat, n: nat)
    requires p <= q < n <= |s|
    ensures var t := s[p..n]; t[..q - p] == s[p..q] && t[q - p] == s[q] && t[q - p + 1..] == s[q + 1..n]
  {
    Sub3(s, p, q, q + 1, n);
  }

  lemma {:induction false} ParsedIsMember(s: seq<byte>, p: nat, i: nat, n: nat)
    requires p <= i <= |s| && IsWs(s[p..i]) && ParseMember(s, i).Ok?
    requires ParseMember(s, i).next <= n <= |s| && IsWs(s[ParseMember(s, i).next..n])
    ensures IsMember(s[p..n], ParseMember(s, i).value)
    decreases if i < |s| then |s| - i else 0, 2
  {
    hide ParseString, ParseValue, SkipSpace, IsWs, IsString, IsDocument, IsValue, IsKey;
    var key := ParseString(s, i);
    var b := SkipSpace(s, key.next);
    var c := SkipSpace(s, b + 1);
    StringIsParsed(s, i, key.value, key.next);
    SkippedIsWs(s, key.next);
    KeyIs(s, p, i, key.next, b, key.value);
    SkippedIsWs(s, b + 1);
    ParsedIsValue(s, c);
    DocumentIs(s, b + 1, c, ParseValue(s, c).next, n, ParseValue(s, c).value);
    AtComma(s, p, b, n);
  }

  lemma {:induction false} ParsedAreMembers(s: seq<byte>, p: nat, i: nat, members: seq<Member>, k: nat)
    requires p <= i <= |s| && IsWs(s[p..i])
    requires k < |members| && ParseMembers(s, i).Ok? && ParseMembers(s, i).value == members[k..]
    ensures var n := ParseMembers(s, i).next;
            p < n <= |s| && s[n - 1] == 0x7D && AreMembers(s[p..n - 1], members, k)
    decreases if i < |s| then |s| - i else 0, 3
  {
    hide ParseMember, SkipSpace, IsWs, IsMember;
    var n, m := ParseMembers(s, i).next, ParseMember(s, i);
    var q := SkipSpace(s, m.next);
    SkippedIsWs(s, m.next);
    ParsedIsMember(s, p, i, q);
    assert members[k..][0] == members[k];
    if At(s, q) == 0x2C {
      var next := SkipSpace(s, q + 1);
      SkippedIsWs(s, q + 1);
      assert members[k + 1..] == members[k..][1..] == ParseMembers(s, next).value;
      ParsedAreMembers(s, q + 1, next, members, k + 1);
      AtComma(s, p, q, n - 1);
    }
  }

  //// What is in the grammar is parsed

  // A byte that can come after a value and the white space behind it.
  predicate Closes(c: byte) {
    Stops(c) && !IsSpace(c)
  }

  lemma ValueStarts(t: seq<byte>, j: Json)
    requires IsValue(t, j)
    ensures t != [] && !IsSpace(t[0]) && t[0] != 0x5D
  {
    hide ParseNumber;
    if j.Num? {
      NumberIs(t);
      NumberStarts(t);
    }
  }

  lemma {:induction false} ValueIsParsed(t: seq<byte>, j: Json, s: seq<byte>, p: nat)
    requires IsValue(t, j) && HasAt(s, p, t) && Stops(At(s, p + |t|))
    ensures ParseValue(s, p) == Ok(j, p + |t|)
    decreases j, 1, 0
  {
    match j {
      case Arr(items) =>
        ArrayIsParsed(t, items, s, p);
      case Obj(members) =>
        ObjectIsParsed(t, members, s, p);
      case _ =>
        ScalarIsParsed(t, j, s, p);
    }
  }

  lemma ScalarIsParsed(t: seq<byte>, j: Json, s: seq<byte>, p: nat)
    requires IsValue(t, j) && !j.Arr? && !j.Obj? && HasAt(s, p, t) && Stops(At(s, p + |t|))
    ensures ParseValue(s, p) == Ok(j, p + |t|)
  {
    hide ParseValue, IsString, IsNumber, Stops, HasAt;
    match j {
      case Str(str) =>
        StringValueIsParsed(t, str, s, p);
      case Num(n) =>
        NumberIsParsed(n, s, p);
      case _ =>
        LiteralIsParsed(t, j, s, p);
    }
  }

  lemma LiteralIsParsed(t: seq<byte>, j: Json, s: seq<byte>, p: nat)
    requires IsValue(t, j) && (j.Null? || j.Bool?) && HasAt(s, p, t)
    ensures ParseValue(s, p) == Ok(j, p + |t|)
  {
    hide ParseString, ParseNumber, ParseItems, ParseMembers, SkipSpace;
    HasAtByte(s, p, t, 0);
    assert t == NULL_TEXT || t == TRUE_TEXT || t == FALSE_TEXT;
  }

  lemma StringValueIsParsed(t: seq<byte>, str: seq<byte>, s: seq<byte>, p: nat)
    requires IsString(t, str) && HasAt(s, p, t)
    ensures ParseValue(s, p) == Ok(Str(str), p + |t|)
  {
    hide ParseString, ParseNumber, ParseItems, ParseMembers, SkipSpace, SpellsAll;
    HasAtByte(s, p, t, 0);
    StringIsParsed(s, p, str, p + |t|);
  }

  lemma NumberIsParsed(n: seq<byte>, s: seq<byte>, p: nat)
    requires IsNumber(n) && HasAt(s, p, n) && Stops(At(s, p + |n|))
    ensures ParseValue(s, p) == Ok(Num(n), p + |n|)
  {
    hide ParseNumber, IsNumber, Stops, ParseString, ParseItems, ParseMembers, SkipSpace;
    NumberIs(n);
    NumberStarts(n);
    BytesAt(s, p, n);
    assert At(s, p + 0) == n[0];
    NumberRoundTrip(s, p, n);
  }

  // Brackets around a text.
  lemma Bracketed(t: seq<byte>, s: seq<byte>, p: nat)
    requires |t| >= 2 && HasAt(s, p, t)
    ensures var b := t[1..|t| - 1];
            && At(s, p) == t[0] && HasAt(s, p + 1, b + [t[|t| - 1]]) && HasAt(s, p + 1, b)
            && At(s, p + |t| - 1) == t[|t| - 1]
  {
    var b, end := t[1..|t| - 1], [t[|t| - 1]];
    assert t == t[..1] + (b + end);
    HasAtSplit(s, p, t[..1], b + end);
    HasAtSplit(s, p + 1, b, end);
    HasAtByte(s, p, t, 0);
    HasAtByte(s, p, t, |t| - 1);
  }

  lemma {:induction false} ArrayIsParsed(t: seq<byte>, items: seq<Json>, s: seq<byte>, p: nat)
    requires IsValue(t, Arr(items)) && HasAt(s, p, t)
    ensures ParseValue(s, p) == Ok(Arr(items), p + |t|)
    decreases items, 1, 0
  {
    hide HasAt, SkipSpace, ParseItems, IsWs, AreItems;
    Bracketed(t, s, p);
    var b := t[1..|t| - 1];
    if items == [] {
      WsIsSkipped(b, s, p + 1);
    } else {
      ItemsAreParsed(b, items, 0, s, p + 1);
      assert items[0..] == items;
    }
  }

  // Up to the bracket that closes the array.
  lemma {:induction false} ItemsAreParsed(t: seq<byte>, items: seq<Json>, i: nat, s: seq<byte>, p: nat)
    requires i < |items| && AreItems(t, items, i) && HasAt(s, p, t + [0x5D])
    ensures var q := SkipSpace(s, p);
            At(s, q) != 0x5D && ParseItems(s, q) == Ok(items[i..], p + |t| + 1)
    decreases items, 0, |items| - i
  {
    hide HasAt, SkipSpace, ParseValue, ParseItems, IsDocument;
    HasAtSplit(s, p, t, [0x5D]);
    HasAtByte(s, p + |t|, [0x5D], 0);
    if i + 1 == |items| {
      DocumentIsParsed(t, items[i], s, p);
      assert items[i..] == [items[i]];
    } else {
      var k: nat :|
        k < |t| && t[k] as int == ',' as int && IsDocument(t[..k], items[i]) && AreItems(t[k + 1..], items, i + 1);
      SplitAt(t, k, s, p, 0x5D);
      DocumentIsParsed(t[..k], items[i], s, p);
      ItemsAreParsed(t[k + 1..], items, i + 1, s, p + k + 1);
      assert items[i..] == [items[i]] + items[i + 1..];
    }
    ItemsFrom(s, SkipSpace(s, p));
  }

  lemma ItemsFrom(s: seq<byte>, q: nat)
    requires ParseValue(s, q).Ok?
    ensures var v := ParseValue(s, q);
            var k := SkipSpace(s, v.next);
            var more := ParseItems(s, SkipSpace(s, k + 1));
            && (At(s, k) == 0x5D ==> ParseItems(s, q) == Ok([v.value], k + 1))
            && (At(s, k) == 0x2C && more.Ok? ==> ParseItems(s, q) == Ok([v.value] + more.value, more.next))
  {
    hide ParseValue, SkipSpace;
  }

  // A text cut at one of its bytes, with a bracket behind it.
  lemma SplitAt(t: seq<byte>, k: nat, s: seq<byte>, p: nat, bracket: byte)
    requires k < |t| && HasAt(s, p, t + [bracket])
    ensures HasAt(s, p, t[..k]) && At(s, p + k) == t[k] && HasAt(s, p + k + 1, t[k + 1..] + [bracket])
    ensures HasAt(s, p + k + 1, t[k + 1..])
  {
    var more := t[k + 1..] + [bracket];
    assert t + [bracket] == t[..k] + ([t[k]] + more);
    HasAtSplit(s, p, t[..k], [t[k]] + more);
    HasAtSplit(s, p + k, [t[k]], more);
    HasAtByte(s, p + k, [t[k]], 0);
    HasAtSplit(s, p + k + 1, t[k + 1..], [bracket]);
  }

  // A text with white space on both sides.
  lemma Padded(t: seq<byte>, a: nat, b: nat, s: seq<byte>, p: nat)
    requires a < b <= |t| && HasAt(s, p, t) && IsWs(t[..a]) && IsWs(t[b..])
    requires !IsSpace(t[a]) && !IsSpace(At(s, p + |t|))
    ensures SkipSpace(s, p) == p + a && At(s, p + a) == t[a] && HasAt(s, p + a, t[a..b]) && SkipSpace(s, p + b) == p + |t|
    ensures Stops(At(s, p + |t|)) ==> Stops(At(s, p + b))
  {
    hide HasAt, SkipSpace;
    var ws, v, end := t[..a], t[a..b], t[b..];
    assert t == ws + (v + end);
    HasAtSplit(s, p, ws, v + end);
    HasAtSplit(s, p + a, v, end);
    HasAtByte(s, p, t, a);
    WsIsSkipped(ws, s, p);
    WsIsSkipped(end, s, p + b);
    if b < |t| {
      HasAtByte(s, p, t, b);
      assert end[0] == t[b];
    }
  }

  lemma {:induction false} DocumentIsParsed(t: seq<byte>, j: Json, s: seq<byte>, p: nat)
    requires IsDocument(t, j) && HasAt(s, p, t) && Closes(At(s, p + |t|))
    ensures var q := SkipSpace(s, p);
            At(s, q) != 0x5D && ParseValue(s, q).Ok? && ParseValue(s, q).value == j
            && SkipSpace(s, ParseValue(s, q).next) == p + |t|
    decreases j, 2, 0
  {
    hide HasAt, SkipSpace, ParseValue, IsValue, IsWs;
    var a: nat, b: nat :| a <= b <= |t| && IsWs(t[..a]) && IsValue(t[a..b], j) && IsWs(t[b..]);
    ValueStarts(t[a..b], j);
    assert t[a..b][0] == t[a];
    Padded(t, a, b, s, p);
    ValueIsParsed(t[a..b], j, s, p + a);
  }

  lemma KeyIsParsed(t: seq<byte>, key: seq<byte>, s: seq<byte>, p: nat)
    requires IsKey(t, key) && HasAt(s, p, t) && !IsSpace(At(s, p + |t|))
    ensures var q := SkipSpace(s, p);
            At(s, q) == QUOTE && ParseString(s, q).Ok? && ParseString(s, q).value == key
            && SkipSpace(s, ParseString(s, q).next) == p + |t|
  {
    hide SkipSpace, ParseString, IsWs, SpellsAll;
    var a: nat, b: nat :| a <= b <= |t| && IsWs(t[..a]) && IsString(t[a..b], key) && IsWs(t[b..]);
    assert t[a..b][0] == t[a];
    Padded(t, a, b, s, p);
    StringIsParsed(s, p + a, key, p + b);
  }

  lemma {:induction false} MemberIsParsed(t: seq<byte>, m: Member, s: seq<byte>, p: nat)
    requires IsMember(t, m) && HasAt(s, p, t) && Closes(At(s, p + |t|))
    ensures var q := SkipSpace(s, p);
            At(s, q) == QUOTE && ParseMember(s, q).Ok? && ParseMember(s, q).value == m
            && SkipSpace(s, ParseMember(s, q).next) == p + |t|
    decreases m, 3, 0
  {
    hide HasAt, SkipSpace, ParseString, ParseValue, IsKey, IsDocument;
    var k: nat :| k < |t| && t[k] as int == ':' as int && IsKey(t[..k], m.key) && IsDocument(t[k + 1..], m.value);
    SplitAtByte(t, k, s, p);
    KeyIsParsed(t[..k], m.key, s, p);
    DocumentIsParsed(t[k + 1..], m.value, s, p + k + 1);
  }

  lemma SplitAtByte(t: seq<byte>, k: nat, s: seq<byte>, p: nat)
    requires k < |t| && HasAt(s, p, t)
    ensures HasAt(s, p, t[..k]) && At(s, p + k) == t[k] && HasAt(s, p + k + 1, t[k + 1..])
  {
    assert t == t[..k] + ([t[k]] + t[k + 1..]);
    HasAtSplit(s, p, t[..k], [t[k]] + t[k + 1..]);
    HasAtSplit(s, p + k, [t[k]], t[k + 1..]);
    HasAtByte(s, p, t, k);
  }

  lemma {:induction false} ObjectIsParsed(t: seq<byte>, members: seq<Member>, s: seq<byte>, p: nat)
    requires IsValue(t, Obj(members)) && HasAt(s, p, t)
    ensures ParseValue(s, p) == Ok(Obj(members), p + |t|)
    decreases members, 1, 0
  {
    hide HasAt, SkipSpace, ParseMembers, IsWs, AreMembers;
    Bracketed(t, s, p);
    var b := t[1..|t| - 1];
    if members == [] {
      WsIsSkipped(b, s, p + 1);
    } else {
      MembersAreParsed(b, members, 0, s, p + 1);
      assert members[0..] == members;
    }
  }

  lemma {:induction false} MembersAreParsed(t: seq<byte>, members: seq<Member>, i: nat, s: seq<byte>, p: nat)
    requires i < |members| && AreMembers(t, members, i) && HasAt(s, p, t + [0x7D])
    ensures var q := SkipSpace(s, p);
            At(s, q) == QUOTE && ParseMembers(s, q) == Ok(members[i..], p + |t| + 1)
    decreases members, 0, |members| - i
  {
    hide HasAt, SkipSpace, ParseMember, ParseMembers, IsMember;
    HasAtSplit(s, p, t, [0x7D]);
    HasAtByte(s, p + |t|, [0x7D], 0);
    if i + 1 == |members| {
      MemberIsParsed(t, members[i], s, p);
      assert members[i..] == [members[i]];
    } else {
      var k: nat :|
        k < |t| && t[k] as int == ',' as int && IsMember(t[..k], members[i]) && AreMembers(t[k + 1..], members, i + 1);
      SplitAt(t, k, s, p, 0x7D);
      MemberIsParsed(t[..k], members[i], s, p);
      MembersAreParsed(t[k + 1..], members, i + 1, s, p + k + 1);
      assert members[i..] == [members[i]] + members[i + 1..];
    }
    MembersFrom(s, SkipSpace(s, p));
  }

  lemma MembersFrom(s: seq<byte>, q: nat)
    requires ParseMember(s, q).Ok?
    ensures var m := ParseMember(s, q);
            var k := SkipSpace(s, m.next);
            var more := ParseMembers(s, SkipSpace(s, k + 1));
            && (At(s, k) == 0x7D ==> ParseMembers(s, q) == Ok([m.value], k + 1))
            && (At(s, k) == 0x2C && more.Ok? ==> ParseMembers(s, q) == Ok([m.value] + more.value, more.next))
  {
    hide ParseMember, SkipSpace;
  }

  //// json_decode, json_encode and json_stringify

  // A text is decoded if and only if it is one of the grammar, and to what it stands for there.
  lemma DecodeIff(s: seq<byte>, j: Json)
    ensures Decode(s) == Some(j) <==> IsDocument(s, j)
  {
    hide ParseValue, SkipSpace, IsDocument;
    if Decode(s) == Some(j) {
      var i := SkipSpace(s, 0);
      var n := ParseValue(s, i).next;
      SkippedIsWs(s, 0);
      ParsedIsValue(s, i);
      SkippedIsWs(s, n);
      DocumentIs(s, 0, i, n, |s|, j);
      assert s[0..|s|] == s;
    }
    if IsDocument(s, j) {
      assert s[0..|s|] == s;
      DocumentIsParsed(s, j, s, 0);
    }
  }

  // So no text of the grammar stands for two values.
  lemma DocumentIsUnique(s: seq<byte>, j: Json, k: Json)
    requires IsDocument(s, j) && IsDocument(s, k)
    ensures j == k
  {
    DecodeIff(s, j);
    DecodeIff(s, k);
  }

  // The text written for a value is one of the grammar and stands for that value alone, unless byte
  // 0x1F is in a string or key; then it stands for none.
  lemma TextIsDocument(j: Json, st: Style, k: Json)
    requires IsJson(j) && BlankStyle(st)
    ensures IsDocument(Text(j, st, 0), k) <==> k == j && Clean(j)
  {
    hide Decode, Text, IsDocument;
    var t := Text(j, st, 0);
    DecodeEncode(j, st, [], []);
    assert [] + t + [] == t;
    DecodeIff(t, k);
  }
}
