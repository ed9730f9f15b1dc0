// LuaDB keys: lists of typed segments in one byte string.

module LuaDbKeys {
  import opened Bytes
  import opened Options

  const MAX_SEGMENT := 127  // lengths are read through a plain char

  datatype Segment = Segment(kind: byte, data: seq<byte>)
  type Key = seq<Segment>

  // A segment the codec can handle.
  predicate SegmentOk(g: Segment) {
    g.kind != 0 && 0 < |g.data| <= MAX_SEGMENT
  }

  // Keys can only be compared if no NUL is in their data.
  ghost predicate NulFree(k: Key) {
    forall i :: 0 <= i < |k| ==> 0 !in k[i].data
  }

  predicate KeyOk(k: Key) {
    forall i :: 0 <= i < |k| ==> SegmentOk(k[i])
  }

  // SetSegment
  function SegmentBytes(g: Segment): (s: seq<byte>)
    requires SegmentOk(g)
    ensures |s| == |g.data| + 2
  {
    [|g.data|, g.kind] + g.data
  }

  function KeyBytes(k: Key): seq<byte>
    requires KeyOk(k)
  {
    if k == [] then [] else SegmentBytes(k[0]) + KeyBytes(k[1..])
  }

  // Where segment i starts in the bytes.
  function Offset(k: Key, i: nat): nat
    requires KeyOk(k) && i <= |k|
  {
    if i == 0 then 0 else Offset(k, i - 1) + |k[i - 1].data| + 2
  }

  lemma {:induction false} OffsetOfTail(k: Key, i: nat)
    requires KeyOk(k) && 0 < i <= |k|
    ensures Offset(k, i) == |SegmentBytes(k[0])| + Offset(k[1..], i - 1)
  {
    if i > 1 {
      OffsetOfTail(k, i - 1);
    }
  }

  // The bytes of a key, segment by segment.
  lemma {:induction false} SegmentAt(k: Key, i: nat)
    requires KeyOk(k) && i < |k|
    ensures var p, s := Offset(k, i), KeyBytes(k);
            p + |k[i].data| + 2 <= |s| && s[p..p + |k[i].data| + 2] == SegmentBytes(k[i])
            && s[p] as nat == |k[i].data| && s[p + 1] == k[i].kind && s[p + 2..p + 2 + |k[i].data|] == k[i].data
  {
    var s, g, t := KeyBytes(k), SegmentBytes(k[0]), KeyBytes(k[1..]);
    if i == 0 {
      assert s[..|g|] == g;
      assert s[2..|g|] == g[2..] == k[0].data;
    } else {
      SegmentAt(k[1..], i - 1);
      OffsetOfTail(k, i);
      var p, n := Offset(k[1..], i - 1), |k[i].data|;
      assert forall a, b :: 0 <= a <= b <= |t| ==> s[|g| + a..|g| + b] == t[a..b];
      assert s[|g| + p] == t[p] && s[|g| + p + 1] == t[p + 1];
    }
  }

  lemma {:induction false} WholeLength(k: Key)
    requires KeyOk(k)
    ensures |KeyBytes(k)| == Offset(k, |k|)
  {
    if k != [] {
      WholeLength(k[1..]);
      OffsetOfTail(k, |k|);
    }
  }

  lemma {:induction false} BytesConcat(a: Key, b: Key)
    requires KeyOk(a) && KeyOk(b)
    ensures KeyOk(a + b) && KeyBytes(a + b) == KeyBytes(a) + KeyBytes(b)
  {
    if a == [] {
      assert a + b == b;
    } else {
      BytesConcat(a[1..], b);
      assert (a + b)[0] == a[0] && (a + b)[1..] == a[1..] + b;
      var x, y, z := SegmentBytes(a[0]), KeyBytes(a[1..]), KeyBytes(b);
      assert x + (y + z) == (x + y) + z;
    }
  }

  //// The order of keys

  // Lexicographic, a prefix before what extends it.
  function CompareData(a: seq<byte>, b: seq<byte>): int {
    if a == [] then if b == [] then 0 else -1
    else if b == [] then 1
    else if a[0] != b[0] then a[0] - b[0]
    else CompareData(a[1..], b[1..])
  }

  // The same for lists of segments. Types do not count.
  function Compare(a: Key, b: Key): int {
    if a == [] then if b == [] then 0 else -1
    else if b == [] then 1
    else if CompareData(a[0].data, b[0].data) != 0 then CompareData(a[0].data, b[0].data)
    else Compare(a[1..], b[1..])
  }

  lemma {:induction false} DataEqual(a: seq<byte>, b: seq<byte>)
    ensures CompareData(a, b) == 0 <==> a == b
  {
    if a != [] && b != [] {
      DataEqual(a[1..], b[1..]);
      assert a == [a[0]] + a[1..] && b == [b[0]] + b[1..];
    }
  }

  lemma {:induction false} DataOpposite(a: seq<byte>, b: seq<byte>)
    ensures CompareData(a, b) < 0 <==> CompareData(b, a) > 0
  {
    if a != [] && b != [] && a[0] == b[0] {
      DataOpposite(a[1..], b[1..]);
    }
  }

  lemma {:induction false} DataTransitive(a: seq<byte>, b: seq<byte>, c: seq<byte>)
    requires CompareData(a, b) <= 0 && CompareData(b, c) <= 0
    ensures CompareData(a, c) <= 0 && (CompareData(a, b) < 0 || CompareData(b, c) < 0 ==> CompareData(a, c) < 0)
  {
    if a != [] && b != [] && c != [] && a[0] == b[0] == c[0] {
      DataTransitive(a[1..], b[1..], c[1..]);
    }
  }

  ghost predicate SameData(a: Key, b: Key) {
    |a| == |b| && forall i :: 0 <= i < |a| ==> a[i].data == b[i].data
  }

  // Keys are the same to the order exactly if their segments have the same data.
  lemma {:induction false} CompareEqual(a: Key, b: Key)
    ensures Compare(a, b) == 0 <==> SameData(a, b)
  {
    if a != [] && b != [] {
      DataEqual(a[0].data, b[0].data);
      CompareEqual(a[1..], b[1..]);
      assert SameData(a, b) <==> a[0].data == b[0].data && SameData(a[1..], b[1..]) by {
        assert |a| == |b| ==> forall i :: 0 < i < |a| ==> a[i] == a[1..][i - 1] && b[i] == b[1..][i - 1];
      }
    }
  }

  lemma {:induction false} CompareOpposite(a: Key, b: Key)
    ensures Compare(a, b) < 0 <==> Compare(b, a) > 0
  {
    if a != [] && b != [] {
      DataEqual(a[0].data, b[0].data);
      DataEqual(b[0].data, a[0].data);
      DataOpposite(a[0].data, b[0].data);
      DataOpposite(b[0].data, a[0].data);
      CompareOpposite(a[1..], b[1..]);
    }
  }

  lemma {:induction false} CompareTransitive(a: Key, b: Key, c: Key)
    requires Compare(a, b) <= 0 && Compare(b, c) <= 0
    ensures Compare(a, c) <= 0 && (Compare(a, b) < 0 || Compare(b, c) < 0 ==> Compare(a, c) < 0)
  {
    if a != [] && b != [] && c != [] {
      var x, y, z := a[0].data, b[0].data, c[0].data;
      DataEqual(x, y);
      DataEqual(y, z);
      DataEqual(x, z);
      if x == y == z {
        CompareTransitive(a[1..], b[1..], c[1..]);
      } else {
        DataTransitive(x, y, z);
      }
    }
  }

  // The first byte that differs decides, or the end of the shorter.
  ghost predicate DataBelow(a: seq<byte>, b: seq<byte>) {
    exists k: nat ::
      k <= |a| && k < |b| && a[..k] == b[..k] && (k < |a| ==> a[k] < b[k])
  }

  lemma {:induction false} DataLess(a: seq<byte>, b: seq<byte>)
    ensures CompareData(a, b) < 0 <==> DataBelow(a, b)
  {
    if a == [] && b != [] {
      assert a[..0] == b[..0];
    } else if a != [] && b != [] {
      DataLess(a[1..], b[1..]);
      if a[0] < b[0] {
        assert a[..0] == b[..0];
      }
      if a[0] == b[0] && DataBelow(a[1..], b[1..]) {
        var k: nat :| k < |b[1..]| && k <= |a[1..]| && a[1..][..k] == b[1..][..k] && (k < |a[1..]| ==> a[1..][k] < b[1..][k]);
        assert a[..k + 1] == [a[0]] + a[1..][..k] && b[..k + 1] == [b[0]] + b[1..][..k];
      }
      if DataBelow(a, b) {
        var k: nat :| k <= |a| && k < |b| && a[..k] == b[..k] && (k < |a| ==> a[k] < b[k]);
        if k > 0 {
          assert a[0] == a[..k][0] == b[..k][0] == b[0];
          assert a[1..][..k - 1] == a[..k][1..] && b[1..][..k - 1] == b[..k][1..];
        }
      }
    }
  }

  // Likewise the first segment whose data differ, or the end of the key with fewer.
  ghost predicate KeyBelow(a: Key, b: Key) {
    exists k: nat ::
      k <= |a| && k < |b| && SameData(a[..k], b[..k]) && (k < |a| ==> DataBelow(a[k].data, b[k].data))
  }

  lemma CompareLess(a: Key, b: Key)
    ensures Compare(a, b) < 0 <==> KeyBelow(a, b)
  {
    hide Compare, CompareData, DataBelow, SameData;
    if KeyBelow(a, b) {
      var k: nat :| k <= |a| && k < |b| && SameData(a[..k], b[..k]) && (k < |a| ==> DataBelow(a[k].data, b[k].data));
      CompareFrom(a, b, k);
    }
    if Compare(a, b) < 0 {
      var k := FirstDifferent(a, b);
      CompareFrom(a, b, k);
    }
  }

  // The keys are alike before k; segment k decides.
  lemma CompareFrom(a: Key, b: Key, k: nat)
    requires k <= |a| && k <= |b| && SameData(a[..k], b[..k])
    ensures k < |a| && k < |b| && a[k].data != b[k].data ==> (Compare(a, b) < 0 <==> DataBelow(a[k].data, b[k].data))
    ensures k == |a| < |b| ==> Compare(a, b) < 0
    ensures k == |b| ==> Compare(a, b) >= 0
    ensures k < |a| && k < |b| && DataBelow(a[k].data, b[k].data) ==> a[k].data != b[k].data
  {
    hide DataBelow, SameData;
    CompareRest(a, b, k);
    if k < |a| && k < |b| {
      DataEqual(a[k].data, b[k].data);
      DataLess(a[k].data, b[k].data);
    }
  }

  lemma {:induction false} FirstDifferent(a: Key, b: Key) returns (k: nat)
    ensures k <= |a| && k <= |b| && SameData(a[..k], b[..k])
    ensures k == |a| || k == |b| || a[k].data != b[k].data
  {
    if a == [] || b == [] || a[0].data != b[0].data {
      k := 0;
    } else {
      var n := FirstDifferent(a[1..], b[1..]);
      k := n + 1;
      forall i | 0 <= i < k
        ensures a[..k][i].data == b[..k][i].data
      {
        if i > 0 {
          assert a[1..][..n][i - 1].data == b[1..][..n][i - 1].data;
        }
      }
    }
  }

  //// The codec, on bytes

  // strncmp: stops at a NUL.
  function Strncmp(a: seq<byte>, b: seq<byte>, n: nat): int
    requires n <= |a| && n <= |b|
  {
    if n == 0 then 0
    else if a[0] != b[0] then a[0] - b[0]
    else if a[0] == 0 then 0
    else Strncmp(a[1..], b[1..], n - 1)
  }

  lemma {:induction false} StrncmpIsCompare(a: seq<byte>, b: seq<byte>, n: nat)
    requires n <= |a| && n <= |b| && 0 !in a
    ensures Strncmp(a, b, n) == CompareData(a[..n], b[..n])
  {
    if n > 0 {
      StrncmpIsCompare(a[1..], b[1..], n - 1);
      assert a[..n][1..] == a[1..][..n - 1] && b[..n][1..] == b[1..][..n - 1];
    }
  }

  // What comparing the common length and then the lengths gives.
  lemma {:induction false} CompareByMin(a: seq<byte>, b: seq<byte>, n: nat)
    requires n == if |a| >= |b| then |b| else |a|
    ensures var c := CompareData(a[..n], b[..n]);
            CompareData(a, b) == if c != 0 then c else if |a| > |b| then 1 else if |b| > |a| then -1 else 0
  {
    if a != [] && b != [] {
      CompareByMin(a[1..], b[1..], n - 1);
      assert a[..n][1..] == a[1..][..n - 1] && b[..n][1..] == b[1..][..n - 1];
    }
  }

  // Segments before m are alike, so the rest decides.
  lemma {:induction false} CompareRest(a: Key, b: Key, m: nat)
    requires m <= |a| && m <= |b| && SameData(a[..m], b[..m])
    ensures Compare(a, b) == Compare(a[m..], b[m..])
  {
    if m > 0 {
      assert a[..m][0].data == b[..m][0].data;
      DataEqual(a[0].data, b[0].data);
      assert a[..m][1..] == a[1..][..m - 1] && b[..m][1..] == b[1..][..m - 1];
      var x, y := a[1..][..m - 1], b[1..][..m - 1];
      forall i | 0 <= i < |x|
        ensures x[i].data == y[i].data
      {
        assert a[..m][i + 1].data == b[..m][i + 1].data;
      }
      CompareRest(a[1..], b[1..], m - 1);
      assert a[1..][m - 1..] == a[m..] && b[1..][m - 1..] == b[m..];
    } else {
      assert a[0..] == a && b[0..] == b;
    }
  }

  predicate SameSign(a: int, b: int) {
    (a < 0 <==> b < 0) && (a > 0 <==> b > 0)
  }

  // The key that bytes are read as, whatever they are.
  function ParseKey(s: seq<byte>): Key {
    if |s| < 2 || |s| < s[0] as nat + 2 then []
    else
      var n := s[0] as nat + 2;
      [Segment(s[1], s[2..n])] + ParseKey(s[n..])
  }

  lemma {:induction false} ParseBytes(k: Key)
    requires KeyOk(k)
    ensures ParseKey(KeyBytes(k)) == k
  {
    if k != [] {
      var g, s := k[0], KeyBytes(k);
      var n := s[0] as nat + 2;
      assert n == |g.data| + 2 && s[2..n] == g.data && s[n..] == KeyBytes(k[1..]);
      ParseBytes(k[1..]);
    }
  }

  // The order on bytes that the database is given.
  function KeyOrder(a: seq<byte>, b: seq<byte>): int {
    Compare(ParseKey(a), ParseKey(b))
  }

  lemma KeyOrderIs(a: Key, b: Key)
    requires KeyOk(a) && KeyOk(b)
    ensures KeyOrder(KeyBytes(a), KeyBytes(b)) == Compare(a, b)
  {
    ParseBytes(a);
    ParseBytes(b);
  }

  // CompareKeys. Both offsets are the same whenever one of them is used.
  method CompareKeys(a: seq<byte>, b: seq<byte>, ghost ka: Key, ghost kb: Key) returns (r: int)
    requires KeyOk(ka) && KeyOk(kb) && a == KeyBytes(ka) && b == KeyBytes(kb) && NulFree(ka) && NulFree(kb)
    ensures SameSign(r, KeyOrder(a, b)) && SameSign(r, Compare(ka, kb))
  {
    hide KeyBytes, Compare, CompareData, Strncmp, KeyOrder, SameData, KeyOk, SegmentBytes;
    KeyOrderIs(ka, kb);
    WholeLength(ka);
    WholeLength(kb);
    ghost var m := 0;
    var i, j := 0, 0;
    Ends(ka, 0);
    Ends(kb, 0);
    NothingCompared(ka, kb);
    while i < |a| && j < |b|
      invariant m <= |ka| && m <= |kb| && i == j == Offset(ka, m) == Offset(kb, m)
      invariant SameData(ka[..m], kb[..m])
      invariant (i < |a| <==> m < |ka|) && (j < |b| <==> m < |kb|)
      decreases |ka| - m
    {
      SegmentAt(ka, m);
      SegmentAt(kb, m);
      var alen, blen := a[i] as nat, b[i] as nat;
      var min := if alen >= blen then blen else alen;
      var cmp := Strncmp(a[i + 2..i + 2 + alen], b[i + 2..i + 2 + blen], min);
      CompareSegments(ka, kb, m);
      if cmp != 0 {
        return cmp;
      }
      if alen > blen {
        return 1;
      }
      if blen > alen {
        return -1;
      }
      m := m + 1;
      i, j := i + alen + 2, j + blen + 2;
      Ends(ka, m);
      Ends(kb, m);
    }
    CompareLengths(ka, kb, m);
    return if |a| > |b| then 1 else if |b| > |a| then -1 else 0;
  }

  lemma NothingCompared(a: Key, b: Key)
    ensures SameData(a[..0], b[..0])
  {
  }

  // What the loop finds out at segment m, when those before it are alike.
  lemma CompareSegments(a: Key, b: Key, m: nat)
    requires m < |a| && m < |b| && SameData(a[..m], b[..m]) && 0 !in a[m].data
    ensures var x, y := a[m].data, b[m].data;
            var cmp := Strncmp(x, y, if |x| >= |y| then |y| else |x|);
            if cmp != 0 then Compare(a, b) == cmp
            else if |x| > |y| then Compare(a, b) > 0
            else if |y| > |x| then Compare(a, b) < 0
            else SameData(a[..m + 1], b[..m + 1])
  {
    hide Compare, CompareData, Strncmp;
    var x, y := a[m].data, b[m].data;
    var min := if |x| >= |y| then |y| else |x|;
    StrncmpIsCompare(x, y, min);
    CompareByMin(x, y, min);
    CompareRest(a, b, m);
    CompareHeads(a[m..], b[m..]);
    DataEqual(x, y);
    assert a[..m + 1] == a[..m] + [a[m]] && b[..m + 1] == b[..m] + [b[m]];
  }

  // One key is a prefix of the other, as far as data go.
  lemma CompareLengths(a: Key, b: Key, m: nat)
    requires KeyOk(a) && KeyOk(b) && m <= |a| && m <= |b| && (m == |a| || m == |b|) && SameData(a[..m], b[..m])
    requires Offset(a, m) == Offset(b, m)
    ensures var n := |KeyBytes(a)| - |KeyBytes(b)|; SameSign(Compare(a, b), n)
  {
    hide Compare, KeyBytes;
    CompareRest(a, b, m);
    CompareHeads(a[m..], b[m..]);
    WholeLength(a);
    WholeLength(b);
    Ends(a, m);
    Ends(b, m);
  }

  lemma CompareHeads(a: Key, b: Key)
    ensures a != [] && b != [] && CompareData(a[0].data, b[0].data) != 0 ==> Compare(a, b) == CompareData(a[0].data, b[0].data)
    ensures a == [] || b == [] ==> Compare(a, b) == if a == [] then if b == [] then 0 else -1 else 1
  {
  }

  lemma {:induction false} Ends(k: Key, m: nat)
    requires KeyOk(k) && m <= |k|
    ensures Offset(k, m) <= |KeyBytes(k)| && (Offset(k, m) < |KeyBytes(k)| <==> m < |k|)
  {
    WholeLength(k);
    if m < |k| {
      SegmentAt(k, m);
    }
  }

  // FindLastKeySegment: where the last segment starts.
  method FindLastKeySegment(key: seq<byte>, ghost k: Key) returns (r: Option<nat>)
    requires KeyOk(k) && key == KeyBytes(k)
    ensures r == if k == [] then None else Some(Offset(k, |k| - 1))
  {
    hide KeyBytes;
    r := None;
    ghost var m := 0;
    var i := 0;
    Ends(k, 0);
    while i < |key|
      invariant m <= |k| && i == Offset(k, m) && (i < |key| <==> m < |k|)
      invariant r == if m == 0 then None else Some(Offset(k, m - 1))
      decreases |k| - m
    {
      SegmentAt(k, m);
      r := Some(i);
      i := i + key[i] as nat + 2;
      m := m + 1;
      Ends(k, m);
    }
  }

  lemma PrefixBytes(k: Key, m: nat)
    requires KeyOk(k) && m <= |k|
    ensures Offset(k, m) <= |KeyBytes(k)| && KeyBytes(k)[..Offset(k, m)] == KeyBytes(k[..m])
    ensures KeyBytes(k) == KeyBytes(k[..m]) + KeyBytes(k[m..])
  {
    assert k[..m] + k[m..] == k;
    BytesConcat(k[..m], k[m..]);
    WholeLength(k[..m]);
    OffsetOfPrefix(k, m, m);
  }

  lemma {:induction false} OffsetOfPrefix(k: Key, n: nat, i: nat)
    requires KeyOk(k) && i <= n <= |k|
    ensures Offset(k[..n], i) == Offset(k, i)
  {
    if i > 0 {
      OffsetOfPrefix(k, n, i - 1);
    }
  }

  // GetKeyPrefix: all segments but the last.
  method GetKeyPrefix(key: seq<byte>, ghost k: Key) returns (prefix: seq<byte>)
    requires KeyOk(k) && key == KeyBytes(k)
    ensures prefix == if k == [] then [] else KeyBytes(k[..|k| - 1])
  {
    hide KeyBytes;
    var last := FindLastKeySegment(key, k);
    if last.None? {
      return [];
    }
    PrefixBytes(k, |k| - 1);
    return key[..last.value];
  }

  // GenerateLuaDbKey
  method GenerateLuaDbKey(segments: Key) returns (key: seq<byte>)
    requires KeyOk(segments)
    ensures key == KeyBytes(segments)
  {
    hide KeyBytes;
    var len, i := 0, 0;
    while i < |segments|
      invariant 0 <= i <= |segments| && len == Offset(segments, i)
    {
      len := len + |segments[i].data| + 2;
      i := i + 1;
    }
    var tkey := new byte[len];
    var keyidx := 0;
    i := 0;
    NoBytes();
    while i < |segments|
      invariant 0 <= i <= |segments| && keyidx == Offset(segments, i) <= len == Offset(segments, |segments|)
      invariant tkey[..keyidx] == KeyBytes(segments[..i])
    {
      WholeLength(segments);
      Ends(segments, i + 1);
      SetSegment(tkey, keyidx, segments[i]);
      BytesConcat(segments[..i], [segments[i]]);
      OneSegment(segments[i]);
      assert segments[..i + 1] == segments[..i] + [segments[i]];
      keyidx := keyidx + |segments[i].data| + 2;
      i := i + 1;
    }
    assert segments[..i] == segments;
    return tkey[..];
  }

  lemma NoBytes()
    ensures KeyBytes([]) == []
  {
  }

  lemma OneSegment(g: Segment)
    requires SegmentOk(g)
    ensures KeyBytes([g]) == SegmentBytes(g)
  {
    assert [g][1..] == [];
    assert SegmentBytes(g) + [] == SegmentBytes(g);
  }

  method SetSegment(dest: array<byte>, p: nat, g: Segment)
    requires SegmentOk(g) && p + |g.data| + 2 <= dest.Length
    modifies dest
    ensures dest[..p + |g.data| + 2] == old(dest[..p]) + SegmentBytes(g)
  {
    dest[p], dest[p + 1] := |g.data|, g.kind;
    forall k | 0 <= k < |g.data| {
      dest[p + 2 + k] := g.data[k];
    }
    assert dest[..p] == old(dest[..p]) && dest[p..p + |g.data| + 2] == SegmentBytes(g);
  }

  // ReplaceLastKeySegment
  method ReplaceLastKeySegment(key: seq<byte>, g: Segment, ghost k: Key) returns (r: seq<byte>)
    requires KeyOk(k) && key == KeyBytes(k) && SegmentOk(g)
    ensures r == KeyBytes((if k == [] then [] else k[..|k| - 1]) + [g])
  {
    hide KeyBytes, Offset, SegmentBytes;
    NoBytes();
    OneSegment(g);
    if |key| == 0 {
      Ends(k, 0);
      var segment := new byte[|g.data| + 2];
      SetSegment(segment, 0, g);
      assert k == [] && [] + [g] == [g];
      return segment[..];
    }
    Ends(k, 0);
    var last := FindLastKeySegment(key, k);
    LastSegment(k);
    BytesConcat(k[..|k| - 1], [g]);
    var lastlen := key[last.value] as nat;
    var more := new byte[|key| - lastlen + |g.data|];
    forall b | 0 <= b < |key| - lastlen {
      more[b] := key[b];
    }
    assert more[..last.value] == key[..last.value];
    SetSegment(more, |key| - lastlen - 2, g);
    return more[..];
  }

  // Where the last segment starts, and what comes before it.
  lemma LastSegment(k: Key)
    requires KeyOk(k) && k != []
    ensures var p, s, n := Offset(k, |k| - 1), KeyBytes(k), |k[|k| - 1].data|;
            p + n + 2 == |s| && s[p] as nat == n && s[..p] == KeyBytes(k[..|k| - 1])
  {
    SegmentAt(k, |k| - 1);
    WholeLength(k);
    PrefixBytes(k, |k| - 1);
  }

  predicate CanIncrement(d: seq<byte>) {
    d != [] && d[|d| - 1] < 0xFF
  }

  // The next byte string of the same length, while no carry is needed.
  function NextData(d: seq<byte>): (r: seq<byte>)
    requires CanIncrement(d)
    ensures |r| == |d|
  {
    d[..|d| - 1] + [d[|d| - 1] + 1]
  }

  function Bumped(k: Key): (r: Key)
    requires k != [] && CanIncrement(k[|k| - 1].data)
    ensures |r| == |k|
  {
    var g := k[|k| - 1];
    k[..|k| - 1] + [Segment(g.kind, NextData(g.data))]
  }

  // The last byte of a key is the last of its last segment's data.
  lemma LastByte(k: Key)
    requires KeyOk(k) && k != []
    ensures var s, d := KeyBytes(k), k[|k| - 1].data; s != [] && s[|s| - 1] == d[|d| - 1]
  {
    var front, g := k[..|k| - 1], k[|k| - 1];
    assert front + [g] == k;
    BytesConcat(front, [g]);
    OneSegment(g);
  }

  // ComputeNextLexicalValue: increments the last byte of the key, which is the last of its data.
  method ComputeNextLexicalValue(val: array<byte>, ghost k: Key)
    requires KeyOk(k) && k != [] && val[..] == KeyBytes(k) && val.Length > 0 && val[val.Length - 1] < 0xFF
    modifies val
    ensures CanIncrement(k[|k| - 1].data) && KeyOk(Bumped(k)) && val[..] == KeyBytes(Bumped(k))
  {
    hide KeyBytes;
    ghost var front, g := k[..|k| - 1], k[|k| - 1];
    assert front + [g] == k;
    BytesConcat(front, [g]);
    OneSegment(g);
    assert val[..][val.Length - 1] == SegmentBytes(g)[|g.data| + 1] == g.data[|g.data| - 1];
    ghost var n := Segment(g.kind, NextData(g.data));
    BytesConcat(front, [n]);
    OneSegment(n);
    val[val.Length - 1] := val[val.Length - 1] + 1;
    assert val[..] == KeyBytes(front) + SegmentBytes(n);
  }

  // How many segments two keys have in common at the start.
  function Common(a: Key, b: Key): (n: nat)
    ensures n <= |a| && n <= |b| && a[..n] == b[..n]
    ensures n < |a| && n < |b| ==> a[n] != b[n]
  {
    if a == [] || b == [] || a[0] != b[0] then 0
    else
      var n := Common(a[1..], b[1..]);
      assert a[..n + 1] == [a[0]] + a[1..][..n] && b[..n + 1] == [b[0]] + b[1..][..n];
      n + 1
  }

  lemma {:induction false} CommonIs(a: Key, b: Key, n: nat)
    requires n <= |a| && n <= |b| && a[..n] == b[..n] && (n < |a| && n < |b| ==> a[n] != b[n])
    ensures Common(a, b) == n
  {
    if n > 0 {
      assert a[..n][0] == b[..n][0] && a[..n][1..] == a[1..][..n - 1] && b[..n][1..] == b[1..][..n - 1];
      CommonIs(a[1..], b[1..], n - 1);
    }
  }

  // FindFirstDifferentKeyNode: the first segment of the key that is not in the prefix.
  method FindFirstDifferentKeyNode(prefix: seq<byte>, key: seq<byte>, ghost kp: Key, ghost kk: Key) returns (r: Option<Segment>)
    requires KeyOk(kp) && prefix == KeyBytes(kp) && KeyOk(kk) && key == KeyBytes(kk)
    ensures r == if Common(kp, kk) < |kk| then Some(kk[Common(kp, kk)]) else None
  {
    hide KeyBytes, Common, SegmentBytes;
    ghost var m := 0;
    var i := 0;
    Ends(kk, 0);
    Ends(kp, 0);
    while i < |key|
      invariant m <= |kk| && m <= |kp| && i == Offset(kk, m) == Offset(kp, m) && kp[..m] == kk[..m]
      invariant (i < |key| <==> m < |kk|) && (i < |prefix| <==> m < |kp|)
      decreases |kk| - m
    {
      SegmentAt(kk, m);
      var seglen := key[i] as nat;
      var g := Segment(key[i + 1], key[i + 2..i + 2 + seglen]);
      if i >= |prefix| {
        CommonIs(kp, kk, m);
        return Some(g);
      }
      SegmentAt(kp, m);
      var pfxlen := prefix[i] as nat;
      if pfxlen != seglen || prefix[i + 1] != key[i + 1] || prefix[i + 2..i + 2 + pfxlen] != g.data {
        CommonIs(kp, kk, m);
        return Some(g);
      }
      assert kp[..m + 1] == kp[..m] + [kp[m]] && kk[..m + 1] == kk[..m] + [kk[m]];
      i := i + seglen + 2;
      m := m + 1;
      Ends(kk, m);
      Ends(kp, m);
    }
    CommonIs(kp, kk, m);
    return None;
  }
}
