// The bytes of FastCGI records, one by one: section 3.3 of the FastCGI Specification 1.0. What the
// reader makes of them, and what the records encoded are, is stated here on the bytes alone.

module FcgiWire {
  import opened Bytes
  import opened FastCgi

  // A record at the start of s: version 1, a type, a request ID and a content length, both with the
  // high byte first, a padding length, a reserved byte, the content and the padding.
  ghost predicate HasRecord(s: seq<byte>, kind: byte, id: nat, n: nat, p: nat) {
    && |s| >= 8 + n + p
    && s[0] == 1 && s[1] == kind
    && 256 * s[2] as int + s[3] as int == id
    && 256 * s[4] as int + s[5] as int == n
    && s[6] as int == p
  }

  //// What the reader makes of a record

  // Content of its own stream is delivered, unless skip is still set.
  lemma ReadsContent(kind: byte, id: nat, s: seq<byte>, n: nat, p: nat, skip: bool)
    requires kind != 1 && id != 0 && n > 0 && HasRecord(s, kind, id, n, p)
    ensures NextRecord(kind, id, s, skip)
         == Prepend(if skip then [] else s[8..8 + n], NextRecord(kind, id, s[8 + n + p..], false))
  {
    assert s[8..][..n] == s[8..8 + n] && s[8..][n + p..] == s[8 + n + p..];
  }

  // A record of its own stream without content ends it.
  lemma ReadsEnd(kind: byte, id: nat, s: seq<byte>, skip: bool)
    requires kind != 1 && id != 0 && |s| >= 8 && s[0] == 1 && s[1] == kind && s[4] == 0 && s[5] == 0
    requires 256 * s[2] as int + s[3] as int == id
    ensures NextRecord(kind, id, s, skip) == Outcome([], EndOfStream)
  {
  }

  // Records of other requests, and other requests that would begin, are passed over. One without
  // content leaves skip set.
  lemma ReadsOver(kind: byte, id: nat, s: seq<byte>, other: byte, rid: nat, n: nat, p: nat, skip: bool)
    requires rid != 0 && HasRecord(s, other, rid, n, p)
    requires if other == 1 then n == 8 else rid != id
    ensures NextRecord(kind, id, s, skip) == NextRecord(kind, id, s[8 + n + p..], n == 0)
  {
    var o := NextRecord(kind, id, s[8 + n + p..], n == 0);
    assert s[8..][n + p..] == s[8 + n + p..] && [] + o.content == o.content;
  }

  // Another version, a record of the request of another type, and a beginning that is malformed.
  lemma ReadsError(kind: byte, id: nat, s: seq<byte>, skip: bool)
    requires |s| >= 8
    ensures s[0] != 1 ==> NextRecord(kind, id, s, skip) == Outcome([], Failed(-2))
    ensures s[0] == 1 && s[1] != 1 && s[1] != kind && id != 0 && 256 * s[2] as int + s[3] as int == id ==>
              NextRecord(kind, id, s, skip) == Outcome([], Failed(-3))
    ensures s[0] == 1 && s[1] == 1 && (256 * s[2] as int + s[3] as int == 0 || 256 * s[4] as int + s[5] as int != 8) ==>
              NextRecord(kind, id, s, skip) == Outcome([], Failed(-3))
  {
  }

  // The input may end before a header is complete, or within a record's content or padding.
  lemma ReadsTorn(kind: byte, id: nat, s: seq<byte>, skip: bool)
    ensures |s| < 8 ==> NextRecord(kind, id, s, skip) == Outcome([], Failed(-3))
    ensures |s| >= 8 && s[0] == 1 && s[1] == kind != 1 && id != 0 && 256 * s[2] as int + s[3] as int == id ==>
              var n := 256 * s[4] as int + s[5] as int;
              0 < n && |s| < 8 + n + s[6] as int ==>
                NextRecord(kind, id, s, skip) ==
                Outcome(if skip then [] else s[8..if 8 + n < |s| then 8 + n else |s|], Failed(-3))
  {
    if |s| >= 8 {
      var n := 256 * s[4] as int + s[5] as int;
      if 8 + n < |s| {
        assert s[8..][..n] == s[8..8 + n];
      } else {
        assert s[8..][..|s| - 8] == s[8..];
      }
    }
  }

  //// What the writer sends

  // Records of one stream with this content: what each has is, with its zero padding of less than 8
  // bytes, a multiple of 8 long. Then the record without content, and rest.
  ghost predicate IsStream(kind: byte, id: nat, s: seq<byte>, content: seq<byte>, rest: seq<byte>)
    decreases |s|
  {
    |s| >= 8 &&
      var n, p := 256 * s[4] as int + s[5] as int, s[6] as int;
      && HasRecord(s, kind, id, n, p) && s[7] == 0
      && if n == 0 then p == 0 && content == [] && s[8..] == rest
         else
           && p < 8 && (n + p) % 8 == 0 && (forall k :: 8 + n <= k < 8 + n + p ==> s[k] == 0)
           && s[8..8 + n] <= content
           && IsStream(kind, id, s[8 + n + p..], content[n..], rest)
  }

  // The record that ends a request: type 3, eight bytes of content, which are the status of the
  // application with its high byte first, and 0 for a request that is complete.
  ghost predicate IsEndRequest(s: seq<byte>, id: nat, appStatus: nat) {
    && |s| == 16 && HasRecord(s, 3, id, 8, 0)
    && 0x100_0000 * s[8] as int + 0x1_0000 * s[9] as int + 0x100 * s[10] as int + s[11] as int == appStatus % 0x1_0000_0000
    && s[12] == 0
  }

  lemma RecordBytes(r: Record, rest: seq<byte>)
    requires RecordOk(r)
    ensures var s, n := Encode(r) + rest, |r.content|;
            && HasRecord(s, r.kind, r.id, n, r.padding) && s[7] == 0 && s[8..8 + n] == r.content
            && (forall k :: 8 + n <= k < 8 + n + r.padding ==> s[k] == 0)
            && s[8 + n + r.padding..] == rest
  {
    var h := MakeHeader(r.kind, r.id, |r.content|, r.padding);
    assert Encode(r) + rest == h + r.content + Zeros(r.padding) + rest;
  }

  // One record more at the start of a stream.
  lemma OneMoreRecord(r: Record, tail: seq<byte>, content: seq<byte>, rest: seq<byte>)
    requires RecordOk(r) && r.content != [] && r.padding < 8 && (|r.content| + r.padding) % 8 == 0
    requires IsStream(r.kind, r.id, tail, content, rest)
    ensures IsStream(r.kind, r.id, Encode(r) + tail, r.content + content, rest)
  {
    hide Encode;
    RecordBytes(r, tail);
    assert (r.content + content)[|r.content|..] == content;
  }

  // The end of a stream on its own.
  lemma EndBytes(kind: byte, id: nat, rest: seq<byte>)
    requires id < 0x1_0000
    ensures IsStream(kind, id, MakeHeader(kind, id, 0, 0) + rest, [], rest)
  {
    RecordBytes(Record(kind, id, [], 0), rest);
    assert Encode(Record(kind, id, [], 0)) == MakeHeader(kind, id, 0, 0);
  }
}
