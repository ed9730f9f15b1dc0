// FastCGI stream records: what is on the wire, and what a reader makes of it.

module FastCgi {
  import opened Bytes

  const FCGI_MAX_LENGTH := 0xFFFF
  const FCGI_HEADER_LEN := 8
  const FCGI_VERSION_1 := 1
  const FCGI_BEGIN_REQUEST := 1
  const FCGI_END_REQUEST := 3
  const FCGI_STDERR := 7
  const FCGI_NULL_REQUEST_ID := 0
  const FCGX_UNSUPPORTED_VERSION := -2
  const FCGX_PROTOCOL_ERROR := -3

  // A record: section 3.3 of the FastCGI Specification 1.0.
  datatype Record = Record(kind: byte, id: nat, content: seq<byte>, padding: nat)

  ghost predicate RecordOk(r: Record) {
    r.id < 0x1_0000 && |r.content| <= FCGI_MAX_LENGTH && r.padding < 256
  }

  function MakeHeader(kind: byte, id: nat, contentLength: nat, paddingLength: nat): (h: seq<byte>)
    requires contentLength <= FCGI_MAX_LENGTH && paddingLength <= 0xFF
    ensures |h| == FCGI_HEADER_LEN
  {
    [FCGI_VERSION_1, kind, id / 256 % 256, id % 256, contentLength / 256, contentLength % 256, paddingLength, 0]
  }

  function Zeros(n: nat): (z: seq<byte>)
    ensures |z| == n
  {
    seq(n, _ => 0)
  }

  function Encode(r: Record): seq<byte>
    requires RecordOk(r)
  {
    MakeHeader(r.kind, r.id, |r.content|, r.padding) + r.content + Zeros(r.padding)
  }

  function EncodeAll(rs: seq<Record>): seq<byte>
    requires forall i :: 0 <= i < |rs| ==> RecordOk(rs[i])
  {
    if rs == [] then [] else Encode(rs[0]) + EncodeAll(rs[1..])
  }

  function Min(a: int, b: int): int {
    if a < b then a else b
  }

  function AlignInt8(n: nat): (r: nat)
    ensures n <= r < n + 8 && r % 8 == 0
  {
    (n + 7) / 8 * 8
  }

  // The length of the buffer NewStream allocates: a multiple of 8, small enough for one record.
  function BufferLength(bufflen: int, misaligned: bool): (n: nat)
    ensures n % 8 == 0 && 24 <= n <= FCGI_MAX_LENGTH + 1
  {
    var n := Min(if bufflen < 32 then 32 else bufflen, FCGI_MAX_LENGTH + 1);
    AlignInt8(n) - if misaligned then 8 else 0
  }

  //// What a reader of one stream does with the bytes it is sent

  datatype Status = StreamRecord | Skip | ManagementRecord | Error(code: int)

  function ContentLength(h: seq<byte>): nat
    requires |h| == FCGI_HEADER_LEN
  {
    256 * h[4] as int + h[5] as int
  }

  // ProcessHeader, once the request has begun: another begin record is refused and skipped.
  function ProcessHeader(kind: byte, id: nat, h: seq<byte>): Status
    requires |h| == FCGI_HEADER_LEN
  {
    var requestId := 256 * h[2] as int + h[3] as int;
    if h[0] != FCGI_VERSION_1 then Error(FCGX_UNSUPPORTED_VERSION)
    else if h[1] == FCGI_BEGIN_REQUEST then
      if requestId == 0 || ContentLength(h) != 8 then Error(FCGX_PROTOCOL_ERROR) else Skip
    else if requestId == FCGI_NULL_REQUEST_ID then ManagementRecord
    else if requestId != id then Skip
    else if h[1] != kind then Error(FCGX_PROTOCOL_ERROR)
    else StreamRecord
  }

  datatype End = EndOfStream | Failed(code: int) | Managed

  // What the client will get, and how the stream will end.
  datatype Outcome = Outcome(content: seq<byte>, end: End)

  function Prepend(head: seq<byte>, o: Outcome): Outcome {
    Outcome(head + o.content, o.end)
  }

  // What is delivered of the bytes s, of which the first c are content of the current record and
  // the next p its padding. skip says that content is not to be delivered; it is reset only when
  // some content has been skipped. What follows a management record is not described.
  function Deliver(kind: byte, id: nat, s: seq<byte>, c: nat, p: nat, skip: bool): Outcome
    decreases |s|
  {
    if |s| < c + p then
      Outcome(if skip then [] else s[..if c < |s| then c else |s|], Failed(FCGX_PROTOCOL_ERROR))
    else
      Prepend(if skip then [] else s[..c], NextRecord(kind, id, s[c + p..], skip && c == 0))
  }

  // The same at the start of a record.
  function NextRecord(kind: byte, id: nat, s: seq<byte>, skip: bool): Outcome
    decreases |s|, 0
  {
    if |s| < FCGI_HEADER_LEN then Outcome([], Failed(FCGX_PROTOCOL_ERROR))
    else
      var h := s[..FCGI_HEADER_LEN];
      match ProcessHeader(kind, id, h)
      case Error(code) => Outcome([], Failed(code))
      case ManagementRecord => Outcome([], Managed)
      case StreamRecord =>
        if ContentLength(h) == 0 then Outcome([], EndOfStream)
        else Deliver(kind, id, s[FCGI_HEADER_LEN..], ContentLength(h), h[6], skip)
      case Skip => Deliver(kind, id, s[FCGI_HEADER_LEN..], ContentLength(h), h[6], true)
  }

  //// Reading on

  lemma PrependTwice(a: seq<byte>, b: seq<byte>, o: Outcome)
    ensures Prepend(a, Prepend(b, o)) == Prepend(a + b, o)
  {
    assert a + (b + o.content) == (a + b) + o.content;
  }

  // Content bytes handed over are content no longer.
  lemma DeliverTake(kind: byte, id: nat, s: seq<byte>, c: nat, p: nat, k: nat)
    requires k <= c && k <= |s|
    ensures Deliver(kind, id, s, c, p, false) == Prepend(s[..k], Deliver(kind, id, s[k..], c - k, p, false))
  {
    if |s| < c + p {
      var n := if c < |s| then c else |s|;
      assert s[..n] == s[..k] + s[k..][..n - k];
    } else {
      assert s[k..][c - k + p..] == s[c + p..];
      assert s[..c] == s[..k] + s[k..][..c - k];
      PrependTwice(s[..k], s[k..][..c - k], NextRecord(kind, id, s[c + p..], false));
    }
  }

  // Content bytes passed over. Only with the last of them is skip reset.
  lemma DeliverSkip(kind: byte, id: nat, s: seq<byte>, c: nat, p: nat, k: nat)
    requires 0 < c && k <= c && k <= |s|
    ensures Deliver(kind, id, s, c, p, true) == Deliver(kind, id, s[k..], c - k, p, c > k)
  {
    if |s| < c + p {
      if k == c {
        assert s[k..][..0] == [];
      }
    } else {
      assert s[k..][c - k + p..] == s[c + p..];
      if k == c {
        assert s[k..][..0] == [];
      }
    }
  }

  lemma DeliverPad(kind: byte, id: nat, s: seq<byte>, p: nat, k: nat, skip: bool)
    requires k <= p && k <= |s|
    ensures Deliver(kind, id, s, 0, p, skip) == Deliver(kind, id, s[k..], 0, p - k, skip)
  {
    if |s| >= p {
      assert s[k..][p - k..] == s[p..];
    }
    assert s[..0] == [] && s[k..][..0] == [];
  }

  lemma DeliverNext(kind: byte, id: nat, s: seq<byte>, skip: bool)
    ensures Deliver(kind, id, s, 0, 0, skip) == NextRecord(kind, id, s, skip)
  {
    assert s[0..] == s && s[..0] == [];
    var o := NextRecord(kind, id, s, skip);
    assert [] + o.content == o.content;
  }

  // The bytes end before the record does, or within a header.
  lemma NothingLeft(kind: byte, id: nat, s: seq<byte>, c: nat, p: nat, skip: bool)
    requires |s| < FCGI_HEADER_LEN && (s != [] ==> c == 0 && p == 0)
    ensures Deliver(kind, id, s, c, p, skip) == Outcome([], Failed(FCGX_PROTOCOL_ERROR))
  {
    DeliverNext(kind, id, s, skip);
  }

  //// Records and what is received of them

  // Records a reader meets before its stream ends: its own, with content, and those it skips.
  ghost predicate Expected(kind: byte, id: nat, r: Record) {
    && RecordOk(r) && r.id != FCGI_NULL_REQUEST_ID
    && if r.id == id then r.kind == kind && r.content != []
       else r.kind == FCGI_BEGIN_REQUEST ==> |r.content| == 8
  }

  ghost predicate AllExpected(kind: byte, id: nat, rs: seq<Record>) {
    forall i :: 0 <= i < |rs| ==> RecordOk(rs[i]) && Expected(kind, id, rs[i])
  }

  // What is delivered of the records: with skip set, the next content is lost, whoever's it is.
  function Received(id: nat, rs: seq<Record>, skip: bool): seq<byte> {
    if rs == [] then []
    else if rs[0].id == id then (if skip then [] else rs[0].content) + Received(id, rs[1..], false)
    else Received(id, rs[1..], rs[0].content == [])
  }

  // The content meant for the reader.
  function Sent(id: nat, rs: seq<Record>): seq<byte> {
    if rs == [] then [] else (if rs[0].id == id then rs[0].content else []) + Sent(id, rs[1..])
  }

  lemma HeaderReads(r: Record)
    requires RecordOk(r)
    ensures var h := MakeHeader(r.kind, r.id, |r.content|, r.padding);
            && h[0] == FCGI_VERSION_1 && h[1] == r.kind && ContentLength(h) == |r.content| && h[6] == r.padding
            && 256 * h[2] as int + h[3] as int == r.id
  {
  }

  // One whole record on the wire.
  lemma NextRecordIs(kind: byte, id: nat, r: Record, rest: seq<byte>, skip: bool)
    requires kind != FCGI_BEGIN_REQUEST && Expected(kind, id, r)
    ensures NextRecord(kind, id, Encode(r) + rest, skip) ==
            if r.id == id then Prepend(if skip then [] else r.content, NextRecord(kind, id, rest, false))
            else NextRecord(kind, id, rest, r.content == [])
  {
    var s := Encode(r) + rest;
    var h := MakeHeader(r.kind, r.id, |r.content|, r.padding);
    var body := r.content + Zeros(r.padding) + rest;
    HeaderReads(r);
    assert s[..FCGI_HEADER_LEN] == h && s[FCGI_HEADER_LEN..] == body;
    assert body[|r.content| + r.padding..] == rest && body[..|r.content|] == r.content;
    var o := NextRecord(kind, id, rest, r.content == []);
    assert [] + o.content == o.content;
  }

  lemma EndRecordIs(kind: byte, id: nat, rest: seq<byte>, skip: bool)
    requires kind != FCGI_BEGIN_REQUEST && 0 < id < 0x1_0000
    ensures NextRecord(kind, id, Encode(Record(kind, id, [], 0)) + rest, skip) == Outcome([], EndOfStream)
  {
    var r := Record(kind, id, [], 0);
    HeaderReads(r);
    assert (Encode(r) + rest)[..FCGI_HEADER_LEN] == MakeHeader(kind, id, 0, 0);
  }

  // A whole stream: records, the record that ends the reader's stream, and anything after it.
  lemma {:induction false} StreamReceived(kind: byte, id: nat, rs: seq<Record>, rest: seq<byte>, skip: bool)
    requires kind != FCGI_BEGIN_REQUEST && 0 < id < 0x1_0000
    requires AllExpected(kind, id, rs)
    ensures NextRecord(kind, id, EncodeAll(rs) + Encode(Record(kind, id, [], 0)) + rest, skip)
         == Outcome(Received(id, rs, skip), EndOfStream)
  {
    var end := Encode(Record(kind, id, [], 0));
    if rs == [] {
      assert EncodeAll(rs) + end + rest == end + rest;
      EndRecordIs(kind, id, rest, skip);
    } else {
      var tail := EncodeAll(rs[1..]) + end + rest;
      assert EncodeAll(rs) + end + rest == Encode(rs[0]) + tail;
      NextRecordIs(kind, id, rs[0], tail, skip);
      StreamReceived(kind, id, rs[1..], rest, if rs[0].id == id then false else rs[0].content == []);
    }
  }

  // An empty record of another request directly before one of ours.
  ghost predicate Trap(id: nat, rs: seq<Record>, i: nat) {
    i + 1 < |rs| && rs[i].id != id && rs[i].content == [] && rs[i + 1].id == id
  }

  // The reader gets all content meant for it exactly if no such pair is sent to it.
  lemma {:induction false} AllReceived(kind: byte, id: nat, rs: seq<Record>)
    requires AllExpected(kind, id, rs)
    ensures Received(id, rs, false) == Sent(id, rs) <==> forall i: nat :: !Trap(id, rs, i)
  {
    ReceivedLength(kind, id, rs, false);
  }

  lemma {:induction false} ReceivedLength(kind: byte, id: nat, rs: seq<Record>, skip: bool)
    requires AllExpected(kind, id, rs)
    ensures |Received(id, rs, skip)| <= |Sent(id, rs)|
    ensures Received(id, rs, skip) == Sent(id, rs) <==>
            !(skip && rs != [] && rs[0].id == id) && forall i: nat :: !Trap(id, rs, i)
    ensures Received(id, rs, skip) != Sent(id, rs) ==> |Received(id, rs, skip)| < |Sent(id, rs)|
  {
    if rs != [] {
      var r, t := rs[0], rs[1..];
      var next := r.id != id && r.content == [];
      ReceivedLength(kind, id, t, next);
      assert Expected(kind, id, r);
      assert forall i: nat :: Trap(id, t, i) <==> Trap(id, rs, i + 1) by {
        forall i: nat
          ensures Trap(id, t, i) <==> Trap(id, rs, i + 1)
        {
          assert i < |t| ==> t[i] == rs[i + 1];
        }
      }
      assert Trap(id, rs, 0) <==> next && t != [] && t[0].id == id;
      assert (exists i: nat :: Trap(id, rs, i)) <==> Trap(id, rs, 0) || exists i: nat :: Trap(id, t, i) by {
        if i: nat :| Trap(id, rs, i) && i > 0 {
          assert Trap(id, t, i - 1);
        }
      }
    }
  }

  // Such a stream: an empty record of request 2, then the one byte meant for request 1. On the wire
  // it reads as an empty stream.
  lemma ContentIsLost()
    ensures var rs := [Record(5, 2, [], 0), Record(5, 1, [9], 7)];
            && AllExpected(5, 1, rs) && Sent(1, rs) == [9] && Received(1, rs, false) == []
            && NextRecord(5, 1, EncodeAll(rs) + Encode(Record(5, 1, [], 0)) + [], false) == Outcome([], EndOfStream)
  {
    var rs := [Record(5, 2, [], 0), Record(5, 1, [9], 7)];
    assert rs[1..] == [Record(5, 1, [9], 7)];
    assert rs[1..][1..] == [];
    StreamReceived(5, 1, rs, [], false);
  }
}
