// The writing side of a FastCGI stream.

module FcgiWriter {
  import opened Bytes
  import opened FastCgi
  import opened FcgiWire

  // Stream records: section 3.3 of the FastCGI Specification 1.0 asks for at most 65535 content
  // bytes, and recommends records of a multiple of eight bytes.
  ghost predicate WellMade(kind: byte, id: nat, r: Record) {
    && r.kind == kind && r.id == id
    && 0 < |r.content| <= FCGI_MAX_LENGTH && r.padding < 8 && (|r.content| + r.padding) % 8 == 0
  }

  ghost predicate AllWellMade(kind: byte, id: nat, rs: seq<Record>) {
    forall i :: 0 <= i < |rs| ==> RecordOk(rs[i]) && WellMade(kind, id, rs[i])
  }

  function Contents(rs: seq<Record>): seq<byte> {
    if rs == [] then [] else Contents(rs[..|rs| - 1]) + rs[|rs| - 1].content
  }

  lemma {:induction false} EncodeSnoc(rs: seq<Record>, r: Record)
    requires (forall i :: 0 <= i < |rs| ==> RecordOk(rs[i])) && RecordOk(r)
    ensures EncodeAll(rs + [r]) == EncodeAll(rs) + Encode(r)
  {
    hide Encode;
    if rs == [] {
      assert [r][1..] == [] && rs + [r] == [r];
      assert EncodeAll([]) == [] && Encode(r) + [] == Encode(r);
    } else {
      EncodeSnoc(rs[1..], r);
      assert (rs + [r])[1..] == rs[1..] + [r] && (rs + [r])[0] == rs[0];
      var a, b, c := Encode(rs[0]), EncodeAll(rs[1..]), Encode(r);
      assert a + (b + c) == (a + b) + c;
    }
  }

  lemma {:induction false} SentIsContents(kind: byte, id: nat, rs: seq<Record>)
    requires AllWellMade(kind, id, rs)
    ensures Sent(id, rs) == Contents(rs)
  {
    if rs != [] {
      var front, last := rs[..|rs| - 1], rs[|rs| - 1];
      SentIsContents(kind, id, front);
      assert front + [last] == rs;
      SentSnoc(id, front, last);
      assert WellMade(kind, id, last);
    }
  }

  lemma {:induction false} SentSnoc(id: nat, rs: seq<Record>, r: Record)
    ensures Sent(id, rs + [r]) == Sent(id, rs) + if r.id == id then r.content else []
  {
    if rs == [] {
      assert rs + [r] == [r] && [r][1..] == [];
    } else {
      SentSnoc(id, rs[1..], r);
      assert (rs + [r])[1..] == rs[1..] + [r] && (rs + [r])[0] == rs[0];
      var a, b, c := if rs[0].id == id then rs[0].content else [], Sent(id, rs[1..]), if r.id == id then r.content else [];
      assert a + (b + c) == (a + b) + c;
    }
  }

  // Whatever a writer of the stream sends before it ends it, a reader of the same stream gets.
  lemma WriterToReader(kind: byte, id: nat, rs: seq<Record>, rest: seq<byte>)
    requires kind != FCGI_BEGIN_REQUEST && 0 < id < 0x1_0000 && AllWellMade(kind, id, rs)
    ensures Deliver(kind, id, EncodeAll(rs) + Encode(Record(kind, id, [], 0)) + rest, 0, 0, false)
         == Outcome(Contents(rs), EndOfStream)
  {
    assert AllExpected(kind, id, rs) by {
      assert forall i :: 0 <= i < |rs| ==> WellMade(kind, id, rs[i]) ==> Expected(kind, id, rs[i]);
    }
    var s := EncodeAll(rs) + Encode(Record(kind, id, [], 0)) + rest;
    DeliverNext(kind, id, s, false);
    StreamReceived(kind, id, rs, rest, false);
    assert forall i: nat :: !Trap(id, rs, i) by {
      forall i: nat
        ensures !Trap(id, rs, i)
      {
        assert i < |rs| ==> WellMade(kind, id, rs[i]);
      }
    }
    AllReceived(kind, id, rs);
    SentIsContents(kind, id, rs);
  }

  // The FCGI_END_REQUEST record: section 5.5.
  function EndRequest(id: nat, appStatus: nat): Record {
    Record(FCGI_END_REQUEST, id,
           [appStatus / 0x100_0000 % 256, appStatus / 0x1_0000 % 256, appStatus / 256 % 256, appStatus % 256, 0, 0, 0, 0], 0)
  }

  // What closing a stream adds: its end, unless it is an error stream never used, and the end of
  // the request if it is the last stream of the request.
  function Ending(kind: byte, id: nat, used: bool, last: bool, appStatus: nat): seq<byte>
    requires id < 0x1_0000
  {
    (if kind == FCGI_STDERR && !used then [] else MakeHeader(kind, id, 0, 0)) + RequestEnd(id, last, appStatus)
  }

  // On the wire the end of the request is what the specification says.
  lemma EndRequestBytes(id: nat, appStatus: nat)
    requires id < 0x1_0000
    ensures IsEndRequest(Encode(EndRequest(id, appStatus)), id, appStatus)
  {
    var r := EndRequest(id, appStatus);
    RecordBytes(r, []);
    assert Encode(r) + [] == Encode(r);
    StatusBytes(appStatus);
    assert Encode(r)[8..16] == r.content;
    assert forall k :: 0 <= k < 8 ==> Encode(r)[8 + k] == r.content[k];
  }

  lemma StatusBytes(x: nat)
    ensures 0x100_0000 * (x / 0x100_0000 % 256) + 0x1_0000 * (x / 0x1_0000 % 256) + 0x100 * (x / 256 % 256) + x % 256 == x % 0x1_0000_0000
  {
    assert x / 256 / 256 == x / 0x1_0000 && x / 0x1_0000 / 256 == x / 0x100_0000 && x / 0x100_0000 / 256 == x / 0x1_0000_0000;
  }

  // So are a stream's records and its end.
  lemma {:induction false} StreamBytes(kind: byte, id: nat, rs: seq<Record>, rest: seq<byte>)
    requires id < 0x1_0000 && AllWellMade(kind, id, rs)
    ensures IsStream(kind, id, EncodeAll(rs) + MakeHeader(kind, id, 0, 0) + rest, Contents(rs), rest)
  {
    hide IsStream, MakeHeader, Encode, HasRecord, Contents;
    var end := MakeHeader(kind, id, 0, 0);
    if rs == [] {
      NoContents();
      EndBytes(kind, id, rest);
      assert EncodeAll(rs) + end + rest == end + rest;
    } else {
      var r, tail := rs[0], EncodeAll(rs[1..]) + end + rest;
      StreamBytes(kind, id, rs[1..], rest);
      assert EncodeAll(rs) + end + rest == Encode(r) + tail;
      assert WellMade(kind, id, r);
      ContentsCons(rs);
      hide EncodeAll;
      OneMoreRecord(r, tail, Contents(rs[1..]), rest);
    }
  }

  lemma NoContents()
    ensures Contents([]) == [] && EncodeAll([]) == []
  {
  }

  lemma {:induction false} ContentsCons(rs: seq<Record>)
    requires rs != []
    ensures Contents(rs) == rs[0].content + Contents(rs[1..])
  {
    if |rs| > 1 {
      ContentsCons(rs[..|rs| - 1]);
      assert rs[..|rs| - 1][1..] == rs[1..][..|rs| - 2];
    }
  }

  // What a closed stream has sent: its content in records and the record that ends it, but nothing
  // for an error stream never used; and the end of the request if this was its last stream.
  ghost predicate IsClosedStream(kind: byte, id: nat, s: seq<byte>, content: seq<byte>, last: bool, appStatus: nat) {
    exists rest: seq<byte> ::
      && IsRequestEnd(rest, id, last, appStatus)
      && if kind == 7 && content == [] then s == rest else IsStream(kind, id, s, content, rest)
  }

  ghost predicate IsRequestEnd(s: seq<byte>, id: nat, last: bool, appStatus: nat) {
    if last then IsEndRequest(s, id, appStatus) else s == []
  }

  lemma ClosedBytes(kind: byte, id: nat, rs: seq<Record>, last: bool, appStatus: nat)
    requires id < 0x1_0000 && AllWellMade(kind, id, rs)
    ensures IsClosedStream(kind, id, EncodeAll(rs) + Ending(kind, id, rs != [], last, appStatus), Contents(rs), last, appStatus)
  {
    hide EncodeAll, Contents, IsStream, Encode, MakeHeader, IsRequestEnd, Ending, EndRequest, IsClosedStream, RequestEnd;
    EndingIs(kind, id, rs != [], last, appStatus);
    var all, end, rest := EncodeAll(rs), MakeHeader(kind, id, 0, 0), RequestEnd(id, last, appStatus);
    SomeContent(kind, id, rs);
    if kind == 7 && rs == [] {
      NoContents();
      assert [] + ([] + rest) == rest;
      Closed(kind, id, rest, [], last, appStatus, rest);
    } else {
      StreamBytes(kind, id, rs, rest);
      Regroup(all, end, rest);
      Closed(kind, id, all + end + rest, Contents(rs), last, appStatus, rest);
    }
  }

  lemma Regroup(a: seq<byte>, b: seq<byte>, c: seq<byte>)
    ensures a + (b + c) == a + b + c
  {
  }

  lemma Closed(kind: byte, id: nat, s: seq<byte>, content: seq<byte>, last: bool, appStatus: nat, rest: seq<byte>)
    requires IsRequestEnd(rest, id, last, appStatus)
    requires if kind == 7 && content == [] then s == rest else IsStream(kind, id, s, content, rest)
    ensures IsClosedStream(kind, id, s, content, last, appStatus)
  {
  }

  function RequestEnd(id: nat, last: bool, appStatus: nat): seq<byte>
    requires id < 0x1_0000
  {
    if last then Encode(EndRequest(id, appStatus)) else []
  }

  lemma EndingIs(kind: byte, id: nat, used: bool, last: bool, appStatus: nat)
    requires id < 0x1_0000
    ensures var rest := RequestEnd(id, last, appStatus);
            && Ending(kind, id, used, last, appStatus) == (if kind == 7 && !used then [] else MakeHeader(kind, id, 0, 0)) + rest
            && IsRequestEnd(rest, id, last, appStatus)
  {
    EndRequestBytes(id, appStatus);
  }

  lemma SomeContent(kind: byte, id: nat, rs: seq<Record>)
    requires AllWellMade(kind, id, rs)
    ensures Contents(rs) == [] <==> rs == []
  {
    if rs != [] {
      assert WellMade(kind, id, rs[0]);
      ContentsCons(rs);
    }
  }

  class Writer {
    const kind: byte
    const id: nat
    const buff: array<byte>
    var wrNext: nat
    var stop: nat
    var isAnythingWritten: bool
    var rawWrite: bool
    var isClosed: bool
    var wasFCloseCalled: bool
    var nWriters: int        // of the request
    var appStatus: nat       // of the request
    var out: seq<byte>       // what the other side has been sent
    ghost var records: seq<Record>

    // Taking bytes: content after the room for a header, or anything in raw mode.
    ghost predicate Open()
      reads this, buff
    {
      && buff.Length % 8 == 0 && 24 <= buff.Length <= FCGI_MAX_LENGTH + 1
      && id < 0x1_0000 && AllWellMade(kind, id, records)
      && !isClosed && wrNext <= stop == buff.Length
      && (!rawWrite ==> FCGI_HEADER_LEN <= wrNext && out == EncodeAll(records) && (isAnythingWritten <==> records != []))
    }

    // In raw mode everything sent or to be sent; otherwise the content.
    ghost function Accepted(): seq<byte>
      requires Open()
      reads this, buff
    {
      if rawWrite then out + buff[..wrNext] else Contents(records) + buff[FCGI_HEADER_LEN..wrNext]
    }

    // NewStream for a writer.
    constructor (kind: byte, id: nat, bufflen: int, misaligned: bool, nWriters: int)
      requires id < 0x1_0000
      ensures Open() && !rawWrite && this.kind == kind && this.id == id && this.nWriters == nWriters && fresh(buff)
      ensures Accepted() == [] && !wasFCloseCalled
    {
      hide BufferLength;
      this.kind, this.id, this.nWriters := kind, id, nWriters;
      buff := new byte[BufferLength(bufflen, misaligned)];
      wrNext, stop := FCGI_HEADER_LEN, BufferLength(bufflen, misaligned);
      isAnythingWritten, rawWrite, isClosed, wasFCloseCalled := false, false, false, false;
      appStatus, out, records := 0, [], [];
    }

    // write_it_all: OS_Write takes as many bytes as it likes.
    method WriteItAll(len: nat)
      requires len <= buff.Length
      modifies this`out
      ensures out == old(out) + buff[..len]
    {
      var done := 0;
      while done < len
        invariant 0 <= done <= len && out == old(out) + buff[..done]
      {
        var wrote: nat :| 0 < wrote <= len - done;
        out := out + buff[done..done + wrote];
        assert buff[..done + wrote] == buff[..done] + buff[done..done + wrote];
        done := done + wrote;
      }
    }

    // The record in the buffer gets its padding and its header; without content there is none.
    method Seal()
      requires Open() && !rawWrite
      modifies this`wrNext, this`records, buff
      ensures wrNext <= buff.Length && AllWellMade(kind, id, records)
      ensures out + buff[..wrNext] == EncodeAll(records) && Contents(records) == old(Accepted())
      ensures wrNext == 0 <==> records == old(records)
      ensures records == old(records) || records != []
    {
      hide EncodeAll;
      var cLen := wrNext - FCGI_HEADER_LEN;
      if cLen > 0 {
        ghost var content := buff[FCGI_HEADER_LEN..wrNext];
        var eLen := AlignInt8(cLen);
        ghost var r := Record(kind, id, content, eLen - cLen);
        Frame(cLen, eLen - cLen, r);
        wrNext := wrNext + (eLen - cLen);
        EncodeSnoc(records, r);
        records := records + [r];
        assert records[..|records| - 1] == old(records);
      } else {
        wrNext := 0;
        assert buff[FCGI_HEADER_LEN..FCGI_HEADER_LEN] == [] && buff[..0] == [];
      }
    }

    // Zeros after the content and the header before it.
    method Frame(cLen: nat, padding: nat, ghost r: Record)
      requires FCGI_HEADER_LEN + cLen + padding <= buff.Length && cLen <= FCGI_MAX_LENGTH && padding < 256 && id < 0x1_0000
      requires r == Record(kind, id, buff[FCGI_HEADER_LEN..FCGI_HEADER_LEN + cLen], padding)
      modifies buff
      ensures buff[..FCGI_HEADER_LEN + cLen + padding] == Encode(r)
    {
      ghost var content := buff[FCGI_HEADER_LEN..FCGI_HEADER_LEN + cLen];
      forall k | FCGI_HEADER_LEN + cLen <= k < FCGI_HEADER_LEN + cLen + padding {
        buff[k] := 0;
      }
      assert buff[FCGI_HEADER_LEN..FCGI_HEADER_LEN + cLen] == content;
      var header := MakeHeader(kind, id, cLen, padding);
      forall k | 0 <= k < FCGI_HEADER_LEN {
        buff[k] := header[k];
      }
      hide MakeHeader;
      assert buff[..FCGI_HEADER_LEN] == header;
      assert buff[FCGI_HEADER_LEN..FCGI_HEADER_LEN + cLen] == content;
      assert buff[FCGI_HEADER_LEN + cLen..FCGI_HEADER_LEN + cLen + padding] == Zeros(padding);
    }

    method WriteOut()
      requires wrNext <= buff.Length
      modifies this`wrNext, this`isAnythingWritten, this`out
      ensures wrNext == 0 && out == old(out + buff[..wrNext])
      ensures isAnythingWritten == (old(isAnythingWritten) || old(wrNext) != 0)
    {
      if wrNext != 0 {
        isAnythingWritten := true;
        WriteItAll(wrNext);
        wrNext := 0;
      }
    }

    // EmptyBuffProc
    method EmptyBuff(doClose: bool)
      requires Open() && (doClose ==> !rawWrite)
      modifies this`wrNext, this`records, this`isAnythingWritten, this`rawWrite, this`nWriters, this`out, buff
      ensures Open()
      ensures !doClose ==> Accepted() == old(Accepted()) && rawWrite == old(rawWrite) && wrNext < stop && nWriters == old(nWriters)
      ensures !doClose && rawWrite ==> records == old(records)
      ensures doClose ==> Contents(records) == old(Accepted()) && rawWrite && nWriters == old(nWriters) - 1
      ensures doClose ==> out == EncodeAll(records) + Ending(kind, id, records != [], old(nWriters) == 1, appStatus)
      decreases if doClose then 3 else 0
    {
      if !rawWrite {
        Seal();
      }
      if doClose {
        WriteCloseRecords();
      }
      WriteOut();
      if !rawWrite {
        wrNext := wrNext + FCGI_HEADER_LEN;
        assert buff[FCGI_HEADER_LEN..FCGI_HEADER_LEN] == [];
      }
    }

    method WriteCloseRecords()
      requires !isClosed && wrNext <= stop == buff.Length && !rawWrite
      requires buff.Length % 8 == 0 && 24 <= buff.Length <= FCGI_MAX_LENGTH + 1 && id < 0x1_0000 && AllWellMade(kind, id, records)
      requires wrNext != 0 || isAnythingWritten <==> records != []
      modifies this`wrNext, this`records, this`isAnythingWritten, this`rawWrite, this`nWriters, this`out, buff
      ensures Open() && rawWrite && records == old(records) && nWriters == old(nWriters) - 1
      ensures Accepted() == old(out + buff[..wrNext]) + Ending(kind, id, records != [], old(nWriters) == 1, appStatus)
      decreases 2
    {
      rawWrite := true;
      if !(kind == FCGI_STDERR && wrNext == 0 && !isAnythingWritten) {
        var _ := PutStr(MakeHeader(kind, id, 0, 0));
      }
      if nWriters == 1 {
        var _ := PutStr(Encode(EndRequest(id, appStatus)));
      }
      nWriters := nWriters - 1;
    }

    // FCGX_PutStr
    method PutStr(str: seq<byte>) returns (count: int)
      requires Open()
      modifies this`wrNext, this`records, this`isAnythingWritten, this`rawWrite, this`nWriters, this`out, buff
      ensures Open() && rawWrite == old(rawWrite) && nWriters == old(nWriters)
      ensures Accepted() == old(Accepted()) + str && count == |str|
      ensures rawWrite ==> records == old(records)
      decreases 1
    {
      hide Writer.Accepted;
      assert str[..0] == [];
      RoomToWrite();
      if |str| <= stop - wrNext {
        Copy(str);
        return |str|;
      }
      var bytesMoved := 0;
      while true
        invariant Open() && rawWrite == old(rawWrite) && nWriters == old(nWriters)
        invariant 0 <= bytesMoved < |str|
        invariant Accepted() == old(Accepted()) + str[..bytesMoved]
        invariant rawWrite ==> records == old(records)
        decreases |str| - bytesMoved, if wrNext == stop then 1 else 0
      {
        RoomToWrite();
        if wrNext != stop {
          var m := Min(|str| - bytesMoved, stop - wrNext);
          Copy(str[bytesMoved..bytesMoved + m]);
          assert str[..bytesMoved + m] == str[..bytesMoved] + str[bytesMoved..bytesMoved + m];
          bytesMoved := bytesMoved + m;
          if bytesMoved == |str| {
            return bytesMoved;
          }
        }
        EmptyBuff(false);
      }
    }

    lemma RoomToWrite()
      requires Open()
      ensures wrNext <= stop
    {
    }

    method Copy(part: seq<byte>)
      requires Open() && |part| <= stop - wrNext
      modifies this`wrNext, buff
      ensures Open() && Accepted() == old(Accepted()) + part && wrNext == old(wrNext) + |part|
    {
      hide EncodeAll, AllWellMade, Contents;
      ghost var was := buff[..];
      forall k | 0 <= k < |part| {
        buff[wrNext + k] := part[k];
      }
      assert buff[..wrNext + |part|] == was[..wrNext] + part;
      assert !rawWrite ==> buff[FCGI_HEADER_LEN..wrNext + |part|] == was[FCGI_HEADER_LEN..wrNext] + part;
      wrNext := wrNext + |part|;
    }

    // FCGX_FClose
    method FClose()
      requires !wasFCloseCalled ==> Open() && !rawWrite
      modifies this`wasFCloseCalled, this`isClosed, this`stop, this`wrNext, this`records, this`isAnythingWritten,
               this`rawWrite, this`nWriters, this`out, buff
      ensures wasFCloseCalled
      ensures old(wasFCloseCalled) ==> out == old(out) && isClosed == old(isClosed)
      ensures nWriters == old(nWriters) - (if old(wasFCloseCalled) then 0 else 1)
      ensures !old(wasFCloseCalled) ==>
                IsClosedStream(kind, id, out, old(Accepted()), old(nWriters) == 1, appStatus)
      ensures !old(wasFCloseCalled) ==>
                && isClosed && id < 0x1_0000 && AllWellMade(kind, id, records) && Contents(records) == old(Accepted())
                && out == EncodeAll(records) + Ending(kind, id, records != [], old(nWriters) == 1, old(appStatus))
    {
      hide EncodeAll, Contents, Ending;
      if !wasFCloseCalled {
        EmptyBuff(true);
        ClosedBytes(kind, id, records, old(nWriters) == 1, appStatus);
        wasFCloseCalled := true;
        isClosed := true;
        stop := wrNext;
      }
    }
  }
}
