// The reading side of a FastCGI stream.

module FcgiReader {
  import opened Bytes
  import opened FastCgi

  class Reader {
    const kind: byte
    const id: nat
    const buff: array<byte>
    var rdNext: nat      // first byte not yet given to the client
    var stop: nat        // end of the content in buff
    var buffStop: nat    // end of the bytes in buff
    var contentLen: nat  // bytes of the record's content beyond stop
    var paddingLen: nat
    var skip: bool
    var isClosed: bool
    var error: int       // FCGI_errno
    var wire: seq<byte>  // what OS_Read will still give

    ghost predicate InBuffer()
      reads this
    {
      0 < buff.Length && rdNext <= buffStop <= buff.Length
    }

    ghost predicate Valid()
      reads this
    {
      && InBuffer()
      && (!isClosed ==> rdNext <= stop <= buffStop && error == 0 && (skip ==> stop == rdNext))
    }

    ghost function Input(): seq<byte>
      requires InBuffer()
      reads this, buff
    {
      buff[rdNext..buffStop] + wire
    }

    // What the client will still get.
    ghost function Rest(): Outcome
      requires Valid()
      reads this, buff
    {
      if isClosed then Outcome([], if error == 0 then EndOfStream else Failed(error))
      else Deliver(kind, id, Input(), stop - rdNext + contentLen, paddingLen, skip)
    }

    // NewStream for a reader, with what the other side sends. misaligned is whether the memory
    // allocated was not aligned to eight bytes.
    constructor (kind: byte, id: nat, bufflen: int, misaligned: bool, wire: seq<byte>)
      ensures Valid() && !isClosed && this.kind == kind && this.id == id && fresh(buff)
      ensures Rest() == Deliver(kind, id, wire, 0, 0, false)
    {
      hide Deliver, BufferLength;
      this.kind, this.id, this.wire := kind, id, wire;
      buff := new byte[BufferLength(bufflen, misaligned)];
      rdNext, stop, buffStop, contentLen, paddingLen := 0, 0, 0, 0, 0;
      skip, isClosed, error := false, false, 0;
      new;
      assert Input() == wire;
    }

    // OS_Read: some of the bytes that are left, as many as the system likes; none at the end.
    method OsRead() returns (count: nat)
      requires InBuffer() && rdNext == buffStop
      modifies this`wire, buff
      ensures count <= buff.Length && old(wire) == buff[..count] + wire
      ensures count == 0 <==> old(wire) == []
    {
      if wire == [] {
        return 0;
      }
      count :| 0 < count <= |wire| && count <= buff.Length;
      forall k | 0 <= k < count {
        buff[k] := wire[k];
      }
      wire := wire[count..];
    }

    method SetError(code: int)
      requires error == 0
      modifies this`error, this`isClosed
      ensures error == code && isClosed
    {
      error := code;
      isClosed := true;
    }

    // What the bytes to come will be taken for, after part of a header.
    ghost function Ahead(header: seq<byte>): Outcome
      requires InBuffer()
      reads this, buff
    {
      Deliver(kind, id, header + Input(), contentLen, paddingLen, skip)
    }

    // Reads on if the buffer is used up.
    method Refill(ghost header: seq<byte>) returns (ok: bool)
      requires InBuffer() && error == 0 && !isClosed
      modifies this`wire, this`rdNext, this`buffStop, this`error, this`isClosed, buff
      ensures InBuffer()
      ensures ok <==> old(Input()) != []
      ensures ok ==> Ahead(header) == old(Ahead(header)) && rdNext < buffStop && error == 0 && !isClosed
      ensures ok ==> Left() <= old(Left())
      ensures !ok ==> error == FCGX_PROTOCOL_ERROR && isClosed
      ensures !ok ==> old(Ahead(header)) == Deliver(kind, id, header, contentLen, paddingLen, skip)
    {
      hide Deliver;
      assert Input() == [] ==> header + Input() == header;
      if rdNext == buffStop {
        ghost var input := Input();
        var count := OsRead();
        if count == 0 {
          SetError(FCGX_PROTOCOL_ERROR);
          return false;
        }
        rdNext, buffStop := 0, count;
        assert Input() == input;
      }
      return true;
    }

    ghost function Left(): nat
      requires InBuffer()
      reads this
    {
      2 * |wire| + buffStop - rdNext
    }

    method Consume(count: nat)
      requires InBuffer() && count <= buffStop - rdNext
      modifies this`rdNext
      ensures InBuffer() && count <= |old(Input())| && Input() == old(Input())[count..] && Left() == old(Left()) - count
    {
      assert buff[rdNext..buffStop][count..] == buff[rdNext + count..buffStop];
      rdNext := rdNext + count;
    }

    method PassContent()
      requires InBuffer() && rdNext < buffStop && contentLen > 0 && skip
      modifies this`rdNext, this`contentLen, this`skip
      ensures InBuffer() && Ahead([]) == old(Ahead([])) && Left() < old(Left())
    {
      hide Deliver;
      var count := Min(contentLen, buffStop - rdNext);
      DeliverSkip(kind, id, Input(), contentLen, paddingLen, count);
      assert [] + Input() == Input();
      contentLen := contentLen - count;
      Consume(count);
      assert [] + Input() == Input();
      if contentLen == 0 {
        skip := false;
      }
    }

    method PassPadding()
      requires InBuffer() && contentLen == 0 && paddingLen > 0
      modifies this`rdNext, this`paddingLen
      ensures InBuffer() && Ahead([]) == old(Ahead([])) && Left() <= old(Left())
      ensures old(rdNext < buffStop) ==> Left() < old(Left())
    {
      hide Deliver;
      var count := Min(paddingLen, buffStop - rdNext);
      DeliverPad(kind, id, Input(), paddingLen, count, skip);
      assert [] + Input() == Input();
      paddingLen := paddingLen - count;
      Consume(count);
      assert [] + Input() == Input();
    }

    method TakeHeader(header: seq<byte>) returns (h: seq<byte>)
      requires InBuffer() && |header| < FCGI_HEADER_LEN
      modifies this`rdNext
      ensures InBuffer() && |h| <= FCGI_HEADER_LEN && Ahead(h) == old(Ahead(header))
      ensures Left() <= old(Left()) && (old(rdNext < buffStop) ==> Left() < old(Left()))
    {
      var count := Min(FCGI_HEADER_LEN - |header|, buffStop - rdNext);
      h := header + buff[rdNext..rdNext + count];
      assert buff[rdNext..buffStop] == buff[rdNext..rdNext + count] + buff[rdNext + count..buffStop];
      Consume(count);
      assert h + Input() == old(header + Input());
    }

    // What FillBuffProc does once a header is complete.
    method Interpret(header: seq<byte>, ghost o: Outcome)
      requires InBuffer() && !isClosed && error == 0 && contentLen == 0 && paddingLen == 0
      requires |header| == FCGI_HEADER_LEN && Ahead(header) == o && o.end != Managed
      modifies this`stop, this`contentLen, this`paddingLen, this`skip, this`isClosed, this`error
      ensures InBuffer() && Left() == old(Left())
      ensures if isClosed then o == Outcome([], if error == 0 then EndOfStream else Failed(error))
              else error == 0 && Ahead([]) == o
    {
      hide Deliver;
      DeliverNext(kind, id, header + Input(), skip);
      assert [] + Input() == Input();
      assert (header + Input())[..FCGI_HEADER_LEN] == header && (header + Input())[FCGI_HEADER_LEN..] == Input();
      stop := rdNext;
      match ProcessHeader(kind, id, header) {
        case StreamRecord =>
          contentLen, paddingLen := ContentLength(header), header[6];
          if contentLen == 0 {
            stop := rdNext;
            isClosed := true;
          }
        case Skip =>
          contentLen, paddingLen := ContentLength(header), header[6];
          skip := true;
        case Error(code) =>
          SetError(code);
        case ManagementRecord =>
          assert false;
      }
    }

    // FillBuffProc: reads records until there is content to give or the stream ends.
    method FillBuff()
      requires Valid() && !isClosed && rdNext == stop && Rest().end != Managed
      modifies this, buff
      ensures Valid() && Rest() == old(Rest()) && (isClosed || rdNext < stop)
    {
      hide Deliver, NextRecord, ProcessHeader, Reader.Input;
      ghost var o := Rest();
      var header: seq<byte> := [];
      assert Ahead([]) == o by {
        assert [] + Input() == Input();
      }
      while true
        invariant InBuffer() && !isClosed && error == 0
        invariant |header| < FCGI_HEADER_LEN && (header != [] ==> contentLen == 0 && paddingLen == 0)
        invariant Ahead(header) == o
        decreases Left()
      {
        var ok := Refill(header);
        if !ok {
          NothingLeft(kind, id, header, contentLen, paddingLen, skip);
          return;
        }
        if contentLen > 0 {
          if !skip {
            Give(o);
            return;
          }
          PassContent();
          if contentLen > 0 {
            continue;
          }
        }
        if paddingLen > 0 {
          PassPadding();
          if paddingLen > 0 {
            continue;
          }
        }
        header := TakeHeader(header);
        if |header| < FCGI_HEADER_LEN {
          continue;
        }
        Interpret(header, o);
        if isClosed {
          return;
        }
        header := [];
      }
    }

    // Content of the record that is in the buffer is the client's now.
    method Give(ghost o: Outcome)
      requires InBuffer() && !isClosed && error == 0 && rdNext < buffStop && contentLen > 0 && !skip
      requires Ahead([]) == o
      modifies this`stop, this`contentLen
      ensures Valid() && Rest() == o && rdNext < stop
    {
      hide Deliver;
      var count := Min(contentLen, buffStop - rdNext);
      stop := rdNext + count;
      contentLen := contentLen - count;
      assert [] + Input() == Input();
    }

    method Take(m: nat) returns (str: seq<byte>)
      requires Valid() && !isClosed && m <= stop - rdNext
      modifies this`rdNext
      ensures Valid() && |str| == m && old(Rest()) == Prepend(str, Rest())
      ensures stop - rdNext == old(stop - rdNext) - m
    {
      hide Deliver;
      str := buff[rdNext..rdNext + m];
      if m > 0 {
        DeliverTake(kind, id, Input(), stop - rdNext + contentLen, paddingLen, m);
        assert buff[rdNext..buffStop][m..] == buff[rdNext + m..buffStop];
        assert Input()[..m] == str && Input()[m..] == buff[rdNext + m..buffStop] + wire;
      }
      rdNext := rdNext + m;
    }

    // FCGX_GetStr: the next n bytes of the stream, or fewer if it ends before that.
    method GetStr(n: int) returns (str: seq<byte>)
      requires Valid() && Rest().end != Managed
      modifies this, buff
      ensures Valid() && old(Rest()) == Prepend(str, Rest())
      ensures |str| == if n <= 0 then 0 else Min(n, |old(Rest()).content|)
      ensures |str| < n ==> isClosed
    {
      hide Deliver, NextRecord;
      str := [];
      if isClosed || n <= 0 {
        return;
      }
      if n <= stop - rdNext {
        str := Take(n);
        return;
      }
      ghost var o := Rest();
      while true
        invariant Valid() && !isClosed && o == Prepend(str, Rest()) && |str| < n
        invariant o.end != Managed
        decreases |Rest().content|, if rdNext == stop then 1 else 0
      {
        if rdNext != stop {
          var part := Take(Min(n - |str|, stop - rdNext));
          PrependTwice(str, part, Rest());
          str := str + part;
          if |str| == n {
            return;
          }
        }
        FillBuff();
        if isClosed {
          return;
        }
      }
    }
  }
}
