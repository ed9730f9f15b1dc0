// A FastCGI stream from writer to reader.

module FcgiStream {
  import opened Bytes
  import opened FastCgi
  import opened FcgiReader
  import opened FcgiWriter

  function Concat(pieces: seq<seq<byte>>): seq<byte> {
    if pieces == [] then [] else Concat(pieces[..|pieces| - 1]) + pieces[|pieces| - 1]
  }

  method WritePieces(w: Writer, pieces: seq<seq<byte>>)
    requires w.Open() && !w.rawWrite && w.Accepted() == []
    modifies w`wrNext, w`records, w`isAnythingWritten, w`rawWrite, w`nWriters, w`out, w.buff
    ensures w.Open() && !w.rawWrite && w.Accepted() == Concat(pieces)
  {
    hide Writer.Accepted, Writer.Open;
    var i := 0;
    while i < |pieces|
      invariant 0 <= i <= |pieces| && w.Open() && !w.rawWrite && w.Accepted() == Concat(pieces[..i])
    {
      var _ := w.PutStr(pieces[i]);
      assert pieces[..i + 1][..i] == pieces[..i];
      i := i + 1;
    }
    assert pieces[..i] == pieces;
  }

  // Reads in steps of any length until the stream ends.
  method ReadToEnd(r: Reader) returns (data: seq<byte>)
    requires r.Valid() && r.Rest().end != Managed
    modifies r, r.buff
    ensures r.Valid() && r.isClosed && old(r.Rest()) == Outcome(data, if r.error == 0 then EndOfStream else Failed(r.error))
  {
    hide Deliver;
    data := [];
    while !r.isClosed
      invariant r.Valid() && old(r.Rest()) == Prepend(data, r.Rest())
      decreases |r.Rest().content|, !r.isClosed
    {
      var n: nat :| n > 0;
      var part := r.GetStr(n);
      PrependTwice(data, part, r.Rest());
      data := data + part;
    }
  }

  // Whatever the sizes of the pieces written, of both buffers, of the system's reads and writes,
  // and of the steps in which the client reads: the reader gets what was written, and then the end.
  method EndToEnd(kind: byte, id: nat, pieces: seq<seq<byte>>, writeLen: int, readLen: int, misaligned: bool, nWriters: int)
    returns (data: seq<byte>, error: int)
    requires kind != FCGI_BEGIN_REQUEST && 0 < id < 0x1_0000
    requires kind == FCGI_STDERR ==> Concat(pieces) != []
    ensures data == Concat(pieces) && error == 0
  {
    hide EncodeAll, Deliver, Concat, Ending, IsClosedStream, Encode, RequestEnd;
    var w := new Writer(kind, id, writeLen, misaligned, nWriters);
    WritePieces(w, pieces);
    ghost var last := w.nWriters == 1;
    w.FClose();
    ghost var rs := w.records;
    assert rs == [] ==> Contents(rs) == [];
    SentOut(kind, id, rs, last, w.appStatus);
    var r := new Reader(kind, id, readLen, misaligned, w.out);
    WriterToReader(kind, id, rs, RequestEnd(id, last, w.appStatus));
    data := ReadToEnd(r);
    error := r.error;
  }

  lemma SentOut(kind: byte, id: nat, rs: seq<Record>, last: bool, appStatus: nat)
    requires id < 0x1_0000 && AllWellMade(kind, id, rs) && (kind == FCGI_STDERR ==> rs != [])
    ensures EncodeAll(rs) + Ending(kind, id, rs != [], last, appStatus)
         == EncodeAll(rs) + Encode(Record(kind, id, [], 0)) + RequestEnd(id, last, appStatus)
  {
    assert Encode(Record(kind, id, [], 0)) == MakeHeader(kind, id, 0, 0);
    hide EncodeAll, Encode, RequestEnd, MakeHeader;
    Regroup(EncodeAll(rs), MakeHeader(kind, id, 0, 0), RequestEnd(id, last, appStatus));
  }
}
