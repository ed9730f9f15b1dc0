// The growing string buffer of the JSON library.

module JsonBuffer {
  import opened Bytes

  class SB {
    var start: array<byte>
    var cur: nat

    // One byte of the allocation is kept for the final NUL.
    ghost predicate Valid()
      reads this
    {
      16 < start.Length && cur <= End()
    }

    function End(): int
      reads this
    {
      start.Length - 1
    }

    ghost function Contents(): seq<byte>
      requires Valid()
      reads this, start
    {
      start[..cur]
    }

    constructor ()
      ensures Valid() && Contents() == [] && fresh(start)
    {
      start, cur := new byte[17], 0;
    }

    // sb_need: room for that many more bytes.
    method Need(need: nat)
      requires Valid()
      modifies this`start
      ensures Valid() && Contents() == old(Contents()) && End() - cur >= need
      ensures start == old(start) || fresh(start)
    {
      if End() - cur < need {
        Grow(need);
      }
    }

    // sb_grow
    method Grow(need: nat)
      requires Valid()
      modifies this`start
      ensures Valid() && Contents() == old(Contents()) && End() - cur >= need && fresh(start)
    {
      var alloc := End() * 2;
      while alloc < cur + need
        invariant alloc >= 2 * End()
      {
        alloc := alloc * 2;
      }
      var more := new byte[alloc + 1];
      forall k | 0 <= k < cur {
        more[k] := start[k];
      }
      start := more;
    }

    // Bytes stored through a pointer into the reserved room, beyond cur.
    method Poke(b: nat, bytes: seq<byte>)
      requires Valid() && cur <= b && b + |bytes| <= End()
      modifies start
      ensures Valid() && start[..b + |bytes|] == old(start[..b]) + bytes
    {
      forall k | 0 <= k < |bytes| {
        start[b + k] := bytes[k];
      }
      assert start[..b] == old(start[..b]) && start[b..b + |bytes|] == bytes;
      assert start[..b + |bytes|] == start[..b] + start[b..b + |bytes|];
    }

    // sb_put and sb_puts
    method Put(bytes: seq<byte>)
      requires Valid()
      modifies this, start
      ensures Valid() && Contents() == old(Contents()) + bytes
      ensures start == old(start) || fresh(start)
    {
      Need(|bytes|);
      Poke(cur, bytes);
      cur := cur + |bytes|;
    }

    // sb_putc
    method Putc(c: byte)
      requires Valid()
      modifies this, start
      ensures Valid() && Contents() == old(Contents()) + [c]
      ensures start == old(start) || fresh(start)
    {
      if cur >= End() {
        Grow(1);
      }
      Poke(cur, [c]);
      cur := cur + 1;
    }

    // sb_finish: the contents as a C string.
    method Finish() returns (s: seq<byte>)
      requires Valid()
      modifies start
      ensures Valid() && s == Contents() == old(Contents()) && start[cur] == 0
    {
      start[cur] := 0;
      s := start[..cur];
    }
  }
}
