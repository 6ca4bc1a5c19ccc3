/** The packet buffer of fusionee.c, written in place. */
module Packets {
  import opened Errno
  import opened Messages
  import opened Pipeline
  import opened Sequences

  lemma AlignedData(n: nat)
    ensures Aligned(HEADER + n) == HEADER + Aligned(n)
  {
  }

  lemma PrefixOf(long: seq<Byte>, short: seq<Byte>, before: seq<Byte>)
    requires before <= long && short <= long && |short| == |before|
    ensures short == before
  {
  }

  lemma Assembled(before: seq<Byte>, m: Message, after: seq<Byte>)
    requires after == before + Header(m) + m.data + Zeros(Aligned(|m.data|) - |m.data|)
    ensures after == before + Encode(m)
  {
    Associates(before, Header(m), m.data);
    Associates(before, Header(m) + m.data, Zeros(Aligned(|m.data|) - |m.data|));
  }

  /** What is in a packet, byte by byte. */
  datatype Content = Content(bytes: seq<Byte>, flush: bool, callbacks: seq<Callback>)

  /** A packet after an attempt to add a message to it. */
  function Added(c: Content, m: Message, callback: Callback, flush: bool, status: Status): Content {
    if status != Ok then c
    else
      Content(c.bytes + Encode(m), c.flush || flush,
              if callback.func != 0 then c.callbacks + [callback] else c.callbacks)
  }

  class Packet {
    const buf: array<Byte>
    var size: nat
    var flush: bool
    var callbacks: seq<Callback>

    constructor ()
      ensures Holds(Content([], false, [])) && fresh(buf)
    {
      buf := new Byte[MAX_PACKET](_ => 0);
      size, flush, callbacks := 0, false, [];
    }

    ghost predicate Holds(c: Content)
      reads this, buf
    {
      && buf.Length == MAX_PACKET && size <= MAX_PACKET
      && buf[..size] == c.bytes && flush == c.flush && callbacks == c.callbacks
    }

    method PutWord(at: nat, x: int)
      requires at + 4 <= buf.Length
      modifies buf
      ensures buf[..at + 4] == old(buf[..at]) + Word(x)
    {
      var w := Word(x);
      buf[at], buf[at + 1], buf[at + 2], buf[at + 3] := w[0], w[1], w[2], w[3];
    }

    method CopyIn(at: nat, data: seq<Byte>)
      requires at + |data| <= buf.Length
      modifies buf
      ensures buf[..at + |data|] == old(buf[..at]) + data
    {
      for i := 0 to |data|
        invariant buf[..at] == old(buf[..at])
        invariant forall j :: 0 <= j < i ==> buf[at + j] == data[j]
      {
        buf[at + i] := data[i];
      }
    }

    /** `copyFails` tells whether a copy from user memory fails; the packet then keeps its size. */
    method Write(kind: int, id: int, channel: int, data: seq<Byte>, extra: seq<Byte>,
                 copyFails: bool) returns (status: Status)
      requires buf.Length == MAX_PACKET && size % 4 == 0
      requires size + HEADER + |data| + |extra| <= MAX_PACKET
      modifies this`size, buf
      ensures status == if copyFails then Efault else Ok
      ensures copyFails ==> size == old(size) && buf[..size] == old(buf[..size])
      ensures !copyFails ==>
                && size == old(size) + Size(Message(kind, id, channel, data + extra)) <= MAX_PACKET
                && buf[..size] == old(buf[..size]) + Encode(Message(kind, id, channel, data + extra))
    {
      var total := HEADER + |data| + |extra|;
      var aligned := Aligned(total);
      AlignedFits(size, total);
      AlignedData(|data| + |extra|);
      assert size + aligned <= MAX_PACKET;
      PutHeader(kind, id, |data| + |extra|, channel);
      if copyFails {
        PrefixOf(buf[..size + HEADER], buf[..size], old(buf[..size]));
        return Efault;
      }
      PutBody(Message(kind, id, channel, data + extra), data, extra, old(buf[..size]));
      size := size + aligned;
      return Ok;
    }

    /** The data, which comes in two parts, and the padding, after the header. */
    method PutBody(ghost m: Message, data: seq<Byte>, extra: seq<Byte>, ghost before: seq<Byte>)
      requires m.data == data + extra && size + Size(m) <= buf.Length
      requires buf[..size + HEADER] == before + Header(m)
      modifies buf
      ensures buf[..size + Size(m)] == before + Encode(m)
    {
      CopyIn(size + HEADER, data);
      CopyIn(size + HEADER + |data|, extra);
      Associates(before + Header(m), data, extra);
      var total := HEADER + |data| + |extra|;
      AlignedData(|data| + |extra|);
      Pad(size + total, Aligned(total) - total);
      Assembled(before, m, buf[..size + Aligned(total)]);
    }

    method Pad(at: nat, n: nat)
      requires at + n <= buf.Length
      modifies buf
      ensures buf[..at + n] == old(buf[..at]) + Zeros(n)
    {
      var i := 0;
      while i < n
        invariant i <= n && buf[..at + i] == old(buf[..at]) + Zeros(i)
      {
        buf[at + i] := 0;
        i := i + 1;
      }
    }

    /** Writes a message, adds its callback if it has one, and marks the packet if asked to.
        When there is no memory for the callback the message is taken back. */
    method Add(kind: int, id: int, channel: int, data: seq<Byte>, extra: seq<Byte>,
               callback: Callback, flush: bool, luck: Luck, ghost was: Content) returns (status: Status)
      requires Holds(was) && |was.bytes| % 4 == 0 && |was.bytes| + HEADER + |data| + |extra| <= MAX_PACKET
      modifies this, buf
      ensures status == (if luck.copyFails then Efault else if callback.func != 0
              && luck.noCallback then Enomem else Ok)
      ensures Holds(Added(was, Message(kind, id, channel, data + extra), callback, flush, status))
    {
      var before := size;
      status := Write(kind, id, channel, data, extra, luck.copyFails);
      if status != Ok {
        return;
      }
      if callback.func != 0 {
        if luck.noCallback {
          PrefixOf(buf[..size], buf[..before], was.bytes);
          size := before;
          return Enomem;
        }
        callbacks := callbacks + [callback];
      }
      if flush {
        this.flush := true;
      }
    }

    method PutHeader(kind: int, id: int, n: int, channel: int)
      requires size + HEADER <= buf.Length
      modifies buf
      ensures buf[..size + HEADER] == old(buf[..size]) + (Word(kind) + Word(id) + Word(n) + Word(channel))
    {
      PutWord(size, kind);
      PutWord(size + 4, id);
      PutWord(size + 8, n);
      PutWord(size + 12, channel);
    }
  }
}
