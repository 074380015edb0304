/** rfc5444_pkt_generator.c and the end of _finalize_message_fragment: messages gathered in packets (section 5.1 of RFC
 *  5444), for one target, without packet TLVs and post-processors. */
module PacketWriter {
  import opened Bytes

  const PKT_SEQNO: Byte := 0x08

  /** The header of a packet without a TLV block. */
  function PacketHeader(hasSeqno: bool, seqno: U16): (r: seq<Byte>)
    ensures |r| == if hasSeqno then 3 else 1
  {
    if hasSeqno then [PKT_SEQNO] + U16Bytes(seqno) else [0]
  }

  function Concat(ms: seq<seq<Byte>>): (r: seq<Byte>) {
    if ms == [] then [] else ms[0] + Concat(ms[1..])
  }

  lemma {:induction false} ConcatMore(ms: seq<seq<Byte>>, m: seq<Byte>)
    ensures Concat(ms + [m]) == Concat(ms) + m
  {
    if ms != [] {
      assert (ms + [m])[1..] == ms[1..] + [m];
      ConcatMore(ms[1..], m);
    }
  }

  /** A packet as it was sent: with or without sequence number, and its messages. */
  datatype Packet = Packet(seqno: U16, messages: seq<seq<Byte>>)

  /** The messages of packets, one packet behind the other. */
  ghost function Messages(ps: seq<Packet>): (r: seq<seq<Byte>>) {
    if ps == [] then [] else Messages(ps[..|ps| - 1]) + ps[|ps| - 1].messages
  }

  lemma MessagesMore(ps: seq<Packet>, p: Packet)
    ensures Messages(ps + [p]) == Messages(ps) + p.messages
  {
    assert (ps + [p])[..|ps|] == ps;
  }

  /** struct rfc5444_writer_target. sent is what was handed to sendPacket; the ghost fields are the messages that it and
   *  the buffer consist of. */
  class Target {
    const buffer: array<Byte>
    const wantsSeqno: bool  // the choice of addPacketHeader
    var hasSeqno: bool
    var seqno: U16
    var isFlushed: bool
    var header: nat
    var binMsgsSize: nat
    var sent: seq<seq<Byte>>
    ghost var packets: seq<Packet>
    ghost var pending: seq<seq<Byte>>

    /** Every message that was created: those sent, and those that wait in the buffer. */
    ghost function Created(): (r: seq<seq<Byte>>)
      reads this
    {
      Messages(packets) + pending
    }

    ghost predicate Valid()
      reads this, buffer
    {
      && 5 <= buffer.Length
      && |sent| == |packets|
      && (forall k :: 0 <= k < |sent| ==>
        |sent[k]| <= buffer.Length
          && sent[k] == PacketHeader(wantsSeqno, packets[k].seqno) + Concat(packets[k].messages))
      && binMsgsSize == |Concat(pending)|
      && (isFlushed ==> pending == [])
      && (!isFlushed ==> Open())
    }

    /** A packet under construction: the messages stand behind the reserved header. */
    ghost predicate Open()
      reads this, buffer
    {
      && hasSeqno == wantsSeqno && header == Reserved() && header + binMsgsSize <= buffer.Length
      && buffer[header..header + binMsgsSize] == Concat(pending)
    }

    /** The header as it is reserved: always with the length of a TLV block. */
    function Reserved(): (r: nat) {
      3 + if wantsSeqno then 2 else 0
    }

    constructor (buffer: array<Byte>, wantsSeqno: bool)
      requires 5 <= buffer.Length
      ensures Valid() && this.buffer == buffer && this.wantsSeqno == wantsSeqno && isFlushed && sent == []
        && Created() == []
    {
      this.buffer, this.wantsSeqno := buffer, wantsSeqno;
      hasSeqno, seqno, isFlushed, header, binMsgsSize, sent := false, 0, true, 0, 0, [];
      packets, pending := [], [];
    }

    /** rfc5444_writer_set_pkt_seqno */
    method SetSeqno(seqno: U16)
      requires Valid()
      modifies this`seqno
      ensures Valid() && this.seqno == seqno && Created() == old(Created())
    {
      this.seqno := seqno;
    }

    /** _rfc5444_writer_begin_packet */
    method BeginPacket()
      requires Valid() && isFlushed
      modifies this`hasSeqno, this`header, this`isFlushed
      ensures Valid() && !isFlushed && Created() == old(Created())
    {
      header := 3;
      hasSeqno := wantsSeqno;
      if wantsSeqno {
        header := header + 2;
      }
      isFlushed := false;
    }

    /** _write_pktheader */
    method WriteHeader()
      requires 3 <= buffer.Length
      modifies buffer
      ensures var h := PacketHeader(hasSeqno, seqno); buffer[..|h|] == h && buffer[|h|..] == old(buffer[|h|..])
    {
      buffer[0] := 0;
      if hasSeqno {
        buffer[0] := SetFlag(buffer[0], PKT_SEQNO);
        buffer[1] := seqno / 256;
        buffer[2] := seqno % 256;
      }
    }

    /** Header and memmove of rfc5444_writer_flush. */
    method Compact() returns (size: nat)
      requires Open() && binMsgsSize == |Concat(pending)|
      modifies buffer
      ensures size <= buffer.Length && buffer[..size] == PacketHeader(wantsSeqno, seqno) + Concat(pending)
    {
      hide Concat;
      ghost var was := buffer[..];
      WriteHeader();
      var len := 1;
      if hasSeqno {
        len := len + 2;
      }
      BodyKept(was, buffer[..], len, header, binMsgsSize);
      MoveDown(buffer, header, len, binMsgsSize);
      size := len + binMsgsSize;
      Split(buffer[..], 0, len, size);
    }

    /** rfc5444_writer_flush: the messages in the buffer leave in one packet, behind a header that is two bytes shorter
     *  than what was reserved. Nothing is sent from a flushed buffer unless forced. */
    method Flush(force: bool)
      requires Valid()
      modifies this`hasSeqno, this`header, this`isFlushed, this`binMsgsSize, this`sent, this`packets, this`pending,
        buffer
      ensures Valid() && isFlushed && pending == [] && Created() == old(Created())
      ensures old(isFlushed) && !force ==> sent == old(sent) && packets == old(packets)
      ensures !old(isFlushed) || force ==>
        packets == old(packets) + [Packet(seqno, old(pending))]
          && sent == old(sent) + [PacketHeader(wantsSeqno, seqno) + Concat(old(pending))]
    {
      hide Concat, PacketHeader, Messages;
      if isFlushed {
        if !force {
          return;
        }
        BeginPacket();
      }
      var size := Compact();
      sent := sent + [buffer[..size]];
      MessagesMore(packets, Packet(seqno, pending));
      packets := packets + [Packet(seqno, pending)];
      NoBody();
      pending := [];
      binMsgsSize := 0;
      isFlushed := true;
    }

    /** The message becomes part of the packet for this target. The packet is sent first exactly if it has no room left:
     *  if it is open, and its reserved header, its messages and the new one are longer than the buffer. */
    method AddMessage(message: seq<Byte>)
      requires Valid() && Reserved() + |message| <= buffer.Length
      modifies this`hasSeqno, this`header, this`isFlushed, this`binMsgsSize, this`sent, this`packets, this`pending,
        buffer
      ensures Valid() && !isFlushed && Created() == old(Created()) + [message]
      ensures old(isFlushed) || Reserved() + |Concat(old(pending))| + |message| <= buffer.Length ==>
        packets == old(packets) && sent == old(sent) && pending == old(pending) + [message]
      ensures !old(isFlushed) && Reserved() + |Concat(old(pending))| + |message| > buffer.Length ==>
        && packets == old(packets) + [Packet(seqno, old(pending))] && pending == [message]
        && sent == old(sent) + [PacketHeader(wantsSeqno, seqno) + Concat(old(pending))]
      ensures old(packets) <= packets && forall k :: |old(packets)| <= k < |packets| ==> packets[k].messages != []
    {
      hide Concat, PacketHeader, Messages;
      NoBody();
      if isFlushed {
        BeginPacket();
      }
      if header + binMsgsSize + |message| > buffer.Length {
        Flush(false);
        BeginPacket();
      }
      Store(message);
    }

    method Store(message: seq<Byte>)
      requires Valid() && !isFlushed && header + binMsgsSize + |message| <= buffer.Length
      modifies this`binMsgsSize, this`pending, buffer
      ensures Valid() && pending == old(pending) + [message] && Created() == old(Created()) + [message]
    {
      hide Concat, PacketHeader, Messages;
      ghost var was, at := buffer[..], header + binMsgsSize;
      OverlayIs(was, at, message);
      Copy(buffer, header + binMsgsSize, message);
      ConcatMore(pending, message);
      FrontKept(was, buffer[..], at, header);
      Split(buffer[..], header, at, at + |message|);
      binMsgsSize := binMsgsSize + |message|;
      pending := pending + [message];
    }
  }

  lemma Split(s: seq<Byte>, a: nat, b: nat, c: nat)
    requires a <= b <= c <= |s|
    ensures s[a..c] == s[a..b] + s[b..c]
  {
  }

  lemma FrontKept(was: seq<Byte>, now: seq<Byte>, at: nat, from: nat)
    requires from <= at <= |was| == |now| && now[..at] == was[..at]
    ensures now[from..at] == was[from..at]
  {
    assert now[from..at] == now[..at][from..];
    assert was[from..at] == was[..at][from..];
  }

  /** memmove to a lower place */
  method MoveDown(buf: array<Byte>, from: nat, to: nat, size: nat)
    requires to <= from && from + size <= buf.Length
    modifies buf
    ensures buf[to..to + size] == old(buf[from..from + size]) && buf[..to] == old(buf[..to])
  {
    forall i | 0 <= i < size {
      buf[to + i] := buf[from + i];
    }
  }

  lemma NoBody()
    ensures Concat([]) == []
  {
  }

  lemma BodyKept(was: seq<Byte>, now: seq<Byte>, len: nat, header: nat, size: nat)
    requires |was| == |now| && len <= header && header + size <= |was| && now[len..] == was[len..]
    ensures now[header..header + size] == was[header..header + size]
  {
    forall k | header <= k < header + size ensures now[k] == was[k] {
      assert now[len..][k - len] == was[len..][k - len];
    }
  }
}
