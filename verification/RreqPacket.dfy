/** The RREQ of aodvv2_writer.c, byte by byte, as it is sent and as it is read. */
module RreqPacket {
  import opened Bytes
  import opened TlvFormat
  import opened AddressTlvs
  import opened AddressTlvWriter
  import opened AddressBlocks
  import opened Compression
  import opened CompressionBound
  import opened MessageFormat
  import opened MessageWriter
  import opened MessageReader
  import opened TlvBlock
  import opened WireFormat
  import TlvWriter
  import PacketWriter

  // ---------- Its parts ----------

  /** The header of _cb_add_message_header for a RREQ: 16 byte addresses and a hop limit. */
  function RreqHeader(limit: Byte): (h: Header) {
    Header(10, 16, None, Some(limit), None, None)
  }

  lemma HeaderSize(limit: Byte)
    ensures GoodHeader(RreqHeader(limit)) && HeaderLength(RreqHeader(limit)) == 7
  {
  }

  /** The header of a RREQ as it is sent. */
  lemma RreqHeaderSent(size: Byte, limit: Byte)
    ensures HeaderBytes(RreqHeader(limit), size) + U16Bytes(0) == [10, 0x4F, 0, size, limit, 0, 0]
  {
    assert U16Bytes(size) == [0, size] && U16Bytes(0) == [0, 0];
  }

  /** The header of a RREQ with hop limit 255 and nothing else, as it is read. */
  lemma RreqHeaderRead(buf: seq<Byte>)
    requires buf == [10, 0x4F, 0, 7, 255, 0, 0]
    ensures ParseHeader(buf, 0, 7) == HeaderOk(Header(10, 16, None, Some(255), None, None), 7, 5)
  {
    hide ParseHeader;
    HeaderParsed(buf, 0, 7);
  }

  /** The sequence number and metric TLVs of a RREQ in a block of two addresses, as they are sent: for the first. */
  lemma TlvsSent(lo: Byte, hi: Byte, metric: Byte)
    ensures TlvBytes(Tlv(0, One(0), false, [lo, hi])) == [0, 0x50, 0, 2, lo, hi]
    ensures TlvBytes(Tlv(0x303, One(0), false, [metric])) == [3, 0xD0, 3, 0, 1, metric]
  {
  }

  /** The sequence number TLV as it is read. */
  lemma SequenceNumberRead(buf: seq<Byte>, at: nat, eob: nat)
    requires at + 6 <= eob <= |buf| && buf[at] == 0 && buf[at + 1] == 0x50 && buf[at + 2] == 0 && buf[at + 3] == 2
    ensures ParseTlv(buf, at, eob, 2) == TlvOk(TlvEntry(0, 0, 0, 2, false, buf[at + 4..at + 6]), at + 6)
  {
    hide ParseTlv;
    TlvParsed(buf, at, eob, 2);
  }

  /** The metric TLV of a RREQ, whose extension is the type of the metric. */
  lemma MetricRead(buf: seq<Byte>, at: nat, eob: nat)
    requires at + 6 <= eob <= |buf| && buf[at] == 3 && buf[at + 1] == 0xD0 && buf[at + 2] == 3 && buf[at + 3] == 0
      && buf[at + 4] == 1
    ensures ParseTlv(buf, at, eob, 2) == TlvOk(TlvEntry(0x303, 0, 0, 1, false, buf[at + 5..at + 6]), at + 6)
  {
    hide ParseTlv;
    TlvParsed(buf, at, eob, 2);
  }

  // ---------- The packet as it is read ----------

  /** The fields of a RREQ: its hop limit, the 15 bytes that the addresses of originator and target share, their last
   *  bytes, the two bytes of the sequence number as they lie in memory, and the metric. */
  datatype RreqFields = RreqFields(limit: Byte, net: seq<Byte>, orig: Byte, targ: Byte, lo: Byte, hi: Byte,
    metric: Byte)

  /** A packet with one RREQ of aodvv2_writer.c. */
  ghost predicate IsRreqPacket(buf: seq<Byte>, q: RreqFields) {
    && |q.net| == 15
    && buf == [0, 10, 0x4F, 0, 41, q.limit, 0, 0, 2, 0x80, 15] + q.net
      + [q.orig, q.targ, 0, 12, 0, 0x50, 0, 2, q.lo, q.hi, 3, 0xD0, 3, 0, 1, q.metric]
  }

  /** What the bytes of the packet are. */
  lemma RreqBytes(buf: seq<Byte>, q: RreqFields)
    requires IsRreqPacket(buf, q)
    ensures |buf| == 42
    ensures buf[0] == 0 && buf[1] == 10 && buf[2] == 0x4F && buf[3] == 0 && buf[4] == 41 && buf[5] == q.limit
    ensures buf[6] == 0 && buf[7] == 0 && buf[8] == 2 && buf[9] == 0x80 && buf[10] == 15 && buf[11..26] == q.net
    ensures buf[26] == q.orig && buf[27] == q.targ && buf[28] == 0 && buf[29] == 12 && buf[30] == 0 && buf[31] == 0x50
    ensures buf[32] == 0 && buf[33] == 2 && buf[34] == q.lo && buf[35] == q.hi
    ensures buf[36] == 3 && buf[37] == 0xD0 && buf[38] == 3 && buf[39] == 0 && buf[40] == 1 && buf[41] == q.metric
  {
  }

  /** The TLVs of the packet, for the first address. */
  lemma RreqTlvs(buf: seq<Byte>, q: RreqFields)
    requires IsRreqPacket(buf, q)
    ensures ParseBlock(buf, 28, 42, 2)
         == BlockOk([TlvEntry(0, 0, 0, 2, false, [q.lo, q.hi]), TlvEntry(0x303, 0, 0, 1, false, [q.metric])], 42)
  {
    hide ParseTlv, IsRreqPacket;
    RreqBytes(buf, q);
    TlvBlockParsed(buf, 28, 42, 2);
    SequenceNumberRead(buf, 30, 42);
    MetricRead(buf, 36, 42);
    assert buf[34..36] == [q.lo, q.hi] && buf[41..42] == [q.metric];
    assert ParseTlvs(buf, 42, 42, 42, 2) == BlockOk([], 42);
  }

  /** The addresses of the packet. */
  lemma RreqAddresses(buf: seq<Byte>, q: RreqFields)
    requires IsRreqPacket(buf, q)
    ensures ParseAddrBlock(buf, 8, 42, 16) == AddrOk(AddrBlock(2, q.net + [0], 15, 1, 26, Same(128)), 28)
    ensures var b := AddrBlock(2, q.net + [0], 15, 1, 26, Same(128));
      AddressBytes(buf, b, 16, 0) == q.net + [q.orig] && AddressBytes(buf, b, 16, 1) == q.net + [q.targ]
        && AddressPlen(buf, b, 16, 0) == 128 && AddressPlen(buf, b, 16, 1) == 128
  {
    hide ParseAddrBlock, IsRreqPacket;
    RreqBytes(buf, q);
    AddrBlockParsed(buf, 8, 42, 16);
  }

  /** A message with one block of addresses that fit, at the end of a packet. */
  lemma RreqMessages(buf: seq<Byte>, at: nat, eob: nat, consumed: bool)
    requires at < eob <= |buf| && ParseMessage(buf, at, eob).MessageOk?
    requires var m := ParseMessage(buf, at, eob);
      m.at == eob && |m.blocks| == 1 && m.blocks[0].block.midStart + m.blocks[0].block.midLen <= 16
    ensures ParseMessages(buf, at, eob, consumed) == ([ParseMessage(buf, at, eob)], Okay)
  {
    hide ParseMessage, CopyFails;
    var m := ParseMessage(buf, at, eob);
    CopyFailsOne(m.blocks[0]);
    assert m.blocks == [m.blocks[0]];
    assert ParseMessages(buf, eob, eob, consumed) == ([], Okay);
    assert [m] + [] == [m];
  }

  lemma RreqMessage(buf: seq<Byte>, q: RreqFields)
    requires IsRreqPacket(buf, q)
    ensures ParseMessage(buf, 1, 42) == MessageOk(
      RreqHeader(q.limit), [],
      [ReadBlock(AddrBlock(2, q.net + [0], 15, 1, 26, Same(128)),
        [TlvEntry(0, 0, 0, 2, false, [q.lo, q.hi]), TlvEntry(0x303, 0, 0, 1, false, [q.metric])])], 42)
  {
    hide ParseHeader, ParseBlock, ParseBlocks, IsRreqPacket;
    RreqBytes(buf, q);
    HeaderParsed(buf, 1, 42);
    TlvBlockParsed(buf, 6, 42, 0);
    assert ParseTlvs(buf, 8, 8, 42, 0) == BlockOk([], 8);
    RreqBlocks(buf, q);
  }

  lemma RreqBlocks(buf: seq<Byte>, q: RreqFields)
    requires IsRreqPacket(buf, q)
    ensures |buf| == 42
    ensures ParseBlocks(buf, 8, 42, 16) == BlocksOk([ReadBlock(AddrBlock(2, q.net + [0], 15, 1, 26, Same(128)),
      [TlvEntry(0, 0, 0, 2, false, [q.lo, q.hi]), TlvEntry(0x303, 0, 0, 1, false, [q.metric])])])
  {
    hide ParseAddrBlock, ParseBlock, IsRreqPacket;
    RreqBytes(buf, q);
    RreqAddresses(buf, q);
    RreqTlvs(buf, q);
    assert ParseBlocks(buf, 42, 42, 16) == BlocksOk([]);
  }

  /** The reader gets exactly this RREQ from the packet. */
  lemma RreqRead(buf: seq<Byte>, q: RreqFields, consumed: bool)
    requires IsRreqPacket(buf, q)
    ensures ParsePacket(buf, consumed) == PacketResult(Okay, None, [MessageOk(
      RreqHeader(q.limit), [],
      [ReadBlock(AddrBlock(2, q.net + [0], 15, 1, 26, Same(128)),
        [TlvEntry(0, 0, 0, 2, false, [q.lo, q.hi]), TlvEntry(0x303, 0, 0, 1, false, [q.metric])])], 42)])
  {
    hide ParsePacketStart, ParseMessage, ParseBlock, IsRreqPacket;
    RreqBytes(buf, q);
    PacketParsed(buf);
    RreqMessage(buf, q);
    RreqMessages(buf, 1, 42, consumed);
  }

  // ---------- The packet as it is sent ----------

  /** Originator and target as _cb_rreq_add_addresses gives them to the writer. */
  function RreqAddrs(q: RreqFields): (r: seq<Address>) {
    [Address(q.net + [q.orig], 128, [AddrTlv(0, [q.lo, q.hi]), AddrTlv(0x303, [q.metric])]),
     Address(q.net + [q.targ], 128, [])]
  }

  lemma RreqInput(q: RreqFields)
    requires |q.net| == 15 && q.orig != q.targ
    ensures var addrs := RreqAddrs(q);
      Input(addrs, 16) && GoodCuts([Cut(0, 1, 15, false)], addrs, 16)
  {
    var addrs := RreqAddrs(q);
    assert addrs[0].bytes[15] == q.orig && addrs[1].bytes[15] == q.targ;
    assert addrs[0].bytes[..15] == q.net && addrs[1].bytes[..15] == q.net;
    assert addrs[0..2] == addrs;
  }

  lemma RreqRuns(q: RreqFields)
    ensures RunsOf(RreqAddrs(q)) == [Run(0, 0, [[q.lo, q.hi]]), Run(0x303, 0, [[q.metric]])]
  {
    var block := RreqAddrs(q);
    var t, u := block[0].tlvs[0], block[0].tlvs[1];
    var s0, s1 := Scan([], []), Scan([], [Run(0, 0, [[q.lo, q.hi]])]);
    var s2 := Scan([], [Run(0, 0, [[q.lo, q.hi]]), Run(0x303, 0, [[q.metric]])]);
    assert Feed(s0, 0, t) == s1;
    assert ActiveAt(s1.open, 0x303) == 1;
    assert Feed(s1, 0, u) == s2;
    assert FeedAddress(s0, 0, block[0].tlvs, 0) == FeedAddress(s1, 0, block[0].tlvs, 1)
      == FeedAddress(s2, 0, block[0].tlvs, 2) == s2;
    assert FeedAddress(s2, 1, block[1].tlvs, 0) == s2;
    assert FeedBlock(s0, block, 0) == FeedBlock(s2, block, 1) == FeedBlock(s2, block, 2) == s2;
  }

  /** Its TLV block. */
  lemma RreqTlvsSent(q: RreqFields)
    requires forall a :: a in RreqAddrs(q) ==> a.Valid()
    ensures BlockTlvs(RreqAddrs(q))
         == [0, 0x50, 0, 2, q.lo, q.hi, 3, 0xD0, 3, 0, 1, q.metric]
  {
    hide TlvBytes;
    var block := RreqAddrs(q);
    RreqRuns(q);
    var t, u := Tlv(0, One(0), false, [q.lo, q.hi]), Tlv(0x303, One(0), false, [q.metric]);
    assert TlvsOf(block) == [t, u];
    TlvsBytesConcat([t], [u]);
    TlvsBytesOne(t);
    TlvsBytesOne(u);
    assert [t] + [u] == [t, u];
    TlvsSent(q.lo, q.hi, q.metric);
  }

  /** Its address block with a head of 15 bytes. */
  lemma RreqBlockSent(q: RreqFields)
    requires |q.net| == 15 && SameLength(RreqAddrs(q), 16)
    ensures AddrBlockBytes(RreqAddrs(q), 16, 15, false)
         == [2, 0x80, 15] + q.net + [q.orig, q.targ]
  {
    var block := RreqAddrs(q);
    assert TailLength(block, 16, 15) == 0;
    assert BlockFlags(block, 16, 15, false) == 0x80;
    assert HeadBytes(block[0], 15) == [15] + q.net;
    assert TailBytes(block[0], 0) == [] && PrefixBytes(block, 16, false) == [];
    assert block[..1][..0] == [] && block[..1] == [block[0]];
    assert Mids([], 15, 16) == [] && Mids(block[..1], 15, 16) == [q.orig];
    assert Mids(block, 15, 16) == [q.orig, q.targ];
  }

  /** What the writer makes of originator and target, in one block with a head of 15 bytes, is this packet. */
  lemma RreqSent(q: RreqFields)
    requires |q.net| == 15 && q.orig != q.targ
    ensures var h, addrs := RreqHeader(q.limit), RreqAddrs(q);
      && GoodHeader(h) && GoodCuts([Cut(0, 1, 15, false)], addrs, 16)
      && IsRreqPacket([0] + MessageBytes(h, [], [Cut(0, 1, 15, false)], addrs), q)
  {
    hide Input, GoodCut, CutBytes, Framed, IsRreqPacket;
    var h, addrs := RreqHeader(q.limit), RreqAddrs(q);
    var cut := Cut(0, 1, 15, false);
    RreqInput(q);
    RreqCut(q);
    assert CutsBytes([cut], addrs, 16) == CutBytes(cut, addrs, 16) + CutsBytes([], addrs, 16);
    assert CutsBytes([cut], addrs, 16) == CutBytes(cut, addrs, 16);
    assert TlvsBytes([]) == [];
    var back := [q.orig, q.targ, 0, 12, 0, 0x50, 0, 2, q.lo, q.hi, 3, 0xD0, 3, 0, 1, q.metric];
    RreqFramed(CutBytes(cut, addrs, 16), q.limit, q.net, back);
    PacketIs([0] + MessageBytes(h, [], [cut], addrs), q, back);
  }

  lemma PacketIs(buf: seq<Byte>, q: RreqFields, back: seq<Byte>)
    requires |q.net| == 15 && back == [q.orig, q.targ, 0, 12, 0, 0x50, 0, 2, q.lo, q.hi, 3, 0xD0, 3, 0, 1, q.metric]
    requires buf == [0, 10, 0x4F, 0, 41, q.limit, 0, 0, 2, 0x80, 15] + q.net + back
    ensures IsRreqPacket(buf, q)
  {
  }

  lemma RreqFramed(b: seq<Byte>, limit: Byte, net: seq<Byte>, back: seq<Byte>)
    requires |net| == 15 && |back| == 16 && b == [2, 0x80, 15] + net + back
    ensures [0] + Framed(RreqHeader(limit), [], b) == [0, 10, 0x4F, 0, 41, limit, 0, 0, 2, 0x80, 15] + net + back
  {
    hide Framed;
    HeaderInFront(b, limit);
    var front: seq<Byte> := [10, 0x4F, 0, 41, limit, 0, 0];
    Regroup([0], front, [2, 0x80, 15], net, back);
    assert [0] + front + [2, 0x80, 15] == [0, 10, 0x4F, 0, 41, limit, 0, 0, 2, 0x80, 15];
  }

  lemma HeaderInFront(b: seq<Byte>, limit: Byte)
    requires |b| == 34
    ensures Framed(RreqHeader(limit), [], b) == [10, 0x4F, 0, 41, limit, 0, 0] + b
  {
    hide *;
    HeaderSize(limit);
    RreqHeaderSent(41, limit);
    FramedBare(RreqHeader(limit), b, 41);
  }

  lemma FramedBare(h: Header, b: seq<Byte>, size: U16)
    requires GoodHeader(h) && HeaderLength(h) + |b| == size
    ensures Framed(h, [], b) == HeaderBytes(h, size) + U16Bytes(0) + b
  {
    hide *;
    var none: seq<Byte> := [];
    assert Low16(HeaderLength(h) + |none| + |b|) == size && Low16(|none|) == 0;
    var x := HeaderBytes(h, size) + U16Bytes(0);
    assert x + none == x;
    FramedIs(h, none, b, x + b);
  }

  lemma Regroup(a: seq<Byte>, b: seq<Byte>, c: seq<Byte>, d: seq<Byte>, e: seq<Byte>)
    ensures a + (b + (c + d + e)) == a + b + c + d + e
  {
  }

  lemma RreqCut(q: RreqFields)
    requires |q.net| == 15
    requires GoodCuts([Cut(0, 1, 15, false)], RreqAddrs(q), 16)
    ensures var cut, addrs := Cut(0, 1, 15, false), RreqAddrs(q);
      GoodCut(cut, addrs, 16) && CutBytes(cut, addrs, 16) == [2, 0x80, 15] + q.net
        + [q.orig, q.targ, 0, 12, 0, 0x50, 0, 2, q.lo, q.hi, 3, 0xD0, 3, 0, 1, q.metric]
  {
    hide AddrBlockBytes, BlockTlvs, Input, GoodCut, Compressed, SameLength, Address.Valid, U16Bytes;
    var cut, addrs := Cut(0, 1, 15, false), RreqAddrs(q);
    assert cut in [cut];
    BlockInput(cut, addrs, 16);
    assert BlockOf(cut, addrs) == addrs;
    RreqTlvsSent(q);
    RreqBlockSent(q);
    Twelve();
    RegroupBack([2, 0x80, 15], q.net, [q.orig, q.targ], [0, 12],
      [0, 0x50, 0, 2, q.lo, q.hi, 3, 0xD0, 3, 0, 1, q.metric]);
  }

  lemma Twelve()
    ensures U16Bytes(12) == [0, 12]
  {
  }

  lemma RegroupBack(a: seq<Byte>, b: seq<Byte>, c: seq<Byte>, d: seq<Byte>, e: seq<Byte>)
    ensures a + b + c + d + e == a + b + (c + d + e)
  {
  }

  // ---------- What the session makes of it ----------

  lemma RreqHeads(q: RreqFields)
    requires |q.net| == 15 && q.orig != q.targ
    ensures Input(RreqAddrs(q), 16)
    ensures HeadAt(RreqAddrs(q), 16, 0) == 0 && HeadAt(RreqAddrs(q), 16, 1) == 15 && HeadAt(RreqAddrs(q), 16, 2) == 0
  {
    RreqInput(q);
    var a, b := RreqAddrs(q)[0].bytes, RreqAddrs(q)[1].bytes;
    assert a[15] == q.orig && b[15] == q.targ;
    var h := CommonFrom(a, b, 0);
    assert forall j :: 0 <= j < 15 ==> a[j] == q.net[j] && b[j] == q.net[j];
  }

  /** The cost of a block for originator or target alone, with a head of i bytes. */
  lemma RreqCosts(q: RreqFields, i: nat)
    ensures NewCost(RreqAddrs(q)[0], 16, i) == 34 + if i > 0 then 1 else 0
    ensures NewCost(RreqAddrs(q)[1], 16, i) == 20 + if i > 0 then 1 else 0
  {
    var tlvs := RreqAddrs(q)[0].tlvs;
    assert tlvs[..1] == [tlvs[0]] && tlvs[..1][..0] == [];
    assert NewTlvs(tlvs[..1]) == 7;
    assert NewTlvs(tlvs) == 14;
  }

  /** Every strategy takes originator and target into one block. */
  lemma RreqTotals(q: RreqFields, i: nat)
    requires |q.net| == 15 && q.orig != q.targ && i < 16
    ensures Input(RreqAddrs(q), 16)
    ensures var s, t := After(RreqAddrs(q), 16, 1), After(RreqAddrs(q), 16, 2);
      var head := if i > 0 then 1 else 0;
      && s.same == 1 && s.acs[i].ptr == 0 && !s.acs[i].multiplen && s.acs[i].total == 34 + head
      && t.acs[i].ptr == 0 && !t.acs[i].multiplen && t.acs[i].total == 34 + head + 16 - i
  {
    hide Input, After, Counted, Closing, HeadAt, NewCost;
    RreqHeads(q);
    var addrs := RreqAddrs(q);
    AfterNone(addrs, 16);
    AfterStep(addrs, 16, 0, 15);
    AfterStep(addrs, 16, 0, i);
    RreqCosts(q, 15);
    RreqCosts(q, i);
    BestLast(After(addrs, 16, 1).acs, 16, 15);
    AfterStep(addrs, 16, 1, i);
  }

  /** The session finds room for both in 36 bytes, and puts them into one block with a head of 15 bytes. */
  lemma RreqChosen(q: RreqFields, room: int)
    requires |q.net| == 15 && q.orig != q.targ && room >= 36
    ensures Input(RreqAddrs(q), 16) && StopsAt(RreqAddrs(q), 16, room, 2)
    ensures Backward(Marks(RreqAddrs(q), 16), 2) && CutsOf(Marks(RreqAddrs(q), 16), 2) == [Cut(0, 1, 15, false)]
  {
    hide Input, After, Meet, Best, HeadAt;
    var addrs := RreqAddrs(q);
    RreqHeads(q);
    RreqTotals(q, 0);
    RreqTotals(q, 15);
    forall k | 0 <= k < 2 ensures RoomFor(addrs, 16, k, room) {
      PaidAt(addrs, 16, k + 1, 15);
      assert Affordable(Meet(After(addrs, 16, k), addrs, k, 16).acs[15], k, room);
    }
    var acs := After(addrs, 16, 2).acs;
    forall i | 0 <= i < 15 ensures acs[15].total < acs[i].total {
      RreqTotals(q, i);
    }
    BestFifteen(acs);
    MarksBack(addrs, 16);
    assert Marks(addrs, 16)[1] == Mark(0, -1, 15, false);
  }

  lemma BestFifteen(acs: seq<Strategy>)
    requires |acs| == 16 && forall i :: 0 <= i < 15 ==> acs[15].total < acs[i].total
    ensures Best(acs, 0, 16) == 15
  {
    var b := Best(acs, 0, 16);
    assert acs[b].total <= acs[15].total;
  }

  lemma RreqShort(q: RreqFields)
    requires |q.net| == 15 && q.orig != q.targ
    ensures Input(RreqAddrs(q), 16) && OnePrefixLength(RreqAddrs(q)) && ShortValues(RreqAddrs(q))
  {
    RreqInput(q);
  }

  lemma OneStop(addrs: seq<Address>, len: nat, room: int, a: nat, b: nat)
    requires Input(addrs, len) && StopsAt(addrs, len, room, a) && StopsAt(addrs, len, room, b)
    ensures a == b
  {
    hide RoomFor;
  }

  /** The bytes of a message that was created are the packet behind a header without sequence number. */
  lemma RreqMessageIs(bytes: seq<Byte>, q: RreqFields)
    requires |q.net| == 15 && q.orig != q.targ
    requires IsMessage(bytes, RreqHeader(q.limit), [], [Cut(0, 1, 15, false)], RreqAddrs(q))
    ensures IsRreqPacket([0] + bytes, q) && |bytes| == 41
  {
    hide MessageBytes, MessageSize, GoodCuts, Partition, GoodHeader, TlvWriter.AllPlain, IsRreqPacket;
    RreqSent(q);
    RreqBytes([0] + bytes, q);
  }

  /** A message without message TLVs whose addresses the session takes, with one prefix length and short values. */
  method CreateBare(data: TlvWriter.Data, h: Header, addrs: seq<Address>, mandatory: seq<bool>)
    returns (bytes: seq<Byte>)
    requires data.Valid() && GoodHeader(h) && data.header == HeaderLength(h) && data.buffer.Length < 0x1_0000
    requires data.added == data.reserved == 0 && data.addedTlvs == [] && data.header <= data.max
    requires Input(addrs, h.addrLen) && |mandatory| == |addrs| && OnePrefixLength(addrs) && ShortValues(addrs)
    requires StopsAt(addrs, h.addrLen, data.max - data.header, |addrs|)
    modifies data`set_, data`setTlvs, data.buffer
    ensures Backward(Marks(addrs, h.addrLen), |addrs|)
    ensures IsMessage(bytes, h, [], CutsOf(Marks(addrs, h.addrLen), |addrs|), addrs)
  {
    hide *;
    ghost var room := data.max - data.header;
    var r, cuts, stop := CreateMessage(data, h, [], addrs, mandatory);
    OneStop(addrs, h.addrLen, room, stop, |addrs|);
    bytes := r.bytes;
    NoneAccepted(data.reserved);
    assert data.addedTlvs + data.setTlvs == [];
  }

  /** aodvv2_writer_send_rreq up to the bytes of the message. */
  method CreateRreq(data: TlvWriter.Data, q: RreqFields) returns (bytes: seq<Byte>)
    requires |q.net| == 15 && q.orig != q.targ
    requires data.Valid() && data.header == 7 && data.added == data.reserved == 0 && data.addedTlvs == []
    requires 43 <= data.max && data.buffer.Length < 0x1_0000
    modifies data`set_, data`setTlvs, data.buffer
    ensures IsRreqPacket([0] + bytes, q) && |bytes| == 41
  {
    hide *;
    HeaderFits(q);
    RreqChosen(q, data.max - 7);
    RreqShort(q);
    bytes := CreateBare(data, RreqHeader(q.limit), RreqAddrs(q), [true, true]);
    RreqMessageIs(bytes, q);
  }

  lemma HeaderFits(q: RreqFields)
    ensures GoodHeader(RreqHeader(q.limit)) && HeaderLength(RreqHeader(q.limit)) == 7
    ensures RreqHeader(q.limit).addrLen == 16 && |RreqAddrs(q)| == 2
  {
    HeaderSize(q.limit);
  }

  /** aodvv2_writer_send_rreq and the flush behind it (aodvv2.c): exactly one packet leaves, with exactly this RREQ. */
  method SendRreq(data: TlvWriter.Data, target: PacketWriter.Target, q: RreqFields)
    requires |q.net| == 15 && q.orig != q.targ
    requires data.Valid() && data.header == 7 && data.added == data.reserved == 0 && data.addedTlvs == []
    requires 43 <= data.max && data.buffer.Length < 0x1_0000
    requires target.Valid() && target.isFlushed && !target.wantsSeqno && 44 <= target.buffer.Length
    requires data.buffer != target.buffer
    modifies data`set_, data`setTlvs, data.buffer, target, target.buffer
    ensures target.Valid() && target.isFlushed
    ensures |target.sent| == |old(target.sent)| + 1 && target.sent[..|old(target.sent)|] == old(target.sent)
    ensures IsRreqPacket(target.sent[|old(target.sent)|], q)
  {
    hide IsRreqPacket, PacketWriter.Messages, PacketWriter.Concat, PacketWriter.PacketHeader, TlvWriter.Data.Valid;
    var bytes := CreateRreq(data, q);
    target.AddMessage(bytes);
    target.Flush(false);
    OneMessage(target.seqno, bytes);
  }

  lemma NoneAccepted(room: nat)
    ensures MessageWriter.Accepted([], room) == []
  {
  }

  lemma OneMessage(seqno: U16, bytes: seq<Byte>)
    ensures PacketWriter.PacketHeader(false, seqno) + PacketWriter.Concat([bytes]) == [0] + bytes
    ensures PacketWriter.Concat([] + [bytes]) == PacketWriter.Concat([bytes])
  {
    assert PacketWriter.Concat([bytes]) == bytes + PacketWriter.Concat([]);
    assert [] + [bytes] == [bytes];
  }
}
