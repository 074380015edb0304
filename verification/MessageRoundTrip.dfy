/** The reader undoes the writer: header, message TLVs, and every address with its prefix length and its own TLVs. */
module MessageRoundTrip {
  import opened Bytes
  import opened TlvFormat
  import opened TlvBlock
  import opened AddressTlvs
  import opened AddressTlvWriter
  import opened AddressBlocks
  import opened AddressDecode
  import opened Compression
  import opened MessageFormat
  import opened MessageWriter
  import opened MessageReader
  import TlvWriter
  import opened PacketWriter

  // ---------- Header ----------

  lemma HeaderParts(buf: seq<Byte>, p: nat, end: nat, h: Header, size: U16)
    requires GoodHeader(h) && Has(buf, p, end, HeaderBytes(h, size))
    ensures var o, l, c := |OptionalField(h.orig)|, |Optional8(h.hopLimit)|, |Optional8(h.hopCount)|;
      && Has(buf, p, end, [h.msgType]) && Has(buf, p + 1, end, [HeaderFlags(h)]) && Has(buf, p + 2, end, U16Bytes(size))
      && Has(buf, p + 4, end, OptionalField(h.orig)) && Has(buf, p + 4 + o, end, Optional8(h.hopLimit))
      && Has(buf, p + 4 + o + l, end, Optional8(h.hopCount)) && Has(buf, p + 4 + o + l + c, end, Optional16(h.seqno))
      && |HeaderBytes(h, size)| == 4 + o + l + c + |Optional16(h.seqno)|
  {
    hide Has, HeaderFlags, U16Bytes, OptionalField, Optional8, Optional16;
    var b := [h.msgType, HeaderFlags(h)];
    var s, o, l, c, q := U16Bytes(size), OptionalField(h.orig), Optional8(h.hopLimit), Optional8(h.hopCount),
      Optional16(h.seqno);
    HasConcat(buf, p, end, b + s + o + l + c, q);
    HasConcat(buf, p, end, b + s + o + l, c);
    HasConcat(buf, p, end, b + s + o, l);
    HasConcat(buf, p, end, b + s, o);
    HasConcat(buf, p, end, b, s);
    assert b == [h.msgType] + [HeaderFlags(h)];
    HasConcat(buf, p, end, [h.msgType], [HeaderFlags(h)]);
  }

  lemma ReadOptional8(buf: seq<Byte>, p: nat, eob: nat, x: Option<Byte>)
    requires Has(buf, p, eob, Optional8(x))
    ensures p <= eob <= |buf|
    ensures OptionalU8(buf, x.Some?, Cursor(p, Okay), eob) == (x, Cursor(p + |Optional8(x)|, Okay))
  {
    if x.Some? {
      ReadU8(buf, p, eob, x.value);
    }
  }

  lemma ReadOptional16(buf: seq<Byte>, p: nat, eob: nat, x: Option<U16>)
    requires Has(buf, p, eob, Optional16(x))
    ensures p <= eob <= |buf|
    ensures OptionalU16(buf, x.Some?, Cursor(p, Okay), eob) == (x, Cursor(p + |Optional16(x)|, Okay))
  {
    if x.Some? {
      ReadU16(buf, p, eob, x.value);
    }
  }

  lemma ReadOrig(buf: seq<Byte>, p: nat, eob: nat, x: Option<seq<Byte>>)
    requires Has(buf, p, eob, OptionalField(x))
    ensures p + |OptionalField(x)| <= eob <= |buf|
    ensures x.Some? ==> buf[p..p + |x.value|] == x.value
  {
  }

  /** The reader undoes HeaderBytes. */
  lemma ReadHeader(buf: seq<Byte>, p: nat, eob: nat, h: Header, size: U16)
    requires GoodHeader(h) && Has(buf, p, eob, HeaderBytes(h, size)) && p + size <= eob
    ensures ParseHeader(buf, p, eob) == HeaderOk(h, size, p + |HeaderBytes(h, size)|)
  {
    hide Has, HeaderBytes, U16Bytes, OptionalField, Optional8, Optional16, OptionalU8, OptionalU16, MsgBits, HasFlag,
      GetU8, GetU16;
    HeaderParts(buf, p, eob, h, size);
    MsgBitsRead(h.addrLen, h.orig.Some?, h.hopLimit.Some?, h.hopCount.Some?, h.seqno.Some?);
    ReadU8(buf, p, eob, h.msgType);
    ReadU8(buf, p + 1, eob, HeaderFlags(h));
    ReadU16(buf, p + 2, eob, size);
    OrigSize(h);
    ReadOrig(buf, p + 4, eob, h.orig);
    var p1 := p + 4 + |OptionalField(h.orig)|;
    ReadOptional8(buf, p1, eob, h.hopLimit);
    var p2 := p1 + |Optional8(h.hopLimit)|;
    ReadOptional8(buf, p2, eob, h.hopCount);
    ReadOptional16(buf, p2 + |Optional8(h.hopCount)|, eob, h.seqno);
  }

  lemma OrigSize(h: Header)
    requires GoodHeader(h)
    ensures |OptionalField(h.orig)| == if h.orig.Some? then h.addrLen else 0
  {
  }

  // ---------- Address blocks ----------

  /** A parsed block whose addresses can be assembled. */
  ghost predicate Sound(buf: seq<Byte>, b: ReadBlock, len: nat) {
    WithinBuffer(b.block, |buf|) && MidFits(b.block, len) && forall e :: e in InsertAll(b.entries) ==> e.Sound()
  }

  /** The addresses of a block as the consumers see them (schedule_msgaddr_consumer), with the TLVs that a walk of the
   *  TLV tree finds for them. */
  ghost function BlockAddresses(buf: seq<Byte>, b: ReadBlock, len: nat): (r: seq<Address>)
    requires Sound(buf, b, len)
    ensures |r| == b.block.num
  {
    seq(b.block.num, i requires 0 <= i < b.block.num =>
      AddressAt(buf, b, len, i))
  }

  ghost function AddressAt(buf: seq<Byte>, b: ReadBlock, len: nat, i: nat): (r: Address)
    requires Sound(buf, b, len) && i < b.block.num
  {
    Address(AddressBytes(buf, b.block, len, i), AddressPlen(buf, b.block, len, i), Found(InsertAll(b.entries), i))
  }

  ghost function Addresses(buf: seq<Byte>, bs: seq<ReadBlock>, len: nat): (r: seq<Address>)
    requires forall b :: b in bs ==> Sound(buf, b, len)
  {
    if bs == [] then [] else BlockAddresses(buf, bs[0], len) + Addresses(buf, bs[1..], len)
  }

  lemma {:induction false} ValueFits(ts: seq<Tlv>, k: nat)
    requires k < |ts|
    ensures |ts[k].value| <= |TlvsBytes(ts)|
  {
    hide TlvBytes;
    if k < |ts| - 1 {
      ValueFits(ts[..|ts| - 1], k);
    } else {
      TlvBytesLong(ts[k]);
    }
  }

  /** A TLV block of less than 64K has values of less than 64K, and the reader can read it. */
  lemma BlockReadable(block: seq<Address>)
    requires |block| <= 255 && (forall a :: a in block ==> a.Valid()) && |BlockTlvs(block)| < 0x1_0000
    ensures forall t :: t in TlvsOf(block) ==> |t.value| < 0x1_0000 && Readable(t, |block|)
  {
    hide TlvsOf, Readable, TlvsBytes, Writable, RunsOf;
    var ts := TlvsOf(block);
    forall t | t in ts ensures |t.value| < 0x1_0000 {
      var k :| 0 <= k < |ts| && ts[k] == t;
      ValueFits(ts, k);
    }
    TlvsReadable(block);
  }

  lemma CutParts(buf: seq<Byte>, p: nat, end: nat, b: seq<Byte>, t: seq<Byte>)
    requires |t| < 0x1_0000 && Has(buf, p, end, b + U16Bytes(|t|) + t)
    ensures Has(buf, p, end, b) && Has(buf, p + |b|, end, U16Bytes(|t|) + t) && p + |b| <= end
  {
    hide U16Bytes;
    assert b + U16Bytes(|t|) + t == b + (U16Bytes(|t|) + t);
    HasConcat(buf, p, end, b, U16Bytes(|t|) + t);
  }

  lemma HasEnd(buf: seq<Byte>, p: nat, end: nat, b: seq<Byte>)
    requires Has(buf, p, end, b)
    ensures p + |b| <= end <= |buf|
  {
  }

  /** The reader undoes an address block and its TLV block. */
  lemma ReadBlocksBytes(buf: seq<Byte>, p: nat, end: nat, block: seq<Address>, len: nat, head: nat, multi: bool)
    requires Compressed(block, len, head, multi) && SameLength(block, len) && (forall a :: a in block ==> a.Valid())
    requires |BlockTlvs(block)| < 0x1_0000 && p <= end <= |buf|
    requires Has(buf, p, end, AddrBlockBytes(block, len, head, multi) + U16Bytes(|BlockTlvs(block)|) + BlockTlvs(block))
    ensures var a := ParseAddrBlock(buf, p, end, len);
      && a.AddrOk? && a.at <= end
      && var t := ParseBlock(buf, a.at, end, a.block.num);
      && t.BlockOk? && t.at == p + |AddrBlockBytes(block, len, head, multi)| + 2 + |BlockTlvs(block)|
      && Sound(buf, ReadBlock(a.block, t.entries), len)
        && BlockAddresses(buf, ReadBlock(a.block, t.entries), len) == block
  {
    hide Has, AddrBlockBytes, Compressed, SameLength, U16Bytes, ParseAddrBlock, ParseBlock, TlvsOf, EntriesOf,
      TlvsBytes, Readable, Rebuilds, Sound, Address.Valid, InsertAll, Found, BlockAddresses;
    CompressedFacts(block, len, head, multi);
    var b, t := AddrBlockBytes(block, len, head, multi), BlockTlvs(block);
    BlockReadable(block);
    CutParts(buf, p, end, b, t);
    ReadAddrBlock(buf, p, end, block, len, head, multi);
    ReadTlvBlock(buf, p + |b|, end, |block|, TlvsOf(block));
    BlockBack(buf, ParseAddrBlock(buf, p, end, len).block, block, len);
  }

  lemma CompressedFacts(block: seq<Address>, len: nat, head: nat, multi: bool)
    requires Compressed(block, len, head, multi)
    ensures 0 < |block| <= 255 && head < len <= MAX_ADDRLEN
  {
  }

  /** The reader undoes CutBytes. */
  lemma ReadCut(buf: seq<Byte>, p: nat, end: nat, c: Cut, addrs: seq<Address>, len: nat)
    requires Input(addrs, len) && GoodCut(c, addrs, len) && p <= end <= |buf| && len <= MAX_ADDRLEN
    requires Has(buf, p, end, CutBytes(c, addrs, len)) && |CutBytes(c, addrs, len)| < 0x1_0000
    ensures var a := ParseAddrBlock(buf, p, end, len);
      && a.AddrOk? && a.at <= end
      && var t := ParseBlock(buf, a.at, end, a.block.num);
      && t.BlockOk? && t.at == p + |CutBytes(c, addrs, len)| && Sound(buf, ReadBlock(a.block, t.entries), len)
      && BlockAddresses(buf, ReadBlock(a.block, t.entries), len) == BlockOf(c, addrs)
  {
    hide Has, AddrBlockBytes, Compressed, SameLength, Input, GoodCut, ParseAddrBlock, ParseBlock, Sound, Address.Valid,
      BlockAddresses, CutBytes, BlockTlvs, BlockOf, U16Bytes, Low16;
    BlockInput(c, addrs, len);
    CutBytesIs(c, addrs, len);
    var size := |BlockTlvs(BlockOf(c, addrs))|;
    assert size < 0x1_0000;
    assert Low16(size) == size;
    ReadBlocksBytes(buf, p, end, BlockOf(c, addrs), len, c.head, c.multi);
  }

  lemma CutBytesIs(c: Cut, addrs: seq<Address>, len: nat)
    requires Input(addrs, len) && GoodCut(c, addrs, len)
    ensures c.start <= c.end < |addrs|
    ensures var b := BlockOf(c, addrs);
      && SameLength(b, len) && |b| <= 255 && c.head < len <= MAX_ADDRLEN && (forall a :: a in b ==> a.Valid())
      && CutBytes(c, addrs, len)
        == AddrBlockBytes(b, len, c.head, c.multi) + U16Bytes(Low16(|BlockTlvs(b)|)) + BlockTlvs(b)
  {
    hide AddrBlockBytes, BlockTlvs, Compressed, Input, GoodCut;
    BlockInput(c, addrs, len);
  }

  /** Bytes, prefix lengths and TLVs together are the addresses. */
  lemma BlockBack(buf: seq<Byte>, b: AddrBlock, block: seq<Address>, len: nat)
    requires 0 < |block| <= 255 && (forall a :: a in block ==> a.Valid()) && Rebuilds(buf, b, block, len)
    requires forall t :: t in TlvsOf(block) ==> |t.value| < 0x1_0000 && Readable(t, |block|)
    ensures var r := ReadBlock(b, EntriesOf(TlvsOf(block), |block|));
      b.num == |block| && Sound(buf, r, len) && BlockAddresses(buf, r, len) == block
  {
    hide TlvsOf, EntriesOf, Readable, Address.Valid, InsertAll, Found, AddressBytes, AddressPlen;
    var r := ReadBlock(b, EntriesOf(TlvsOf(block), |block|));
    DecodeBlock(block, 0);
    assert Sound(buf, r, len);
    forall i | 0 <= i < |block| ensures AddressAt(buf, r, len, i) == block[i] {
      DecodeBlock(block, i);
    }
  }

  /** The reader undoes CutsBytes: the addresses that the consumers see are those that were written, from a on. */
  lemma {:induction false} ReadCuts(buf: seq<Byte>, p: nat, end: nat, cuts: seq<Cut>, addrs: seq<Address>, len: nat,
                                    a: nat)
    requires GoodCuts(cuts, addrs, len) && Partition(cuts, addrs, len, a, |addrs|) && a <= |addrs| && len <= MAX_ADDRLEN
    requires Has(buf, p, end, CutsBytes(cuts, addrs, len)) && end == p + |CutsBytes(cuts, addrs, len)| <= |buf|
      && end - p < 0x1_0000
    ensures var r := ParseBlocks(buf, p, end, len);
      && r.BlocksOk? && (forall b :: b in r.blocks ==> Sound(buf, b, len))
      && Addresses(buf, r.blocks, len) == addrs[a..]
    decreases |cuts|
  {
    hide Has, CutBytes, Input, GoodCut, ParseAddrBlock, ParseBlock, Sound, BlockAddresses, BlockOf, Compressed;
    HasEnd(buf, p, end, CutsBytes(cuts, addrs, len));
    if cuts != [] {
      var c, rest := cuts[0], cuts[1..];
      HasConcat(buf, p, end, CutBytes(c, addrs, len), CutsBytes(rest, addrs, len));
      CutBytesLong(c, addrs, len);
      ReadCut(buf, p, end, c, addrs, len);
      PartitionFrom(rest, addrs, len, c.end + 1, |addrs|);
      ReadCuts(buf, p + |CutBytes(c, addrs, len)|, end, rest, addrs, len, c.end + 1);
      OneMoreCut(addrs, c, len, a);
    }
  }

  lemma OneMoreCut(addrs: seq<Address>, c: Cut, len: nat, a: nat)
    requires GoodCut(c, addrs, len) && c.start == a
    ensures addrs[a..] == BlockOf(c, addrs) + addrs[c.end + 1..]
  {
  }

  lemma CutBytesLong(c: Cut, addrs: seq<Address>, len: nat)
    requires Input(addrs, len) && GoodCut(c, addrs, len)
    ensures |CutBytes(c, addrs, len)| > 0
  {
    hide BlockTlvs, AddrBlockBytes, Compressed;
  }

  // ---------- Messages ----------

  lemma PlainReadable(ts: seq<Tlv>)
    requires TlvWriter.AllPlain(ts)
    ensures forall t :: t in ts ==> Readable(t, 0)
  {
  }

  lemma MessageParts(buf: seq<Byte>, p: nat, end: nat, hb: seq<Byte>, tb: seq<Byte>, b: seq<Byte>)
    requires |tb| < 0x1_0000 && Has(buf, p, end, hb + U16Bytes(|tb|) + tb + b)
    ensures Has(buf, p, end, hb) && Has(buf, p + |hb|, end, U16Bytes(|tb|) + tb)
      && Has(buf, p + |hb| + 2 + |tb|, end, b)
    ensures p + |hb| + 2 + |tb| + |b| <= end <= |buf|
  {
    hide U16Bytes;
    HasConcat(buf, p, end, hb + U16Bytes(|tb|) + tb, b);
    assert hb + U16Bytes(|tb|) + tb == hb + (U16Bytes(|tb|) + tb);
    HasConcat(buf, p, end, hb, U16Bytes(|tb|) + tb);
  }

  /** A parsed message is the one that was written: its header, its message TLVs, and its addresses in order, each with
   *  its prefix length and exactly its own TLVs. */
  ghost predicate Same(buf: seq<Byte>, r: MessageResult, h: Header, ts: seq<Tlv>, addrs: seq<Address>)
    requires forall t :: t in ts ==> Readable(t, 0)
  {
    && r.MessageOk? && r.header == h && r.tlvs == EntriesOf(ts, 0)
    && (forall b :: b in r.blocks ==> Sound(buf, b, h.addrLen))
    && Addresses(buf, r.blocks, h.addrLen) == addrs
  }

  lemma MessageIs(bytes: seq<Byte>, h: Header, ts: seq<Tlv>, cuts: seq<Cut>, addrs: seq<Address>)
    requires IsMessage(bytes, h, ts, cuts, addrs)
    ensures |bytes| < 0x1_0000 && |TlvsBytes(ts)| < 0x1_0000 && 1 <= h.addrLen <= MAX_ADDRLEN
    ensures bytes
      == HeaderBytes(h, |bytes|) + U16Bytes(|TlvsBytes(ts)|) + TlvsBytes(ts) + CutsBytes(cuts, addrs, h.addrLen)
    ensures |bytes| == |HeaderBytes(h, |bytes|)| + 2 + |TlvsBytes(ts)| + |CutsBytes(cuts, addrs, h.addrLen)|
  {
    hide CutsBytes, TlvsBytes, TlvBytes, HeaderBytes, HeaderLength, GoodHeader, GoodCuts, Partition, U16Bytes, Low16;
    HeaderSize(h, |bytes|);
    LengthBounds(h, addrs);
    var n, m := MessageSize(h, ts, cuts, addrs), |TlvsBytes(ts)|;
    assert m <= n < 0x1_0000;
    assert Low16(n) == n && Low16(m) == m;
  }

  /** The reader undoes the writer, whatever stands before or behind the message, and stops at its end. */
  lemma ReadMessage(buf: seq<Byte>, p: nat, eob: nat, bytes: seq<Byte>, h: Header, ts: seq<Tlv>, cuts: seq<Cut>,
                    addrs: seq<Address>)
    requires IsMessage(bytes, h, ts, cuts, addrs) && Has(buf, p, eob, bytes)
    ensures p <= eob <= |buf| && forall t :: t in ts ==> Readable(t, 0)
    ensures var r := ParseMessage(buf, p, eob); Same(buf, r, h, ts, addrs) && r.at == p + |bytes|
  {
    hide Has, HeaderBytes, U16Bytes, TlvsBytes, CutsBytes, ParseHeader, ParseBlock, ParseBlocks, Partition, GoodCut,
      Input, EntriesOf, Readable, Sound, Addresses, HeaderFlags, MessageBytes, MessageSize, HeaderLength, TlvBytes,
      GoodHeader, Compressed;
    var size, end := |bytes|, p + |bytes|;
    var tb, b := TlvsBytes(ts), CutsBytes(cuts, addrs, h.addrLen);
    MessageIs(bytes, h, ts, cuts, addrs);
    var hb := HeaderBytes(h, size);
    PlainReadable(ts);
    Shrink(buf, p, eob, bytes);
    MessageParts(buf, p, end, hb, tb, b);
    HasLater(buf, p, end, eob, hb);
    ReadHeader(buf, p, eob, h, size);
    ReadTlvBlock(buf, p + |hb|, end, 0, ts);
    ReadCuts(buf, p + |hb| + 2 + |tb|, end, cuts, addrs, h.addrLen, 0);
    assert addrs[0..] == addrs;
  }

  lemma LengthBounds(h: Header, addrs: seq<Address>)
    requires GoodHeader(h)
    ensures 1 <= h.addrLen <= MAX_ADDRLEN
  {
  }

  lemma HeaderSize(h: Header, size: U16)
    requires GoodHeader(h)
    ensures HeaderLength(h) == |HeaderBytes(h, size)| + 2
  {
  }

  lemma Shrink(buf: seq<Byte>, p: nat, eob: nat, b: seq<Byte>)
    requires Has(buf, p, eob, b)
    ensures Has(buf, p, p + |b|, b) && p + |b| <= eob <= |buf|
  {
  }

  lemma HasLater(buf: seq<Byte>, p: nat, end: nat, eob: nat, b: seq<Byte>)
    requires Has(buf, p, end, b) && end <= eob <= |buf|
    ensures Has(buf, p, eob, b)
  {
  }

  // ---------- Packets ----------

  /** A message as the writer made it. */
  datatype Source = Source(bytes: seq<Byte>, h: Header, ts: seq<Tlv>, cuts: seq<Cut>, addrs: seq<Address>)

  ghost predicate Made(w: Source) {
    IsMessage(w.bytes, w.h, w.ts, w.cuts, w.addrs)
  }

  ghost predicate SameAs(buf: seq<Byte>, r: MessageResult, w: Source) {
    (forall t :: t in w.ts ==> Readable(t, 0)) && Same(buf, r, w.h, w.ts, w.addrs)
  }

  ghost predicate AllSame(buf: seq<Byte>, rs: seq<MessageResult>, ws: seq<Source>) {
    |rs| == |ws| && forall k :: 0 <= k < |rs| ==> SameAs(buf, rs[k], ws[k])
  }

  ghost function Bodies(ws: seq<Source>): (r: seq<seq<Byte>>) {
    seq(|ws|, k requires 0 <= k < |ws| => ws[k].bytes)
  }

  lemma MadeLong(w: Source)
    requires Made(w)
    ensures |w.bytes| > 0
  {
    hide CutsBytes, TlvsBytes, HeaderBytes, Input, GoodCut, Partition, U16Bytes;
    MessageIs(w.bytes, w.h, w.ts, w.cuts, w.addrs);
  }

  lemma {:induction false} ReadMessages(buf: seq<Byte>, p: nat, ws: seq<Source>, consumed: bool)
    requires (forall w :: w in ws ==> Made(w)) && Has(buf, p, |buf|, Concat(Bodies(ws)))
      && p + |Concat(Bodies(ws))| == |buf|
    ensures var (ms, status) := ParseMessages(buf, p, |buf|, consumed); status == Okay && AllSame(buf, ms, ws)
    decreases |ws|
  {
    hide Has, Made, SameAs, ParseMessage, CopyFails;
    if ws != [] {
      var w, rest := ws[0], ws[1..];
      assert Bodies(ws)[1..] == Bodies(rest);
      HasConcat(buf, p, |buf|, w.bytes, Concat(Bodies(rest)));
      MadeLong(w);
      ReadOne(buf, p, w);
      ReadMessages(buf, p + |w.bytes|, rest, consumed);
      var m := ParseMessage(buf, p, |buf|);
      SameFits(buf, m, w);
      var (ms, status) := ParseMessages(buf, p + |w.bytes|, |buf|, consumed);
      OneMoreSame(buf, m, w, ms, ws);
    }
  }

  /** The addresses of a message that the writer made fit their buffers. */
  lemma SameFits(buf: seq<Byte>, r: MessageResult, w: Source)
    requires SameAs(buf, r, w)
    ensures r.MessageOk? && !CopyFails(r.blocks)
  {
    hide WithinBuffer, Addresses, EntriesOf, Readable;
  }

  lemma OneMoreSame(buf: seq<Byte>, m: MessageResult, w: Source, ms: seq<MessageResult>, ws: seq<Source>)
    requires ws != [] && ws[0] == w && SameAs(buf, m, w) && AllSame(buf, ms, ws[1..])
    ensures AllSame(buf, [m] + ms, ws)
  {
    hide SameAs;
  }

  lemma ReadOne(buf: seq<Byte>, p: nat, w: Source)
    requires Made(w) && Has(buf, p, |buf|, w.bytes)
    ensures p + |w.bytes| <= |buf|
    ensures var r := ParseMessage(buf, p, |buf|); r.MessageOk? && r.at == p + |w.bytes| && SameAs(buf, r, w)
  {
    hide IsMessage, ParseMessage, Sound, Addresses, EntriesOf, Readable;
    HasEnd(buf, p, |buf|, w.bytes);
    ReadMessage(buf, p, |buf|, w.bytes, w.h, w.ts, w.cuts, w.addrs);
  }

  /** The reader undoes the packets of the writer: it accepts a packet of the form that Flush sends and finds its
   *  sequence number and its messages in order, with and without an address consumer. */
  lemma ReadPacket(buf: seq<Byte>, hasSeqno: bool, seqno: U16, ws: seq<Source>, consumed: bool)
    requires (forall w :: w in ws ==> Made(w)) && |buf| <= 65535
      && buf == PacketHeader(hasSeqno, seqno) + Concat(Bodies(ws))
    ensures var r := ParsePacket(buf, consumed);
      r.status == Okay && r.seqno == (if hasSeqno then Some(seqno) else None) && AllSame(buf, r.messages, ws)
  {
    hide Made, SameAs, ParseMessage, AllSame, Concat, Has;
    var h, b := PacketHeader(hasSeqno, seqno), Concat(Bodies(ws));
    WholeHas(buf);
    HasConcat(buf, 0, |buf|, h, b);
    ReadMessages(buf, |h|, ws, consumed);
    ReadPacketHeader(buf, hasSeqno, seqno);
  }

  lemma WholeHas(buf: seq<Byte>)
    ensures Has(buf, 0, |buf|, buf)
  {
  }

  lemma ReadPacketHeader(buf: seq<Byte>, hasSeqno: bool, seqno: U16)
    requires |buf| <= 65535 && Has(buf, 0, |buf|, PacketHeader(hasSeqno, seqno))
    ensures ParsePacketStart(buf)
      == PacketStart(Okay, if hasSeqno then Some(seqno) else None, |PacketHeader(hasSeqno, seqno)|)
  {
    hide Has, ParseBlock;
    if hasSeqno {
      HasConcat(buf, 0, |buf|, [PacketWriter.PKT_SEQNO], U16Bytes(seqno));
      ReadU8(buf, 0, |buf|, PacketWriter.PKT_SEQNO);
      ReadU16(buf, 1, |buf|, seqno);
    } else {
      ReadU8(buf, 0, |buf|, 0);
    }
  }

  /** Every packet that a target has sent, of messages that the writer made, is read back: sequence number and
   *  messages. */
  lemma ReadSent(t: Target, k: nat, ws: seq<Source>, consumed: bool)
    requires t.Valid() && t.buffer.Length <= 65535 && k < |t.sent|
    requires (forall w :: w in ws ==> Made(w)) && t.packets[k].messages == Bodies(ws)
    ensures var r := ParsePacket(t.sent[k], consumed);
      && r.status == Okay && r.seqno == (if t.wantsSeqno then Some(t.packets[k].seqno) else None)
      && AllSame(t.sent[k], r.messages, ws)
  {
    hide Made, AllSame, Concat, Bodies, PacketHeader, ParsePacket;
    ReadPacket(t.sent[k], t.wantsSeqno, t.packets[k].seqno, ws, consumed);
  }
}
