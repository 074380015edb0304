/** _handle_message and rfc5444_reader_handle_packet: parsing messages (section 5.2 of RFC 5444) and packets (5.1). */
module MessageReader {
  import opened Bytes
  import opened TlvFormat
  import opened TlvBlock
  import opened AddressTlvs
  import opened AddressBlocks
  import opened AddressDecode
  import opened MessageFormat

  datatype HeaderResult = HeaderOk(header: Header, size: U16, at: nat) | HeaderErr(error: Status)

  function OptionalU8(buf: seq<Byte>, present: bool, c: Cursor, eob: nat): (r: (Option<Byte>, Cursor))
    requires eob <= |buf| && c.at <= eob
    ensures c.at <= r.1.at <= eob && r.1.status in {c.status, EndOfBuffer}
  {
    if present then
      var (x, c1) := GetU8(buf, c, eob);
      (Some(x), c1)
    else (None, c)
  }

  function OptionalU16(buf: seq<Byte>, present: bool, c: Cursor, eob: nat): (r: (Option<U16>, Cursor))
    requires eob <= |buf| && c.at <= eob
    ensures c.at <= r.1.at <= eob && r.1.status in {c.status, EndOfBuffer}
  {
    if present then
      var (x, c1) := GetU16(buf, c, eob);
      (Some(x), c1)
    else (None, c)
  }

  /** The header of a message up to the check of its size. */
  function ParseHeader(buf: seq<Byte>, at: nat, eob: nat): (r: HeaderResult)
    requires at <= eob <= |buf|
    ensures r.HeaderErr? ==> r.error != Okay && !Faulty(r.error)
    ensures r.HeaderOk? ==> at + 4 <= r.at <= eob && at + r.size <= eob && 1 <= r.header.addrLen <= MAX_ADDRLEN
  {
    var (msgType, c1) := GetU8(buf, Cursor(at, Okay), eob);
    var (flags, c2) := GetU8(buf, c1, eob);
    var (size, c3) := GetU16(buf, c2, eob);
    var len := flags % 16 + 1;
    var hasOrig := HasFlag(flags, MSG_ORIGINATOR);
    if hasOrig && c3.at + len > eob then HeaderErr(EndOfBuffer) else
    var c4 := if hasOrig then c3.(at := c3.at + len) else c3;
    var (hopLimit, c5) := OptionalU8(buf, HasFlag(flags, MSG_HOPLIMIT), c4, eob);
    var (hopCount, c6) := OptionalU8(buf, HasFlag(flags, MSG_HOPCOUNT), c5, eob);
    var (seqno, c7) := OptionalU16(buf, HasFlag(flags, MSG_SEQNO), c6, eob);
    if at + size > eob then HeaderErr(EndOfBuffer) else
    if c7.status != Okay then HeaderErr(c7.status) else
    HeaderOk(Header(msgType, len, if hasOrig then Some(buf[c3.at..c3.at + len]) else None, hopLimit, hopCount, seqno),
      size, c7.at)
  }

  /** An address block with its TLVs in the order of the bytes. */
  datatype ReadBlock = ReadBlock(block: AddrBlock, entries: seq<TlvEntry>)

  datatype BlocksResult = BlocksOk(blocks: seq<ReadBlock>) | BlocksErr(error: Status)

  /** The address blocks from at to the end of the message. Every accepted block moves the cursor by at least four
   *  bytes, and never beyond the end. */
  function ParseBlocks(buf: seq<Byte>, at: nat, end: nat, len: nat): (r: BlocksResult)
    requires end <= |buf| && len <= MAX_ADDRLEN
    ensures r.BlocksErr? ==> r.error != Okay && r.error != CopyPastAddress
    decreases end - at
  {
    hide ParseAddrBlock, ParseBlock;
    if at >= end then BlocksOk([]) else
    var a := ParseAddrBlock(buf, at, end, len);
    if a.AddrErr? then BlocksErr(a.error) else
    var t := ParseBlock(buf, a.at, end, a.block.num);
    if t.BlockErr? then BlocksErr(t.error) else
    BlocksPrepend([ReadBlock(a.block, t.entries)], ParseBlocks(buf, t.at, end, len))
  }

  function BlocksPrepend(bs: seq<ReadBlock>, r: BlocksResult): (q: BlocksResult) {
    if r.BlocksErr? then r else BlocksOk(bs + r.blocks)
  }

  datatype MessageResult =
    | MessageOk(header: Header, tlvs: seq<TlvEntry>, blocks: seq<ReadBlock>, at: nat)
    | MessageErr(error: Status)

  /** _handle_message without its consumers. An accepted message has at least six bytes, and the cursor is left behind
   *  the bytes that its size field counts. */
  function ParseMessage(buf: seq<Byte>, at: nat, eob: nat): (r: MessageResult)
    requires at <= eob <= |buf|
    ensures r.MessageErr? ==> r.error != Okay && r.error != CopyPastAddress
    ensures r.MessageOk? ==> at + 6 <= r.at <= eob && 1 <= r.header.addrLen <= MAX_ADDRLEN
  {
    hide ParseHeader, ParseBlock, ParseBlocks;
    var h := ParseHeader(buf, at, eob);
    if h.HeaderErr? then MessageErr(h.error) else
    var end := at + h.size;
    var t := ParseBlock(buf, h.at, end, 0);
    if t.BlockErr? then MessageErr(t.error) else
    var b := ParseBlocks(buf, t.at, end, h.header.addrLen);
    if b.BlocksErr? then MessageErr(b.error) else
    MessageOk(h.header, t.entries, b.blocks, end)
  }

  /** What the functions above say of an accepted message: its size field is its length, and every part lies in it. */
  lemma {:induction false} BlocksWithin(buf: seq<Byte>, at: nat, end: nat, len: nat)
    requires end <= |buf| && len <= MAX_ADDRLEN
    ensures var r := ParseBlocks(buf, at, end, len);
      r.BlocksOk? ==> forall b :: b in r.blocks ==>
        b.block.num > 0 && WithinBuffer(b.block, end)
          && forall e :: e in b.entries ==> e.Sound() && e.index2 < b.block.num
    decreases end - at
  {
    hide ParseAddrBlock, ParseBlock, TlvEntry.Sound, WithinBuffer;
    if at < end {
      var a := ParseAddrBlock(buf, at, end, len);
      if a.AddrOk? {
        var t := ParseBlock(buf, a.at, end, a.block.num);
        if t.BlockOk? {
          BlocksWithin(buf, t.at, end, len);
        }
      }
    }
  }

  lemma SizeField(buf: seq<Byte>, at: nat, eob: nat)
    requires at <= eob <= |buf|
    ensures var r := ParseMessage(buf, at, eob); r.MessageOk? ==> r.at == at + Join(buf[at + 2], buf[at + 3])
  {
    hide ParseBlock, ParseBlocks, HasFlag;
  }

  // ---------- Where a message divides by 0 ----------

  /** The TLVs that the loop over address blocks reaches. */
  function BlocksPlaces(buf: seq<Byte>, at: nat, end: nat, len: nat): (r: seq<TlvPlace>)
    requires end <= |buf| && len <= MAX_ADDRLEN
    decreases end - at
  {
    hide ParseAddrBlock, ParseBlock, BlockPlaces;
    if at >= end then [] else
    var a := ParseAddrBlock(buf, at, end, len);
    if a.AddrErr? then [] else
    var t := ParseBlock(buf, a.at, end, a.block.num);
    BlockPlaces(buf, a.at, end, a.block.num) + if t.BlockOk? then BlocksPlaces(buf, t.at, end, len) else []
  }

  lemma {:induction false} BlocksDivide(buf: seq<Byte>, at: nat, end: nat, len: nat)
    requires end <= |buf| && len <= MAX_ADDRLEN
    ensures ParseBlocks(buf, at, end, len) == BlocksErr(DivisionByZero) <==>
      SomeDivides(buf, BlocksPlaces(buf, at, end, len))
    decreases end - at
  {
    hide ParseAddrBlock, ParseBlock, BlockPlaces, SomeDivides;
    SomeConcat(buf, [], []);
    if at < end {
      var a := ParseAddrBlock(buf, at, end, len);
      if a.AddrOk? {
        var t, ps := ParseBlock(buf, a.at, end, a.block.num), BlockPlaces(buf, a.at, end, a.block.num);
        BlockDivides(buf, a.at, end, a.block.num);
        SomeConcat(buf, ps, []);
        if t.BlockOk? {
          BlocksDivide(buf, t.at, end, len);
          SomeConcat(buf, ps, BlocksPlaces(buf, t.at, end, len));
        }
      }
    }
  }

  /** The TLVs that the reader reaches in a message. */
  function MessagePlaces(buf: seq<Byte>, at: nat, eob: nat): (r: seq<TlvPlace>)
    requires at <= eob <= |buf|
  {
    hide ParseHeader, ParseBlock, BlockPlaces, BlocksPlaces;
    var h := ParseHeader(buf, at, eob);
    if h.HeaderErr? then [] else
    var t := ParseBlock(buf, h.at, at + h.size, 0);
    BlockPlaces(buf, h.at, at + h.size, 0) + if t.BlockOk? then BlocksPlaces(buf, t.at, at + h.size, h.header.addrLen)
      else []
  }

  /** A message divides by 0 exactly if a TLV that is reached in it does. */
  lemma MessageDivides(buf: seq<Byte>, at: nat, eob: nat)
    requires at <= eob <= |buf|
    ensures ParseMessage(buf, at, eob) == MessageErr(DivisionByZero) <==> SomeDivides(buf, MessagePlaces(buf, at, eob))
  {
    hide ParseHeader, ParseBlock, ParseBlocks, BlockPlaces, BlocksPlaces, SomeDivides;
    SomeConcat(buf, [], []);
    var h := ParseHeader(buf, at, eob);
    if h.HeaderOk? {
      var t, ps := ParseBlock(buf, h.at, at + h.size, 0), BlockPlaces(buf, h.at, at + h.size, 0);
      BlockDivides(buf, h.at, at + h.size, 0);
      SomeConcat(buf, ps, []);
      if t.BlockOk? {
        BlocksDivide(buf, t.at, at + h.size, h.header.addrLen);
        SomeConcat(buf, ps, BlocksPlaces(buf, t.at, at + h.size, h.header.addrLen));
      }
    }
  }

  // ---------- Where a message reads behind the buffer, or copies past an address ----------

  /** The address blocks that the loop over them reaches. */
  function BlocksAddrs(buf: seq<Byte>, at: nat, end: nat, len: nat): (r: seq<AddrPlace>)
    requires end <= |buf| && len <= MAX_ADDRLEN
    decreases end - at
  {
    hide ParseAddrBlock, ParseBlock;
    if at >= end then [] else
    var a := ParseAddrBlock(buf, at, end, len);
    if a.AddrErr? then [AddrPlace(at, end, len)] else
    var t := ParseBlock(buf, a.at, end, a.block.num);
    [AddrPlace(at, end, len)] + if t.BlockOk? then BlocksAddrs(buf, t.at, end, len) else []
  }

  lemma {:induction false} BlocksReadPast(buf: seq<Byte>, at: nat, end: nat, len: nat)
    requires end <= |buf| && len <= MAX_ADDRLEN
    ensures ParseBlocks(buf, at, end, len) == BlocksErr(ReadPastBuffer) <==>
      SomeReadsPast(buf, BlocksAddrs(buf, at, end, len))
    decreases end - at
  {
    hide ParseAddrBlock, ParseBlock, ReadsPast, SomeReadsPast;
    SomeReadsConcat(buf, [], []);
    if at < end {
      var a, ps := ParseAddrBlock(buf, at, end, len), [AddrPlace(at, end, len)];
      ReadsPastExact(buf, at, end, len);
      SomeReadsOne(buf, ps[0]);
      SomeReadsConcat(buf, ps, []);
      if a.AddrOk? {
        var t := ParseBlock(buf, a.at, end, a.block.num);
        if t.BlockOk? {
          BlocksReadPast(buf, t.at, end, len);
          SomeReadsConcat(buf, ps, BlocksAddrs(buf, t.at, end, len));
        }
      }
    }
  }

  /** An address of the blocks does not fit the buffer in which it is assembled. */
  predicate CopyFails(bs: seq<ReadBlock>) {
    exists b :: b in bs && !InAddressBuffer(b.block)
  }

  lemma CopyFailsConcat(bs: seq<ReadBlock>, cs: seq<ReadBlock>)
    ensures CopyFails(bs + cs) <==> CopyFails(bs) || CopyFails(cs)
    ensures !CopyFails([])
  {
  }

  lemma CopyFailsOne(b: ReadBlock)
    ensures CopyFails([b]) <==> !InAddressBuffer(b.block)
  {
    assert b in [b];
  }

  lemma {:induction false} BlocksCopyPast(buf: seq<Byte>, at: nat, end: nat, len: nat)
    requires end <= |buf| && len <= MAX_ADDRLEN && ParseBlocks(buf, at, end, len).BlocksOk?
    ensures CopyFails(ParseBlocks(buf, at, end, len).blocks) <==> SomeCopiesPast(buf, BlocksAddrs(buf, at, end, len))
    decreases end - at
  {
    hide ParseAddrBlock, ParseBlock, CopiesPast, SomeCopiesPast, CopyFails, InAddressBuffer;
    SomeCopiesConcat(buf, [], []);
    CopyFailsConcat([], []);
    if at < end {
      var a, ps := ParseAddrBlock(buf, at, end, len), [AddrPlace(at, end, len)];
      var t := ParseBlock(buf, a.at, end, a.block.num);
      BlocksCopyPast(buf, t.at, end, len);
      CopiesPastExact(buf, at, end, len);
      SomeCopiesOne(buf, ps[0]);
      SomeCopiesConcat(buf, ps, BlocksAddrs(buf, t.at, end, len));
      CopyFailsOne(ReadBlock(a.block, t.entries));
      CopyFailsConcat([ReadBlock(a.block, t.entries)], ParseBlocks(buf, t.at, end, len).blocks);
    }
  }

  /** The address blocks that the reader reaches in a message. */
  function MessageAddrs(buf: seq<Byte>, at: nat, eob: nat): (r: seq<AddrPlace>)
    requires at <= eob <= |buf|
  {
    hide ParseHeader, ParseBlock, BlocksAddrs;
    var h := ParseHeader(buf, at, eob);
    if h.HeaderErr? then [] else
    var t := ParseBlock(buf, h.at, at + h.size, 0);
    if t.BlockOk? then BlocksAddrs(buf, t.at, at + h.size, h.header.addrLen) else []
  }

  /** A message reads behind the buffer exactly if an address block that is reached in it does. */
  lemma MessageReadsPast(buf: seq<Byte>, at: nat, eob: nat)
    requires at <= eob <= |buf|
    ensures ParseMessage(buf, at, eob) == MessageErr(ReadPastBuffer) <==> SomeReadsPast(buf, MessageAddrs(buf, at, eob))
  {
    hide ParseHeader, ParseBlock, ParseBlocks, BlocksAddrs, SomeReadsPast;
    SomeReadsConcat(buf, [], []);
    var h := ParseHeader(buf, at, eob);
    if h.HeaderOk? {
      var t := ParseBlock(buf, h.at, at + h.size, 0);
      if t.BlockOk? {
        BlocksReadPast(buf, t.at, at + h.size, h.header.addrLen);
      }
    }
  }

  /** Assembling the addresses of an accepted message copies past an address exactly if two length bytes of one of its
   *  blocks say so. */
  lemma MessageCopiesPast(buf: seq<Byte>, at: nat, eob: nat)
    requires at <= eob <= |buf| && ParseMessage(buf, at, eob).MessageOk?
    ensures CopyFails(ParseMessage(buf, at, eob).blocks) <==> SomeCopiesPast(buf, MessageAddrs(buf, at, eob))
  {
    hide ParseHeader, ParseBlock, ParseBlocks, BlocksAddrs, SomeCopiesPast, CopyFails;
    var h := ParseHeader(buf, at, eob);
    var t := ParseBlock(buf, h.at, at + h.size, 0);
    BlocksCopyPast(buf, t.at, at + h.size, h.header.addrLen);
  }

  // ---------- The objects of the reader ----------

  datatype BlockObject = BlockObject(block: AddrBlock, tlvs: TlvTree)

  datatype Message = Message(header: Header, tlvs: TlvTree, blocks: seq<BlockObject>)

  ghost predicate Holds(t: TlvTree, es: seq<TlvEntry>)
    reads t, t.tree, t.tree.head, t.tree.nodes
  {
    t.Valid() && t.Entries() == InsertAll(es)
  }

  ghost predicate HoldsBlocks(bs: seq<BlockObject>, rs: seq<ReadBlock>)
    reads set b | b in bs :: b.tlvs, set b | b in bs :: b.tlvs.tree, set b | b in bs :: b.tlvs.tree.head,
          set b, n | b in bs && n in b.tlvs.tree.nodes :: n
  {
    |bs| == |rs| && forall k :: 0 <= k < |bs| ==> bs[k].block == rs[k].block && Holds(bs[k].tlvs, rs[k].entries)
  }

  /** _parse_tlvblock, with what the caller keeps of it. */
  method ReadTlvTree(buf: seq<Byte>, at: nat, end: nat, addrCount: Byte)
    returns (status: Status, next: nat, tree: TlvTree)
    requires end <= |buf|
    ensures var t := ParseBlock(buf, at, end, addrCount);
      && (t.BlockOk? ==> status == Okay && next == t.at && Holds(tree, t.entries))
      && (t.BlockErr? ==> status == t.error)
  {
    hide ParseBlock, TlvTree.Valid, TlvTree.Entries, InsertAll;
    status, next, tree := ParseTlvBlock(buf, at, end, addrCount);
  }

  /** The loop of _handle_message over the address blocks. */
  method ReadBlocks(buf: seq<Byte>, at: nat, end: nat, len: nat) returns (status: Status, blocks: seq<BlockObject>)
    requires end <= |buf| && len <= MAX_ADDRLEN
    ensures var r := ParseBlocks(buf, at, end, len);
      && (r.BlocksOk? ==> status == Okay && HoldsBlocks(blocks, r.blocks))
      && (r.BlocksErr? ==> status == r.error)
  {
    hide ParseAddrBlock, ParseBlock, ParseBlocks, Holds, BlocksPrepend;
    var next := at;
    blocks := [];
    ghost var done: seq<ReadBlock> := [];
    PrependNone(ParseBlocks(buf, at, end, len));
    HoldsNone();
    while next < end
      invariant HoldsBlocks(blocks, done)
      invariant ParseBlocks(buf, at, end, len) == BlocksPrepend(done, ParseBlocks(buf, next, end, len))
      decreases end - next
    {
      BlocksStep(buf, next, end, len, done);
      var a := ParseAddrBlock(buf, next, end, len);
      if a.AddrErr? {
        return a.error, blocks;
      }
      var tlvStatus, after, tree := ReadTlvTree(buf, a.at, end, a.block.num);
      if tlvStatus != Okay {
        return tlvStatus, blocks;
      }
      ghost var t := ParseBlock(buf, a.at, end, a.block.num);
      HoldsMore(blocks, done, BlockObject(a.block, tree), ReadBlock(a.block, t.entries));
      done := done + [ReadBlock(a.block, t.entries)];
      blocks := blocks + [BlockObject(a.block, tree)];
      next := after;
    }
    BlocksStep(buf, next, end, len, done);
    status := Okay;
  }

  lemma HoldsNone()
    ensures HoldsBlocks([], [])
  {
  }

  lemma HoldsMore(bs: seq<BlockObject>, rs: seq<ReadBlock>, b: BlockObject, r: ReadBlock)
    requires HoldsBlocks(bs, rs) && b.block == r.block && Holds(b.tlvs, r.entries)
    ensures HoldsBlocks(bs + [b], rs + [r])
  {
    hide Holds;
  }

  lemma PrependNone(r: BlocksResult)
    ensures BlocksPrepend([], r) == r
  {
    if r.BlocksOk? {
      assert [] + r.blocks == r.blocks;
    }
  }

  lemma BlocksStep(buf: seq<Byte>, at: nat, end: nat, len: nat, done: seq<ReadBlock>)
    requires end <= |buf| && len <= MAX_ADDRLEN
    ensures var r := BlocksPrepend(done, ParseBlocks(buf, at, end, len));
      if at >= end then r == BlocksOk(done) else
      var a := ParseAddrBlock(buf, at, end, len);
      if a.AddrErr? then r == BlocksErr(a.error) else
      var t := ParseBlock(buf, a.at, end, a.block.num);
      if t.BlockErr? then r == BlocksErr(t.error) else
      r == BlocksPrepend(done + [ReadBlock(a.block, t.entries)], ParseBlocks(buf, t.at, end, len)) && t.at > at
  {
    hide ParseAddrBlock, ParseBlock;
    assert done + [] == done;
    if at < end {
      var a := ParseAddrBlock(buf, at, end, len);
      if a.AddrOk? {
        var t := ParseBlock(buf, a.at, end, a.block.num);
        if t.BlockOk? {
          var rest := ParseBlocks(buf, t.at, end, len);
          if rest.BlocksOk? {
            assert done + ([ReadBlock(a.block, t.entries)] + rest.blocks)
              == done + [ReadBlock(a.block, t.entries)] + rest.blocks;
          }
        }
      }
    }
  }

  ghost predicate HoldsMessage(m: Message, r: MessageResult)
    reads m.tlvs, m.tlvs.tree, m.tlvs.tree.head, m.tlvs.tree.nodes
    reads set b | b in m.blocks :: b.tlvs, set b | b in m.blocks :: b.tlvs.tree,
      set b | b in m.blocks :: b.tlvs.tree.head,
          set b, n | b in m.blocks && n in b.tlvs.tree.nodes :: n
  {
    r.MessageOk? && m.header == r.header && Holds(m.tlvs, r.tlvs) && HoldsBlocks(m.blocks, r.blocks)
  }

  /** _handle_message up to the consumers: the parsed message, with the TLVs in their trees. */
  method HandleMessage(buf: seq<Byte>, at: nat, eob: nat) returns (status: Status, message: Option<Message>, next: nat)
    requires at <= eob <= |buf|
    ensures var r := ParseMessage(buf, at, eob);
      && (r.MessageOk? ==> status == Okay && next == r.at && message.Some? && HoldsMessage(message.value, r))
      && (r.MessageErr? ==> status == r.error && message.None?)
  {
    hide ParseHeader, ParseBlock, ParseBlocks, Holds, HoldsBlocks;
    var h := ParseHeader(buf, at, eob);
    if h.HeaderErr? {
      return h.error, None, eob;
    }
    var end := at + h.size;
    var tree, ptr, blocks;
    status, ptr, tree := ReadTlvTree(buf, h.at, end, 0);
    if status != Okay {
      return status, None, end;
    }
    status, blocks := ReadBlocks(buf, ptr, end, h.header.addrLen);
    if status != Okay {
      return status, None, end;
    }
    return Okay, Some(Message(h.header, tree, blocks)), end;
  }

  // ---------- Assembling addresses ----------

  /** Bytes and prefix length of a netaddr. */
  datatype NetAddr = NetAddr(bytes: seq<Byte>, plen: Byte)

  /** The loop of schedule_msgaddr_consumer over the addresses of a block: the mid part of every address is copied
   *  between head and tail, in one buffer of 16 bytes for all addresses. A mid part that does not fit runs past that
   *  buffer; MidExact in module AddressBlocks tells when that is so. */
  method AssembleAddresses(buf: seq<Byte>, b: AddrBlock, len: nat) returns (overrun: bool, out: seq<NetAddr>)
    requires WithinBuffer(b, |buf|) && len <= MAX_ADDRLEN
    ensures overrun <==> b.num > 0 && !InAddressBuffer(b)
    ensures !overrun ==> |out| == b.num && forall i :: 0 <= i < b.num ==>
      InAddressBuffer(b) && out[i] == NetAddr(AddressBytes(buf, b, len, i), AddressPlen(buf, b, len, i))
  {
    hide AddressBytes, AddressPlen, Overlay, SameEnds;
    var addr := new Byte[MAX_ADDRLEN](i requires 0 <= i < MAX_ADDRLEN => b.addr[i]);
    assert addr[..] == b.addr;
    StartEnds(b);
    out := [];
    for i := 0 to b.num
      invariant |out| == i && (InAddressBuffer(b) ==> SameEnds(addr[..], b)) && (i > 0 ==> InAddressBuffer(b))
      invariant forall j :: 0 <= j < i ==>
        InAddressBuffer(b) && out[j] == NetAddr(AddressBytes(buf, b, len, j), AddressPlen(buf, b, len, j))
    {
      if b.midStart + b.midLen > MAX_ADDRLEN {
        return true, out;
      }
      MidOffset(b, |buf|, i);
      var mid := buf[b.mids + b.midLen * i..b.mids + b.midLen * i + b.midLen];
      SameOverlay(addr[..], b, mid);
      Copy(addr, b.midStart, mid);
      AddressIs(buf, b, len, i);
      out := out + [NetAddr(addr[..len], AddressPlen(buf, b, len, i))];
    }
    overrun := false;
  }

  /** The addresses of a block as AssembleAddresses makes them. */
  function Assembled(buf: seq<Byte>, b: AddrBlock, len: nat): (r: seq<NetAddr>)
    requires WithinBuffer(b, |buf|) && InAddressBuffer(b) && len <= MAX_ADDRLEN
  {
    seq(b.num, i requires 0 <= i < b.num => NetAddr(AddressBytes(buf, b, len, i), AddressPlen(buf, b, len, i)))
  }

  ghost predicate BlocksFit(buf: seq<Byte>, rs: seq<ReadBlock>) {
    forall r :: r in rs ==> r.block.num > 0 && WithinBuffer(r.block, |buf|)
  }

  function AllAssembled(buf: seq<Byte>, rs: seq<ReadBlock>, len: nat): (r: seq<seq<NetAddr>>)
    requires BlocksFit(buf, rs) && !CopyFails(rs) && len <= MAX_ADDRLEN
  {
    seq(|rs|, k requires 0 <= k < |rs| => (assert rs[k] in rs; Assembled(buf, rs[k].block, len)))
  }

  /** The loop of schedule_msgaddr_consumer over the blocks of a message. */
  method AssembleAll(buf: seq<Byte>, bs: seq<BlockObject>, len: nat, ghost rs: seq<ReadBlock>)
    returns (overrun: bool, out: seq<seq<NetAddr>>)
    requires HoldsBlocks(bs, rs) && BlocksFit(buf, rs) && len <= MAX_ADDRLEN
    ensures overrun <==> CopyFails(rs)
    ensures !overrun ==> out == AllAssembled(buf, rs, len)
  {
    hide Holds, WithinBuffer, InAddressBuffer, AddressBytes, AddressPlen;
    out := [];
    for k := 0 to |bs|
      invariant |out| == k
      invariant forall j :: 0 <= j < k ==>
        WithinBuffer(rs[j].block, |buf|) && InAddressBuffer(rs[j].block)
        && out[j] == Assembled(buf, rs[j].block, len)
    {
      assert rs[k] in rs;
      var past, addrs := AssembleAddresses(buf, bs[k].block, len);
      if past {
        return true, out;
      }
      assert addrs == Assembled(buf, rs[k].block, len);
      out := out + [addrs];
    }
    overrun := false;
  }

  lemma StartEnds(b: AddrBlock)
    requires |b.addr| == MAX_ADDRLEN
    ensures InAddressBuffer(b) ==> SameEnds(b.addr, b)
  {
  }

  lemma AddressIs(buf: seq<Byte>, b: AddrBlock, len: nat, i: nat)
    requires WithinBuffer(b, |buf|) && InAddressBuffer(b) && len <= MAX_ADDRLEN && i < b.num
    requires b.mids + b.midLen * i + b.midLen <= |buf| && 0 <= b.midLen * i
    ensures AddressBytes(buf, b, len, i)
      == Overlay(b.addr, b.midStart, buf[b.mids + b.midLen * i..b.mids + b.midLen * i + b.midLen])[..len]
  {
  }

  /** The buffer outside the mid part. */
  ghost predicate SameEnds(s: seq<Byte>, b: AddrBlock) {
    && |s| == |b.addr| == MAX_ADDRLEN && b.midStart + b.midLen <= MAX_ADDRLEN
    && s[..b.midStart] == b.addr[..b.midStart] && s[b.midStart + b.midLen..] == b.addr[b.midStart + b.midLen..]
  }

  lemma SameOverlay(s: seq<Byte>, b: AddrBlock, mid: seq<Byte>)
    requires SameEnds(s, b) && |mid| == b.midLen
    ensures Overlay(s, b.midStart, mid) == Overlay(b.addr, b.midStart, mid) && SameEnds(Overlay(s, b.midStart, mid), b)
  {
  }

  // ---------- Packets ----------

  const PKT_SEQNO_FLAG: Byte := 0x08
  const PKT_TLV_FLAG: Byte := 0x04

  /** The messages from at on, up to the first that is not accepted. If their addresses are consumed, the first with an
   *  address that does not fit its buffer ends them too. */
  function ParseMessages(buf: seq<Byte>, at: nat, eob: nat, consumed: bool): (r: (seq<MessageResult>, Status))
    requires at <= eob <= |buf|
    decreases eob - at
  {
    hide ParseMessage;
    if at >= eob then ([], Okay) else
    var m := ParseMessage(buf, at, eob);
    if m.MessageErr? then ([], m.error) else
    if consumed && CopyFails(m.blocks) then ([], CopyPastAddress) else
    var (ms, status) := ParseMessages(buf, m.at, eob, consumed);
    ([m] + ms, status)
  }

  datatype PacketResult = PacketResult(status: Status, seqno: Option<U16>, messages: seq<MessageResult>)

  /** The start of the messages in a packet, or an error. */
  datatype PacketStart = PacketStart(status: Status, seqno: Option<U16>, at: nat)

  /** The packet header and its TLV block. The version is in the upper half of the first byte. */
  function ParsePacketStart(buf: seq<Byte>): (r: PacketStart)
    ensures r.status == Okay ==> r.at <= |buf|
    ensures Faulty(r.status) ==> r.status == DivisionByZero
  {
    if |buf| > 65535 then PacketStart(TooLarge, None, 0) else
    var eob := |buf|;
    var (first, c1) := GetU8(buf, Cursor(0, Okay), eob);
    if first / 16 != 0 then PacketStart(UnsupportedVersion, None, 0) else
    var (seqno, c2) := OptionalU16(buf, HasFlag(first, PKT_SEQNO_FLAG), c1, eob);
    if c2.status != Okay then PacketStart(c2.status, seqno, 0) else
    if !HasFlag(first, PKT_TLV_FLAG) then PacketStart(Okay, seqno, c2.at) else
    var t := ParseBlock(buf, c2.at, eob, 0);
    if t.BlockErr? then PacketStart(t.error, seqno, 0) else PacketStart(Okay, seqno, t.at)
  }

  /** rfc5444_reader_handle_packet. consumed tells whether there is an address consumer, which gets the addresses of
   *  every message and drops none. */
  function ParsePacket(buf: seq<Byte>, consumed: bool): (r: PacketResult) {
    var p := ParsePacketStart(buf);
    if p.status != Okay then PacketResult(p.status, p.seqno, []) else
    var (ms, status) := ParseMessages(buf, p.at, |buf|, consumed);
    PacketResult(status, p.seqno, ms)
  }

  /** The message at a position is accepted, and handling it ends well. */
  predicate Passes(buf: seq<Byte>, at: nat, eob: nat, consumed: bool)
    requires at <= eob <= |buf|
  {
    var m := ParseMessage(buf, at, eob);
    m.MessageOk? && !(consumed && CopyFails(m.blocks))
  }

  function MessagesPlaces(buf: seq<Byte>, at: nat, eob: nat, consumed: bool): (r: seq<TlvPlace>)
    requires at <= eob <= |buf|
    decreases eob - at
  {
    hide ParseMessage, MessagePlaces;
    if at >= eob then [] else
    MessagePlaces(buf, at, eob)
    + if Passes(buf, at, eob, consumed) then MessagesPlaces(buf, ParseMessage(buf, at, eob).at, eob, consumed) else []
  }

  lemma {:induction false} MessagesDivide(buf: seq<Byte>, at: nat, eob: nat, consumed: bool)
    requires at <= eob <= |buf|
    ensures ParseMessages(buf, at, eob, consumed).1 == DivisionByZero <==>
      SomeDivides(buf, MessagesPlaces(buf, at, eob, consumed))
    decreases eob - at
  {
    hide ParseMessage, MessagePlaces, SomeDivides, CopyFails;
    SomeConcat(buf, [], []);
    if at < eob {
      var m, ps := ParseMessage(buf, at, eob), MessagePlaces(buf, at, eob);
      MessageDivides(buf, at, eob);
      SomeConcat(buf, ps, []);
      if Passes(buf, at, eob, consumed) {
        MessagesDivide(buf, m.at, eob, consumed);
        SomeConcat(buf, ps, MessagesPlaces(buf, m.at, eob, consumed));
      }
    }
  }

  /** The address blocks that the reader reaches. */
  function MessagesAddrs(buf: seq<Byte>, at: nat, eob: nat, consumed: bool): (r: seq<AddrPlace>)
    requires at <= eob <= |buf|
    decreases eob - at
  {
    hide ParseMessage, MessageAddrs;
    if at >= eob then [] else
    MessageAddrs(buf, at, eob)
    + if Passes(buf, at, eob, consumed) then MessagesAddrs(buf, ParseMessage(buf, at, eob).at, eob, consumed) else []
  }

  lemma {:induction false} MessagesReadPast(buf: seq<Byte>, at: nat, eob: nat, consumed: bool)
    requires at <= eob <= |buf|
    ensures ParseMessages(buf, at, eob, consumed).1 == ReadPastBuffer <==>
      SomeReadsPast(buf, MessagesAddrs(buf, at, eob, consumed))
    decreases eob - at
  {
    hide ParseMessage, MessageAddrs, SomeReadsPast, CopyFails;
    SomeReadsConcat(buf, [], []);
    if at < eob {
      var m, ps := ParseMessage(buf, at, eob), MessageAddrs(buf, at, eob);
      MessageReadsPast(buf, at, eob);
      SomeReadsConcat(buf, ps, []);
      if Passes(buf, at, eob, consumed) {
        MessagesReadPast(buf, m.at, eob, consumed);
        SomeReadsConcat(buf, ps, MessagesAddrs(buf, m.at, eob, consumed));
      }
    }
  }

  /** The address blocks of the accepted messages that an address consumer gets. */
  function ConsumedAddrs(buf: seq<Byte>, at: nat, eob: nat): (r: seq<AddrPlace>)
    requires at <= eob <= |buf|
    decreases eob - at
  {
    hide ParseMessage, MessageAddrs;
    if at >= eob || ParseMessage(buf, at, eob).MessageErr? then [] else
    MessageAddrs(buf, at, eob)
    + if Passes(buf, at, eob, true) then ConsumedAddrs(buf, ParseMessage(buf, at, eob).at, eob) else []
  }

  lemma {:induction false} MessagesCopyPast(buf: seq<Byte>, at: nat, eob: nat, consumed: bool)
    requires at <= eob <= |buf|
    ensures ParseMessages(buf, at, eob, consumed).1 == CopyPastAddress <==>
      consumed && SomeCopiesPast(buf, ConsumedAddrs(buf, at, eob))
    decreases eob - at
  {
    hide ParseMessage, MessageAddrs, SomeCopiesPast, CopyFails;
    SomeCopiesConcat(buf, [], []);
    if at < eob {
      var m := ParseMessage(buf, at, eob);
      if m.MessageOk? {
        var ps := MessageAddrs(buf, at, eob);
        MessageCopiesPast(buf, at, eob);
        SomeCopiesConcat(buf, ps, []);
        SomeCopiesConcat(buf, ps, ConsumedAddrs(buf, m.at, eob));
        MessagesCopyPast(buf, m.at, eob, consumed);
      }
    }
  }

  /** The TLVs in front of the messages of a packet. */
  function StartPlaces(buf: seq<Byte>): (r: seq<TlvPlace>) {
    if |buf| > 65535 then [] else
    var (first, c1) := GetU8(buf, Cursor(0, Okay), |buf|);
    var (seqno, c2) := OptionalU16(buf, HasFlag(first, PKT_SEQNO_FLAG), c1, |buf|);
    if first / 16 != 0 || c2.status != Okay || !HasFlag(first, PKT_TLV_FLAG) then []
    else BlockPlaces(buf, c2.at, |buf|, 0)
  }

  lemma StartDivides(buf: seq<Byte>)
    ensures ParsePacketStart(buf).status == DivisionByZero <==> SomeDivides(buf, StartPlaces(buf))
  {
    hide HasFlag, ParseBlock, BlockPlaces, SomeDivides;
    SomeConcat(buf, [], []);
    if |buf| <= 65535 {
      var (first, c1) := GetU8(buf, Cursor(0, Okay), |buf|);
      var (seqno, c2) := OptionalU16(buf, HasFlag(first, PKT_SEQNO_FLAG), c1, |buf|);
      BlockDivides(buf, c2.at, |buf|, 0);
    }
  }

  /** The TLVs that the reader reaches in a packet. */
  function PacketPlaces(buf: seq<Byte>, consumed: bool): (r: seq<TlvPlace>) {
    var p := ParsePacketStart(buf);
    StartPlaces(buf) + if p.status == Okay then MessagesPlaces(buf, p.at, |buf|, consumed) else []
  }

  /** The address blocks that the reader reaches in a packet. */
  function PacketAddrs(buf: seq<Byte>, consumed: bool): (r: seq<AddrPlace>) {
    var p := ParsePacketStart(buf);
    if p.status == Okay then MessagesAddrs(buf, p.at, |buf|, consumed) else []
  }

  /** The address blocks of a packet that an address consumer gets. */
  function PacketConsumed(buf: seq<Byte>): (r: seq<AddrPlace>) {
    var p := ParsePacketStart(buf);
    if p.status == Okay then ConsumedAddrs(buf, p.at, |buf|) else []
  }

  /** The exact conditions under which the reader divides by 0, reads behind the buffer, and copies past the buffer of
   *  an address. */
  lemma PacketFaults(buf: seq<Byte>, consumed: bool)
    ensures ParsePacket(buf, consumed).status == DivisionByZero <==> SomeDivides(buf, PacketPlaces(buf, consumed))
    ensures ParsePacket(buf, consumed).status == ReadPastBuffer <==> SomeReadsPast(buf, PacketAddrs(buf, consumed))
    ensures ParsePacket(buf, consumed).status == CopyPastAddress <==>
      consumed && SomeCopiesPast(buf, PacketConsumed(buf))
  {
    hide ParsePacketStart, StartPlaces, ParseMessages, MessagesPlaces, MessagesAddrs, ConsumedAddrs, SomeDivides,
      SomeReadsPast, SomeCopiesPast;
    StartDivides(buf);
    var p := ParsePacketStart(buf);
    SomeConcat(buf, StartPlaces(buf), []);
    SomeReadsConcat(buf, [], []);
    SomeCopiesConcat(buf, [], []);
    if p.status == Okay {
      MessagesDivide(buf, p.at, |buf|, consumed);
      MessagesReadPast(buf, p.at, |buf|, consumed);
      MessagesCopyPast(buf, p.at, |buf|, consumed);
      SomeConcat(buf, StartPlaces(buf), MessagesPlaces(buf, p.at, |buf|, consumed));
    }
  }

  lemma NoHeaderFlags(flags: Byte)
    requires flags < 16
    ensures !HasFlag(flags, MSG_ORIGINATOR) && !HasFlag(flags, MSG_HOPLIMIT) && !HasFlag(flags, MSG_HOPCOUNT)
    ensures !HasFlag(flags, MSG_SEQNO)
  {
    MsgBitsRead(flags + 1, false, false, false, false);
  }

  /** A message without header fields and message TLVs. */
  lemma BareMessage(buf: seq<Byte>, at: nat, eob: nat, len: nat, size: nat)
    requires at + 6 <= at + size <= eob <= |buf| && 1 <= len <= MAX_ADDRLEN && size < 256
    requires buf[at + 1] == len - 1 && buf[at + 2] == 0 && buf[at + 3] == size && buf[at + 4] == 0 && buf[at + 5] == 0
    ensures var r, b := ParseMessage(buf, at, eob), ParseBlocks(buf, at + 6, at + size, len);
      && (b.BlocksErr? ==> r == MessageErr(b.error))
      && (b.BlocksOk? ==> r.MessageOk? && r.blocks == b.blocks && r.at == at + size)
  {
    hide HasFlag, ParseBlocks;
    NoHeaderFlags(len - 1);
    assert ParseBlock(buf, at + 4, at + size, 0) == BlockOk([], at + 6);
  }

  lemma BarePacket(buf: seq<Byte>)
    requires 0 < |buf| <= 65535 && buf[0] == 0
    ensures ParsePacketStart(buf) == PacketStart(Okay, None, 1)
  {
    hide HasFlag;
    NoPacketFlags();
  }

  lemma NoPacketFlags()
    ensures !HasFlag(0, PKT_SEQNO_FLAG) && !HasFlag(0, PKT_TLV_FLAG)
  {
  }

  /** A packet of 13 bytes whose last message has an address block with a single prefix length that is not there. The
   *  reader reads behind the buffer, and no TLV divides by 0. */
  lemma ReadsPastPacket(consumed: bool)
    ensures ParsePacket([0, 1, 3, 0, 12, 0, 0, 1, 0x10, 10, 0, 0, 1], consumed).status == ReadPastBuffer
  {
    hide HasFlag, ParsePacketStart, ParseMessage, ParseAddrBlock, ParseBlocks, CopyFails;
    var b: seq<Byte> := [0, 1, 3, 0, 12, 0, 0, 1, 0x10, 10, 0, 0, 1];
    BarePacket(b);
    BareMessage(b, 1, 13, 4, 12);
    ReadsPastAt(b, 7);
    FirstBlockFails(b, 7, 13, 4);
  }

  lemma FirstBlockFails(buf: seq<Byte>, at: nat, end: nat, len: nat)
    requires at < end <= |buf| && len <= MAX_ADDRLEN
    ensures var a := ParseAddrBlock(buf, at, end, len);
      a.AddrErr? ==> ParseBlocks(buf, at, end, len) == BlocksErr(a.error)
  {
    hide ParseAddrBlock;
  }

  /** A packet of 29 bytes with an address of 16 bytes in front of a tail of 255 zeros. It is accepted, and copying its
   *  mid part of 17 bytes, whatever they are, passes the buffer of the address. */
  lemma CopiesPastPacket(buf: seq<Byte>)
    requires |buf| == 29 && buf[..10] == [0, 1, 15, 0, 28, 0, 0, 1, 0x20, 255] && buf[27] == 0 && buf[28] == 0
    ensures ParsePacket(buf, false).status == Okay && ParsePacket(buf, true).status == CopyPastAddress
  {
    hide HasFlag, ParsePacketStart, ParseMessage, ParseAddrBlock, ParseBlocks, CopyFails, ParseBlock;
    forall k | 0 <= k < 10 ensures buf[k] == [0, 1, 15, 0, 28, 0, 0, 1, 0x20, 255][k] {
      assert buf[..10][k] == buf[k];
    }
    BarePacket(buf);
    BareMessage(buf, 1, 29, 16, 28);
    LongTailAt(buf, 7);
    EmptyTlvBlock(buf, 27);
    OneBlock(buf, 7, 29, 16);
    CopyFailsOne(ReadBlock(ParseAddrBlock(buf, 7, 29, 16).block, []));
  }

  lemma EmptyTlvBlock(buf: seq<Byte>, at: nat)
    requires at + 2 <= |buf| && buf[at] == 0 && buf[at + 1] == 0
    ensures forall num: Byte :: ParseBlock(buf, at, |buf|, num) == BlockOk([], at + 2)
  {
  }

  lemma OneBlock(buf: seq<Byte>, at: nat, end: nat, len: nat)
    requires at < end <= |buf| && len <= MAX_ADDRLEN && ParseAddrBlock(buf, at, end, len).AddrOk?
    requires var a := ParseAddrBlock(buf, at, end, len); ParseBlock(buf, a.at, end, a.block.num) == BlockOk([], end)
    ensures ParseBlocks(buf, at, end, len) == BlocksOk([ReadBlock(ParseAddrBlock(buf, at, end, len).block, [])])
  {
    hide ParseAddrBlock, ParseBlock;
    assert ParseBlocks(buf, end, end, len) == BlocksOk([]);
  }

  /** What a walk through the objects of a message shows: the TLVs of every block in the order of their tree, and the
   *  addresses if they are consumed. */
  datatype Shown = Shown(header: Header, tlvs: seq<TlvEntry>, blocks: seq<ReadBlock>, addrs: seq<seq<NetAddr>>)

  ghost function ShownBlocks(bs: seq<ReadBlock>): (r: seq<ReadBlock>) {
    seq(|bs|, k requires 0 <= k < |bs| => ReadBlock(bs[k].block, InsertAll(bs[k].entries)))
  }

  /** What the messages of a packet have in common (see MessageWithin). */
  ghost predicate Deliverable(buf: seq<Byte>, r: MessageResult, consumed: bool) {
    && r.MessageOk? && r.header.addrLen <= MAX_ADDRLEN && BlocksFit(buf, r.blocks)
    && (consumed ==> !CopyFails(r.blocks))
  }

  ghost function ShownOf(buf: seq<Byte>, r: MessageResult, consumed: bool): (s: Shown)
    requires Deliverable(buf, r, consumed)
  {
    Shown(r.header, InsertAll(r.tlvs), ShownBlocks(r.blocks),
      if consumed then AllAssembled(buf, r.blocks, r.header.addrLen) else [])
  }

  method WalkBlocks(bs: seq<BlockObject>, ghost rs: seq<ReadBlock>) returns (s: seq<ReadBlock>)
    requires HoldsBlocks(bs, rs)
    ensures s == ShownBlocks(rs)
  {
    hide InsertAll, TlvTree.Valid, TlvTree.Entries;
    s := [];
    for k := 0 to |bs|
      invariant |s| == k && forall j :: 0 <= j < k ==> s[j] == ReadBlock(rs[j].block, InsertAll(rs[j].entries))
    {
      var es := bs[k].tlvs.Walk();
      s := s + [ReadBlock(bs[k].block, es)];
    }
  }

  /** What consumers see of a message, unless an address does not fit its buffer. */
  method ShowMessage(buf: seq<Byte>, m: Message, consumed: bool, ghost r: MessageResult)
    returns (overrun: bool, s: Shown)
    requires HoldsMessage(m, r) && Deliverable(buf, r, false)
    ensures overrun <==> consumed && CopyFails(r.blocks)
    ensures !overrun ==> s == ShownOf(buf, r, consumed)
  {
    hide InsertAll, TlvTree.Valid, TlvTree.Entries, CopyFails, BlocksFit;
    var addrs: seq<seq<NetAddr>> := [];
    overrun := false;
    if consumed {
      overrun, addrs := AssembleAll(buf, m.blocks, m.header.addrLen, r.blocks);
    }
    var tlvs := m.tlvs.Walk();
    var blocks := WalkBlocks(m.blocks, r.blocks);
    s := Shown(m.header, tlvs, blocks, addrs);
  }

  /** An accepted message can be shown. */
  lemma MessageWithin(buf: seq<Byte>, at: nat, eob: nat)
    requires at <= eob <= |buf| && ParseMessage(buf, at, eob).MessageOk?
    ensures Deliverable(buf, ParseMessage(buf, at, eob), false)
  {
    hide ParseHeader, ParseBlock, ParseBlocks, TlvEntry.Sound;
    var h := ParseHeader(buf, at, eob);
    var t := ParseBlock(buf, h.at, at + h.size, 0);
    BlocksWithin(buf, t.at, at + h.size, h.header.addrLen);
  }

  /** The loop over the messages stands at a position, or has stopped there, and has accepted the messages before it. */
  ghost predicate Accepted(buf: seq<Byte>, start: nat, at: nat, eob: nat, consumed: bool, done: seq<MessageResult>,
                           status: Status)
    requires start <= eob <= |buf| && at <= eob
  {
    var (ms, end) := ParseMessages(buf, start, eob, consumed);
    if status == Okay then var (rest, e) := ParseMessages(buf, at, eob, consumed); ms == done + rest && end == e
    else ms == done && end == status
  }

  lemma AcceptedNone(buf: seq<Byte>, at: nat, eob: nat, consumed: bool)
    requires at <= eob <= |buf|
    ensures Accepted(buf, at, at, eob, consumed, [], Okay)
  {
    hide ParseMessages;
  }

  lemma AcceptedMore(buf: seq<Byte>, start: nat, at: nat, eob: nat, consumed: bool, done: seq<MessageResult>,
                     m: MessageResult)
    requires start <= eob <= |buf| && at < eob && Accepted(buf, start, at, eob, consumed, done, Okay)
    requires m == ParseMessage(buf, at, eob)
    ensures if m.MessageErr? then Accepted(buf, start, at, eob, consumed, done, m.error)
      else if consumed && CopyFails(m.blocks) then Accepted(buf, start, at, eob, consumed, done, CopyPastAddress)
      else Accepted(buf, start, m.at, eob, consumed, done + [m], Okay)
  {
    hide ParseMessage, CopyFails;
    if Passes(buf, at, eob, consumed) {
      var (rest, e) := ParseMessages(buf, m.at, eob, consumed);
      assert ParseMessages(buf, at, eob, consumed) == ([m] + rest, e);
      assert done + ([m] + rest) == done + [m] + rest;
    } else {
      assert ParseMessages(buf, at, eob, consumed) == ([], if m.MessageErr? then m.error else CopyPastAddress);
      assert done + [] == done;
    }
  }

  lemma AcceptedAll(buf: seq<Byte>, start: nat, at: nat, eob: nat, consumed: bool, done: seq<MessageResult>,
                    status: Status)
    requires start <= eob <= |buf| && at <= eob && Accepted(buf, start, at, eob, consumed, done, status)
    requires status == Okay ==> at == eob
    ensures ParseMessages(buf, start, eob, consumed) == (done, status)
  {
    hide ParseMessage;
    assert done + [] == done;
  }

  /** rfc5444_reader_handle_packet. It halts on every byte string, and its status tells exactly whether a step divides
   *  by 0, reads behind the buffer or copies past the buffer of an address. The objects of a message live while it is
   *  handled; seen is what a consumer sees of every accepted message. The TLVs of the packet itself are parsed and not
   *  kept. */
  method HandlePacket(buf: seq<Byte>, consumed: bool)
    returns (status: Status, seqno: Option<U16>, seen: seq<Shown>)
    ensures var r := ParsePacket(buf, consumed);
      && status == r.status && seqno == r.seqno && |seen| == |r.messages|
      && forall k :: 0 <= k < |seen| ==>
        Deliverable(buf, r.messages[k], consumed) && seen[k] == ShownOf(buf, r.messages[k], consumed)
    ensures status == DivisionByZero <==> SomeDivides(buf, PacketPlaces(buf, consumed))
    ensures status == ReadPastBuffer <==> SomeReadsPast(buf, PacketAddrs(buf, consumed))
    ensures status == CopyPastAddress <==> consumed && SomeCopiesPast(buf, PacketConsumed(buf))
  {
    hide ParseMessage, ParsePacketStart, HoldsMessage, ShownOf, SomeDivides, SomeReadsPast, SomeCopiesPast,
      PacketPlaces, PacketAddrs, PacketConsumed, Accepted, CopyFails, BlocksFit;
    PacketFaults(buf, consumed);
    var p := ParsePacketStart(buf);
    seqno := p.seqno;
    seen := [];
    if p.status != Okay {
      return p.status, seqno, [];
    }
    var at, eob := p.at, |buf|;
    ghost var done: seq<MessageResult> := [];
    status := Okay;
    AcceptedNone(buf, at, eob, consumed);
    while status == Okay && at < eob
      invariant at <= eob && |seen| == |done|
      invariant forall k :: 0 <= k < |seen| ==>
        Deliverable(buf, done[k], consumed) && seen[k] == ShownOf(buf, done[k], consumed)
      invariant Accepted(buf, p.at, at, eob, consumed, done, status)
      decreases eob - at, status == Okay
    {
      ghost var m := ParseMessage(buf, at, eob);
      AcceptedMore(buf, p.at, at, eob, consumed, done, m);
      var message, next;
      status, message, next := HandleMessage(buf, at, eob);
      if status == Okay {
        MessageHeld(message.value, m);
        MessageWithin(buf, at, eob);
        var overrun, s := ShowMessage(buf, message.value, consumed, m);
        if overrun {
          status := CopyPastAddress;
        } else {
          seen := seen + [s];
          done := done + [m];
          at := next;
        }
      }
    }
    AcceptedAll(buf, p.at, at, eob, consumed, done, status);
  }

  lemma MessageHeld(m: Message, r: MessageResult)
    requires HoldsMessage(m, r)
    ensures r.MessageOk? && m.header == r.header
  {
  }
}
