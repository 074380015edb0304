/** Address blocks without their TLVs (section 5.3 of RFC 5444): head, tail and mid parts and prefix lengths. */
module AddressBlocks {
  import opened Bytes
  import opened AddressTlvs

  const MAX_ADDRLEN := 16
  const ADDR_HEAD: Byte := 0x80
  const ADDR_FULLTAIL: Byte := 0x40
  const ADDR_ZEROTAIL: Byte := 0x20
  const ADDR_SINGLEPLEN: Byte := 0x10
  const ADDR_MULTIPLEN: Byte := 0x08

  function AddrBits(head: bool, full: bool, zero: bool, single: bool, multi: bool): (r: Byte) {
    Bit(head, 0x80) + Bit(full, 0x40) + Bit(zero, 0x20) + Bit(single, 0x10) + Bit(multi, 0x08)
  }

  lemma AddrBitsRead(h: bool, f: bool, z: bool, s: bool, m: bool)
    ensures var b := AddrBits(h, f, z, s, m);
      && (HasFlag(b, ADDR_HEAD) <==> h) && (HasFlag(b, ADDR_FULLTAIL) <==> f) && (HasFlag(b, ADDR_ZEROTAIL) <==> z)
      && (HasFlag(b, ADDR_SINGLEPLEN) <==> s) && (HasFlag(b, ADDR_MULTIPLEN) <==> m)
  {
  }

  // ---------- The bytes of a block ----------

  /** Addresses of len bytes that share their first head bytes, and their prefix length unless multi. */
  ghost predicate Compressed(block: seq<Address>, len: nat, head: nat, multi: bool) {
    && 1 <= |block| <= 255 && head < len <= MAX_ADDRLEN
    && (forall a :: a in block ==> |a.bytes| == len && a.plen < 255)
    && (forall a :: a in block ==> a.bytes[..head] == block[0].bytes[..head])
    && (!multi ==> forall a :: a in block ==> a.plen == block[0].plen)
  }

  ghost predicate SameLength(block: seq<Address>, len: nat) {
    block != [] && forall a :: a in block ==> |a.bytes| == len
  }

  /** All addresses end with the same t bytes. */
  predicate ShareTail(block: seq<Address>, len: nat, t: nat)
    requires SameLength(block, len) && t <= len
  {
    forall a :: a in block ==> a.bytes[len - t..] == block[0].bytes[len - t..]
  }

  /** The longest common tail that is not longer than max. */
  function CommonTail(block: seq<Address>, len: nat, max: nat): (t: nat)
    requires SameLength(block, len) && max <= len
    ensures t <= max && ShareTail(block, len, t)
  {
    if max == 0 || ShareTail(block, len, max) then max else CommonTail(block, len, max - 1)
  }

  /** Only blocks of several addresses have a head and a tail. */
  function HeadLength(block: seq<Address>, head: nat): (r: nat) {
    if |block| == 1 then 0 else head
  }

  function TailLength(block: seq<Address>, len: nat, head: nat): (t: nat)
    requires SameLength(block, len) && head < len
    ensures HeadLength(block, head) + t < len && ShareTail(block, len, t)
  {
    if |block| == 1 then 0 else CommonTail(block, len, len - head - 1)
  }

  predicate Zeros(s: seq<Byte>) {
    forall k :: 0 <= k < |s| ==> s[k] == 0
  }

  /** The parts of the addresses from byte i to byte j, one behind the other. */
  function Mids(block: seq<Address>, i: nat, j: nat): (r: seq<Byte>)
    requires i <= j && forall a :: a in block ==> j <= |a.bytes|
    ensures |r| == |block| * (j - i)
  {
    if block == [] then [] else
    var n := |block| - 1;
    assert |block| * (j - i) == n * (j - i) + (j - i);
    Mids(block[..n], i, j) + block[n].bytes[i..j]
  }

  function Plens(block: seq<Address>): (r: seq<Byte>)
    ensures |r| == |block| && forall k :: 0 <= k < |block| ==> r[k] == block[k].plen
  {
    seq(|block|, k requires 0 <= k < |block| => block[k].plen)
  }

  function HeadBytes(a: Address, h: nat): (r: seq<Byte>)
    requires h <= |a.bytes| && h < 256
  {
    if h > 0 then [h] + a.bytes[..h] else []
  }

  function TailBytes(a: Address, t: nat): (r: seq<Byte>)
    requires t <= |a.bytes| && t < 256
  {
    if t == 0 then [] else if Zeros(a.bytes[|a.bytes| - t..]) then [t] else [t] + a.bytes[|a.bytes| - t..]
  }

  function PrefixBytes(block: seq<Address>, len: nat, multi: bool): (r: seq<Byte>)
    requires block != []
  {
    if multi then Plens(block) else if block[0].plen != len * 8 then [block[0].plen] else []
  }

  function BlockFlags(block: seq<Address>, len: nat, head: nat, multi: bool): (r: Byte)
    requires SameLength(block, len) && head < len
  {
    var h, t := HeadLength(block, head), TailLength(block, len, head);
    var zero := Zeros(block[0].bytes[len - t..]);
    AddrBits(h > 0, t > 0 && !zero, t > 0 && zero, !multi && block[0].plen != len * 8, multi)
  }

  function AddrBlockBytes(block: seq<Address>, len: nat, head: nat, multi: bool): (r: seq<Byte>)
    requires SameLength(block, len) && |block| <= 255 && head < len <= MAX_ADDRLEN
  {
    var h, t := HeadLength(block, head), TailLength(block, len, head);
    [|block|, BlockFlags(block, len, head, multi)] + HeadBytes(block[0], h) + TailBytes(block[0], t)
    + Mids(block, h, len - t) + PrefixBytes(block, len, multi)
  }

  // ---------- Reading ----------

  datatype Prefixes = Same(plen: Byte) | Each(at: nat)

  /** struct rfc5444_reader_addrblock_entry; addr holds the head and the tail, and mids and Each are positions in the
   *  buffer. */
  datatype AddrBlock = AddrBlock(num: Byte, addr: seq<Byte>, midStart: Byte, midLen: Byte, mids: nat,
    prefixes: Prefixes)

  datatype AddrBlockResult = AddrOk(block: AddrBlock, at: nat) | AddrErr(error: Status)
  datatype Part = PartOk(length: Byte, bytes: seq<Byte>, c: Cursor) | PartErr(error: Status)

  function ReadHead(buf: seq<Byte>, flags: Byte, c: Cursor, eob: nat, len: nat): (r: Part)
    requires eob <= |buf|
    requires c.at <= eob
    ensures r.PartOk? ==>
      c.at <= r.c.at <= eob && |r.bytes| == r.length && (r.length > 0 ==> r.length < len && r.length < 16)
    ensures r.PartOk? ==> r.c.status in {c.status, EndOfBuffer}
    ensures r.PartErr? ==> r.error != Okay && !Faulty(r.error)
  {
    if !HasFlag(flags, ADDR_HEAD) then PartOk(0, [], c) else
    var (h, c1) := GetU8(buf, c, eob);
    if h < 1 || h >= MAX_ADDRLEN || h >= len then PartErr(BadAddrHeadLength) else
    if c1.at + h > eob then PartErr(EndOfBuffer) else
    PartOk(h, buf[c1.at..c1.at + h], c1.(at := c1.at + h))
  }

  /** A zero tail has a length that is not checked. */
  function ReadTail(buf: seq<Byte>, flags: Byte, c: Cursor, eob: nat, len: nat): (r: Part)
    requires eob <= |buf|
    requires c.at <= eob
    ensures r.PartOk? ==> c.at <= r.c.at <= eob && (r.bytes != [] ==> |r.bytes| == r.length < len)
    ensures r.PartOk? ==> r.c.status in {c.status, EndOfBuffer}
    ensures r.PartErr? ==> r.error != Okay && !Faulty(r.error)
  {
    var full, zero := HasFlag(flags, ADDR_FULLTAIL), HasFlag(flags, ADDR_ZEROTAIL);
    if full && zero then PartErr(BadMsgTailFlags) else
    if !full && !zero then PartOk(0, [], c) else
    var (t, c1) := GetU8(buf, c, eob);
    if zero then PartOk(t, [], c1) else
    if t < 1 || t >= MAX_ADDRLEN || t >= len then PartErr(BadAddrTailLength) else
    if c1.at + t > eob then PartErr(EndOfBuffer) else
    PartOk(t, buf[c1.at..c1.at + t], c1.(at := c1.at + t))
  }

  /** The prefix lengths and the cursor behind them. The code reads a single prefix length before it looks for the end
   *  of its part of the buffer. */
  function ReadPrefixes(buf: seq<Byte>, flags: Byte, at: nat, eob: nat, len: nat, num: Byte): (r: (Prefixes, nat))
    requires at <= eob <= |buf| && len * 8 < 256 && (SinglePlen(flags) ==> at < |buf|)
    ensures at <= r.1 && (r.1 <= eob && r.0.Each? ==> r.0.at + num <= eob)
  {
    if HasFlag(flags, ADDR_MULTIPLEN) then (Each(at), at + num) else
    if HasFlag(flags, ADDR_SINGLEPLEN) then (Same(buf[at]), at + 1) else
    (Same(len * 8), at)
  }

  /** One prefix length for all addresses, and no list of them. */
  predicate SinglePlen(flags: Byte) {
    HasFlag(flags, ADDR_SINGLEPLEN) && !HasFlag(flags, ADDR_MULTIPLEN)
  }

  /** The end of _parse_addrblock. The length of the mid part is an 8 bit number and wraps if head and tail are longer
   *  than an address. A single prefix length is read even if there is nothing behind the mid parts. */
  function ParseMids(buf: seq<Byte>, num: Byte, flags: Byte, h: Byte, t: Byte, addr: seq<Byte>, c: Cursor, eob: nat,
                     len: nat): (r: AddrBlockResult)
    requires c.at <= eob <= |buf| && len <= MAX_ADDRLEN && num > 0 && |addr| == MAX_ADDRLEN && !Faulty(c.status)
    ensures r.AddrErr? ==> r.error != Okay && (Faulty(r.error) ==> r.error == ReadPastBuffer)
    ensures r == AddrErr(ReadPastBuffer) <==> SinglePlen(flags) && c.at + (len - h - t) % 256 * num == |buf| == eob
    ensures r.AddrOk? ==> c.at <= r.at <= eob && r.block.num == num && WithinBuffer(r.block, eob) && c.status == Okay
  {
    var midLen := (len - h - t) % 256;
    var behind := c.at + midLen * num;
    if behind > eob then AddrErr(EndOfBuffer) else
    if HasFlag(flags, ADDR_SINGLEPLEN) && HasFlag(flags, ADDR_MULTIPLEN) then AddrErr(BadMsgPrefixFlags) else
    if SinglePlen(flags) && behind >= |buf| then AddrErr(ReadPastBuffer) else
    var (prefixes, end) := ReadPrefixes(buf, flags, behind, eob, len, num);
    if end > eob then AddrErr(EndOfBuffer) else
    if c.status != Okay then AddrErr(c.status) else
    AddrOk(AddrBlock(num, addr, h, midLen, c.at, prefixes), end)
  }

  predicate WithinBuffer(b: AddrBlock, eob: nat) {
    && |b.addr| == MAX_ADDRLEN && b.mids + b.midLen * b.num <= eob
    && (b.prefixes.Each? ==> b.prefixes.at + b.num <= eob)
  }

  /** _parse_addrblock. An accepted block takes at least two bytes and lies inside the buffer. */
  function ParseAddrBlock(buf: seq<Byte>, at: nat, eob: nat, len: nat): (r: AddrBlockResult)
    requires at <= eob <= |buf| && len <= MAX_ADDRLEN
    ensures r.AddrErr? ==> r.error != Okay && (Faulty(r.error) ==> r.error == ReadPastBuffer)
    ensures r.AddrOk? ==> at + 2 <= r.at <= eob && r.block.num > 0 && WithinBuffer(r.block, eob)
  {
    var (num, c1) := GetU8(buf, Cursor(at, Okay), eob);
    if num == 0 then AddrErr(EmptyAddrBlock) else
    var (flags, c2) := GetU8(buf, c1, eob);
    var h := ReadHead(buf, flags, c2, eob, len);
    if h.PartErr? then AddrErr(h.error) else
    var t := ReadTail(buf, flags, h.c, eob, len);
    if t.PartErr? then AddrErr(t.error) else
    ParseMids(buf, num, flags, h.length, t.length, Template(h.bytes, t.bytes, len), t.c, eob, len)
  }

  /** The address buffer with head and tail. */
  function Template(head: seq<Byte>, tail: seq<Byte>, len: nat): (r: seq<Byte>)
    requires |head| <= MAX_ADDRLEN && |tail| <= len <= MAX_ADDRLEN
    ensures |r| == MAX_ADDRLEN
  {
    Overlay(Overlay(seq(MAX_ADDRLEN, _ => 0), 0, head), len - |tail|, tail)
  }

  /** Head and mid part fit into an address. */
  predicate MidFits(b: AddrBlock, len: nat) {
    b.midStart + b.midLen <= len <= MAX_ADDRLEN
  }

  /** The mid part of an address lies inside the buffer of 16 bytes in which it is assembled. */
  predicate InAddressBuffer(b: AddrBlock) {
    b.midStart + b.midLen <= MAX_ADDRLEN
  }

  // ---------- When an accepted block can be assembled ----------

  /** The length of the head as it stands in the block at a position. */
  function HeadField(buf: seq<Byte>, at: nat): (h: Byte) {
    if at + 2 < |buf| && HasFlag(buf[at + 1], ADDR_HEAD) then buf[at + 2] else 0
  }

  /** The length of the tail as it stands in the block at a position. */
  function TailField(buf: seq<Byte>, at: nat): (t: Byte) {
    if at + 1 >= |buf| || !(HasFlag(buf[at + 1], ADDR_FULLTAIL) || HasFlag(buf[at + 1], ADDR_ZEROTAIL)) then 0 else
    var q := if HasFlag(buf[at + 1], ADDR_HEAD) then at + 3 + HeadField(buf, at) else at + 2;
    if q < |buf| then buf[q] else 0
  }

  lemma Wrapped(h: nat, t: nat, len: nat)
    requires len <= MAX_ADDRLEN && t < 256 && (h == 0 || h < len)
    ensures var m := (len - h - t) % 256;
      (h + m <= len <==> h + t <= len) && (h + m <= MAX_ADDRLEN <==> h + t <= len || t >= 240 + len)
  {
    if h + t <= len {
      assert (len - h - t) % 256 == len - h - t;
    } else {
      assert (len - h - t) % 256 == 256 + len - h - t;
    }
  }

  /** The reader takes the lengths of head and tail from their bytes. */
  lemma EndsRead(buf: seq<Byte>, at: nat, eob: nat, len: nat)
    requires at <= eob <= |buf| && len <= MAX_ADDRLEN && ParseAddrBlock(buf, at, eob, len).AddrOk?
    ensures var c := Cursor(at + 2, Okay);
      && at + 2 <= eob
      && var h := ReadHead(buf, buf[at + 1], c, eob, len);
      && h.PartOk? && h.length == HeadField(buf, at)
      && var t := ReadTail(buf, buf[at + 1], h.c, eob, len);
      && t.PartOk? && t.length == TailField(buf, at)
      && var b := ParseAddrBlock(buf, at, eob, len).block;
      && b.midStart == h.length && b.midLen == (len - h.length - t.length) % 256
  {
    hide HasFlag, Template, ReadPrefixes, WithinBuffer;
  }

  /** The exact conditions, on two bytes of an accepted block: head and mid part fit into an address if and only if head
   *  and tail together are not longer than an address, and they fit into the address buffer if and only if that is so
   *  or the tail is so long that the wrapped length is short again. */
  lemma MidExact(buf: seq<Byte>, at: nat, eob: nat, len: nat)
    requires at <= eob <= |buf| && len <= MAX_ADDRLEN && ParseAddrBlock(buf, at, eob, len).AddrOk?
    ensures var b, h, t := ParseAddrBlock(buf, at, eob, len).block, HeadField(buf, at), TailField(buf, at);
      && b.midStart == h && b.midLen == (len - h - t) % 256
      && (MidFits(b, len) <==> h + t <= len)
      && (InAddressBuffer(b) <==> h + t <= len || t >= 240 + len)
  {
    hide HasFlag, ReadHead, ReadTail, HeadField, TailField, ParseAddrBlock;
    EndsRead(buf, at, eob, len);
    Wrapped(HeadField(buf, at), TailField(buf, at), len);
  }

  /** A block of one address with a head and a zero tail of three bytes each, in a message with addresses of four bytes,
   *  is accepted, and its mid part of 254 bytes does not fit. */
  lemma Overruns(buf: seq<Byte>)
    requires |buf| == 261 && buf[..7] == [1, 0xA0, 3, 10, 0, 0, 3]
    ensures var r := ParseAddrBlock(buf, 0, 261, 4);
      r.AddrOk? && r.block.midStart == 3 && r.block.midLen == 254 && !InAddressBuffer(r.block)
  {
    hide HasFlag;
    assert buf[..7][0] == 1 && buf[..7][1] == 0xA0 && buf[..7][2] == 3 && buf[..7][6] == 3;
    assert AddrBits(true, false, true, false, false) == 0xA0;
    AddrBitsRead(true, false, true, false, false);
  }

  /** With a zero tail of 255 bytes the mid part is two bytes long: it passes the end of the address and stays inside
   *  the address buffer. */
  lemma Spills()
    ensures var r := ParseAddrBlock([1, 0xA0, 3, 10, 0, 0, 255, 8, 9], 0, 9, 4);
      r.AddrOk? && r.block.midStart == 3 && r.block.midLen == 2 && !MidFits(r.block, 4) && InAddressBuffer(r.block)
  {
    hide HasFlag;
    assert AddrBits(true, false, true, false, false) == 0xA0;
    AddrBitsRead(true, false, true, false, false);
  }

  // ---------- When the code reads behind the buffer ----------

  /** A place at which _parse_addrblock is called: cursor, end of the message and length of addresses. */
  datatype AddrPlace = AddrPlace(at: nat, eob: nat, len: nat)

  ghost predicate GoodPlace(buf: seq<Byte>, p: AddrPlace) {
    p.at <= p.eob <= |buf| && p.len <= MAX_ADDRLEN
  }

  /** The address block at a place asks for a single prefix length, and its mid parts end with the buffer. */
  ghost predicate ReadsPast(buf: seq<Byte>, p: AddrPlace) {
    && GoodPlace(buf, p) && p.eob == |buf| && p.at + 2 <= p.eob && buf[p.at] > 0 && SinglePlen(buf[p.at + 1])
    && var h := ReadHead(buf, buf[p.at + 1], Cursor(p.at + 2, Okay), p.eob, p.len);
    && h.PartOk?
    && var t := ReadTail(buf, buf[p.at + 1], h.c, p.eob, p.len);
    && t.PartOk? && t.c.at + (p.len - h.length - t.length) % 256 * buf[p.at] == |buf|
  }

  /** The exact condition under which _parse_addrblock reads behind the buffer. */
  lemma ReadsPastExact(buf: seq<Byte>, at: nat, eob: nat, len: nat)
    requires at <= eob <= |buf| && len <= MAX_ADDRLEN
    ensures ParseAddrBlock(buf, at, eob, len) == AddrErr(ReadPastBuffer) <==> ReadsPast(buf, AddrPlace(at, eob, len))
  {
    hide HasFlag, Template, ReadPrefixes, WithinBuffer, ReadHead, ReadTail, ParseMids;
    NoFlagsNoPlen();
  }

  lemma NoFlagsNoPlen()
    ensures !SinglePlen(0)
  {
    AddrBitsRead(false, false, false, false, false);
  }

  /** A block of one address with a single prefix length that is not there. */
  lemma ReadsPastAt(buf: seq<Byte>, at: nat)
    requires |buf| == at + 6 && buf[at] == 1 && buf[at + 1] == 0x10
    ensures ParseAddrBlock(buf, at, |buf|, 4) == AddrErr(ReadPastBuffer)
  {
    hide HasFlag;
    assert AddrBits(false, false, false, true, false) == 0x10;
    AddrBitsRead(false, false, false, true, false);
  }

  ghost predicate SomeReadsPast(buf: seq<Byte>, ps: seq<AddrPlace>) {
    exists p :: p in ps && ReadsPast(buf, p)
  }

  lemma SomeReadsConcat(buf: seq<Byte>, ps: seq<AddrPlace>, qs: seq<AddrPlace>)
    ensures SomeReadsPast(buf, ps + qs) <==> SomeReadsPast(buf, ps) || SomeReadsPast(buf, qs)
    ensures !SomeReadsPast(buf, [])
  {
    hide ReadsPast;
  }

  lemma SomeReadsOne(buf: seq<Byte>, p: AddrPlace)
    ensures SomeReadsPast(buf, [p]) <==> ReadsPast(buf, p)
  {
    hide ReadsPast;
    assert p in [p];
  }

  // ---------- When an address does not fit its buffer ----------

  /** Copying the mid part of an address of the block at a place runs past the buffer of the address. */
  predicate CopiesPast(buf: seq<Byte>, p: AddrPlace) {
    HeadField(buf, p.at) + TailField(buf, p.at) > p.len && TailField(buf, p.at) < 240 + p.len
  }

  ghost predicate SomeCopiesPast(buf: seq<Byte>, ps: seq<AddrPlace>) {
    exists p :: p in ps && CopiesPast(buf, p)
  }

  lemma SomeCopiesConcat(buf: seq<Byte>, ps: seq<AddrPlace>, qs: seq<AddrPlace>)
    ensures SomeCopiesPast(buf, ps + qs) <==> SomeCopiesPast(buf, ps) || SomeCopiesPast(buf, qs)
    ensures !SomeCopiesPast(buf, [])
  {
    hide CopiesPast;
  }

  lemma SomeCopiesOne(buf: seq<Byte>, p: AddrPlace)
    ensures SomeCopiesPast(buf, [p]) <==> CopiesPast(buf, p)
  {
    hide CopiesPast;
    assert p in [p];
  }

  lemma CopiesPastExact(buf: seq<Byte>, at: nat, eob: nat, len: nat)
    requires at <= eob <= |buf| && len <= MAX_ADDRLEN && ParseAddrBlock(buf, at, eob, len).AddrOk?
    ensures !InAddressBuffer(ParseAddrBlock(buf, at, eob, len).block) <==> CopiesPast(buf, AddrPlace(at, eob, len))
  {
    hide HasFlag, ReadHead, ReadTail, HeadField, TailField, ParseAddrBlock;
    MidExact(buf, at, eob, len);
  }

  /** A block of one address of 16 bytes with a tail of 255 zeros. */
  lemma LongTailAt(buf: seq<Byte>, at: nat)
    requires at + 20 <= |buf| && buf[at] == 1 && buf[at + 1] == 0x20 && buf[at + 2] == 255
    ensures var r := ParseAddrBlock(buf, at, |buf|, 16); r.AddrOk? && r.at == at + 20 && !InAddressBuffer(r.block)
  {
    hide HasFlag;
    assert AddrBits(false, false, true, false, false) == 0x20;
    AddrBitsRead(false, false, true, false, false);
  }

  lemma MidOffset(b: AddrBlock, size: nat, i: nat)
    requires WithinBuffer(b, size) && i < b.num
    ensures b.mids <= b.mids + b.midLen * i <= b.mids + b.midLen * i + b.midLen <= size
  {
    assert b.midLen * (i + 1) <= b.midLen * b.num;
  }

  /** The address i: its mid part between head and tail. */
  function AddressBytes(buf: seq<Byte>, b: AddrBlock, len: nat, i: nat): (r: seq<Byte>)
    requires WithinBuffer(b, |buf|) && i < b.num && InAddressBuffer(b) && len <= MAX_ADDRLEN
    ensures |r| == len
  {
    MidOffset(b, |buf|, i);
    Overlay(b.addr, b.midStart, buf[b.mids + b.midLen * i..b.mids + b.midLen * i + b.midLen])[..len]
  }

  /** The prefix length of the netaddr i; 255 stands for the whole address. */
  function AddressPlen(buf: seq<Byte>, b: AddrBlock, len: nat, i: nat): (r: Byte)
    requires WithinBuffer(b, |buf|) && i < b.num && len <= MAX_ADDRLEN
  {
    PlenAt(buf, b.prefixes, len, i)
  }

  function PlenAt(buf: seq<Byte>, prefixes: Prefixes, len: nat, i: nat): (r: Byte)
    requires (prefixes.Each? ==> prefixes.at + i < |buf|) && len <= MAX_ADDRLEN
  {
    var p := if prefixes.Each? then buf[prefixes.at + i] else prefixes.plen;
    if p == 255 then len * 8 else p
  }

  // ---------- Round trip ----------

  lemma {:induction false} MidsAt(block: seq<Address>, i: nat, j: nat, k: nat)
    requires i <= j && k < |block| && forall a :: a in block ==> j <= |a.bytes|
    ensures var at := |Mids(block[..k], i, j)|;
      at + (j - i) <= |Mids(block, i, j)| && Mids(block, i, j)[at..at + (j - i)] == block[k].bytes[i..j]
  {
    var n := |block| - 1;
    var front, last := Mids(block[..n], i, j), block[n].bytes[i..j];
    assert Mids(block, i, j) == front + last;
    if k < n {
      MidsAt(block[..n], i, j, k);
      assert block[..n][..k] == block[..k];
      var at := |Mids(block[..k], i, j)|;
      SliceConcat(front, last, at, at + (j - i));
    } else {
      SliceConcat(front, last, 0, 0);
    }
  }

  lemma BlockParts(buf: seq<Byte>, p: nat, end: nat, block: seq<Address>, len: nat, head: nat, multi: bool)
    requires SameLength(block, len) && |block| <= 255 && head < len <= MAX_ADDRLEN
    requires Has(buf, p, end, AddrBlockBytes(block, len, head, multi))
    ensures var h, t := HeadLength(block, head), TailLength(block, len, head);
      var hb, tb, m, q := HeadBytes(block[0], h), TailBytes(block[0], t), Mids(block, h, len - t),
        PrefixBytes(block, len, multi);
      && Has(buf, p, end, [|block|]) && Has(buf, p + 1, end, [BlockFlags(block, len, head, multi)])
      && Has(buf, p + 2, end, hb) && Has(buf, p + 2 + |hb|, end, tb) && Has(buf, p + 2 + |hb| + |tb|, end, m)
      && Has(buf, p + 2 + |hb| + |tb| + |m|, end, q)
      && |AddrBlockBytes(block, len, head, multi)| == 2 + |hb| + |tb| + |m| + |q|
  {
    hide Has, HeadBytes, TailBytes, Mids, PrefixBytes, BlockFlags, TailLength;
    var h, t := HeadLength(block, head), TailLength(block, len, head);
    var hb, tb, m, q := HeadBytes(block[0], h), TailBytes(block[0], t), Mids(block, h, len - t),
      PrefixBytes(block, len, multi);
    var n, f: Byte := |block|, BlockFlags(block, len, head, multi);
    HasConcat(buf, p, end, [n, f] + hb + tb + m, q);
    HasConcat(buf, p, end, [n, f] + hb + tb, m);
    HasConcat(buf, p, end, [n, f] + hb, tb);
    HasConcat(buf, p, end, [n, f], hb);
    assert [n, f] == [n] + [f];
    HasConcat(buf, p, end, [n], [f]);
  }

  lemma ReadHeadBack(buf: seq<Byte>, p: nat, eob: nat, flags: Byte, a: Address, h: nat, len: nat)
    requires h < len <= MAX_ADDRLEN && |a.bytes| == len && Has(buf, p, eob, HeadBytes(a, h))
      && (HasFlag(flags, ADDR_HEAD) <==> h > 0)
    ensures ReadHead(buf, flags, Cursor(p, Okay), eob, len)
      == PartOk(h, a.bytes[..h], Cursor(p + |HeadBytes(a, h)|, Okay))
  {
    if h > 0 {
      HasConcat(buf, p, eob, [h], a.bytes[..h]);
      ReadU8(buf, p, eob, h);
    }
  }

  lemma ReadTailBack(buf: seq<Byte>, p: nat, eob: nat, flags: Byte, a: Address, t: nat, len: nat)
    requires t < len <= MAX_ADDRLEN && |a.bytes| == len && Has(buf, p, eob, TailBytes(a, t))
    requires var zero := Zeros(a.bytes[len - t..]);
      (HasFlag(flags, ADDR_FULLTAIL) <==> t > 0 && !zero) && (HasFlag(flags, ADDR_ZEROTAIL) <==> t > 0 && zero)
    ensures ReadTail(buf, flags, Cursor(p, Okay), eob, len)
         == PartOk(t, TailCopy(a.bytes[len - t..]), Cursor(p + |TailBytes(a, t)|, Okay))
  {
    if t > 0 {
      if Zeros(a.bytes[len - t..]) {
        ReadU8(buf, p, eob, t);
      } else {
        HasConcat(buf, p, eob, [t], a.bytes[len - t..]);
        ReadU8(buf, p, eob, t);
      }
    }
  }

  /** Addresses with a common head of h and a common tail of t bytes. */
  ghost predicate Shares(block: seq<Address>, len: nat, h: nat, t: nat) {
    && SameLength(block, len) && h + t < len <= MAX_ADDRLEN && |block| <= 255 && ShareTail(block, len, t)
    && forall a :: a in block ==> a.bytes[..h] == block[0].bytes[..h] && a.plen < 255
  }

  /** What a tail leaves in the address buffer. */
  function TailCopy(tail: seq<Byte>): (r: seq<Byte>)
    ensures |r| <= |tail|
  {
    if Zeros(tail) then [] else tail
  }

  lemma CompressedShares(block: seq<Address>, len: nat, head: nat, multi: bool)
    requires Compressed(block, len, head, multi)
    ensures Shares(block, len, HeadLength(block, head), TailLength(block, len, head))
  {
  }

  /** Head, mid part and tail of an address are the address. */
  lemma Rebuilt(block: seq<Address>, len: nat, h: nat, t: nat, i: nat)
    requires Shares(block, len, h, t) && i < |block|
    ensures Overlay(Template(block[0].bytes[..h], TailCopy(block[0].bytes[len - t..]), len), h,
      block[i].bytes[h..len - t])[..len]
      == block[i].bytes
  {
    var a, b := block[0].bytes, block[i].bytes;
    var tail := a[len - t..];
    assert b[len - t..] == tail && b[..h] == a[..h];
    OverlayAt(a[..h], TailCopy(tail), b[h..len - t], len);
    var r := Overlay(Template(a[..h], TailCopy(tail), len), h, b[h..len - t])[..len];
    forall k | 0 <= k < len ensures r[k] == b[k] {
      if k < h {
        assert a[..h][k] == b[..h][k];
      } else if k >= len - t {
        assert tail[k - (len - t)] == b[len - t..][k - (len - t)];
      }
    }
  }

  lemma OverlayAt(head: seq<Byte>, tail: seq<Byte>, mid: seq<Byte>, len: nat)
    requires |head| + |mid| + |tail| <= len <= MAX_ADDRLEN
    ensures var r := Overlay(Template(head, tail, len), |head|, mid);
      forall k :: 0 <= k < len ==> r[k] == if k < |head| then head[k] else if k < |head| + |mid| then mid[k - |head|]
        else if k >= len - |tail| then tail[k - (len - |tail|)] else 0
  {
  }

  /** A parsed block gives back the addresses with their prefix lengths. */
  ghost predicate Rebuilds(buf: seq<Byte>, b: AddrBlock, block: seq<Address>, len: nat) {
    && b.num == |block| && WithinBuffer(b, |buf|) && MidFits(b, len)
    && forall i :: 0 <= i < |block| ==>
      AddressBytes(buf, b, len, i) == block[i].bytes && AddressPlen(buf, b, len, i) == block[i].plen
  }

  lemma ReadPrefixesBack(buf: seq<Byte>, at: nat, eob: nat, block: seq<Address>, len: nat, multi: bool, flags: Byte)
    requires 0 < |block| <= 255 && len <= MAX_ADDRLEN && (forall a :: a in block ==> a.plen < 255)
    requires !multi ==> forall a :: a in block ==> a.plen == block[0].plen
    requires at <= eob && Has(buf, at, eob, PrefixBytes(block, len, multi))
    requires HasFlag(flags, ADDR_SINGLEPLEN) <==> !multi && block[0].plen != len * 8
    requires HasFlag(flags, ADDR_MULTIPLEN) <==> multi
    ensures SinglePlen(flags) ==> at < |buf|
    ensures var (px, end) := ReadPrefixes(buf, flags, at, eob, len, |block|);
      && end == at + |PrefixBytes(block, len, multi)| <= eob
      && (px.Each? ==> px.at + |block| <= |buf|)
      && forall i :: 0 <= i < |block| ==> PlenAt(buf, px, len, i) == block[i].plen
  {
    hide HasFlag;
    if multi {
      forall i | 0 <= i < |block| ensures buf[at + i] == block[i].plen {
        assert buf[at..at + |block|][i] == Plens(block)[i];
      }
    } else if block[0].plen != len * 8 {
      assert buf[at..at + 1][0] == block[0].plen;
    }
  }

  lemma SliceSlice<T>(s: seq<T>, a: nat, m: seq<T>, c: nat, d: nat)
    requires a + |m| <= |s| && s[a..a + |m|] == m && c <= d <= |m|
    ensures m[c..d] == s[a + c..a + d]
  {
    var u, v := m[c..d], s[a + c..a + d];
    forall k | 0 <= k < d - c ensures u[k] == v[k] {
      assert s[a..a + |m|][c + k] == s[a + c + k];
    }
  }

  lemma ReadMid(buf: seq<Byte>, p: nat, eob: nat, block: seq<Address>, i: nat, j: nat, k: nat)
    requires i <= j && k < |block| && forall a :: a in block ==> j <= |a.bytes|
    requires Has(buf, p, eob, Mids(block, i, j))
    ensures p + (j - i) * k + (j - i) <= eob && 0 <= (j - i) * k
    ensures buf[p + (j - i) * k..p + (j - i) * k + (j - i)] == block[k].bytes[i..j]
  {
    hide Mids;
    var at := |Mids(block[..k], i, j)|;
    assert at == (j - i) * k;
    MidsAt(block, i, j, k);
    SliceSlice(buf, p, Mids(block, i, j), at, at + (j - i));
  }

  /** The mid parts between a head of h and a tail of t bytes. */
  lemma ReadMidsBack(buf: seq<Byte>, c: Cursor, eob: nat, block: seq<Address>, len: nat, h: nat, t: nat, multi: bool,
                     flags: Byte)
    requires Shares(block, len, h, t) && c.status == Okay
    requires !multi ==> forall a :: a in block ==> a.plen == block[0].plen
    requires HasFlag(flags, ADDR_SINGLEPLEN) <==> !multi && block[0].plen != len * 8
    requires HasFlag(flags, ADDR_MULTIPLEN) <==> multi
    requires Has(buf, c.at, eob, Mids(block, h, len - t))
    requires Has(buf, c.at + |Mids(block, h, len - t)|, eob, PrefixBytes(block, len, multi))
    ensures c.at <= eob <= |buf|
    ensures var addr := Template(block[0].bytes[..h], TailCopy(block[0].bytes[len - t..]), len);
      var r := ParseMids(buf, |block|, flags, h, t, addr, c, eob, len);
      && r.AddrOk? && r.at == c.at + |Mids(block, h, len - t)| + |PrefixBytes(block, len, multi)|
      && Rebuilds(buf, r.block, block, len)
  {
    hide Has, HasFlag, Template, Mids, PrefixBytes, Overlay, ReadPrefixes, Shares, TailCopy, ParseMids, Rebuilds;
    SharesFacts(block, len, h, t);
    var m := |Mids(block, h, len - t)|;
    assert m == (len - h - t) * |block|;
    HasSize(buf, c.at, eob, Mids(block, h, len - t));
    HasSize(buf, c.at + m, eob, PrefixBytes(block, len, multi));
    ReadPrefixesBack(buf, c.at + m, eob, block, len, multi, flags);
    var addr := Template(block[0].bytes[..h], TailCopy(block[0].bytes[len - t..]), len);
    var (px, end) := ReadPrefixes(buf, flags, c.at + m, eob, len, |block|);
    RebuildsFrom(buf, AddrBlock(|block|, addr, h, len - h - t, c.at, px), eob, block, len, h, t);
    ParseMidsIs(buf, |block|, flags, h, t, addr, c, eob, len, c.at + m);
  }

  lemma ParseMidsIs(buf: seq<Byte>, num: Byte, flags: Byte, h: nat, t: nat, addr: seq<Byte>, c: Cursor, eob: nat,
                    len: nat, behind: nat)
    requires num > 0 && h + t < len <= MAX_ADDRLEN && |addr| == MAX_ADDRLEN && c.status == Okay
    requires !HasFlag(flags, ADDR_SINGLEPLEN) || !HasFlag(flags, ADDR_MULTIPLEN)
    requires behind == c.at + (len - h - t) * num && c.at <= behind <= eob <= |buf|
    requires SinglePlen(flags) ==> behind < |buf|
    requires ReadPrefixes(buf, flags, behind, eob, len, num).1 <= eob
    ensures var (px, end) := ReadPrefixes(buf, flags, behind, eob, len, num);
      ParseMids(buf, num, flags, h, t, addr, c, eob, len) == AddrOk(AddrBlock(num, addr, h, len - h - t, c.at, px), end)
  {
    hide HasFlag, ReadPrefixes;
  }

  lemma AddressBack(buf: seq<Byte>, b: AddrBlock, eob: nat, block: seq<Address>, len: nat, h: nat, t: nat, i: nat)
    requires Shares(block, len, h, t) && i < |block| && h + t < len && forall a :: a in block ==> len == |a.bytes|
    requires b.num == |block| && b.midStart == h && b.midLen == len - h - t && WithinBuffer(b, |buf|) && MidFits(b, len)
    requires b.addr == Template(block[0].bytes[..h], TailCopy(block[0].bytes[len - t..]), len)
    requires Has(buf, b.mids, eob, Mids(block, h, len - t))
    ensures AddressBytes(buf, b, len, i) == block[i].bytes
  {
    hide Has, Template, Mids, Overlay, Shares, TailCopy;
    ReadMid(buf, b.mids, eob, block, h, len - t, i);
    Rebuilt(block, len, h, t, i);
  }

  lemma RebuildsFrom(buf: seq<Byte>, b: AddrBlock, eob: nat, block: seq<Address>, len: nat, h: nat, t: nat)
    requires Shares(block, len, h, t) && 0 < |block| <= 255 && h + t < len
      && forall a :: a in block ==> len == |a.bytes|
    requires b.num == |block| && b.midStart == h && b.midLen == len - h - t
    requires b.addr == Template(block[0].bytes[..h], TailCopy(block[0].bytes[len - t..]), len)
    requires Has(buf, b.mids, eob, Mids(block, h, len - t))
    requires b.prefixes.Each? ==> b.prefixes.at + |block| <= |buf|
    requires len <= MAX_ADDRLEN && forall i :: 0 <= i < |block| ==> PlenAt(buf, b.prefixes, len, i) == block[i].plen
    ensures Rebuilds(buf, b, block, len)
  {
    hide Has, Template, Mids, Overlay, Shares, TailCopy, AddressBytes, PlenAt, Rebuilds;
    HasSize(buf, b.mids, eob, Mids(block, h, len - t));
    assert b.midLen * b.num == |Mids(block, h, len - t)|;
    assert WithinBuffer(b, |buf|) && MidFits(b, len);
    forall i | 0 <= i < |block| ensures AddressBytes(buf, b, len, i) == block[i].bytes {
      AddressBack(buf, b, eob, block, len, h, t, i);
    }
    RebuildsIs(buf, b, block, len);
  }

  lemma RebuildsIs(buf: seq<Byte>, b: AddrBlock, block: seq<Address>, len: nat)
    requires b.num == |block| && WithinBuffer(b, |buf|) && MidFits(b, len)
    requires forall i :: 0 <= i < |block| ==> AddressBytes(buf, b, len, i) == block[i].bytes
    requires forall i :: 0 <= i < |block| ==> PlenAt(buf, b.prefixes, len, i) == block[i].plen
    ensures Rebuilds(buf, b, block, len)
  {
    hide AddressBytes, PlenAt;
  }

  lemma SharesFacts(block: seq<Address>, len: nat, h: nat, t: nat)
    requires Shares(block, len, h, t)
    ensures 0 < |block| <= 255 && h + t < len <= MAX_ADDRLEN
      && forall a :: a in block ==> a.plen < 255 && |a.bytes| == len
  {
  }

  lemma HasSize(buf: seq<Byte>, p: nat, end: nat, b: seq<Byte>)
    requires Has(buf, p, end, b)
    ensures p + |b| <= end <= |buf|
  {
  }

  /** The reader undoes AddrBlockBytes: head, mid and tail rebuild every address, with its prefix length. */
  lemma ReadAddrBlock(buf: seq<Byte>, p: nat, eob: nat, block: seq<Address>, len: nat, head: nat, multi: bool)
    requires Compressed(block, len, head, multi) && p <= eob
    requires Has(buf, p, eob, AddrBlockBytes(block, len, head, multi))
    ensures var r := ParseAddrBlock(buf, p, eob, len);
      && r.AddrOk? && r.at == p + |AddrBlockBytes(block, len, head, multi)| && Rebuilds(buf, r.block, block, len)
  {
    hide Has, TailLength, HeadBytes, TailBytes, HasFlag, AddrBlockBytes, ReadHead, ReadTail, Mids, AddrBits,
      PrefixBytes, ParseMids, Rebuilds, Zeros;
    var h, t := HeadLength(block, head), TailLength(block, len, head);
    var a, flags := block[0], BlockFlags(block, len, head, multi);
    var tail := a.bytes[len - t..];
    CompressedShares(block, len, head, multi);
    BlockParts(buf, p, eob, block, len, head, multi);
    AddrBitsRead(h > 0, t > 0 && !Zeros(tail), t > 0 && Zeros(tail), !multi && a.plen != len * 8, multi);
    ReadU8(buf, p, eob, |block|);
    ReadU8(buf, p + 1, eob, flags);
    var p1 := p + 2 + |HeadBytes(a, h)|;
    HasSize(buf, p1, eob, TailBytes(a, t));
    HasSize(buf, p1 + |TailBytes(a, t)|, eob, Mids(block, h, len - t));
    ReadHeadBack(buf, p + 2, eob, flags, a, h, len);
    ReadTailBack(buf, p1, eob, flags, a, t, len);
    ReadMidsBack(buf, Cursor(p1 + |TailBytes(a, t)|, Okay), eob, block, len, h, t, multi, flags);
  }
}
