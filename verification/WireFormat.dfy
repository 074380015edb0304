/** RFC 5444 in numbers. What the writer puts at every position, and what the reader makes of every byte, are stated
 *  here on positions, powers of two and literal bytes, apart from the constants, flags and cursors with which both are
 *  defined. */
module WireFormat {
  import opened Bytes
  import opened TlvFormat
  import opened AddressTlvs
  import opened AddressBlocks
  import opened MessageFormat
  import opened MessageReader
  import opened TlvBlock
  import opened PacketWriter

  /** The bit of a byte with the value k is set. */
  predicate On(f: int, k: int)
    requires k > 0
  {
    f / k % 2 == 1
  }

  lemma NothingOn()
    ensures forall k: nat :: k > 0 ==> !On(0, k)
  {
  }

  /** A number of two bytes, the upper one first. */
  function BigEndian(hi: int, lo: int): (r: U16)
    requires 0 <= hi < 256 && 0 <= lo < 256
  {
    256 * hi + lo
  }

  lemma JoinIs()
    ensures forall hi: Byte, lo: Byte :: Join(hi, lo) == BigEndian(hi, lo)
  {
  }

  // ---------- Message headers (section 5.2 of RFC 5444) ----------

  /** Every byte of a header: the type; a byte whose upper bits 128, 64, 32 and 16 tell whether there are an originator,
   *  a hop limit, a hop count and a sequence number, and whose lower half is the length of an address less one; the
   *  size with its upper byte first; and these fields in this order. */
  lemma HeaderLayout(h: Header, size: U16)
    requires GoodHeader(h)
    ensures var b := HeaderBytes(h, size);
      var l := 4 + if h.orig.Some? then h.addrLen else 0;
      var c := l + if h.hopLimit.Some? then 1 else 0;
      var s := c + if h.hopCount.Some? then 1 else 0;
      && |b| == s + (if h.seqno.Some? then 2 else 0)
      && b[0] == h.msgType && b[1] % 16 == h.addrLen - 1 && BigEndian(b[2], b[3]) == size
      && (b[1] / 128 % 2 == 1 <==> h.orig.Some?) && (b[1] / 64 % 2 == 1 <==> h.hopLimit.Some?)
      && (b[1] / 32 % 2 == 1 <==> h.hopCount.Some?) && (b[1] / 16 % 2 == 1 <==> h.seqno.Some?)
      && (h.orig.Some? ==> b[4..l] == h.orig.value)
      && (h.hopLimit.Some? ==> b[l] == h.hopLimit.value)
      && (h.hopCount.Some? ==> b[c] == h.hopCount.value)
      && (h.seqno.Some? ==> BigEndian(b[s], b[s + 1]) == h.seqno.value)
  {
    hide HeaderFlags;
    HeaderBits(h);
    var o := OptionalField(h.orig);
    assert HeaderBytes(h, size)[4..4 + |o|] == o;
  }

  lemma HeaderBits(h: Header)
    requires GoodHeader(h)
    ensures var f := HeaderFlags(h);
      && f % 16 == h.addrLen - 1
      && (f / 128 % 2 == 1 <==> h.orig.Some?) && (f / 64 % 2 == 1 <==> h.hopLimit.Some?)
      && (f / 32 % 2 == 1 <==> h.hopCount.Some?) && (f / 16 % 2 == 1 <==> h.seqno.Some?)
  {
    hide HasFlag, MsgBits;
    MsgBitsRead(h.addrLen, h.orig.Some?, h.hopLimit.Some?, h.hopCount.Some?, h.seqno.Some?);
    HeaderFlagsAre(HeaderFlags(h));
  }

  /** The header at a position, read off its bytes. */
  function HeaderAt(buf: seq<Byte>, at: nat, eob: nat): (r: HeaderResult)
    requires at <= eob <= |buf|
  {
    if at + 4 > eob then HeaderErr(EndOfBuffer) else
    var f, size := buf[at + 1], BigEndian(buf[at + 2], buf[at + 3]);
    var orig, hopLimit, hopCount, seqno := On(f, 128), On(f, 64), On(f, 32), On(f, 16);
    var len := f % 16 + 1;
    var l := at + 4 + if orig then len else 0;
    var c := l + if hopLimit then 1 else 0;
    var s := c + if hopCount then 1 else 0;
    var end := s + if seqno then 2 else 0;
    if end > eob || at + size > eob then HeaderErr(EndOfBuffer) else
    HeaderOk(Header(buf[at], len, if orig then Some(buf[at + 4..l]) else None, if hopLimit then Some(buf[l]) else None,
      if hopCount then Some(buf[c]) else None, if seqno then Some(BigEndian(buf[s], buf[s + 1])) else None), size, end)
  }

  lemma HeaderFlagsAre(f: Byte)
    ensures (HasFlag(f, MSG_ORIGINATOR) <==> On(f, 128)) && (HasFlag(f, MSG_HOPLIMIT) <==> On(f, 64))
      && (HasFlag(f, MSG_HOPCOUNT) <==> On(f, 32)) && (HasFlag(f, MSG_SEQNO) <==> On(f, 16))
  {
  }

  /** The reader takes every header from these positions, and refuses it exactly if its fields or the message do not end
   *  before the end of the buffer. */
  lemma HeaderParsed(buf: seq<Byte>, at: nat, eob: nat)
    requires at <= eob <= |buf|
    ensures ParseHeader(buf, at, eob) == HeaderAt(buf, at, eob)
  {
    hide HasFlag, On, GetU8, GetU16, Join, BigEndian;
    JoinIs();
    if at + 1 < eob {
      HeaderFlagsAre(buf[at + 1]);
    }
  }

  // ---------- TLVs (section 5.4.1) ----------

  /** Every byte of a TLV: the type; a byte whose bits 128, 64, 32, 16, 8 and 4 tell whether there are an extension, one
   *  index, two indices, a value, a length of two bytes and several values; and these fields in this order. */
  lemma TlvLayout(t: Tlv)
    requires |t.value| < 0x1_0000
    ensures var b, n := TlvBytes(t), |t.value|;
      var i := 2 + if t.full % 256 > 0 then 1 else 0;
      var l := i + if t.index.One? then 1 else if t.index.Span? then 2 else 0;
      var v := l + if n > 255 then 2 else if n > 0 then 1 else 0;
      && |b| == v + n
      && b[0] == t.full / 256 && b[1] % 4 == 0
      && (b[1] / 128 % 2 == 1 <==> t.full % 256 > 0) && (b[1] / 64 % 2 == 1 <==> t.index.One?)
      && (b[1] / 32 % 2 == 1 <==> t.index.Span?) && (b[1] / 16 % 2 == 1 <==> n > 0)
      && (b[1] / 8 % 2 == 1 <==> n > 255) && (b[1] / 4 % 2 == 1 <==> t.multi)
      && (t.full % 256 > 0 ==> b[2] == t.full % 256)
      && (t.index.One? ==> b[i] == t.index.i) && (t.index.Span? ==> b[i] == t.index.i && b[i + 1] == t.index.j)
      && (0 < n <= 255 ==> b[l] == n) && (n > 255 ==> BigEndian(b[l], b[l + 1]) == n)
      && b[v..] == t.value
  {
    hide FlagsOf;
    TlvBits(t);
  }

  lemma TlvBits(t: Tlv)
    requires |t.value| < 0x1_0000
    ensures var f, n := FlagsOf(t), |t.value|;
      && f % 4 == 0
      && (f / 128 % 2 == 1 <==> t.full % 256 > 0) && (f / 64 % 2 == 1 <==> t.index.One?)
      && (f / 32 % 2 == 1 <==> t.index.Span?) && (f / 16 % 2 == 1 <==> n > 0)
      && (f / 8 % 2 == 1 <==> n > 255) && (f / 4 % 2 == 1 <==> t.multi)
  {
    hide HasFlag, FlagsOf;
    FlagsRead(t);
    TlvFlagsAre(FlagsOf(t));
    LowBits(t);
  }

  lemma LowBits(t: Tlv)
    ensures FlagsOf(t) % 4 == 0
  {
  }

  /** The TLV at a position, read off its bytes. */
  function TlvAt(buf: seq<Byte>, at: nat, eob: nat, addrCount: Byte): (r: TlvResult)
    requires at <= eob <= |buf|
  {
    if at + 2 > eob then TlvErr(EndOfBuffer) else
    var f := buf[at + 1];
    var ext, one, two := On(f, 128), On(f, 64), On(f, 32);
    var value, wide, several := On(f, 16), On(f, 8), On(f, 4);
    var i := at + 2 + if ext then 1 else 0;
    var l := i + if one then 1 else if two then 2 else 0;
    var v := l + if wide then 2 else if value then 1 else 0;
    if one && two then TlvErr(BadTlvIdxFlags) else
    if addrCount > 0 && exists k :: i <= k < l && k < eob && buf[k] >= addrCount then TlvErr(BadTlvIndex) else
    if wide && !value then TlvErr(BadTlvValueFlags) else
    if v > eob then TlvErr(EndOfBuffer) else
    var n := if wide then BigEndian(buf[l], buf[l + 1]) else if value then buf[l] else 0;
    if v + n > eob then TlvErr(EndOfBuffer) else
    var order := BigEndian(buf[at], if ext then buf[at + 2] else 0);
    var first := if l > i then buf[i] else 0;
    var last := if l > i then buf[l - 1] else if addrCount == 0 then 255 else addrCount - 1;
    ValueAt(order, first, last, several, buf[v..v + n], v + n)
  }

  /** The value of a TLV. Several values have one length, and there is one for every address from the first to the last.
   */
  function ValueAt(order: U16, first: Byte, last: Byte, several: bool, raw: seq<Byte>, end: nat): (r: TlvResult) {
    var count, n := (last + 1 - first) % 256, |raw|;
    if n == 0 then TlvOk(TlvEntry(order, first, last, 0, several, raw), end) else
    if !several || count == 1 then TlvOk(TlvEntry(order, first, last, n, false, raw), end) else
    if count == 0 then TlvErr(DivisionByZero) else
    if n % count != 0 then TlvErr(BadTlvLength) else
    TlvOk(TlvEntry(order, first, last, n / count, true, raw), end)
  }

  lemma ValueParsed(order: U16, first: Byte, last: Byte, several: bool, raw: seq<Byte>, end: nat)
    requires |raw| < 0x1_0000
    ensures ParseValue(order, first, last, several, raw, end) == ValueAt(order, first, last, several, raw, end)
  {
  }

  lemma TlvFlagsAre(f: Byte)
    ensures (HasFlag(f, TLV_TYPEEXT) <==> On(f, 128)) && (HasFlag(f, TLV_SINGLE_IDX) <==> On(f, 64))
      && (HasFlag(f, TLV_MULTI_IDX) <==> On(f, 32)) && (HasFlag(f, TLV_VALUE) <==> On(f, 16))
      && (HasFlag(f, TLV_EXTVALUE) <==> On(f, 8)) && (HasFlag(f, TLV_MULTIVALUE) <==> On(f, 4))
  {
  }

  /** Type, flags and extension. */
  lemma TypeParsed(buf: seq<Byte>, at: nat, eob: nat)
    requires at <= eob <= |buf|
    ensures var (order, flags, c) := ReadType(buf, Cursor(at, Okay), eob);
      if at + 2 > eob then flags == 0 && c.status == EndOfBuffer && c.at <= eob
      else
        var ext := On(buf[at + 1], 128);
        && flags == buf[at + 1]
        && (ext && at + 2 == eob ==> c == Cursor(at + 2, EndOfBuffer))
        && (!ext || at + 2 < eob ==>
              c == Cursor(at + 2 + if ext then 1 else 0, Okay)
                && order == BigEndian(buf[at], if ext then buf[at + 2] else 0))
  {
    hide HasFlag, On;
    TlvFlagsAre(0);
    if at + 1 < eob {
      TlvFlagsAre(buf[at + 1]);
    } else if at < eob {
      assert GetU8(buf, Cursor(at + 1, Okay), eob) == (0, Cursor(at + 1, EndOfBuffer));
    }
  }

  /** The indices from a position on. */
  lemma IndexParsed(buf: seq<Byte>, f: Byte, addrCount: Byte, c: Cursor, eob: nat)
    requires c.at <= eob <= |buf| && !(On(f, 64) && On(f, 32))
    ensures var (first, last, d) := ReadIndex(buf, f, addrCount, c, eob);
      var l := c.at + if On(f, 64) then 1 else if On(f, 32) then 2 else 0;
      if l == c.at then first == 0 && last == (if addrCount == 0 then 255 else addrCount - 1) && d == c
      else if c.status != Okay then first == 0 && last == 0 && d == c
      else if l <= eob then first == buf[c.at] && last == buf[l - 1] && d == Cursor(l, Okay)
      else first == (if c.at < eob then buf[c.at] else 0) && last == 0 && d.status == EndOfBuffer && d.at <= eob
  {
    hide HasFlag, On;
    TlvFlagsAre(f);
  }

  /** The length from a position on. */
  lemma LengthParsed(buf: seq<Byte>, f: Byte, c: Cursor, eob: nat)
    requires c.at <= eob <= |buf| && c.status in {Okay, EndOfBuffer} && (On(f, 8) ==> On(f, 16))
    ensures var (n, d) := ReadLength(buf, f, c, eob);
      var v := c.at + if On(f, 8) then 2 else if On(f, 16) then 1 else 0;
      && (c.status != Okay || v > eob ==> d.status == EndOfBuffer)
      && (c.status == Okay && v <= eob ==>
            d == Cursor(v, Okay)
              && n == if On(f, 8) then BigEndian(buf[c.at], buf[c.at + 1])
                else if On(f, 16) then buf[c.at] else 0)
  {
    hide HasFlag, On;
    TlvFlagsAre(f);
  }

  /** _parse_tlv up to the value. */
  lemma FieldsParsed(buf: seq<Byte>, at: nat, eob: nat, addrCount: Byte)
    requires at <= eob <= |buf|
    ensures var r := ReadFields(buf, at, eob, addrCount);
      TlvAt(buf, at, eob, addrCount) ==
        if r.NoFields? then TlvErr(r.error) else ValueAt(r.order, r.index1, r.index2, r.multi, r.raw, r.at)
  {
    hide HasFlag, On, BigEndian, ValueAt, ReadType, ReadIndex, ReadLength;
    var (order, flags, c) := ReadType(buf, Cursor(at, Okay), eob);
    TypeParsed(buf, at, eob);
    TlvFlagsAre(flags);
    NothingOn();
    if !(On(flags, 64) && On(flags, 32)) {
      IndexParsed(buf, flags, addrCount, c, eob);
      if On(flags, 8) ==> On(flags, 16) {
        LengthParsed(buf, flags, ReadIndex(buf, flags, addrCount, c, eob).2, eob);
      }
    }
  }

  /** The reader takes every TLV from these positions, and refuses it for these reasons in this order. */
  lemma TlvParsed(buf: seq<Byte>, at: nat, eob: nat, addrCount: Byte)
    requires at <= eob <= |buf|
    ensures ParseTlv(buf, at, eob, addrCount) == TlvAt(buf, at, eob, addrCount)
  {
    hide ReadFields, ParseValue, TlvAt, ValueAt;
    FieldsParsed(buf, at, eob, addrCount);
    var f := ReadFields(buf, at, eob, addrCount);
    if f.Fields? {
      ValueParsed(f.order, f.index1, f.index2, f.multi, f.raw, f.at);
    }
  }

  // ---------- Address blocks (section 5.3) ----------

  /** The shared tail of a block is the longest: of several addresses, with a byte between head and tail, every longer
   *  tail differs in one of them. A single address has none. */
  lemma TailLongest(block: seq<Address>, len: nat, head: nat, u: nat)
    requires SameLength(block, len) && head < len && TailLength(block, len, head) < u < len - head
    ensures |block| == 1 || exists a :: a in block && a.bytes[len - u..] != block[0].bytes[len - u..]
  {
    if |block| > 1 {
      CommonLongest(block, len, len - head - 1, u);
    }
  }

  lemma {:induction false} CommonLongest(block: seq<Address>, len: nat, max: nat, u: nat)
    requires SameLength(block, len) && max <= len && CommonTail(block, len, max) < u <= max
    ensures !ShareTail(block, len, u)
  {
    if max > 0 && !ShareTail(block, len, max) && u < max {
      CommonLongest(block, len, max - 1, u);
    }
  }

  /** The flags of a block: bit 128 for a head, 64 for a tail that is written out, 32 for a tail of zeros, 16 for one
   *  prefix length, which is not that of whole addresses, and 8 for a prefix length of every address. */
  lemma BlockBits(block: seq<Address>, len: nat, head: nat, multi: bool)
    requires SameLength(block, len) && head < len
    ensures var f, t := BlockFlags(block, len, head, multi), TailLength(block, len, head);
      var zero := forall k :: len - t <= k < len ==> block[0].bytes[k] == 0;
      && f % 8 == 0
      && (f / 128 % 2 == 1 <==> |block| > 1 && head > 0)
      && (f / 64 % 2 == 1 <==> t > 0 && !zero) && (f / 32 % 2 == 1 <==> t > 0 && zero)
      && (f / 16 % 2 == 1 <==> !multi && block[0].plen != 8 * len) && (f / 8 % 2 == 1 <==> multi)
  {
    hide HasFlag, AddrBits, TailLength;
    var h, t := HeadLength(block, head), TailLength(block, len, head);
    var tail := block[0].bytes[len - t..];
    var zero := Zeros(tail);
    assert zero <==> forall k :: len - t <= k < len ==> block[0].bytes[k] == 0 by {
      assert forall k :: len - t <= k < len ==> block[0].bytes[k] == tail[k - (len - t)];
    }
    AddrBitsRead(h > 0, t > 0 && !zero, t > 0 && zero, !multi && block[0].plen != len * 8, multi);
    AddrFlagsAre(BlockFlags(block, len, head, multi));
    AddrLowBits(h > 0, t > 0 && !zero, t > 0 && zero, !multi && block[0].plen != len * 8, multi);
  }

  lemma AddrFlagsAre(f: Byte)
    ensures (HasFlag(f, ADDR_HEAD) <==> On(f, 128)) && (HasFlag(f, ADDR_FULLTAIL) <==> On(f, 64))
      && (HasFlag(f, ADDR_ZEROTAIL) <==> On(f, 32)) && (HasFlag(f, ADDR_SINGLEPLEN) <==> On(f, 16))
      && (HasFlag(f, ADDR_MULTIPLEN) <==> On(f, 8))
  {
  }

  lemma AddrLowBits(h: bool, f: bool, z: bool, s: bool, m: bool)
    ensures AddrBits(h, f, z, s, m) % 8 == 0
  {
  }

  /** Where the middles of the addresses start, behind a head of h and a tail of t bytes. */
  function MiddleAt(h: nat, t: nat, zero: bool): (p: nat) {
    2 + (if h > 0 then 1 + h else 0) + if t == 0 then 0 else if zero then 1 else 1 + t
  }

  /** What is written of head and tail. */
  lemma EndsWritten(block: seq<Address>, len: nat, head: nat, multi: bool)
    requires SameLength(block, len) && head < len <= MAX_ADDRLEN
    ensures var f, h, t := BlockFlags(block, len, head, multi), HeadLength(block, head), TailLength(block, len, head);
      && HeadBytes(block[0], h) == (if h > 0 then [h] + block[0].bytes[..h] else [])
      && TailBytes(block[0], t) ==
        (if t == 0 then [] else [t] + if f / 32 % 2 == 1 then [] else block[0].bytes[len - t..])
  {
    hide HasFlag, AddrBits, TailLength, Zeros;
    var h, t := HeadLength(block, head), TailLength(block, len, head);
    var zero := Zeros(block[0].bytes[len - t..]);
    AddrBitsRead(h > 0, t > 0 && !zero, t > 0 && zero, !multi && block[0].plen != len * 8, multi);
    AddrFlagsAre(BlockFlags(block, len, head, multi));
  }

  lemma BlockIsThere(b: seq<Byte>)
    ensures Has(b, 0, |b|, b)
  {
    assert b[0..|b|] == b;
  }

  /** The front of an address block: the number of addresses; the flags; the head with its length in front; the tail
   *  with its length in front, or the length alone if the tail is zero. */
  lemma BlockFront(b: seq<Byte>, block: seq<Address>, len: nat, head: nat, multi: bool, f: Byte, h: nat, t: nat)
    requires SameLength(block, len) && |block| <= 255 && head < len <= MAX_ADDRLEN
    requires b == AddrBlockBytes(block, len, head, multi) && f == BlockFlags(block, len, head, multi)
    requires h == (if |block| > 1 then head else 0) && t == TailLength(block, len, head)
    ensures Has(b, 0, |b|, [|block|]) && Has(b, 1, |b|, [f])
    ensures h > 0 ==> Has(b, 2, |b|, [h] + block[0].bytes[..h])
    ensures t > 0 ==> Has(b, if h > 0 then 3 + h else 2, |b|,
      [t] + if f / 32 % 2 == 1 then [] else block[0].bytes[len - t..])
  {
    hide AddrBlockBytes, TailLength, BlockFlags, Mids, Has, HeadBytes, TailBytes;
    BlockIsThere(b);
    BlockParts(b, 0, |b|, block, len, head, multi);
    EndsWritten(block, len, head, multi);
  }

  /** The rest of an address block: the bytes of every address between head and tail, in a part of w bytes; and the
   *  prefix length of every address, or one that is not that of whole addresses, or none. */
  lemma BlockRest(b: seq<Byte>, block: seq<Address>, len: nat, head: nat, multi: bool, f: Byte, h: nat, t: nat, w: nat,
                  m: nat, x: nat, k: nat)
    requires SameLength(block, len) && |block| <= 255 && head < len <= MAX_ADDRLEN && k < |block|
    requires b == AddrBlockBytes(block, len, head, multi) && f == BlockFlags(block, len, head, multi)
    requires h == (if |block| > 1 then head else 0) && t == TailLength(block, len, head) && w == len - h - t
    requires m == MiddleAt(h, t, f / 32 % 2 == 1) && x == m + w * |block|
    ensures w > 0 && w * k >= 0 && Has(b, m + w * k, |b|, block[k].bytes[h..len - t])
    ensures |b| == x + if multi then |block| else if block[0].plen != 8 * len then 1 else 0
    ensures multi ==> Has(b, x + k, |b|, [block[k].plen])
    ensures !multi && block[0].plen != 8 * len ==> Has(b, x, |b|, [block[0].plen])
  {
    hide AddrBlockBytes, TailLength, BlockFlags, Mids, HeadBytes, TailBytes, Has;
    BlockIsThere(b);
    BlockParts(b, 0, |b|, block, len, head, multi);
    EndsWritten(block, len, head, multi);
    assert Has(b, m, |b|, Mids(block, h, len - t));
    MiddleThere(b, m, block, h, len - t, k, w);
    PrefixesThere(b, x, block, len, multi, k);
  }

  lemma MiddleThere(b: seq<Byte>, m: nat, block: seq<Address>, i: nat, j: nat, k: nat, w: nat)
    requires i <= j && w == j - i && k < |block| && forall a :: a in block ==> j <= |a.bytes|
    requires Has(b, m, |b|, Mids(block, i, j))
    ensures w * k >= 0 && w * |block| >= 0 && |Mids(block, i, j)| == w * |block|
      && Has(b, m + w * k, |b|, block[k].bytes[i..j])
  {
    hide Mids;
    ReadMid(b, m, |b|, block, i, j, k);
    assert |block[k].bytes[i..j]| == w;
  }

  lemma PrefixesThere(b: seq<Byte>, x: nat, block: seq<Address>, len: nat, multi: bool, k: nat)
    requires k < |block| && Has(b, x, |b|, PrefixBytes(block, len, multi))
    ensures |PrefixBytes(block, len, multi)| == if multi then |block| else if block[0].plen != 8 * len then 1 else 0
    ensures multi ==> Has(b, x + k, |b|, [block[k].plen])
    ensures !multi && block[0].plen != 8 * len ==> Has(b, x, |b|, [block[0].plen])
  {
    var p := PrefixBytes(block, len, multi);
    if multi {
      assert b[x..x + |p|][k] == p[k];
    } else if block[0].plen != 8 * len {
      assert b[x..x + |p|][0] == p[0];
    }
  }

  /** The address block at a position, read off its bytes. */
  function AddrBlockAt(buf: seq<Byte>, at: nat, eob: nat, len: nat): (r: AddrBlockResult)
    requires at <= eob <= |buf| && 1 <= len <= 16
  {
    if at == eob || buf[at] == 0 then AddrErr(EmptyAddrBlock) else
    if at + 1 == eob then AddrErr(EndOfBuffer) else
    var f := buf[at + 1];
    var head := On(f, 128);
    if head && (at + 2 == eob || buf[at + 2] == 0 || buf[at + 2] >= len) then AddrErr(BadAddrHeadLength) else
    var h := if head then buf[at + 2] else 0;
    var q := at + 2 + if head then 1 + h else 0;
    if q > eob then AddrErr(EndOfBuffer) else
    TailOf(buf, buf[at], f, at + 3, h, q, eob, len)
  }

  /** The tail from a position on, and what is behind it. */
  function TailOf(buf: seq<Byte>, num: Byte, f: Byte, p: nat, h: Byte, q: nat, eob: nat, len: nat): (r: AddrBlockResult)
    requires q <= eob <= |buf| && 1 <= len <= 16 && (h > 0 ==> p + h <= |buf| && h < len)
  {
    var full, zero := On(f, 64), On(f, 32);
    if full && zero then AddrErr(BadMsgTailFlags) else
    if full && (q == eob || buf[q] == 0 || buf[q] >= len) then AddrErr(BadAddrTailLength) else
    if zero && q == eob then AddrErr(EndOfBuffer) else
    var t := if full || zero then buf[q] else 0;
    var m := q + if full then 1 + t else if zero then 1 else 0;
    if m > eob then AddrErr(EndOfBuffer) else
    MiddleOf(buf, num, f, h, t, EndsOf(buf, p, h, q + 1, if full then t else 0, len), m, eob, len)
  }

  /** A buffer for an address, with a head from one position and a tail from another. */
  function EndsOf(buf: seq<Byte>, p: nat, h: nat, q: nat, t: nat, len: nat): (r: seq<Byte>)
    requires (h > 0 ==> p + h <= |buf|) && (t > 0 ==> q + t <= |buf|) && h <= len && t <= len <= 16
  {
    seq(16, k requires 0 <= k < 16 =>
      if len - t <= k < len then buf[q + k - (len - t)] else if k < h then buf[p + k] else 0)
  }

  /** The middles of the addresses from a position on, and the prefix lengths behind them. */
  function MiddleOf(buf: seq<Byte>, num: Byte, f: Byte, h: Byte, t: Byte, addr: seq<Byte>, m: nat, eob: nat,
                    len: nat): (r: AddrBlockResult)
    requires m <= eob <= |buf| && 1 <= len <= 16
  {
    var one, each, w := On(f, 16), On(f, 8), (len - h - t) % 256;
    assert w * num >= 0;
    var x := m + w * num;
    if x > eob then AddrErr(EndOfBuffer) else
    if one && each then AddrErr(BadMsgPrefixFlags) else
    if one && x == |buf| then AddrErr(ReadPastBuffer) else
    var end := x + if each then num else if one then 1 else 0;
    if end > eob then AddrErr(EndOfBuffer) else
    AddrOk(AddrBlock(num, addr, h, w, m, PrefixesOf(buf, one, each, x, len)), end)
  }

  function PrefixesOf(buf: seq<Byte>, one: bool, each: bool, x: nat, len: nat): (r: Prefixes)
    requires len <= 16 && (one && !each ==> x < |buf|)
  {
    if each then Each(x) else Same(if one then buf[x] else 8 * len)
  }

  lemma HeadParsed(buf: seq<Byte>, f: Byte, p: nat, eob: nat, len: nat)
    requires p <= eob <= |buf| && 1 <= len <= 16
    ensures var r, head := ReadHead(buf, f, Cursor(p, Okay), eob, len), On(f, 128);
      if !head then r == PartOk(0, [], Cursor(p, Okay))
      else if p == eob || buf[p] == 0 || buf[p] >= len then r == PartErr(BadAddrHeadLength)
      else if p + 1 + buf[p] > eob then r == PartErr(EndOfBuffer)
      else r == PartOk(buf[p], buf[p + 1..p + 1 + buf[p]], Cursor(p + 1 + buf[p], Okay))
  {
    hide HasFlag, On;
    AddrFlagsAre(f);
  }

  lemma TailParsed(buf: seq<Byte>, f: Byte, q: nat, eob: nat, len: nat)
    requires q <= eob <= |buf| && 1 <= len <= 16
    ensures var r, full, zero := ReadTail(buf, f, Cursor(q, Okay), eob, len), On(f, 64), On(f, 32);
      if full && zero then r == PartErr(BadMsgTailFlags)
      else if zero then
        r == if q == eob then PartOk(0, [], Cursor(q, EndOfBuffer)) else PartOk(buf[q], [], Cursor(q + 1, Okay))
      else if !full then r == PartOk(0, [], Cursor(q, Okay))
      else if q == eob || buf[q] == 0 || buf[q] >= len then r == PartErr(BadAddrTailLength)
      else if q + 1 + buf[q] > eob then r == PartErr(EndOfBuffer)
      else r == PartOk(buf[q], buf[q + 1..q + 1 + buf[q]], Cursor(q + 1 + buf[q], Okay))
  {
    hide HasFlag, On;
    AddrFlagsAre(f);
  }

  lemma MidsParsed(buf: seq<Byte>, num: Byte, f: Byte, h: Byte, t: Byte, addr: seq<Byte>, c: Cursor, eob: nat, len: nat)
    requires c.at <= eob <= |buf| && 1 <= len <= 16 && num > 0 && |addr| == 16
    ensures c.status == Okay ==>
      ParseMids(buf, num, f, h, t, addr, c, eob, len) == MiddleOf(buf, num, f, h, t, addr, c.at, eob, len)
    ensures c == Cursor(eob, EndOfBuffer) && h < len && t == 0 ==>
      ParseMids(buf, num, f, h, t, addr, c, eob, len) == AddrErr(EndOfBuffer)
  {
    hide HasFlag, On;
    AddrFlagsAre(f);
    if h < len && t == 0 {
      assert (len - h - t) % 256 == len - h;
      assert (len - h) * num > 0;
    }
  }

  lemma EndsParsed(buf: seq<Byte>, p: nat, h: nat, q: nat, t: nat, len: nat)
    requires (h > 0 ==> p + h <= |buf|) && (t > 0 ==> q + t <= |buf|) && h <= len && t <= len <= 16
    ensures Template(if h > 0 then buf[p..p + h] else [], if t > 0 then buf[q..q + t] else [], len)
         == EndsOf(buf, p, h, q, t, len)
  {
  }

  lemma NoFlagsByte(buf: seq<Byte>, at: nat, eob: nat, len: nat)
    requires at + 1 == eob <= |buf| && 1 <= len <= 16 && buf[at] > 0
    ensures ParseAddrBlock(buf, at, eob, len) == AddrErr(EndOfBuffer)
  {
    hide HasFlag, ParseMids;
    AddrFlagsAre(0);
    MidsParsed(buf, buf[at], 0, 0, 0, Template([], [], len), Cursor(at + 1, EndOfBuffer), eob, len);
  }

  /** The reader takes every address block from these positions, and refuses it for these reasons in this order. */
  lemma AddrBlockParsed(buf: seq<Byte>, at: nat, eob: nat, len: nat)
    requires at <= eob <= |buf| && 1 <= len <= 16
    ensures ParseAddrBlock(buf, at, eob, len) == AddrBlockAt(buf, at, eob, len)
  {
    hide HasFlag, On, ReadHead, ReadTail, ParseMids, Template, TailOf;
    if at + 1 < eob && buf[at] > 0 {
      var f := buf[at + 1];
      HeadParsed(buf, f, at + 2, eob, len);
      var h := ReadHead(buf, f, Cursor(at + 2, Okay), eob, len);
      if h.PartOk? {
        BlockParsed(buf, buf[at], f, at + 3, h, eob, len);
      }
    } else if at < eob && buf[at] > 0 {
      NoFlagsByte(buf, at, eob, len);
    }
  }

  /** _parse_addrblock behind the head. */
  lemma BlockParsed(buf: seq<Byte>, num: Byte, f: Byte, p: nat, h: Part, eob: nat, len: nat)
    requires eob <= |buf| && 1 <= len <= 16 && num > 0 && h.PartOk? && h.c.status == Okay && h.c.at <= eob
    requires (h.length > 0 ==> p + h.length <= |buf| && h.length < len)
      && h.bytes == if h.length > 0 then buf[p..p + h.length] else []
    ensures var t := ReadTail(buf, f, h.c, eob, len);
      TailOf(buf, num, f, p, h.length, h.c.at, eob, len) ==
        if t.PartErr? then AddrErr(t.error)
        else ParseMids(buf, num, f, h.length, t.length, Template(h.bytes, t.bytes, len), t.c, eob, len)
  {
    hide HasFlag, On, ReadTail, ParseMids, MiddleOf, Template, EndsOf;
    TailParsed(buf, f, h.c.at, eob, len);
    var t := ReadTail(buf, f, h.c, eob, len);
    if t.PartOk? {
      EndsMids(buf, num, f, p, h.length, h.bytes, h.c.at + 1, t.length, t.bytes, t.c, eob, len);
    }
  }

  lemma EndsMids(buf: seq<Byte>, num: Byte, f: Byte, p: nat, h: Byte, head: seq<Byte>, q: nat, t: Byte, tail: seq<Byte>,
                 c: Cursor, eob: nat, len: nat)
    requires c.at <= eob <= |buf| && 1 <= len <= 16 && num > 0 && h <= len && |tail| <= len
    requires (h > 0 ==> p + h <= |buf|) && head == if h > 0 then buf[p..p + h] else []
    requires (tail != [] ==> q + |tail| <= |buf|) && tail == if tail != [] then buf[q..q + |tail|] else []
    ensures c.status == Okay ==>
      ParseMids(buf, num, f, h, t, Template(head, tail, len), c, eob, len)
        == MiddleOf(buf, num, f, h, t, EndsOf(buf, p, h, q, |tail|, len), c.at, eob, len)
    ensures c == Cursor(eob, EndOfBuffer) && h < len && t == 0 ==>
      ParseMids(buf, num, f, h, t, Template(head, tail, len), c, eob, len) == AddrErr(EndOfBuffer)
  {
    hide ParseMids, MiddleOf, Template, EndsOf;
    EndsParsed(buf, p, h, q, |tail|, len);
    MidsParsed(buf, num, f, h, t, Template(head, tail, len), c, eob, len);
  }

  /** The byte k of the address i of a block: of its middle, or of what all addresses share. The prefix length 255
   *  stands for the whole address. */
  lemma AddressBytesAt(buf: seq<Byte>, b: AddrBlock, len: nat, i: nat, k: nat)
    requires WithinBuffer(b, |buf|) && i < b.num && b.midStart + b.midLen <= 16 && k < len <= 16
    ensures 0 <= b.midLen * i && b.mids + b.midLen * i + b.midLen <= |buf|
    ensures AddressBytes(buf, b, len, i)[k] ==
      if b.midStart <= k < b.midStart + b.midLen then buf[b.mids + b.midLen * i + (k - b.midStart)] else b.addr[k]
    ensures var p := match b.prefixes case Same(plen) => plen case Each(at) => buf[at + i];
      AddressPlen(buf, b, len, i) == if p == 255 then 8 * len else p
  {
    MidOffset(b, |buf|, i);
  }

  /** The length in front of a TLV block has its upper byte first. */
  lemma TlvBlockParsed(buf: seq<Byte>, at: nat, eob: nat, addrCount: Byte)
    requires eob <= |buf|
    ensures ParseBlock(buf, at, eob, addrCount) ==
      if at + 2 > eob || at + 2 + BigEndian(buf[at], buf[at + 1]) > eob then BlockErr(EndOfBuffer)
      else ParseTlvs(buf, at + 2, at + 2 + BigEndian(buf[at], buf[at + 1]), eob, addrCount)
  {
    hide ParseTlvs;
  }

  /** The TLVs of a block, without recursion: each is parsed where the one before it ends, against the end of the
   *  message. They stop where one ends at the end of the block or behind it, or where one is refused. */
  lemma {:induction false} TlvsChain(buf: seq<Byte>, at: nat, end: nat, eob: nat, addrCount: Byte)
    returns (es: seq<TlvEntry>, ps: seq<nat>)
    requires end <= eob <= |buf|
    ensures |ps| == |es| + 1 && ps[0] == at
    ensures forall k :: 0 <= k < |es| ==>
      ps[k] < end && ParseTlv(buf, ps[k], eob, addrCount) == TlvOk(es[k], ps[k + 1])
    ensures var last, r := ps[|es|], ParseTlvs(buf, at, end, eob, addrCount);
      if last >= end then r == BlockOk(es, last)
      else ParseTlv(buf, last, eob, addrCount).TlvErr? && r == BlockErr(ParseTlv(buf, last, eob, addrCount).error)
    decreases eob - at
  {
    hide ParseTlv;
    es, ps := [], [at];
    if at < end && ParseTlv(buf, at, eob, addrCount).TlvOk? {
      var t := ParseTlv(buf, at, eob, addrCount);
      var fs, qs := TlvsChain(buf, t.at, end, eob, addrCount);
      es, ps := [t.entry] + fs, [at] + qs;
    }
  }

  /** An address block from p to q, with its TLVs. */
  ghost predicate BlockStep(buf: seq<Byte>, p: nat, end: nat, len: nat, b: ReadBlock, q: nat)
    requires end <= |buf| && len <= 16
  {
    && p < end && ParseAddrBlock(buf, p, end, len).AddrOk?
    && var a := ParseAddrBlock(buf, p, end, len);
    a.block == b.block && ParseBlock(buf, a.at, end, a.block.num) == BlockOk(b.entries, q)
  }

  /** The address blocks of a message, each with its TLVs, without recursion: up to the end of the message, or up to the
   *  first that is refused or has a TLV block that is. */
  lemma {:induction false} BlocksChain(buf: seq<Byte>, at: nat, end: nat, len: nat)
    returns (bs: seq<ReadBlock>, ps: seq<nat>)
    requires at <= end <= |buf| && len <= 16
    ensures |ps| == |bs| + 1 && ps[0] == at
    ensures forall k :: 0 <= k < |bs| ==> BlockStep(buf, ps[k], end, len, bs[k], ps[k + 1])
    ensures ps[|bs|] <= end
    ensures var last, r := ps[|bs|], ParseBlocks(buf, at, end, len);
      if last == end then r == BlocksOk(bs)
      else
        var a := ParseAddrBlock(buf, last, end, len);
        && (a.AddrErr? ==> r == BlocksErr(a.error))
        && (a.AddrOk? ==>
              var t := ParseBlock(buf, a.at, end, a.block.num);
              t.BlockErr? && r == BlocksErr(t.error))
    decreases end - at
  {
    hide ParseAddrBlock, ParseBlock;
    bs, ps := [], [at];
    if at < end && ParseAddrBlock(buf, at, end, len).AddrOk? {
      var a := ParseAddrBlock(buf, at, end, len);
      var t := ParseBlock(buf, a.at, end, a.block.num);
      if t.BlockOk? {
        var cs, qs := BlocksChain(buf, t.at, end, len);
        bs, ps := [ReadBlock(a.block, t.entries)] + cs, [at] + qs;
        forall k | 0 <= k < |bs| ensures BlockStep(buf, ps[k], end, len, bs[k], ps[k + 1]) {
          if k > 0 {
            assert BlockStep(buf, qs[k - 1], end, len, cs[k - 1], qs[k]);
          }
        }
      }
    }
  }

  /** A message: header, TLV block and address blocks, refused for the first of them that is. */
  lemma MessageExact(buf: seq<Byte>, at: nat, eob: nat, r: MessageResult)
    requires at <= eob <= |buf| && r == ParseMessage(buf, at, eob)
    ensures r.MessageOk? ==>
      && at + 6 <= r.at == at + BigEndian(buf[at + 2], buf[at + 3]) <= eob
      && var h := ParseHeader(buf, at, eob);
      && h.HeaderOk? && r.header == h.header
      && var t := ParseBlock(buf, h.at, r.at, 0);
      && t.BlockOk? && r.tlvs == t.entries && ParseBlocks(buf, t.at, r.at, r.header.addrLen) == BlocksOk(r.blocks)
    ensures r.MessageErr? ==>
      var h := ParseHeader(buf, at, eob);
      || h == HeaderErr(r.error)
      || (h.HeaderOk?
          && var t := ParseBlock(buf, h.at, at + h.size, 0);
          || t == BlockErr(r.error)
          || (t.BlockOk? && ParseBlocks(buf, t.at, at + h.size, h.header.addrLen) == BlocksErr(r.error)))
  {
    hide ParseHeader, ParseBlock, ParseBlocks;
    HeaderParsed(buf, at, eob);
  }

  /** The messages of a packet, without recursion: each is parsed where the size of the one before it says that it ends.
   *  They stop at the end of the packet, at the first that is refused, or at one whose addresses are consumed and pass
   *  the buffer of an address; those before it have been handled. */
  lemma {:induction false} MessagesChain(buf: seq<Byte>, at: nat, eob: nat, consumed: bool)
    returns (ms: seq<MessageResult>, ps: seq<nat>)
    requires at <= eob <= |buf|
    ensures |ps| == |ms| + 1 && ps[0] == at && forall k :: 0 <= k <= |ms| ==> ps[k] <= eob
    ensures forall k :: 0 <= k < |ms| ==>
      && ps[k] < eob && ms[k] == ParseMessage(buf, ps[k], eob) && ms[k].MessageOk? && ms[k].at == ps[k + 1]
      && (consumed ==> forall b :: b in ms[k].blocks ==> b.block.midStart + b.block.midLen <= 16)
    ensures var last := ps[|ms|];
      ParseMessages(buf, at, eob, consumed) == (ms,
        if last == eob then Okay
        else match ParseMessage(buf, last, eob) case MessageErr(error) => error case _ => CopyPastAddress)
    ensures var last := ps[|ms|];
      last < eob && ParseMessage(buf, last, eob).MessageOk? ==>
        consumed && exists b :: b in ParseMessage(buf, last, eob).blocks && b.block.midStart + b.block.midLen > 16
    decreases eob - at
  {
    hide ParseMessage;
    ms, ps := [], [at];
    if at < eob && Passes(buf, at, eob, consumed) {
      var m := ParseMessage(buf, at, eob);
      var ns, qs := MessagesChain(buf, m.at, eob, consumed);
      ms, ps := [m] + ns, [at] + qs;
    }
  }

  // ---------- Packets (section 5.1) ----------

  /** The first byte of a packet: the version, which is 0, in the upper half, bit 8 for a sequence number, and bit 4 for
   *  a TLV block. */
  lemma PacketParsed(buf: seq<Byte>)
    ensures var r := ParsePacketStart(buf);
      if |buf| > 65535 then r.status == TooLarge
      else if |buf| == 0 then r.status == EndOfBuffer
      else if buf[0] >= 16 then r.status == UnsupportedVersion
      else if buf[0] / 8 % 2 == 1 && |buf| < 3 then r.status == EndOfBuffer
      else
        var n := if buf[0] / 8 % 2 == 1 then 3 else 1;
        && r.seqno == (if n == 3 then Some(BigEndian(buf[1], buf[2])) else None)
        && if buf[0] / 4 % 2 == 0 then r.status == Okay && r.at == n
           else match ParseBlock(buf, n, |buf|, 0)
             case BlockErr(error) => r.status == error
             case BlockOk(_, at) => r.status == Okay && r.at == at
  {
    hide ParseBlock, HasFlag;
    PacketFlagsAre(0);
    if |buf| > 0 {
      PacketFlagsAre(buf[0]);
    }
  }

  lemma PacketFlagsAre(f: Byte)
    ensures (HasFlag(f, PKT_SEQNO_FLAG) <==> f / 8 % 2 == 1) && (HasFlag(f, PKT_TLV_FLAG) <==> f / 4 % 2 == 1)
  {
  }

  /** The header that the writer puts in front of its messages. */
  lemma PacketSent(seqno: U16, messages: seq<Byte>)
    requires |messages| <= 65532
    ensures var b := PacketHeader(true, seqno) + messages;
      b[0] == 8 && BigEndian(b[1], b[2]) == seqno && ParsePacketStart(b) == PacketStart(Okay, Some(seqno), 3)
    ensures var b := PacketHeader(false, seqno) + messages;
      b[0] == 0 && ParsePacketStart(b) == PacketStart(Okay, None, 1)
  {
    hide ParsePacketStart, ParseBlock;
    PacketParsed(PacketHeader(true, seqno) + messages);
    PacketParsed(PacketHeader(false, seqno) + messages);
  }
}
