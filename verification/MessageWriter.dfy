/** _write_addresses, _write_msgheader and the one-fragment path of rfc5444_writer_create_message. */
module MessageWriter {
  import opened Bytes
  import opened TlvFormat
  import opened AddressTlvs
  import opened AddressTlvWriter
  import opened AddressBlocks
  import opened AddressBlockWriter
  import opened Compression
  import opened CompressionBound
  import opened CompressionCosts
  import opened MessageFormat
  import TlvWriter

  function BlockOf(c: Cut, addrs: seq<Address>): (r: seq<Address>)
    requires c.start <= c.end < |addrs|
  {
    addrs[c.start..c.end + 1]
  }

  lemma BlockInput(c: Cut, addrs: seq<Address>, len: nat)
    requires Input(addrs, len) && GoodCut(c, addrs, len)
    ensures c.start <= c.end < |addrs|
    ensures var b := BlockOf(c, addrs);
      SameLength(b, len) && |b| <= 255 && c.head < len <= MAX_ADDRLEN && Compressed(b, len, c.head, c.multi)
      && (forall a :: a in b ==> a.Valid())
  {
  }

  /** An address block and its TLV block. */
  function CutBytes(c: Cut, addrs: seq<Address>, len: nat): (r: seq<Byte>)
    requires Input(addrs, len) && GoodCut(c, addrs, len)
  {
    BlockInput(c, addrs, len);
    var b := BlockOf(c, addrs);
    AddrBlockBytes(b, len, c.head, c.multi) + U16Bytes(Low16(|BlockTlvs(b)|)) + BlockTlvs(b)
  }

  function CutsBytes(cuts: seq<Cut>, addrs: seq<Address>, len: nat): (r: seq<Byte>)
    requires Input(addrs, len) && forall c :: c in cuts ==> GoodCut(c, addrs, len)
  {
    if cuts == [] then [] else CutBytes(cuts[0], addrs, len) + CutsBytes(cuts[1..], addrs, len)
  }

  /** The loop body of _write_addresses. */
  method WriteCut(buf: array<Byte>, at: nat, addrs: seq<Address>, len: nat, c: Cut, ghost was: seq<Byte>,
                  ghost start: nat, ghost out: seq<Byte>)
    returns (next: nat)
    requires Input(addrs, len) && GoodCut(c, addrs, len)
    requires Output(buf[..], was, start, at, out) && at + |CutBytes(c, addrs, len)| <= buf.Length
    modifies buf
    ensures next == at + |CutBytes(c, addrs, len)| && Output(buf[..], was, start, next, out + CutBytes(c, addrs, len))
  {
    hide Output, AddrBlockBytes, BlockTlvs, Compressed, SameLength, Input, GoodCut, U16Bytes, Low16;
    OutputIs(buf[..], was, start, at, out);
    BlockInput(c, addrs, len);
    var block := addrs[c.start..c.end + 1];
    ghost var b, t := AddrBlockBytes(block, len, c.head, c.multi), BlockTlvs(block);
    next := WriteAddrBlock(buf, at, block, len, c.head, c.multi, was, start, out);
    var lengthAt := next;
    next := Put(buf, next, [0, 0], was, start, out + b);
    next := WriteAddressTlvs(buf, next, block, was, start, out + b + [0, 0]);
    PatchU16(buf, lengthAt, Low16(next - lengthAt - 2), was, start, next, out + b, t);
    RegroupCut(out, b, U16Bytes(Low16(|t|)), t);
  }

  lemma RegroupCut(out: seq<Byte>, b: seq<Byte>, l: seq<Byte>, t: seq<Byte>)
    ensures out + b + l + t == out + (b + l + t)
  {
  }

  /** _write_addresses: all address blocks of the fragment, found by following _block_end. */
  method WriteAddresses(buf: array<Byte>, at: nat, marks: array<Mark>, addrs: seq<Address>, len: nat,
                        ghost cuts: seq<Cut>, ghost was: seq<Byte>, ghost start: nat, ghost out: seq<Byte>)
    returns (next: nat)
    requires Input(addrs, len) && addrs != [] && marks.Length == |addrs|
    requires Partition(cuts, addrs, len, 0, |addrs|) && Linked(cuts, marks[..])
    requires Output(buf[..], was, start, at, out)
    requires at + |(PartitionFrom(cuts, addrs, len, 0, |addrs|); CutsBytes(cuts, addrs, len))| <= buf.Length
    modifies buf
    ensures var b := (PartitionFrom(cuts, addrs, len, 0, |addrs|); CutsBytes(cuts, addrs, len));
      next == at + |b| && Output(buf[..], was, start, next, out + b)
  {
    hide Output, CutBytes, GoodCut, Input;
    PartitionFrom(cuts, addrs, len, 0, |addrs|);
    ghost var rest, done, all := cuts, [], CutsBytes(cuts, addrs, len);
    var addr := 0;
    next := at;
    assert out + done == out && done + all == all;
    while true
      invariant 0 <= addr < |addrs| && Partition(rest, addrs, len, addr, |addrs|) && Linked(rest, marks[..])
      invariant (forall c :: c in rest ==> GoodCut(c, addrs, len)) && done + CutsBytes(rest, addrs, len) == all
      invariant next == at + |done| && Output(buf[..], was, start, next, out + done)
      decreases |rest|
    {
      PartitionFrom(rest, addrs, len, addr, |addrs|);
      ghost var c := rest[0];
      var end := marks[addr].end;
      ghost var b := CutBytes(c, addrs, len);
      assert CutsBytes(rest, addrs, len) == b + CutsBytes(rest[1..], addrs, len);
      assert done + (b + CutsBytes(rest[1..], addrs, len)) == done + b + CutsBytes(rest[1..], addrs, len);
      next := WriteCut(buf, next, addrs, len, Cut(addr, end, marks[addr].head, marks[addr].multi), was, start,
        out + done);
      assert out + done + b == out + (done + b);
      done, rest := done + b, rest[1..];
      PartitionFrom(rest, addrs, len, end + 1, |addrs|);
      if end == |addrs| - 1 {
        assert rest == [];
        assert done + [] == done;
        return;
      }
      addr := end + 1;
    }
  }

  // ---------- The header ----------

  /** A header of which the fields rest stand behind the flags. */
  ghost predicate HeaderOut(now: seq<Byte>, was: seq<Byte>, at: nat, msgType: Byte, flags: Byte, rest: seq<Byte>) {
    Output(now, was, 0, at, [msgType] + [flags] + rest)
  }

  /** One field behind the flags byte and the size, with its flag. */
  method WriteField(buf: array<Byte>, at: nat, present: bool, mask: Byte, field: seq<Byte>, ghost was: seq<Byte>,
                    ghost msgType: Byte, ghost flags: Byte, ghost rest: seq<Byte>)
    returns (next: nat)
    requires IsBit(mask) && (!present ==> field == [])
    requires HeaderOut(buf[..], was, at, msgType, flags, rest) && at + |field| <= buf.Length
    modifies buf
    ensures next == at + |field|
    ensures HeaderOut(buf[..], was, next, msgType, if present then SetFlag(flags, mask) else flags, rest + field)
  {
    hide Output;
    next := at;
    if present {
      PatchFlag(buf, 1, mask, was, 0, at, [msgType], flags, rest);
      ghost var f := SetFlag(flags, mask);
      next := Put(buf, next, field, was, 0, [msgType] + [f] + rest);
      assert [msgType] + [f] + rest + field == [msgType] + [f] + (rest + field);
    } else {
      assert rest + [] == rest;
    }
  }

  method WriteFixed(buf: array<Byte>, h: Header, size: U16) returns (next: nat)
    requires GoodHeader(h) && 4 <= buf.Length
    modifies buf
    ensures next == 4 && HeaderOut(buf[..], old(buf[..]), 4, h.msgType, h.addrLen - 1, U16Bytes(size))
  {
    hide Output;
    ghost var was := buf[..];
    NoOutput(was, 0);
    next := Put(buf, 0, [h.msgType], was, 0, []);
    next := Put(buf, next, [h.addrLen - 1], was, 0, [] + [h.msgType]);
    next := Put(buf, next, U16Bytes(size), was, 0, [] + [h.msgType] + [h.addrLen - 1]);
    assert [] + [h.msgType] + [h.addrLen - 1] + U16Bytes(size) == [h.msgType] + [h.addrLen - 1] + U16Bytes(size);
  }

  /** _write_msgheader */
  method WriteMsgHeader(buf: array<Byte>, h: Header, size: U16, tlvSize: U16)
    requires GoodHeader(h) && HeaderLength(h) <= buf.Length
    modifies buf
    ensures Output(buf[..], old(buf[..]), 0, HeaderLength(h), HeaderBytes(h, size) + U16Bytes(tlvSize))
  {
    hide HeaderOut, Output, SetFlag, HasFlag, MsgBits, U16Bytes, OptionalField, Optional8, Optional16, HeaderBytes;
    ghost var was := buf[..];
    ghost var o, l, c, len := h.orig.Some?, h.hopLimit.Some?, h.hopCount.Some?, h.addrLen;
    MsgBitsSet(len, o, l, c);
    NoFlags(len);
    FieldSizes(h);
    var next := WriteFixed(buf, h, size);
    ghost var rest := U16Bytes(size);
    next := WriteField(buf, next, h.orig.Some?, MSG_ORIGINATOR, OptionalField(h.orig), was, h.msgType, len - 1, rest);
    rest := rest + OptionalField(h.orig);
    next := WriteField(buf, next, h.hopLimit.Some?, MSG_HOPLIMIT, Optional8(h.hopLimit), was, h.msgType,
      MsgBits(len, o, false, false, false), rest);
    rest := rest + Optional8(h.hopLimit);
    next := WriteField(buf, next, h.hopCount.Some?, MSG_HOPCOUNT, Optional8(h.hopCount), was, h.msgType,
      MsgBits(len, o, l, false, false), rest);
    rest := rest + Optional8(h.hopCount);
    next := WriteField(buf, next, h.seqno.Some?, MSG_SEQNO, Optional16(h.seqno), was, h.msgType,
      MsgBits(len, o, l, c, false), rest);
    rest := rest + Optional16(h.seqno);
    HeaderDone(buf[..], was, next, h, size);
    next := Put(buf, next, U16Bytes(tlvSize), was, 0, HeaderBytes(h, size));
  }

  lemma NoFlags(len: nat)
    requires 1 <= len <= 16
    ensures MsgBits(len, false, false, false, false) == len - 1
  {
  }

  lemma FieldSizes(h: Header)
    requires GoodHeader(h)
    ensures HeaderLength(h)
      == 6 + |OptionalField(h.orig)| + |Optional8(h.hopLimit)| + |Optional8(h.hopCount)| + |Optional16(h.seqno)|
    ensures h.orig.None? ==> OptionalField(h.orig) == []
    ensures h.hopLimit.None? ==> Optional8(h.hopLimit) == []
    ensures h.hopCount.None? ==> Optional8(h.hopCount) == []
    ensures h.seqno.None? ==> Optional16(h.seqno) == []
  {
  }

  lemma HeaderDone(now: seq<Byte>, was: seq<Byte>, at: nat, h: Header, size: U16)
    requires GoodHeader(h)
    requires HeaderOut(now, was, at, h.msgType, HeaderFlags(h),
      U16Bytes(size) + OptionalField(h.orig) + Optional8(h.hopLimit) + Optional8(h.hopCount) + Optional16(h.seqno))
    ensures Output(now, was, 0, at, HeaderBytes(h, size))
  {
    hide Output, HeaderFlags, U16Bytes, OptionalField, Optional8, Optional16;
    assert [h.msgType] + [HeaderFlags(h)]
      + (U16Bytes(size) + OptionalField(h.orig) + Optional8(h.hopLimit) + Optional8(h.hopCount) + Optional16(h.seqno))
        == HeaderBytes(h, size);
  }

  // ---------- Messages ----------

  ghost predicate GoodCuts(cuts: seq<Cut>, addrs: seq<Address>, len: nat) {
    Input(addrs, len) && forall c :: c in cuts ==> GoodCut(c, addrs, len)
  }

  /** Header, TLVs and address blocks with the two size fields, which have 16 bits. */
  ghost function Framed(h: Header, tb: seq<Byte>, b: seq<Byte>): (r: seq<Byte>)
    requires GoodHeader(h)
  {
    hide HeaderLength, HeaderBytes, U16Bytes, Low16;
    HeaderBytes(h, Low16(HeaderLength(h) + |tb| + |b|)) + U16Bytes(Low16(|tb|)) + tb + b
  }

  /** A message: header, message TLV block and address blocks. */
  ghost function MessageBytes(h: Header, ts: seq<Tlv>, cuts: seq<Cut>, addrs: seq<Address>): (r: seq<Byte>)
    requires GoodHeader(h) && GoodCuts(cuts, addrs, h.addrLen)
  {
    Framed(h, TlvsBytes(ts), CutsBytes(cuts, addrs, h.addrLen))
  }

  ghost function MessageSize(h: Header, ts: seq<Tlv>, cuts: seq<Cut>, addrs: seq<Address>): (r: nat)
    requires GoodHeader(h) && GoodCuts(cuts, addrs, h.addrLen)
  {
    HeaderLength(h) + |TlvsBytes(ts)| + |CutsBytes(cuts, addrs, h.addrLen)|
  }

  /** The bytes of a message with its TLVs and all addresses, cut into blocks with common heads. */
  ghost predicate IsMessage(bytes: seq<Byte>, h: Header, ts: seq<Tlv>, cuts: seq<Cut>, addrs: seq<Address>) {
    && GoodHeader(h) && TlvWriter.AllPlain(ts) && GoodCuts(cuts, addrs, h.addrLen)
      && Partition(cuts, addrs, h.addrLen, 0, |addrs|)
    && bytes == MessageBytes(h, ts, cuts, addrs) && |bytes| == MessageSize(h, ts, cuts, addrs) < 0x1_0000
  }

  /** The optional TLVs that find room in what was allocated for them. */
  ghost function Accepted(wanted: seq<(Byte, Byte, Value)>, room: nat): (r: seq<Tlv>) {
    if wanted == [] then [] else
    var before, w := Accepted(wanted[..|wanted| - 1], room), wanted[|wanted| - 1];
    var t := TlvWriter.Plain(w.0, w.1, w.2);
    if |TlvsBytes(before)| + |TlvBytes(t)| <= room then before + [t] else before
  }

  /** Of the wanted TLVs those that are set. */
  ghost function Kept(wanted: seq<(Byte, Byte, Value)>, kept: seq<bool>): (r: seq<Tlv>)
    requires |kept| == |wanted|
  {
    if wanted == [] then [] else
    var n := |wanted| - 1;
    Kept(wanted[..n], kept[..n])
      + if kept[n] then [TlvWriter.Plain(wanted[n].0, wanted[n].1, wanted[n].2)] else []
  }

  /** Each wanted TLV is set exactly if those that are set before it leave room. */
  ghost predicate KeptInOrder(wanted: seq<(Byte, Byte, Value)>, kept: seq<bool>, room: nat) {
    |kept| == |wanted|
      && forall k :: 0 <= k < |wanted| ==> (kept[k] <==> HasRoom(wanted[..k], kept[..k], wanted[k], room))
  }

  ghost predicate HasRoom(before: seq<(Byte, Byte, Value)>, kept: seq<bool>, w: (Byte, Byte, Value), room: nat)
    requires |kept| == |before|
  {
    |TlvsBytes(Kept(before, kept))| + |TlvBytes(TlvWriter.Plain(w.0, w.1, w.2))| <= room
  }

  lemma KeptMore(wanted: seq<(Byte, Byte, Value)>, kept: seq<bool>, w: (Byte, Byte, Value), b: bool, room: nat)
    requires KeptInOrder(wanted, kept, room) && b == HasRoom(wanted, kept, w, room)
    ensures KeptInOrder(wanted + [w], kept + [b], room)
  {
    hide HasRoom;
    var ws, bs := wanted + [w], kept + [b];
    forall k | 0 <= k < |ws| ensures bs[k] <==> HasRoom(ws[..k], bs[..k], ws[k], room) {
      if k < |wanted| {
        assert ws[..k] == wanted[..k] && bs[..k] == kept[..k];
      } else {
        assert ws[..k] == wanted && bs[..k] == kept;
      }
    }
  }

  lemma {:induction false} AcceptedKept(wanted: seq<(Byte, Byte, Value)>, room: nat) returns (kept: seq<bool>)
    ensures KeptInOrder(wanted, kept, room) && Accepted(wanted, room) == Kept(wanted, kept)
  {
    hide TlvBytes, TlvsBytes, TlvWriter.Plain, KeptInOrder, HasRoom;
    if wanted == [] {
      kept := [];
      NothingKept(room);
    } else {
      var n := |wanted| - 1;
      var before := AcceptedKept(wanted[..n], room);
      KeptSize(wanted[..n], before, room);
      var b := HasRoom(wanted[..n], before, wanted[n], room);
      KeptMore(wanted[..n], before, wanted[n], b, room);
      kept := before + [b];
      assert wanted[..n] + [wanted[n]] == wanted && kept[..n] == before;
      RoomIs(wanted[..n], before, wanted[n], room);
    }
  }

  lemma NothingKept(room: nat)
    ensures KeptInOrder([], [], room)
  {
  }

  lemma KeptSize(wanted: seq<(Byte, Byte, Value)>, kept: seq<bool>, room: nat)
    requires KeptInOrder(wanted, kept, room)
    ensures |kept| == |wanted|
  {
  }

  lemma RoomIs(before: seq<(Byte, Byte, Value)>, kept: seq<bool>, w: (Byte, Byte, Value), room: nat)
    requires |kept| == |before|
    ensures HasRoom(before, kept, w, room) <==>
      |TlvsBytes(Kept(before, kept))| + |TlvBytes(TlvWriter.Plain(w.0, w.1, w.2))| <= room
  {
  }

  /** The providers set their optional TLVs (finishMessageTLVs). */
  method SetOptional(data: TlvWriter.Data, wanted: seq<(Byte, Byte, Value)>) returns (ghost kept: seq<bool>)
    requires data.Valid()
    modifies data`set_, data`setTlvs, data.buffer
    ensures data.Valid() && data.setTlvs == Accepted(wanted, data.reserved)
    ensures KeptInOrder(wanted, kept, data.reserved) && data.setTlvs == Kept(wanted, kept)
  {
    hide TlvBytes, TlvsBytes, Has, Kept;
    data.ResetSet();
    for k := 0 to |wanted|
      invariant data.Valid() && data.setTlvs == Accepted(wanted[..k], data.reserved)
    {
      var w := wanted[k];
      assert wanted[..k + 1][..k] == wanted[..k];
      TlvWriter.SizeIsLength(w.0, w.1, w.2);
      var _ := data.Set(w.0, w.1, w.2);
    }
    assert wanted[..|wanted|] == wanted;
    kept := AcceptedKept(wanted, data.reserved);
  }

  /** What the buffer holds when the message is finished: header and TLVs, then space that was allocated and not used,
   *  then the address blocks. */
  lemma Pieces(now: seq<Byte>, afterAddrs: seq<Byte>, afterTlvs: seq<Byte>, n: nat, tb: seq<Byte>, start: nat,
               end: nat, b: seq<Byte>, hb: seq<Byte>)
    requires n + |tb| <= start
    requires Has(afterTlvs, n, |afterTlvs|, tb)
    requires Output(afterAddrs, afterTlvs, start, end, b) && Output(now, afterAddrs, 0, n, hb)
    ensures n + |tb| <= start <= end <= |now|
    ensures now[..n + |tb|] == hb + tb && now[start..end] == b
  {
    OutputIs(afterAddrs, afterTlvs, start, end, b);
    OutputIs(now, afterAddrs, 0, n, hb);
    Unchanged(now, afterAddrs, n, n, n + |tb|);
    Unchanged(now, afterAddrs, n, start, end);
    UnchangedFront(afterAddrs, afterTlvs, start, n, n + |tb|);
    assert now[..n + |tb|] == now[0..n] + now[n..n + |tb|];
  }

  lemma Unchanged(s: seq<Byte>, t: seq<Byte>, n: nat, i: nat, j: nat)
    requires |s| == |t| && n <= i <= j <= |s| && s[n..] == t[n..]
    ensures s[i..j] == t[i..j]
  {
    forall k | i <= k < j ensures s[k] == t[k] {
      assert s[n..][k - n] == t[n..][k - n];
    }
  }

  lemma UnchangedFront(s: seq<Byte>, t: seq<Byte>, n: nat, i: nat, j: nat)
    requires |s| == |t| && i <= j <= n <= |s| && s[..n] == t[..n]
    ensures s[i..j] == t[i..j]
  {
    forall k | i <= k < j ensures s[k] == t[k] {
      assert s[..n][k] == t[..n][k];
    }
  }

  datatype Creation = Created(bytes: seq<Byte>) | MtuTooSmallForMessage | Fragmented | NoRoom

  /** The address blocks, if there are addresses. */
  method PlaceAddresses(buf: array<Byte>, start: nat, marks: array<Mark>, addrs: seq<Address>, len: nat,
                        ghost cuts: seq<Cut>) returns (end: nat)
    requires marks.Length == |addrs| && GoodCuts(cuts, addrs, len) && Partition(cuts, addrs, len, 0, |addrs|)
      && Linked(cuts, marks[..])
    requires start + |CutsBytes(cuts, addrs, len)| <= buf.Length
    modifies buf
    ensures end == start + |CutsBytes(cuts, addrs, len)|
      && Output(buf[..], old(buf[..]), start, end, CutsBytes(cuts, addrs, len))
  {
    hide Output, CutsBytes, GoodCut, Input, Linked, Compressed, Partition;
    ghost var was, b := buf[..], CutsBytes(cuts, addrs, len);
    NoOutput(was, start);
    end := start;
    if addrs != [] {
      end := WriteAddresses(buf, start, marks, addrs, len, cuts, was, start, []);
      assert [] + b == b;
    } else {
      PartitionFrom(cuts, addrs, len, 0, 0);
      CutsBytesNone(addrs, len);
    }
  }

  /** Address blocks and header, and the copy of both parts into the message. */
  method Assemble(buf: array<Byte>, h: Header, tlvs: nat, start: nat, marks: array<Mark>, addrs: seq<Address>,
                  ghost ts: seq<Tlv>, ghost cuts: seq<Cut>)
    returns (bytes: seq<Byte>)
    requires GoodHeader(h) && buf.Length < 0x1_0000 && tlvs == |TlvsBytes(ts)| && HeaderLength(h) + tlvs <= start
    requires Has(buf[..], HeaderLength(h), buf.Length, TlvsBytes(ts))
    requires marks.Length == |addrs| && GoodCuts(cuts, addrs, h.addrLen)
    requires Partition(cuts, addrs, h.addrLen, 0, |addrs|) && Linked(cuts, marks[..])
    requires start + |CutsBytes(cuts, addrs, h.addrLen)| <= buf.Length
    modifies buf
    ensures bytes == MessageBytes(h, ts, cuts, addrs) && |bytes| == MessageSize(h, ts, cuts, addrs)
  {
    hide Output, Has, HeaderBytes, HeaderLength, TlvBytes, TlvsBytes, CutsBytes, GoodCut, Input, U16Bytes, Linked,
      Compressed, Framed, Partition, Low16;
    ghost var afterTlvs, tb, b := buf[..], TlvsBytes(ts), CutsBytes(cuts, addrs, h.addrLen);
    var end := PlaceAddresses(buf, start, marks, addrs, h.addrLen, cuts);
    ghost var afterAddrs := buf[..];
    var headerLength := HeaderLength(h);
    var n := headerLength + tlvs;
    WriteMsgHeader(buf, h, Low16(n + (end - start)), Low16(tlvs));
    ghost var hb := HeaderBytes(h, Low16(n + (end - start))) + U16Bytes(Low16(tlvs));
    Pieces(buf[..], afterAddrs, afterTlvs, headerLength, tb, start, end, b, hb);
    OutputIs(buf[..], afterAddrs, 0, headerLength, hb);
    bytes := buf[..n] + buf[start..end];
    FramedIs(h, tb, b, bytes);
  }

  lemma FramedIs(h: Header, tb: seq<Byte>, b: seq<Byte>, bytes: seq<Byte>)
    requires GoodHeader(h)
    requires bytes == HeaderBytes(h, Low16(HeaderLength(h) + |tb| + |b|)) + U16Bytes(Low16(|tb|)) + tb + b
    ensures bytes == Framed(h, tb, b)
  {
  }

  /** _finalize_message_fragment up to the generic message: optional TLVs, address blocks, header. The code does not
   *  check that the address blocks fit into the message buffer; NoRoom is where it would write behind the buffer. */
  method Finalize(data: TlvWriter.Data, h: Header, wanted: seq<(Byte, Byte, Value)>, marks: array<Mark>,
                  addrs: seq<Address>)
    returns (r: Creation, ghost cuts: seq<Cut>)
    requires data.Valid() && GoodHeader(h) && data.header == HeaderLength(h) && data.buffer.Length < 0x1_0000
    requires data.header + data.added + data.reserved <= data.max
    requires Input(addrs, h.addrLen) && marks.Length == |addrs|
      && forall j :: 0 <= j < |addrs| ==> GoodMark(marks[j], addrs, h.addrLen, j)
    modifies data`set_, data`setTlvs, data.buffer, marks
    ensures Partition(cuts, addrs, h.addrLen, 0, |addrs|) && GoodCuts(cuts, addrs, h.addrLen)
    ensures Backward(old(marks[..]), |addrs|) && cuts == CutsOf(old(marks[..]), |addrs|)
    ensures data.setTlvs == Accepted(wanted, data.reserved)
    ensures r.Created? ==> IsMessage(r.bytes, h, data.addedTlvs + data.setTlvs, cuts, addrs)
    ensures r.Created? || r.NoRoom?
    ensures r.NoRoom? <==>
      data.header + data.added + data.reserved + |CutsBytes(cuts, addrs, h.addrLen)| > data.buffer.Length
    ensures r.Created? ==> |r.bytes| <= data.header + data.added + data.reserved + |CutsBytes(cuts, addrs, h.addrLen)|
  {
    hide Output, Has, HeaderBytes, HeaderLength, TlvBytes, TlvsBytes, CutsBytes, GoodCut, GoodMark, Input, U16Bytes,
      Accepted, CutsOf, Linked;
    var _ := SetOptional(data, wanted);
    MarksBackward(marks[..], addrs, h.addrLen);
    var blocks := CutsOf(marks[..], |addrs|);
    cuts := blocks;
    CutsOfNone(marks[..]);
    LinkedNone(marks[..]);
    if addrs != [] {
      LinkBlocks(marks, addrs, h.addrLen);
    }
    PartitionFrom(blocks, addrs, h.addrLen, 0, |addrs|);
    ghost var ts := data.addedTlvs + data.setTlvs;
    ghost var b := CutsBytes(blocks, addrs, h.addrLen);
    TlvsBytesConcat(data.addedTlvs, data.setTlvs);
    var start := data.header + data.added + data.reserved;
    if start + |CutsBytes(blocks, addrs, h.addrLen)| > data.buffer.Length {
      return NoRoom, cuts;
    }
    var bytes := Assemble(data.buffer, h, data.added + data.set_, start, marks, addrs, ts, cuts);
    r := Created(bytes);
  }

  lemma MarksBackward(marks: seq<Mark>, addrs: seq<Address>, len: nat)
    requires |marks| == |addrs| && forall j :: 0 <= j < |addrs| ==> GoodMark(marks[j], addrs, len, j)
    ensures Backward(marks, |addrs|)
  {
  }

  lemma LinkedNone(marks: seq<Mark>)
    ensures Linked([], marks)
  {
  }

  lemma CutsOfNone(marks: seq<Mark>)
    ensures CutsOf(marks, 0) == []
  {
  }

  lemma CutsBytesNone(addrs: seq<Address>, len: nat)
    requires Input(addrs, len)
    ensures CutsBytes([], addrs, len) == []
  {
  }

  /** The address blocks of a message never take more bytes than a block for every address. */
  lemma {:induction false} CutsAtMost(cuts: seq<Cut>, addrs: seq<Address>, len: nat, a: nat, b: nat)
    requires GoodCuts(cuts, addrs, len) && Partition(cuts, addrs, len, a, b) && b <= |addrs| && a <= |addrs|
    ensures len >= 1 && |CutsBytes(cuts, addrs, len)| + CostUpTo(addrs, len, a) <= CostUpTo(addrs, len, b)
  {
    hide GoodCut, Input, CutBytes, CostUpTo;
    InputLen(addrs, len);
    if cuts != [] {
      PartitionFrom(cuts, addrs, len, a, b);
      var c := cuts[0];
      CutAtMost(c, addrs, len);
      CostSlice(addrs, len, c.start, c.end + 1);
      CutsAtMost(cuts[1..], addrs, len, c.end + 1, b);
    }
  }

  lemma CutAtMost(c: Cut, addrs: seq<Address>, len: nat)
    requires Input(addrs, len) && GoodCut(c, addrs, len)
    ensures len >= 1 && c.start <= c.end < |addrs|
    ensures |CutBytes(c, addrs, len)| <= CostUpTo(addrs[c.start..c.end + 1], len, c.end + 1 - c.start)
  {
    hide Input, Compressed, SameLength, AddrBlockBytes, BlockTlvs, CostUpTo, U16Bytes, Address.Valid;
    InputLen(addrs, len);
    BlockInput(c, addrs, len);
    BlockAtMost(BlockOf(c, addrs), len, c.head, c.multi);
    TwoBytes(Low16(|BlockTlvs(BlockOf(c, addrs))|));
  }

  lemma {:induction false} CutsBytesMore(cuts: seq<Cut>, c: Cut, addrs: seq<Address>, len: nat)
    requires Input(addrs, len) && GoodCut(c, addrs, len) && forall d :: d in cuts ==> GoodCut(d, addrs, len)
    ensures CutsBytes(cuts + [c], addrs, len) == CutsBytes(cuts, addrs, len) + CutBytes(c, addrs, len)
  {
    hide Input, GoodCut, CutBytes;
    if cuts == [] {
      assert [] + [c] == [c] && [c][1..] == [];
    } else {
      CutsBytesMore(cuts[1..], c, addrs, len);
      assert (cuts + [c])[1..] == cuts[1..] + [c];
    }
  }

  /** With one prefix length and short values the address blocks take no more bytes than the session counts. */
  lemma {:induction false} CutsPay(marks: seq<Mark>, addrs: seq<Address>, len: nat, n: nat)
    requires Input(addrs, len) && OnePrefixLength(addrs) && ShortValues(addrs) && n <= |addrs|
      && marks == Marks(addrs, len)
    requires Backward(marks, n) && (forall j :: 0 <= j < n ==> marks[j].head < len)
    requires forall c :: c in CutsOf(marks, n) ==> GoodCut(c, addrs, len)
    ensures |CutsBytes(CutsOf(marks, n), addrs, len)| <= Chain(marks, addrs, len, n)
  {
    hide Input, GoodCut, CutBytes, Marks, Charge, OnePrefixLength, ShortValues, CutsBytes;
    if n == 0 {
      CutsBytesNone(addrs, len);
    } else {
      var m := marks[n - 1];
      var cuts, c := CutsOf(marks, m.start), Cut(m.start, n - 1, m.head, m.multi);
      assert CutsOf(marks, n) == cuts + [c] && c in CutsOf(marks, n);
      NoMulti(addrs, len, n);
      CutsPay(marks, addrs, len, m.start);
      CutsBytesMore(cuts, c, addrs, len);
      CutPays(c, addrs, len);
    }
  }

  lemma CutPays(c: Cut, addrs: seq<Address>, len: nat)
    requires Input(addrs, len) && ShortValues(addrs) && GoodCut(c, addrs, len) && !c.multi
    ensures c.start <= c.end < |addrs| && c.head <= len
      && |CutBytes(c, addrs, len)| <= Charge(addrs, len, c.head, c.start, c.end + 1)
  {
    hide Input, Compressed, SameLength, AddrBlockBytes, BlockTlvs, Charge, U16Bytes, Address.Valid, ShortValues;
    InputLen(addrs, len);
    BlockInput(c, addrs, len);
    AddressValid(addrs, len, c.start);
    BlockPays(addrs, len, c.head, c.start, c.end + 1);
    TwoBytes(Low16(|BlockTlvs(BlockOf(c, addrs))|));
  }

  /** If all addresses have one prefix length and short values, a fragment for which the session finds room has room. */
  lemma FragmentFits(addrs: seq<Address>, len: nat, room: nat, cuts: seq<Cut>)
    requires GoodCuts(cuts, addrs, len) && StopsAt(addrs, len, room, |addrs|)
    requires Backward(Marks(addrs, len), |addrs|) && cuts == CutsOf(Marks(addrs, len), |addrs|)
    ensures OnePrefixLength(addrs) && ShortValues(addrs) ==> |CutsBytes(cuts, addrs, len)| <= room
  {
    hide Input, GoodCut, CutBytes, CutsOf, Chain, Marks, OnePrefixLength, ShortValues, CutsBytes, RoomFor;
    if OnePrefixLength(addrs) && ShortValues(addrs) {
      MarksBack(addrs, len);
      CutsPay(Marks(addrs, len), addrs, len, |addrs|);
      SpentIs(addrs, len);
      if addrs != [] {
        SpentFits(addrs, len, room);
      } else {
        AfterNone(addrs, len);
      }
    }
  }

  /** With two prefix lengths the session finds room in 11 bytes for a block that takes 14. */
  lemma Underestimates()
    ensures var addrs := TwoPrefixLengths();
      && Input(addrs, 4) && StopsAt(addrs, 4, 11, |addrs|) && Backward(Marks(addrs, 4), |addrs|)
      && var cuts := CutsOf(Marks(addrs, 4), |addrs|);
      && (forall c :: c in cuts ==> GoodCut(c, addrs, 4)) && |CutsBytes(cuts, addrs, 4)| == 14
  {
    hide Marks, StopsAt, Input, AddrBlockBytes, BlockTlvs;
    var addrs := TwoPrefixLengths();
    TwoPrefixInput();
    TwoPrefixStops();
    MarksBack(addrs, 4);
    var c := Cut(0, 2, 3, true);
    assert CutsOf(Marks(addrs, 4), 3) == [c];
    assert addrs[0..3] == addrs;
    BlockInput(c, addrs, 4);
    BlockSize(addrs, 4, 3, true);
    BlockTlvsAtMost(addrs);
    TwoBytes(Low16(|BlockTlvs(addrs)|));
    CutsBytesMore([], c, addrs, 4);
    CutsBytesNone(addrs, 4);
  }

  /** With one prefix length and values that are not short the session finds room in 317 bytes for a block that takes
   *  318. */
  lemma LongValuesUnderestimated()
    ensures var addrs := ThreeValues();
      && Input(addrs, 4) && OnePrefixLength(addrs) && !ShortValues(addrs)
      && StopsAt(addrs, 4, 317, |addrs|) && Backward(Marks(addrs, 4), |addrs|)
      && var cuts := CutsOf(Marks(addrs, 4), |addrs|);
      && (forall c :: c in cuts ==> GoodCut(c, addrs, 4)) && |CutsBytes(cuts, addrs, 4)| == 318
  {
    hide Marks, StopsAt, Input, AddrBlockBytes, BlockTlvs, Hundred, Address.Valid;
    var addrs := ThreeValues();
    ThreeStops();
    ThreeBytes();
    MarksBack(addrs, 4);
    AddressValid(addrs, 4, 0);
    NotShort();
    var c := Cut(0, 3, 3, false);
    assert CutsOf(Marks(addrs, 4), 4) == [c];
    assert addrs[0..4] == addrs;
    BlockInput(c, addrs, 4);
    TwoBytes(Low16(|BlockTlvs(addrs)|));
    CutsBytesMore([], c, addrs, 4);
    CutsBytesNone(addrs, 4);
  }

  lemma NotShort()
    ensures !ShortValues(ThreeValues())
  {
    hide Hundred;
    var a := ThreeValues()[1];
    assert a in ThreeValues() && TlvOf(1) in a.tlvs;
  }

  lemma SpentIs(addrs: seq<Address>, len: nat)
    requires Input(addrs, len)
    ensures Backward(Marks(addrs, len), |addrs|) && forall j :: 0 <= j < |addrs| ==> Marks(addrs, len)[j].head < len
    ensures Spent(addrs, len, |addrs|) == Chain(Marks(addrs, len), addrs, len, |addrs|)
  {
    hide Input, Marks, Chain;
    MarksBack(addrs, len);
  }

  lemma TwoBytes(x: U16)
    ensures |U16Bytes(x)| == 2
  {
  }

  /** rfc5444_writer_create_message behind its callbacks: h is the header with the fields that are set, data holds the
   *  message TLVs, wanted are the optional TLVs, and addrs the mandatory addresses followed by the others. The outcomes
   *  of an address that does not fit are those of the code, but further fragments are not written here. If the message
   *  has room for a block for every address, it is created and not longer than its limit. */
  method CreateMessage(data: TlvWriter.Data, h: Header, wanted: seq<(Byte, Byte, Value)>, addrs: seq<Address>,
                       mandatory: seq<bool>)
    returns (r: Creation, ghost cuts: seq<Cut>, ghost stop: nat)
    requires data.Valid() && GoodHeader(h) && data.header == HeaderLength(h) && data.buffer.Length < 0x1_0000
    requires data.header + data.added + data.reserved <= data.max
    requires Input(addrs, h.addrLen) && |mandatory| == |addrs|
    modifies data`set_, data`setTlvs, data.buffer
    ensures StopsAt(addrs, h.addrLen, data.max - data.header - data.reserved - data.added, stop)
    ensures r.MtuTooSmallForMessage? <==> stop < |addrs| && forall j :: 0 <= j < stop ==> mandatory[j]
    ensures r.Fragmented? <==> stop < |addrs| && exists j :: 0 <= j < stop && !mandatory[j]
    ensures stop == |addrs| ==> GoodCuts(cuts, addrs, h.addrLen) && Partition(cuts, addrs, h.addrLen, 0, |addrs|)
    ensures stop == |addrs| ==>
      Backward(Marks(addrs, h.addrLen), |addrs|) && cuts == CutsOf(Marks(addrs, h.addrLen), |addrs|)
    ensures r.NoRoom? <==>
      stop == |addrs|
        && data.header + data.added + data.reserved + |CutsBytes(cuts, addrs, h.addrLen)| > data.buffer.Length
    ensures r.Created? ==>
      data.setTlvs == Accepted(wanted, data.reserved)
        && IsMessage(r.bytes, h, data.addedTlvs + data.setTlvs, cuts, addrs)
    ensures data.header + data.added + data.reserved + CostUpTo(addrs, h.addrLen, |addrs|) <= data.max ==>
      r.Created? && |r.bytes| <= data.max
    ensures stop == |addrs| && OnePrefixLength(addrs) && ShortValues(addrs) ==> r.Created? && |r.bytes| <= data.max
  {
    hide Output, HeaderBytes, TlvBytes, GoodCut, U16Bytes, CutsOf, Linked, Input, GoodHeader, GoodMark, HeaderLength,
      MessageBytes, MessageSize, CutsBytes, Partition, Accepted, Has, TlvsBytes, GoodCuts, TlvWriter.Data.Valid,
      IsMessage, CostUpTo, RoomFor, OnePrefixLength, ShortValues, Marks, StopsAt;
    ValidSizes(data);
    InputLength(addrs, h.addrLen);
    var outcome, marks;
    outcome, marks, stop := Compress(addrs, mandatory, h.addrLen, data.max - data.header - data.reserved - data.added);
    StopsNot(addrs, h.addrLen, data.max - data.header - data.reserved - data.added, stop);
    cuts := [];
    if outcome.TooSmall? {
      return MtuTooSmallForMessage, [], stop;
    }
    if outcome.MoreFragments? {
      return Fragmented, [], stop;
    }
    r, cuts := Finalize(data, h, wanted, marks, addrs);
    FragmentFits(addrs, h.addrLen, data.max - data.header - data.reserved - data.added, cuts);
    CutsAtMost(cuts, addrs, h.addrLen, 0, |addrs|);
  }

  lemma ValidSizes(data: TlvWriter.Data)
    requires data.Valid()
    ensures data.max <= data.buffer.Length
  {
  }

  /** The addresses of a message, none of them in a block so far. */
  method Compress(addrs: seq<Address>, mandatory: seq<bool>, len: nat, room: int)
    returns (outcome: Outcome, marks: array<Mark>, ghost stop: nat)
    requires Input(addrs, len) && |mandatory| == |addrs|
    ensures fresh(marks) && marks.Length == |addrs|
    ensures stop <= |addrs| && StopsAt(addrs, len, room, stop) && (outcome.OneFragment? <==> stop == |addrs|)
    ensures outcome.TooSmall? <==> stop < |addrs| && forall j :: 0 <= j < stop ==> mandatory[j]
    ensures outcome.OneFragment? ==> forall j :: 0 <= j < |addrs| ==> GoodMark(marks[j], addrs, len, j)
    ensures outcome.OneFragment? ==> marks[..] == Marks(addrs, len)
  {
    hide Input, GoodMark, RoomFor, MarkAt;
    marks := new Mark[|addrs|](_ => Mark(-1, -1, 0, false));
    outcome, stop := OneFragment, 0;
    if addrs != [] {
      outcome, stop := CompressAll(marks, addrs, mandatory, len, room);
    }
  }

  lemma InputLength(addrs: seq<Address>, len: nat)
    requires Input(addrs, len)
    ensures 1 <= len <= MAX_ADDRLEN
  {
  }
}
