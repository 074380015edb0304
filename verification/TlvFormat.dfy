/** The bytes of one TLV (section 5.4.1 of RFC 5444) and _parse_tlv, which reads them. */
module TlvFormat {
  import opened Bytes

  const TLV_TYPEEXT: Byte := 0x80
  const TLV_SINGLE_IDX: Byte := 0x40
  const TLV_MULTI_IDX: Byte := 0x20
  const TLV_VALUE: Byte := 0x10
  const TLV_EXTVALUE: Byte := 0x08
  const TLV_MULTIVALUE: Byte := 0x04

  /** A value, whose length has 16 bits. */
  type Value = v: seq<Byte> | |v| < 0x1_0000

  datatype Index = NoIndex | One(i: Byte) | Span(i: Byte, j: Byte)

  /** A TLV as it stands in a TLV block; full is 256 * type + type extension. */
  datatype Tlv = Tlv(full: U16, index: Index, multi: bool, value: seq<Byte>)

  /** A flags byte. */
  function Bits(ext: bool, single: bool, many: bool, value: bool, wide: bool, multi: bool): (r: Byte) {
    Bit(ext, 0x80) + Bit(single, 0x40) + Bit(many, 0x20) + Bit(value, 0x10) + Bit(wide, 0x08) + Bit(multi, 0x04)
  }

  lemma BitsRead(e: bool, s: bool, m: bool, v: bool, w: bool, u: bool)
    ensures var f := Bits(e, s, m, v, w, u);
      && (HasFlag(f, TLV_TYPEEXT) <==> e) && (HasFlag(f, TLV_SINGLE_IDX) <==> s) && (HasFlag(f, TLV_MULTI_IDX) <==> m)
      && (HasFlag(f, TLV_VALUE) <==> v) && (HasFlag(f, TLV_EXTVALUE) <==> w) && (HasFlag(f, TLV_MULTIVALUE) <==> u)
  {
  }

  /** Setting an index flag. */
  lemma BitsSet(e: bool, s: bool, m: bool, v: bool, w: bool, u: bool)
    ensures SetFlag(0, TLV_TYPEEXT) == Bits(true, false, false, false, false, false)
    ensures SetFlag(Bits(e, s, m, v, w, u), TLV_SINGLE_IDX) == Bits(e, true, m, v, w, u)
    ensures SetFlag(Bits(e, s, m, v, w, u), TLV_MULTI_IDX) == Bits(e, s, true, v, w, u)
  {
    hide HasFlag;
    assert !HasFlag(0, TLV_TYPEEXT) by {
      BitsRead(false, false, false, false, false, false);
    }
    BitsRead(e, s, m, v, w, u);
  }

  /** Setting a flag of the value. */
  lemma BitsSetValue(e: bool, s: bool, m: bool, v: bool, w: bool, u: bool)
    ensures SetFlag(Bits(e, s, m, v, w, u), TLV_VALUE) == Bits(e, s, m, true, w, u)
    ensures SetFlag(Bits(e, s, m, v, w, u), TLV_EXTVALUE) == Bits(e, s, m, v, true, u)
    ensures SetFlag(Bits(e, s, m, v, w, u), TLV_MULTIVALUE) == Bits(e, s, m, v, w, true)
  {
    hide HasFlag;
    BitsRead(e, s, m, v, w, u);
  }

  function TlvFlags(ext: Byte, index: Index, multi: bool, length: nat): (r: Byte) {
    Bits(ext > 0, index.One?, index.Span?, length > 0, length > 255, multi)
  }

  function ExtBytes(ext: Byte): (r: seq<Byte>) {
    if ext > 0 then [ext] else []
  }

  function IndexBytes(index: Index): (r: seq<Byte>) {
    match index
    case NoIndex => []
    case One(i) => [i]
    case Span(i, j) => [i, j]
  }

  function LengthBytes(length: U16): (r: seq<Byte>) {
    if length == 0 then [] else if length <= 255 then [length] else U16Bytes(length)
  }

  /** The length field of a TLV (total_len, a uint16_t). */
  function Length(t: Tlv): (r: U16) {
    Low16(|t.value|)
  }

  function FlagsOf(t: Tlv): (r: Byte) {
    TlvFlags(t.full % 256, t.index, t.multi, Length(t))
  }

  /** The bytes that the writer produces. */
  function TlvBytes(t: Tlv): (r: seq<Byte>) {
    [t.full / 256, FlagsOf(t)] + ExtBytes(t.full % 256) + IndexBytes(t.index) + LengthBytes(Length(t)) + t.value
  }

  lemma TlvPieces(out: seq<Byte>, t: Tlv)
    ensures out + TlvBytes(t) == out + [t.full / 256, FlagsOf(t)]
      + ExtBytes(t.full % 256) + IndexBytes(t.index) + LengthBytes(Length(t)) + t.value
    ensures |TlvBytes(t)| == 2 + |ExtBytes(t.full % 256)| + |IndexBytes(t.index)| + |LengthBytes(Length(t))| + |t.value|
  {
    hide FlagsOf, LengthBytes, IndexBytes, ExtBytes;
  }

  lemma FlagsRead(t: Tlv)
    ensures var f := FlagsOf(t);
      && (HasFlag(f, TLV_TYPEEXT) <==> t.full % 256 > 0)
      && (HasFlag(f, TLV_SINGLE_IDX) <==> t.index.One?)
      && (HasFlag(f, TLV_MULTI_IDX) <==> t.index.Span?)
      && (HasFlag(f, TLV_VALUE) <==> Length(t) > 0)
      && (HasFlag(f, TLV_EXTVALUE) <==> Length(t) > 255)
      && (HasFlag(f, TLV_MULTIVALUE) <==> t.multi)
  {
    BitsRead(t.full % 256 > 0, t.index.One?, t.index.Span?, Length(t) > 0, Length(t) > 255, t.multi);
  }

  // ---------- Reading ----------

  /** struct rfc5444_reader_tlvblock_entry. order is 256 * type + type extension, the key of the TLV tree; raw is what
   *  _value points to and length the length of one value. */
  datatype TlvEntry = TlvEntry(order: U16, index1: Byte, index2: Byte, length: nat, multi: bool, raw: seq<Byte>)
  {
    predicate Covers(idx: int) {
      index1 <= idx <= index2
    }

    /** A multivalue entry holds one value for every address that it covers. */
    predicate Sound() {
      && length < 0x1_0000
      && if multi then index1 <= index2 ==> |raw| == (index2 - index1 + 1) * length else |raw| == length
    }

    /** single_value for the address idx. */
    function Value(idx: int): (r: seq<Byte>)
      requires Covers(idx) && Sound()
      ensures |r| == length
    {
      if !multi then raw else
        var offset := (idx - index1) * length;
        assert 0 <= offset && offset + length <= |raw| by {
          OffsetFits(idx - index1, index2 - index1 + 1, length, |raw|);
        }
        raw[offset..offset + length]
    }
  }

  lemma OffsetFits(k: int, n: int, length: nat, size: nat)
    requires 0 <= k < n && n * length <= size
    ensures 0 <= k * length && k * length + length <= size
  {
    assert (k + 1) * length <= n * length;
  }

  datatype TlvResult = TlvOk(entry: TlvEntry, at: nat) | TlvErr(error: Status)

  /** _parse_tlv up to the type extension: _order and flags. */
  function ReadType(buf: seq<Byte>, c: Cursor, eob: nat): (r: (U16, Byte, Cursor))
    requires eob <= |buf|
    ensures r.2.status in {c.status, EndOfBuffer}
    ensures r.2.status == Okay ==> c.status == Okay && c.at + 2 <= r.2.at <= eob
  {
    var (tlvType, c1) := GetU8(buf, c, eob);
    var (flags, c2) := GetU8(buf, c1, eob);
    var (ext, c3) := if HasFlag(flags, TLV_TYPEEXT) then GetU8(buf, c2, eob) else (0, c2);
    (Join(tlvType, ext), flags, c3)
  }

  /** index1 and index2 */
  function ReadIndex(buf: seq<Byte>, flags: Byte, addrCount: Byte, c: Cursor, eob: nat): (r: (Byte, Byte, Cursor))
    requires eob <= |buf|
    ensures r.2.status in {c.status, EndOfBuffer}
    ensures r.2.status == Okay ==> c.status == Okay && c.at <= r.2.at && (c.at <= eob ==> r.2.at <= eob)
  {
    if HasFlag(flags, TLV_SINGLE_IDX) then
      var (i1, c1) := GetU8(buf, c, eob);
      (i1, i1, c1)
    else if HasFlag(flags, TLV_MULTI_IDX) then
      var (i1, c1) := GetU8(buf, c, eob);
      var (i2, c2) := GetU8(buf, c1, eob);
      (i1, i2, c2)
    else (0, (addrCount + 255) % 256, c)
  }

  function ReadLength(buf: seq<Byte>, flags: Byte, c: Cursor, eob: nat): (r: (U16, Cursor))
    requires eob <= |buf|
    ensures r.1.status in {c.status, EndOfBuffer}
    ensures r.1.status == Okay ==> c.status == Okay && c.at <= r.1.at && (c.at <= eob ==> r.1.at <= eob)
  {
    if HasFlag(flags, TLV_EXTVALUE) then GetU16(buf, c, eob)
    else if HasFlag(flags, TLV_VALUE) then GetU8(buf, c, eob)
    else (0, c)
  }

  /** The fields of a TLV in front of the splitting of its value, with the bytes of the value and the cursor behind
   *  them. */
  datatype Fields =
    | Fields(order: U16, index1: Byte, index2: Byte, multi: bool, raw: seq<Byte>, at: nat)
    | NoFields(error: Status)

  /** _parse_tlv up to the value. */
  function ReadFields(buf: seq<Byte>, at: nat, eob: nat, addrCount: Byte): (r: Fields)
    requires at <= eob <= |buf|
    ensures r.NoFields? ==> r.error != Okay && !Faulty(r.error)
    ensures r.Fields? ==>
      at + 2 <= r.at <= eob && |r.raw| < 0x1_0000 && (addrCount > 0 ==> r.index1 < addrCount && r.index2 < addrCount)
  {
    var (order, flags, c1) := ReadType(buf, Cursor(at, Okay), eob);
    if HasFlag(flags, TLV_SINGLE_IDX) && HasFlag(flags, TLV_MULTI_IDX) then NoFields(BadTlvIdxFlags) else
    var (i1, i2, c2) := ReadIndex(buf, flags, addrCount, c1, eob);
    if addrCount > 0 && (i1 >= addrCount || i2 >= addrCount) then NoFields(BadTlvIndex) else
    if HasFlag(flags, TLV_EXTVALUE) && !HasFlag(flags, TLV_VALUE) then NoFields(BadTlvValueFlags) else
    var (length, c3) := ReadLength(buf, flags, c2, eob);
    if c3.at + length > eob then NoFields(EndOfBuffer) else
    if c3.status != Okay then NoFields(c3.status) else
    Fields(order, i1, i2, HasFlag(flags, TLV_MULTIVALUE), buf[c3.at..c3.at + length], c3.at + length)
  }

  /** The end of _parse_tlv: splitting the value of a multivalue TLV. The number of values is an 8 bit number. If it is
   *  0 the code takes a remainder by 0. */
  function ParseValue(order: U16, i1: Byte, i2: Byte, multi: bool, raw: seq<Byte>, at: nat): (r: TlvResult)
    requires |raw| < 0x1_0000
    ensures r.TlvErr? ==> r.error in {DivisionByZero, BadTlvLength}
    ensures r == TlvErr(DivisionByZero) <==> multi && raw != [] && i1 == (i2 + 1) % 256
    ensures r.TlvOk? ==> r.entry.Sound() && r.entry.index2 == i2 && r.at == at
  {
    if raw == [] then TlvOk(TlvEntry(order, i1, i2, 0, multi, []), at) else
    var count := (i2 - i1 + 1) % 256;
    if count == 1 || !multi then TlvOk(TlvEntry(order, i1, i2, |raw|, false, raw), at) else
    if count == 0 then TlvErr(DivisionByZero) else
    if |raw| % count != 0 then TlvErr(BadTlvLength) else
    TlvOk(TlvEntry(order, i1, i2, |raw| / count, true, raw), at)
  }

  /** _parse_tlv. An accepted TLV takes at least two bytes and ends inside the buffer, and its values fill the range
   *  that it covers. */
  function ParseTlv(buf: seq<Byte>, at: nat, eob: nat, addrCount: Byte): (r: TlvResult)
    requires at <= eob <= |buf|
    ensures r.TlvErr? ==> r.error != Okay && (Faulty(r.error) ==> r.error == DivisionByZero)
    ensures r.TlvOk? ==> at + 2 <= r.at <= eob && r.entry.Sound() && (addrCount > 0 ==> r.entry.index2 < addrCount)
  {
    hide ReadFields, ParseValue;
    var f := ReadFields(buf, at, eob, addrCount);
    if f.NoFields? then TlvErr(f.error) else ParseValue(f.order, f.index1, f.index2, f.multi, f.raw, f.at)
  }

  /** The TLV at a position makes the code divide by 0: it has the multivalue flag, a value, and a range of addresses of
   *  which the number is 0 in 8 bits. */
  predicate DividesByZero(buf: seq<Byte>, at: nat, eob: nat, addrCount: Byte)
    requires at <= eob <= |buf|
  {
    var f := ReadFields(buf, at, eob, addrCount);
    f.Fields? && f.multi && f.raw != [] && f.index1 == (f.index2 + 1) % 256
  }

  /** The exact condition under which _parse_tlv divides by 0. */
  lemma DividesExact(buf: seq<Byte>, at: nat, eob: nat, addrCount: Byte)
    requires at <= eob <= |buf|
    ensures ParseTlv(buf, at, eob, addrCount) == TlvErr(DivisionByZero) <==> DividesByZero(buf, at, eob, addrCount)
  {
    hide ReadFields, ParseValue;
  }

  /** A TLV for the addresses 5 to 4 of an address block of ten divides by 0. */
  lemma DividesInAddressBlock()
    ensures ParseTlv([7, 0x34, 5, 4, 1, 9], 0, 6, 10) == TlvErr(DivisionByZero)
  {
    hide HasFlag, ParseTlv;
    var b: seq<Byte> := [7, 0x34, 5, 4, 1, 9];
    assert Bits(false, false, true, true, false, true) == 0x34;
    BitsRead(false, false, true, true, false, true);
    assert ReadType(b, Cursor(0, Okay), 6) == (0x700, 0x34, Cursor(2, Okay));
    assert ReadIndex(b, 0x34, 10, Cursor(2, Okay), 6) == (5, 4, Cursor(4, Okay));
    assert ReadLength(b, 0x34, Cursor(4, Okay), 6) == (1, Cursor(5, Okay));
    DividesExact(b, 0, 6, 10);
  }

  /** A multivalue TLV without index divides by 0 in a message TLV block. */
  lemma DividesInMessageBlock()
    ensures ParseTlv([7, 0x14, 1, 9], 0, 4, 0) == TlvErr(DivisionByZero)
  {
    hide HasFlag, ParseTlv;
    var b: seq<Byte> := [7, 0x14, 1, 9];
    assert Bits(false, false, false, true, false, true) == 0x14;
    BitsRead(false, false, false, true, false, true);
    assert ReadType(b, Cursor(0, Okay), 4) == (0x700, 0x14, Cursor(2, Okay));
    assert ReadIndex(b, 0x14, 0, Cursor(2, Okay), 4) == (0, 255, Cursor(2, Okay));
    assert ReadLength(b, 0x14, Cursor(2, Okay), 4) == (1, Cursor(3, Okay));
    DividesExact(b, 0, 4, 0);
  }

  // ---------- Round trip ----------

  function First(index: Index): (r: Byte) {
    match index case NoIndex => 0 case One(i) => i case Span(i, _) => i
  }

  function Last(index: Index, addrCount: Byte): (r: Byte) {
    match index case NoIndex => (addrCount + 255) % 256 case One(i) => i case Span(_, j) => j
  }

  /** What the reader is to make of a TLV. */
  predicate Readable(t: Tlv, addrCount: Byte) {
    && |t.value| < 0x1_0000
    && (addrCount > 0 ==> First(t.index) <= Last(t.index, addrCount) < addrCount)
    && (t.multi ==> t.value != [] && First(t.index) < Last(t.index, addrCount)
                    && (First(t.index) > 0 || Last(t.index, addrCount) < 255)
                    && |t.value| % (Last(t.index, addrCount) - First(t.index) + 1) == 0)
  }

  function EntryOf(t: Tlv, addrCount: Byte): (r: TlvEntry)
    requires Readable(t, addrCount)
  {
    var i, j := First(t.index), Last(t.index, addrCount);
    TlvEntry(t.full, i, j, if t.multi then |t.value| / (j - i + 1) else |t.value|, t.multi, t.value)
  }

  lemma ReadTypeBack(buf: seq<Byte>, p: nat, eob: nat, t: Tlv, flags: Byte)
    requires flags == FlagsOf(t)
    requires Has(buf, p, eob, [t.full / 256]) && Has(buf, p + 1, eob, [flags])
      && Has(buf, p + 2, eob, ExtBytes(t.full % 256))
    ensures ReadType(buf, Cursor(p, Okay), eob) == (t.full, flags, Cursor(p + 2 + |ExtBytes(t.full % 256)|, Okay))
  {
    FlagsRead(t);
    ReadU8(buf, p, eob, t.full / 256);
    ReadU8(buf, p + 1, eob, flags);
    if t.full % 256 > 0 {
      ReadU8(buf, p + 2, eob, t.full % 256);
    }
  }

  lemma ReadIndexBack(buf: seq<Byte>, p: nat, eob: nat, t: Tlv, flags: Byte, addrCount: Byte)
    requires flags == FlagsOf(t) && Has(buf, p, eob, IndexBytes(t.index))
    ensures ReadIndex(buf, flags, addrCount, Cursor(p, Okay), eob)
         == (First(t.index), Last(t.index, addrCount), Cursor(p + |IndexBytes(t.index)|, Okay))
  {
    FlagsRead(t);
    match t.index
    case NoIndex =>
    case One(i) => ReadU8(buf, p, eob, i);
    case Span(i, j) =>
      HasConcat(buf, p, eob, [i], [j]);
      assert [i] + [j] == [i, j];
      ReadU8(buf, p, eob, i);
      ReadU8(buf, p + 1, eob, j);
  }

  lemma ReadLengthBack(buf: seq<Byte>, p: nat, eob: nat, t: Tlv, flags: Byte)
    requires flags == FlagsOf(t) && Has(buf, p, eob, LengthBytes(Length(t)))
    ensures ReadLength(buf, flags, Cursor(p, Okay), eob) == (Length(t), Cursor(p + |LengthBytes(Length(t))|, Okay))
  {
    FlagsRead(t);
    if Length(t) > 255 {
      ReadU16(buf, p, eob, Length(t));
    } else if Length(t) > 0 {
      ReadU8(buf, p, eob, Length(t));
    }
  }

  lemma TlvParts(buf: seq<Byte>, p: nat, end: nat, t: Tlv)
    requires Has(buf, p, end, TlvBytes(t))
    ensures var e, i, l := |ExtBytes(t.full % 256)|, |IndexBytes(t.index)|, |LengthBytes(Length(t))|;
      && Has(buf, p, end, [t.full / 256])
      && Has(buf, p + 1, end, [FlagsOf(t)])
      && Has(buf, p + 2, end, ExtBytes(t.full % 256))
      && Has(buf, p + 2 + e, end, IndexBytes(t.index))
      && Has(buf, p + 2 + e + i, end, LengthBytes(Length(t)))
      && Has(buf, p + 2 + e + i + l, end, t.value)
      && |TlvBytes(t)| == 2 + e + i + l + |t.value|
  {
    hide Has;
    var a, f := t.full / 256, FlagsOf(t);
    var e, i, l := ExtBytes(t.full % 256), IndexBytes(t.index), LengthBytes(Length(t));
    assert TlvBytes(t) == [a, f] + e + i + l + t.value;
    HasConcat(buf, p, end, [a, f] + e + i + l, t.value);
    HasConcat(buf, p, end, [a, f] + e + i, l);
    HasConcat(buf, p, end, [a, f] + e, i);
    HasConcat(buf, p, end, [a, f], e);
    assert [a, f] == [a] + [f];
    HasConcat(buf, p, end, [a], [f]);
  }

  lemma ParseValueBack(t: Tlv, addrCount: Byte, at: nat)
    requires Readable(t, addrCount)
    ensures ParseValue(t.full, First(t.index), Last(t.index, addrCount), t.multi, t.value, at)
      == TlvOk(EntryOf(t, addrCount), at)
  {
  }

  /** The reader undoes TlvBytes, wherever the bytes stand. */
  lemma ReadTlv(buf: seq<Byte>, p: nat, eob: nat, addrCount: Byte, t: Tlv)
    requires Readable(t, addrCount) && Has(buf, p, eob, TlvBytes(t))
    ensures ParseTlv(buf, p, eob, addrCount) == TlvOk(EntryOf(t, addrCount), p + |TlvBytes(t)|)
  {
    hide TlvBytes, FlagsOf, ReadType, ReadIndex, ReadLength, ParseValue, HasFlag, EntryOf, ExtBytes, IndexBytes,
      LengthBytes, First, Last;
    var ext := t.full % 256;
    var flags := FlagsOf(t);
    FlagsRead(t);
    TlvParts(buf, p, eob, t);
    ReadTypeBack(buf, p, eob, t, flags);
    var p1 := p + 2 + |ExtBytes(ext)|;
    ReadIndexBack(buf, p1, eob, t, flags, addrCount);
    var p2 := p1 + |IndexBytes(t.index)|;
    ReadLengthBack(buf, p2, eob, t, flags);
    ParseValueBack(t, addrCount, p + |TlvBytes(t)|);
  }

  // ---------- Sequences of TLVs ----------

  function TlvsBytes(ts: seq<Tlv>): (r: seq<Byte>)
  {
    if ts == [] then [] else TlvsBytes(ts[..|ts| - 1]) + TlvBytes(ts[|ts| - 1])
  }

  lemma {:induction false} TlvsBytesConcat(ts: seq<Tlv>, us: seq<Tlv>)
    ensures TlvsBytes(ts + us) == TlvsBytes(ts) + TlvsBytes(us)
  {
    hide TlvBytes;
    if us == [] {
      assert ts + us == ts;
    } else {
      var n, r := |us| - 1, ts + us;
      assert r[..|r| - 1] == ts + us[..n];
      TlvsBytesConcat(ts, us[..n]);
    }
  }

  lemma TlvsBytesOne(t: Tlv)
    ensures TlvsBytes([t]) == TlvBytes(t)
  {
    assert [t][..0] == [];
  }

  function EntriesOf(ts: seq<Tlv>, addrCount: Byte): (r: seq<TlvEntry>)
    requires forall t :: t in ts ==> Readable(t, addrCount)
    ensures |r| == |ts| && forall k :: 0 <= k < |ts| ==> r[k] == EntryOf(ts[k], addrCount)
  {
    seq(|ts|, k requires 0 <= k < |ts| => EntryOf(ts[k], addrCount))
  }
}
