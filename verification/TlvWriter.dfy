/** rfc5444_tlv_writer.c: the TLVs of a message or a packet while it is written. */
module TlvWriter {
  import opened Bytes
  import opened TlvFormat

  /** _calc_tlv_size */
  function CalcTlvSize(hasExt: bool, length: nat): (r: nat) {
    2 + (if hasExt then 1 else 0) + length + (if length > 255 then 2 else if length > 0 then 1 else 0)
  }

  /** The TLV that _write_tlv writes for a range of addresses; 0 and 255 stand for no range. */
  function Ranged(tlvType: Byte, ext: Byte, idx1: Byte, idx2: Byte, value: Value): (r: Tlv) {
    Tlv(Join(tlvType, ext),
        if idx1 == idx2 then One(idx1) else if idx1 > 0 || idx2 < 255 then Span(idx1, idx2) else NoIndex,
        false, value)
  }

  /** A TLV of a message or a packet. */
  function Plain(tlvType: Byte, ext: Byte, value: Value): (r: Tlv) {
    Tlv(Join(tlvType, ext), NoIndex, false, value)
  }

  /** TLVs that belong to no address. */
  ghost predicate AllPlain(ts: seq<Tlv>) {
    forall t :: t in ts ==> t.index.NoIndex? && !t.multi && |t.value| < 0x1_0000
  }

  lemma SizeIsLength(tlvType: Byte, ext: Byte, value: Value)
    ensures CalcTlvSize(ext != 0, |value|) == |TlvBytes(Plain(tlvType, ext, value))|
  {
    hide TlvBytes, FlagsOf;
    var t := Plain(tlvType, ext, value);
    TlvPieces([], t);
    assert Length(t) == |value| && t.full % 256 == ext;
  }

  /** The flags of _write_tlv. */
  method CalcFlags(ext: Byte, idx1: Byte, idx2: Byte, value: Value) returns (flags: Byte)
    ensures flags == TlvFlags(ext, Ranged(0, ext, idx1, idx2, value).index, false, |value|)
  {
    flags := 0;
    if ext > 0 {
      flags := SetFlag(flags, TLV_TYPEEXT);
    }
    if idx1 == idx2 {
      flags := SetFlag(flags, TLV_SINGLE_IDX);
    } else if idx1 > 0 || idx2 < 255 {
      flags := SetFlag(flags, TLV_MULTI_IDX);
    }
    if |value| > 255 {
      flags := SetFlag(flags, TLV_EXTVALUE);
    }
    if |value| > 0 {
      flags := SetFlag(flags, TLV_VALUE);
    }
  }

  /** The length field and the value. */
  method PutValue(buf: array<Byte>, at: nat, value: Value, ghost was: seq<Byte>, ghost start: nat, ghost out: seq<Byte>)
    returns (next: nat)
    requires Output(buf[..], was, start, at, out)
    requires at + |LengthBytes(|value|)| + |value| <= buf.Length
    modifies buf
    ensures next == at + |LengthBytes(|value|)| + |value|
    ensures Output(buf[..], was, start, next, out + LengthBytes(|value|) + value)
  {
    hide Output;
    next := at;
    ghost var o := out;
    if |value| > 255 {
      next := Put(buf, at, [|value| / 256], was, start, out);
      o := out + [|value| / 256];
    }
    assert |value| > 0 ==> o + [|value| % 256] == out + LengthBytes(|value|);
    if |value| > 0 {
      next := Put(buf, next, [|value| % 256], was, start, o);
      next := Put(buf, next, value, was, start, out + LengthBytes(|value|));
    } else {
      assert out + LengthBytes(|value|) + value == out;
    }
  }

  /** _write_tlv, without the length check that its callers do */
  method WriteTlv(buf: array<Byte>, at: nat, tlvType: Byte, ext: Byte, idx1: Byte, idx2: Byte, value: Value,
                  ghost was: seq<Byte>, ghost start: nat, ghost out: seq<Byte>)
    returns (next: nat)
    requires Output(buf[..], was, start, at, out)
    requires at + |TlvBytes(Ranged(tlvType, ext, idx1, idx2, value))| <= buf.Length
    modifies buf
    ensures next == at + |TlvBytes(Ranged(tlvType, ext, idx1, idx2, value))|
    ensures Output(buf[..], was, start, next, out + TlvBytes(Ranged(tlvType, ext, idx1, idx2, value)))
  {
    hide Output, TlvBytes, TlvFlags, LengthBytes;
    ghost var t := Ranged(tlvType, ext, idx1, idx2, value);
    TlvPieces(out, t);
    var flags := CalcFlags(ext, idx1, idx2, value);
    ghost var o1 := out + [tlvType, flags];
    next := Put(buf, at, [tlvType, flags], was, start, out);
    if ext > 0 {
      next := Put(buf, next, [ext], was, start, o1);
    }
    ghost var o2 := o1 + ExtBytes(ext);
    assert ext == 0 ==> o2 == o1;
    if idx1 > 0 || idx2 < 255 {
      next := Put(buf, next, [idx1], was, start, o2);
      if idx1 != idx2 {
        next := Put(buf, next, [idx2], was, start, o2 + [idx1]);
        assert o2 + [idx1] + [idx2] == o2 + [idx1, idx2];
      }
    }
    ghost var o3 := o2 + IndexBytes(t.index);
    assert t.index.NoIndex? ==> o3 == o2;
    next := PutValue(buf, next, value, was, start, o3);
  }

  /** struct rfc5444_tlv_writer_data. The TLVs that were added stand behind the header, those that were set behind
   *  them, in space that was allocated for them. */
  class Data {
    const buffer: array<Byte>
    var header: nat
    var added: nat
    var reserved: nat
    var set_: nat
    var max: nat
    ghost var addedTlvs: seq<Tlv>
    ghost var setTlvs: seq<Tlv>

    /** No TLV is accepted beyond max, and none is set beyond what is allocated (reserved). */
    ghost predicate Valid()
      reads this, buffer
    {
      && max <= buffer.Length && max < 0x1_0000
      && (added + reserved > 0 ==> header + added + reserved <= max)
      && header <= buffer.Length
      && set_ <= reserved && added == |TlvsBytes(addedTlvs)| && set_ == |TlvsBytes(setTlvs)|
      && Has(buffer[..], header, buffer.Length, TlvsBytes(addedTlvs + setTlvs))
      && AllPlain(addedTlvs + setTlvs)
    }

    /** A writer with its buffer, which holds whatever it holds. */
    constructor (buffer: array<Byte>)
      ensures this.buffer == buffer && Valid() && max == header == added == reserved == set_ == 0
    {
      this.buffer := buffer;
      header, added, reserved, set_, max := 0, 0, 0, 0, 0;
      addedTlvs, setTlvs := [], [];
    }

    /** _rfc5444_tlv_writer_init */
    method Init(max: nat)
      requires max <= buffer.Length && max < 0x1_0000
      modifies this
      ensures Valid() && this.max == max && header == added == reserved == set_ == 0 && addedTlvs == setTlvs == []
    {
      header, added, reserved, set_ := 0, 0, 0, 0;
      this.max := max;
      addedTlvs, setTlvs := [], [];
    }

    /** The header is laid out before any TLV. */
    method SetHeader(size: nat)
      requires Valid() && added == reserved == 0 && size <= buffer.Length
      modifies this`header
      ensures Valid() && header == size
    {
      TlvWriterFacts(buffer[..], header, addedTlvs, setTlvs);
      header := size;
    }

    /** _rfc5444_tlv_writer_add, before anything is set */
    method Add(tlvType: Byte, ext: Byte, value: seq<Byte>) returns (status: Status)
      requires Valid() && set_ == 0
      modifies this`added, this`addedTlvs, buffer
      ensures Valid() && set_ == 0
      ensures var s := CalcTlvSize(ext != 0, |value|);
        if header + old(added) + reserved + s > max
        then status == MtuTooSmall && addedTlvs == old(addedTlvs) && added == old(added)
          && buffer[..] == old(buffer[..])
        else status == Okay && |value| < 0x1_0000 && addedTlvs == old(addedTlvs) + [Plain(tlvType, ext, value)]
             && added == old(added) + s
    {
      hide TlvBytes, TlvsBytes, Has, Output;
      var s := CalcTlvSize(ext != 0, |value|);
      if header + added + reserved + s > max {
        return MtuTooSmall;
      }
      SizeIsLength(tlvType, ext, value);
      ghost var was, b := buffer[..], TlvsBytes(addedTlvs);
      TlvWriterFacts(was, header, addedTlvs, setTlvs);
      HasOutput(was, header, b);
      var _ := WriteTlv(buffer, header + added, tlvType, ext, 0, 255, value, was, header, b);
      OneMore(buffer[..], was, header, addedTlvs, Plain(tlvType, ext, value));
      added := added + s;
      addedTlvs := addedTlvs + [Plain(tlvType, ext, value)];
      assert addedTlvs + setTlvs == addedTlvs;
      status := Okay;
    }

    /** _rfc5444_tlv_writer_allocate */
    method Allocate(hasExt: bool, length: nat) returns (status: Status)
      requires Valid()
      modifies this`reserved
      ensures Valid()
      ensures var s := CalcTlvSize(hasExt, length);
        if header + added + old(reserved) + s > max
        then status == MtuTooSmall && reserved == old(reserved)
        else status == Okay && reserved == old(reserved) + s
    {
      var s := CalcTlvSize(hasExt, length);
      if header + added + reserved + s > max {
        return MtuTooSmall;
      }
      reserved := reserved + s;
      status := Okay;
    }

    /** _rfc5444_tlv_writer_set */
    method Set(tlvType: Byte, ext: Byte, value: seq<Byte>) returns (status: Status)
      requires Valid()
      modifies this`set_, this`setTlvs, buffer
      ensures Valid()
      ensures var s := CalcTlvSize(ext != 0, |value|);
        if reserved - old(set_) < s
        then status == MtuTooSmall && setTlvs == old(setTlvs) && set_ == old(set_) && buffer[..] == old(buffer[..])
        else status == Okay && |value| < 0x1_0000 && setTlvs == old(setTlvs) + [Plain(tlvType, ext, value)]
             && set_ == old(set_) + s
    {
      hide TlvBytes, TlvsBytes, Has, Output;
      var s := CalcTlvSize(ext != 0, |value|);
      if reserved - set_ < s {
        return MtuTooSmall;
      }
      SizeIsLength(tlvType, ext, value);
      ghost var was, ts, t := buffer[..], addedTlvs + setTlvs, Plain(tlvType, ext, value);
      TlvsBytesConcat(addedTlvs, setTlvs);
      HasOutput(was, header, TlvsBytes(ts));
      var _ := WriteTlv(buffer, header + added + set_, tlvType, ext, 0, 255, value, was, header, TlvsBytes(ts));
      OneMore(buffer[..], was, header, ts, t);
      TlvsBytesOne(t);
      TlvsBytesConcat(setTlvs, [t]);
      set_ := set_ + s;
      assert addedTlvs + (setTlvs + [t]) == ts + [t];
      setTlvs := setTlvs + [t];
      status := Okay;
    }

    /** The writer forgets what was set, to set the TLVs of the next fragment. */
    method ResetSet()
      requires Valid()
      modifies this`set_, this`setTlvs
      ensures Valid() && set_ == 0 && setTlvs == []
    {
      TlvsBytesConcat(addedTlvs, setTlvs);
      HasConcat(buffer[..], header, buffer.Length, TlvsBytes(addedTlvs), TlvsBytes(setTlvs));
      set_, setTlvs := 0, [];
      assert addedTlvs + [] == addedTlvs;
    }
  }

  lemma HasOutput(was: seq<Byte>, start: nat, b: seq<Byte>)
    requires Has(was, start, |was|, b)
    ensures Output(was, was, start, start + |b|, b)
  {
    assert was == was[..start] + was[start..start + |b|] + was[start + |b|..];
  }

  lemma OneMore(now: seq<Byte>, was: seq<Byte>, start: nat, ts: seq<Tlv>, t: Tlv)
    requires Output(now, was, start, start + |TlvsBytes(ts)| + |TlvBytes(t)|, TlvsBytes(ts) + TlvBytes(t))
    ensures TlvsBytes(ts + [t]) == TlvsBytes(ts) + TlvBytes(t) && Has(now, start, |now|, TlvsBytes(ts + [t]))
  {
    hide TlvBytes, TlvsBytes;
    TlvsBytesConcat(ts, [t]);
    TlvsBytesOne(t);
    OutputIs(now, was, start, start + |TlvsBytes(ts + [t])|, TlvsBytes(ts + [t]));
  }

  /** Nothing is set yet. */
  lemma TlvWriterFacts(b: seq<Byte>, header: nat, added: seq<Tlv>, setTlvs: seq<Tlv>)
    requires |TlvsBytes(setTlvs)| == 0
    ensures setTlvs == [] && added + setTlvs == added
    ensures |TlvsBytes(added)| == 0 ==> added == []
  {
  }
}
