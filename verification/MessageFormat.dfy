/** The header of a message (section 5.2 of RFC 5444). */
module MessageFormat {
  import opened Bytes

  const MSG_ORIGINATOR: Byte := 0x80
  const MSG_HOPLIMIT: Byte := 0x40
  const MSG_HOPCOUNT: Byte := 0x20
  const MSG_SEQNO: Byte := 0x10

  /** The fields of a message header; a field that is absent is None. */
  datatype Header = Header(msgType: Byte, addrLen: nat, orig: Option<seq<Byte>>, hopLimit: Option<Byte>,
    hopCount: Option<Byte>,
                           seqno: Option<U16>)

  function MsgBits(len: nat, orig: bool, hopLimit: bool, hopCount: bool, seqno: bool): (r: Byte)
    requires 1 <= len <= 16
  {
    len - 1 + Bit(orig, 0x80) + Bit(hopLimit, 0x40) + Bit(hopCount, 0x20) + Bit(seqno, 0x10)
  }

  lemma MsgBitsRead(len: nat, o: bool, l: bool, c: bool, s: bool)
    requires 1 <= len <= 16
    ensures var b := MsgBits(len, o, l, c, s);
      && b % 16 + 1 == len && (HasFlag(b, MSG_ORIGINATOR) <==> o) && (HasFlag(b, MSG_HOPLIMIT) <==> l)
      && (HasFlag(b, MSG_HOPCOUNT) <==> c) && (HasFlag(b, MSG_SEQNO) <==> s)
  {
  }

  lemma MsgBitsSet(len: nat, o: bool, l: bool, c: bool)
    requires 1 <= len <= 16
    ensures SetFlag(len - 1, MSG_ORIGINATOR) == MsgBits(len, true, false, false, false)
    ensures SetFlag(MsgBits(len, o, false, false, false), MSG_HOPLIMIT) == MsgBits(len, o, true, false, false)
    ensures SetFlag(MsgBits(len, o, l, false, false), MSG_HOPCOUNT) == MsgBits(len, o, l, true, false)
    ensures SetFlag(MsgBits(len, o, l, c, false), MSG_SEQNO) == MsgBits(len, o, l, c, true)
  {
    hide HasFlag;
    MsgBitsRead(len, false, false, false, false);
    MsgBitsRead(len, o, false, false, false);
    MsgBitsRead(len, o, l, false, false);
    MsgBitsRead(len, o, l, c, false);
  }

  /** An originator has the length of all addresses of the message. */
  predicate GoodHeader(h: Header) {
    1 <= h.addrLen <= 16 && (h.orig.Some? ==> |h.orig.value| == h.addrLen)
  }

  function HeaderFlags(h: Header): (r: Byte)
    requires GoodHeader(h)
  {
    MsgBits(h.addrLen, h.orig.Some?, h.hopLimit.Some?, h.hopCount.Some?, h.seqno.Some?)
  }

  function Optional8(x: Option<Byte>): (r: seq<Byte>) {
    if x.Some? then [x.value] else []
  }

  function OptionalField(x: Option<seq<Byte>>): (r: seq<Byte>) {
    if x.Some? then x.value else []
  }

  function Optional16(x: Option<U16>): (r: seq<Byte>) {
    if x.Some? then U16Bytes(x.value) else []
  }

  /** The header without the length of the TLV block. */
  function HeaderBytes(h: Header, size: U16): (r: seq<Byte>)
    requires GoodHeader(h)
  {
    [h.msgType, HeaderFlags(h)] + U16Bytes(size) + OptionalField(h.orig) + Optional8(h.hopLimit)
      + Optional8(h.hopCount) + Optional16(h.seqno)
  }

  /** What rfc5444_writer_set_msg_header reserves: the header with the length of the TLV block. */
  function HeaderLength(h: Header): (r: nat)
    requires GoodHeader(h)
    ensures r == |HeaderBytes(h, 0)| + 2
  {
    6 + (if h.orig.Some? then h.addrLen else 0) + (if h.hopLimit.Some? then 1 else 0)
      + (if h.hopCount.Some? then 1 else 0)
    + (if h.seqno.Some? then 2 else 0)
  }
}
