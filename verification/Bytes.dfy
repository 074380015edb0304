/** Bytes, 16 bit numbers in network order and flag bytes, as every RFC 5444 field is made of them. */
module Bytes {

  type Byte = x: int | 0 <= x < 256
  type U16 = x: int | 0 <= x < 0x1_0000

  datatype Option<T> = None | Some(value: T)

  /** What is left of a number in 16 bits. */
  function Low16(n: nat): (r: U16)
    ensures n < 0x1_0000 ==> r == n
  {
    n % 0x1_0000
  }

  /** ((uint16_t)hi << 8) | lo */
  function Join(hi: Byte, lo: Byte): (r: U16)
    ensures r / 256 == hi && r % 256 == lo
  {
    256 * hi + lo
  }

  function U16Bytes(n: U16): (r: seq<Byte>)
    ensures |r| == 2 && Join(r[0], r[1]) == n
  {
    [n / 256, n % 256]
  }

  /** (flags & mask) != 0, for a mask of one bit. */
  predicate HasFlag(flags: Byte, mask: Byte)
    requires mask > 0
  {
    flags / mask % 2 == 1
  }

  predicate IsBit(mask: Byte) {
    mask in {1, 2, 4, 8, 16, 32, 64, 128}
  }

  /** flags | mask, for a mask of one bit. */
  function SetFlag(flags: Byte, mask: Byte): (r: Byte)
    requires IsBit(mask)
    ensures HasFlag(r, mask)
  {
    if HasFlag(flags, mask) then flags else flags + mask
  }

  function Bit(condition: bool, mask: nat): (r: nat) {
    if condition then mask else 0
  }

  /** Results of the reader and the writer (enum rfc5444_result). The last three are none of them: they stand for steps
   *  of the reader that have no meaning, a remainder by 0, a read behind the buffer, and a copy past the buffer of an
   *  address. */
  datatype Status =
    | Okay
    | UnsupportedVersion
    | EndOfBuffer
    | BadTlvIdxFlags
    | BadTlvValueFlags
    | BadTlvLength
    | EmptyAddrBlock
    | BadMsgTailFlags
    | BadMsgPrefixFlags
    | DuplicateTlv
    | OutOfAddrTlvMem
    | MtuTooSmall
    | TooLarge
    | BadAddrHeadLength
    | BadAddrTailLength
    | BadTlvIndex
    | DivisionByZero
    | ReadPastBuffer
    | CopyPastAddress

  predicate Faulty(s: Status) {
    s in {DivisionByZero, ReadPastBuffer, CopyPastAddress}
  }

  /** A pointer into a buffer together with the sticky result variable of _rfc5444_get_u8. */
  datatype Cursor = Cursor(at: nat, status: Status)

  /** _rfc5444_get_u8 */
  function GetU8(buf: seq<Byte>, c: Cursor, end: nat): (r: (Byte, Cursor))
    requires end <= |buf|
    ensures r.1.status in {c.status, EndOfBuffer}
    ensures c.at <= r.1.at <= c.at + 1 && (c.at <= end ==> r.1.at <= end)
    ensures r.1.status == Okay <==> c.status == Okay && c.at < end
    ensures r.1.status == Okay ==> r.1.at == c.at + 1 <= end && r.0 == buf[c.at]
  {
    if c.status != Okay then (0, c)
    else if c.at >= end then (0, c.(status := EndOfBuffer))
    else (buf[c.at], Cursor(c.at + 1, Okay))
  }

  /** _rfc5444_get_u16 */
  function GetU16(buf: seq<Byte>, c: Cursor, end: nat): (r: (U16, Cursor))
    requires end <= |buf|
    ensures r.1.status in {c.status, EndOfBuffer}
    ensures c.at <= r.1.at <= c.at + 2 && (c.at <= end ==> r.1.at <= end)
    ensures r.1.status == Okay <==> c.status == Okay && c.at + 2 <= end
    ensures r.1.status == Okay ==> r.1.at == c.at + 2 && r.0 == Join(buf[c.at], buf[c.at + 1])
  {
    var (hi, c1) := GetU8(buf, c, end);
    var (lo, c2) := GetU8(buf, c1, end);
    (Join(hi, lo), c2)
  }

  /** The bytes b stand in buf at p, before end. */
  ghost predicate Has(buf: seq<Byte>, p: nat, end: nat, b: seq<Byte>) {
    p + |b| <= end <= |buf| && buf[p..p + |b|] == b
  }

  lemma HasConcat(buf: seq<Byte>, p: nat, end: nat, a: seq<Byte>, b: seq<Byte>)
    ensures Has(buf, p, end, a + b) <==> Has(buf, p, end, a) && Has(buf, p + |a|, end, b)
  {
    if p + |a| + |b| <= end <= |buf| {
      var s := buf[p..p + |a| + |b|];
      assert s[..|a|] == buf[p..p + |a|] && s[|a|..] == buf[p + |a|..p + |a| + |b|];
      assert s == s[..|a|] + s[|a|..];
      assert (a + b)[..|a|] == a && (a + b)[|a|..] == b;
    }
  }

  lemma ReadU8(buf: seq<Byte>, p: nat, end: nat, x: Byte)
    requires Has(buf, p, end, [x])
    ensures GetU8(buf, Cursor(p, Okay), end) == (x, Cursor(p + 1, Okay))
  {
    assert buf[p..p + 1][0] == x;
  }

  lemma ReadU16(buf: seq<Byte>, p: nat, end: nat, n: U16)
    requires Has(buf, p, end, U16Bytes(n))
    ensures GetU16(buf, Cursor(p, Okay), end) == (n, Cursor(p + 2, Okay))
  {
    assert buf[p..p + 2][0] == n / 256 && buf[p..p + 2][1] == n % 256;
  }

  // ---------- Writing ----------

  /** now is was with out written over was[start..end]. */
  ghost predicate Output(now: seq<Byte>, was: seq<Byte>, start: nat, end: nat, out: seq<Byte>) {
    start <= end <= |was| && now == was[..start] + out + was[end..] && |out| == end - start
  }

  lemma NoOutput(was: seq<Byte>, start: nat)
    requires start <= |was|
    ensures Output(was, was, start, start, [])
  {
    assert was == was[..start] + [] + was[start..];
  }

  lemma OutputIs(now: seq<Byte>, was: seq<Byte>, start: nat, end: nat, out: seq<Byte>)
    requires Output(now, was, start, end, out)
    ensures start <= end <= |was| == |now| && |out| == end - start
    ensures now[start..end] == out && now[..start] == was[..start] && now[end..] == was[end..]
  {
  }

  /** b written over s from at on */
  function Overlay(s: seq<Byte>, at: nat, b: seq<Byte>): (r: seq<Byte>)
    requires at + |b| <= |s|
    ensures |r| == |s|
  {
    s[..at] + b + s[at + |b|..]
  }

  lemma OverlayIs(s: seq<Byte>, at: nat, b: seq<Byte>)
    requires at + |b| <= |s|
    ensures var r := Overlay(s, at, b);
      r[..at] == s[..at] && r[at..at + |b|] == b && r[at + |b|..] == s[at + |b|..]
  {
  }

  /** memcpy */
  method Copy(buf: array<Byte>, at: nat, bytes: seq<Byte>)
    requires at + |bytes| <= buf.Length
    modifies buf
    ensures buf[..] == Overlay(old(buf[..]), at, bytes)
  {
    forall k | 0 <= k < |bytes| {
      buf[at + k] := bytes[k];
    }
  }

  /** memcpy of bytes to buf[at..]. The output so far is out, from start on. */
  method Put(buf: array<Byte>, at: nat, bytes: seq<Byte>, ghost was: seq<Byte>, ghost start: nat, ghost out: seq<Byte>)
    returns (next: nat)
    requires Output(buf[..], was, start, at, out) && at + |bytes| <= buf.Length
    modifies buf
    ensures next == at + |bytes| && Output(buf[..], was, start, next, out + bytes)
  {
    next := at + |bytes|;
    Copy(buf, at, bytes);
    assert buf[..] == was[..start] + (out + bytes) + was[next..];
  }

  /** One byte of the output is set again: a flags or a length field left open before. */
  method Patch(buf: array<Byte>, at: nat, value: Byte, ghost was: seq<Byte>, ghost start: nat, ghost end: nat,
               ghost out: seq<Byte>)
    requires Output(buf[..], was, start, end, out) && start <= at < end
    modifies buf
    ensures Output(buf[..], was, start, end, out[at - start := value])
  {
    OutputIs(buf[..], was, start, end, out);
    buf[at] := value;
  }

  /** *flag |= mask, for a flags byte that was left open. */
  method PatchFlag(buf: array<Byte>, at: nat, mask: Byte, ghost was: seq<Byte>, ghost start: nat, ghost end: nat,
                   ghost front: seq<Byte>, ghost flags: Byte, ghost rest: seq<Byte>)
    requires IsBit(mask) && at == start + |front| && Output(buf[..], was, start, end, front + [flags] + rest)
    modifies buf
    ensures Output(buf[..], was, start, end, front + [SetFlag(flags, mask)] + rest)
  {
    ghost var out := front + [flags] + rest;
    OutputIs(buf[..], was, start, end, out);
    assert buf[at] == flags by {
      assert out[at - start] == flags;
    }
    assert front + [SetFlag(flags, mask)] + rest == out[at - start := SetFlag(flags, mask)];
    Patch(buf, at, SetFlag(buf[at], mask), was, start, end, out);
  }

  /** A length field that was left open. */
  method PatchU16(buf: array<Byte>, at: nat, n: U16, ghost was: seq<Byte>, ghost start: nat, ghost end: nat,
                  ghost front: seq<Byte>, ghost rest: seq<Byte>)
    requires at == start + |front| && Output(buf[..], was, start, end, front + [0, 0] + rest)
    modifies buf
    ensures Output(buf[..], was, start, end, front + U16Bytes(n) + rest)
  {
    ghost var out := front + [0, 0] + rest;
    OutputIs(buf[..], was, start, end, out);
    hide Output;
    Patch(buf, at, n / 256, was, start, end, out);
    ghost var half: seq<Byte> := out[|front| := n / 256];
    Patch(buf, at + 1, n % 256, was, start, end, half);
    assert half[|front| + 1 := n % 256] == front + U16Bytes(n) + rest;
  }
}
