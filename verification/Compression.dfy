/** The address compression session of rfc5444_msg_generator.c: 16 strategies run side by side, one for every length of
 *  a common head, and the cheapest decide where address blocks begin. */
module Compression {
  import opened Bytes
  import opened AddressTlvs
  import opened AddressBlocks

  /** struct _rfc5444_internal_addr_compress_session; ptr is the index of the first address of the current block. */
  datatype Strategy = Strategy(ptr: nat, total: int, current: int, multiplen: bool, closed: bool)

  /** _block_start, _block_end, _block_headlen and _block_multiple_prefixlen of an address; -1 is NULL. */
  datatype Mark = Mark(start: int, end: int, head: nat, multi: bool)

  /** What a TLV type counts for one head length: _tlvblock_count and _tlvblock_multi. */
  datatype TypeState = TypeState(count: nat, multi: bool)

  // ---------- What a session knows ----------

  /** The addresses from s.ptr to k - 1 can stand in one block with a head of i bytes. */
  ghost predicate Fits(s: Strategy, addrs: seq<Address>, k: nat, i: nat) {
    && s.ptr < k <= |addrs|
    && (forall j :: s.ptr <= j < k ==>
      i <= |addrs[j].bytes| && i <= |addrs[k - 1].bytes| && addrs[j].bytes[..i] == addrs[k - 1].bytes[..i])
    && (if s.multiplen then s.ptr < k - 1 else forall j :: s.ptr <= j < k ==> addrs[j].plen == addrs[k - 1].plen)
  }

  ghost predicate Input(addrs: seq<Address>, len: nat) {
    && 1 <= len <= MAX_ADDRLEN && |addrs| <= 255
    && (forall a :: a in addrs ==> |a.bytes| == len && a.plen < 255 && a.Valid())
    && (forall k :: 0 < k < |addrs| ==> addrs[k - 1].bytes != addrs[k].bytes)
  }

  /** The mark of address j starts a block that ends with j; several prefix lengths take several addresses. */
  ghost predicate GoodMark(m: Mark, addrs: seq<Address>, len: nat, j: nat) {
    && 0 <= m.start <= j < |addrs| && (m.multi ==> m.start < j)
    && Compressed(addrs[m.start..j + 1], len, m.head, m.multi)
  }

  ghost predicate SessionInv(acs: seq<Strategy>, marks: seq<Mark>, addrs: seq<Address>, len: nat, k: nat) {
    && Input(addrs, len) && |acs| == MAX_ADDRLEN && |marks| == |addrs| && 1 <= k <= |addrs|
    && (forall i :: 0 <= i < len ==> Fits(acs[i], addrs, k, i))
    && (forall j :: 0 <= j < k - 1 ==> GoodMark(marks[j], addrs, len, j))
    && (forall j :: k - 1 <= j < |addrs| ==> marks[j].start == -1)
  }

  lemma FitsCompressed(s: Strategy, addrs: seq<Address>, len: nat, k: nat, i: nat)
    requires Input(addrs, len) && Fits(s, addrs, k, i) && i < len
    ensures GoodMark(Mark(s.ptr, -1, i, s.multiplen), addrs, len, k - 1)
  {
    var block := addrs[s.ptr..k];
    forall a | a in block
      ensures a in addrs && a.bytes[..i] == block[0].bytes[..i] && (!s.multiplen ==> a.plen == block[0].plen)
    {
      var j :| 0 <= j < |block| && block[j] == a;
      assert a == addrs[s.ptr + j] && block[0] == addrs[s.ptr];
    }
  }

  // ---------- Closing a block ----------

  /** The first of the cheapest strategies from i to j - 1. */
  function Best(acs: seq<Strategy>, i: nat, j: nat): (best: nat)
    requires i < j <= |acs|
    ensures i <= best < j
    ensures forall x :: i <= x < j ==> acs[best].total <= acs[x].total
    ensures forall x :: i <= x < best ==> acs[best].total < acs[x].total
  {
    if j == i + 1 then i else
    var b := Best(acs, i, j - 1);
    if acs[j - 1].total < acs[b].total then j - 1 else b
  }

  /** The strategies with longer heads than the common one go on from the cheapest cost. */
  function Closing(acs: seq<Strategy>, len: nat, commonHead: nat): (r: seq<Strategy>)
    requires commonHead < len <= |acs|
    ensures |r| == |acs|
  {
    Raised(acs, len, commonHead, acs[Best(acs, commonHead, len)].total)
  }

  function Raised(acs: seq<Strategy>, len: nat, commonHead: nat, size: int): (r: seq<Strategy>)
    ensures |r| == |acs|
  {
    seq(|acs|, i requires 0 <= i < |acs| => if commonHead < i < len then acs[i].(total := size) else acs[i])
  }

  /** _close_addrblock: the cheapest strategy for blocks with at least the common head decides where the block that
   *  ends with address last starts. */
  method CloseAddrBlock(acs: array<Strategy>, marks: array<Mark>, len: nat, last: nat, commonHead: nat)
    returns (best: nat)
    requires acs.Length == MAX_ADDRLEN && len <= MAX_ADDRLEN && commonHead < len && last < marks.Length
      && (acs as object) != marks
    modifies acs, marks
    ensures best == Best(old(acs[..]), commonHead, len) && acs[..] == Closing(old(acs[..]), len, commonHead)
    ensures forall j :: 0 <= j < marks.Length && j != last ==> marks[j] == old(marks[j])
    ensures marks[last] == if !old(acs[best].closed) || old(marks[last].start) == -1
      then Mark(old(acs[best].ptr), old(marks[last].end), best, old(acs[best].multiplen)) else old(marks[last])
  {
    best := commonHead;
    var size := acs[commonHead].total;
    for i := commonHead + 1 to len
      invariant best == Best(acs[..], commonHead, i) && size == acs[best].total
    {
      if acs[i].total < size {
        size := acs[i].total;
        best := i;
      }
    }
    if !acs[best].closed || marks[last].start == -1 {
      marks[last] := Mark(acs[best].ptr, marks[last].end, best, acs[best].multiplen);
    }
    SetTotals(acs, len, commonHead, size);
  }

  /** The best block compression becomes the total of the strategies with longer heads. */
  method SetTotals(acs: array<Strategy>, len: nat, commonHead: nat, size: int)
    requires len <= acs.Length && commonHead < len
    modifies acs
    ensures acs[..] == Raised(old(acs[..]), len, commonHead, size)
  {
    for i := commonHead + 1 to len
      invariant forall j :: 0 <= j < acs.Length ==>
        acs[j] == if commonHead < j < i then old(acs[j]).(total := size) else old(acs[j])
    {
      acs[i] := acs[i].(total := size);
    }
  }

  /** Closing at the last address completes the marks. */
  lemma Closed(before: seq<Strategy>, after: seq<Strategy>, was: seq<Mark>, marks: seq<Mark>, addrs: seq<Address>,
               len: nat, k: nat, best: nat)
    requires SessionInv(before, was, addrs, len, k) && best < len && |after| == |before| && |marks| == |was|
    requires forall i :: 0 <= i < |after| ==> after[i] == before[i].(total := after[i].total)
    requires marks == was[k - 1 := Mark(before[best].ptr, was[k - 1].end, best, before[best].multiplen)]
    ensures forall i :: 0 <= i < len ==> Fits(after[i], addrs, k, i)
    ensures forall j :: 0 <= j < k ==> GoodMark(marks[j], addrs, len, j)
    ensures forall j :: k <= j < |addrs| ==> marks[j].start == -1
  {
    FitsCompressed(before[best], addrs, len, k, best);
  }

  // ---------- Costs ----------

  predicate HasLength(last: seq<AddrTlv>, t: AddrTlv) {
    exists u :: u in last && u.full == t.full && |u.value| == |t.value|
  }

  /** The bytes of a TLV of its own, with two index fields. */
  function TlvCost(t: AddrTlv): (r: nat) {
    2 + (if t.full % 256 > 0 then 1 else 0) + 2 + (if |t.value| > 255 then 1 else 0) + (if |t.value| > 0 then 1 else 0)
      + |t.value|
  }

  /** The counters of a type; they begin with 0. */
  function StateOf(types: map<U16, TypeState>, full: U16): (r: TypeState) {
    if full in types then types[full] else TypeState(0, false)
  }

  /** The bytes that a TLV adds if its address continues a block. */
  function ContinueTlv(t: AddrTlv, closed: bool, last: seq<AddrTlv>, types: map<U16, TypeState>): (r: nat) {
    if closed || !HasLength(last, t) then TlvCost(t)
    else if StateOf(types, t.full).multi then |t.value|
    else if !HasValue(last, t) then |t.value| * StateOf(types, t.full).count else 0
  }

  function NewTlvs(tlvs: seq<AddrTlv>): (r: nat) {
    if tlvs == [] then 0 else NewTlvs(tlvs[..|tlvs| - 1]) + TlvCost(tlvs[|tlvs| - 1])
  }

  function ContinueTlvs(tlvs: seq<AddrTlv>, closed: bool, last: seq<AddrTlv>, types: map<U16, TypeState>): (r: nat) {
    if tlvs == [] then 0 else
    ContinueTlvs(tlvs[..|tlvs| - 1], closed, last, types) + ContinueTlv(tlvs[|tlvs| - 1], closed, last, types)
  }

  /** The cost of a block that begins with the address. */
  function NewCost(a: Address, len: nat, i: nat): (r: nat) {
    2 + (if i > 0 then 1 else 0) + len + (if a.plen != len * 8 then 1 else 0) + 2 + NewTlvs(a.tlvs)
  }

  /** The counters of one head length behind the address. */
  function Counted(types: map<U16, TypeState>, tlvs: seq<AddrTlv>, closed: bool,
                   last: seq<AddrTlv>): (r: map<U16, TypeState>)
  {
    if tlvs == [] then types else
    var before, t := Counted(types, tlvs[..|tlvs| - 1], closed, last), tlvs[|tlvs| - 1];
    before[t.full := if closed || !HasLength(last, t) then TypeState(1, false)
                     else TypeState(StateOf(before, t.full).count + 1, StateOf(before, t.full).multi
                       || !HasValue(last, t))]
  }

  /** The cost of going on with the block of strategy s. The code subtracts the indices in this order, so that the cost
   *  of several prefix lengths is zero or negative. */
  function ContinueCost(s: Strategy, k: nat, len: nat, i: nat, samePrefixlen: nat): (r: int) {
    len - i + if s.multiplen then 1 else if samePrefixlen == 1 then s.ptr - k + 1 else 0
  }

  /** One strategy meets address k; base is the total of the strategy with the longest head. */
  function Advance(s: Strategy, base: int, k: nat, len: nat, i: nat, closed: bool, samePrefixlen: nat, newCost: int,
                   tlvCost: int): (r: Strategy)
  {
    var continueCost := if closed then tlvCost else ContinueCost(s, k, len, i, samePrefixlen) + tlvCost;
    if closed || s.total + continueCost > base + newCost then Strategy(k, base, newCost, false, k > 0 || s.closed)
    else Strategy(s.ptr, s.total, continueCost, s.multiplen || samePrefixlen == 1, false)
  }

  /** The strategies behind address k, before which commonHead is the number of bytes shared with its predecessor. */
  function Advanced(s: Strategy, base: int, addrs: seq<Address>, k: nat, len: nat, i: nat, commonHead: nat,
                    samePrefixlen: nat, types: map<U16, TypeState>): (r: Strategy)
    requires k < |addrs|
  {
    var closed := k == 0 || commonHead < i;
    var last := if k == 0 then [] else addrs[k - 1].tlvs;
    Advance(s, base, k, len, i, closed, samePrefixlen, NewCost(addrs[k], len, i),
      ContinueTlvs(addrs[k].tlvs, closed, last, types))
  }

  /** A strategy goes on if its head is shared, and knows if the prefix lengths differ. */
  lemma AdvanceFits(s: Strategy, r: Strategy, base: int, addrs: seq<Address>, k: nat, len: nat, i: nat, commonHead: nat,
                    samePrefixlen: nat, types: map<U16, TypeState>)
    requires 0 < k < |addrs| && Input(addrs, len) && i < len && commonHead <= len && Fits(s, addrs, k, i)
    requires addrs[k - 1].bytes[..commonHead] == addrs[k].bytes[..commonHead]
    requires samePrefixlen == 1 || addrs[k - 1].plen == addrs[k].plen
    requires r == Advanced(s, base, addrs, k, len, i, commonHead, samePrefixlen, types).(total := r.total)
    ensures Fits(r, addrs, k + 1, i)
  {
    hide ContinueTlvs, NewCost, ContinueCost;
    if r.ptr != k {
      assert addrs[k - 1].bytes[..i] == addrs[k].bytes[..i] by {
        assert addrs[k - 1].bytes[..commonHead][..i] == addrs[k].bytes[..commonHead][..i];
      }
    }
  }

  /** The number of bytes that two addresses share from byte i on. */
  function CommonFrom(a: seq<Byte>, b: seq<Byte>, i: nat): (h: nat)
    requires i <= |a| == |b| && a[..i] == b[..i]
    ensures i <= h <= |a| && a[..h] == b[..h] && (h < |a| ==> a[h] != b[h])
    decreases |a| - i
  {
    if i == |a| || a[i] != b[i] then i else CommonFrom(a, b, i + 1)
  }

  /** The common head reaches the whole address exactly for equal bytes. The test in _close_addrblock asks whether it is
   *  longer than the address, which never happens, so that for equal bytes the code goes on behind its strategies. */
  lemma CommonWhole(a: seq<Byte>, b: seq<Byte>)
    requires |a| == |b|
    ensures CommonFrom(a, b, 0) == |a| <==> a == b
  {
    var h := CommonFrom(a, b, 0);
    assert h == |a| ==> a[..|a|] == a && b[..|b|] == b;
  }

  /** Two prefixes of one network with different lengths. */
  lemma EqualBytesPassGuard()
    ensures var a, b := Address([10, 0, 0, 0], 24, []), Address([10, 0, 0, 0], 16, []);
      a != b && CommonFrom(a.bytes, b.bytes, 0) == 4
  {
    CommonWhole([10, 0, 0, 0], [10, 0, 0, 0]);
  }

  /** The length of the common head of two addresses. */
  method CommonHead(a: seq<Byte>, b: seq<Byte>, len: nat) returns (h: nat)
    requires |a| == |b| == len
    ensures h == CommonFrom(a, b, 0)
  {
    h := 0;
    while h < len
      invariant h <= len && a[..h] == b[..h] && CommonFrom(a, b, 0) == CommonFrom(a, b, h)
    {
      if a[h] != b[h] {
        return;
      }
      h := h + 1;
    }
  }

  method TlvCosts(tlvs: seq<AddrTlv>, closed: bool, last: seq<AddrTlv>, types: map<U16, TypeState>)
    returns (newCost: nat, continueCost: nat)
    ensures newCost == NewTlvs(tlvs) && continueCost == ContinueTlvs(tlvs, closed, last, types)
  {
    newCost, continueCost := 0, 0;
    for n := 0 to |tlvs|
      invariant newCost == NewTlvs(tlvs[..n]) && continueCost == ContinueTlvs(tlvs[..n], closed, last, types)
    {
      var t := tlvs[n];
      assert tlvs[..n + 1][..n] == tlvs[..n];
      newCost := newCost + TlvCost(t);
      continueCost := continueCost + ContinueTlv(t, closed, last, types);
    }
    assert tlvs[..|tlvs|] == tlvs;
  }

  method Count(types: map<U16, TypeState>, tlvs: seq<AddrTlv>, closed: bool, last: seq<AddrTlv>)
    returns (r: map<U16, TypeState>)
    ensures r == Counted(types, tlvs, closed, last)
  {
    r := types;
    for n := 0 to |tlvs|
      invariant r == Counted(types, tlvs[..n], closed, last)
    {
      var t := tlvs[n];
      assert tlvs[..n + 1][..n] == tlvs[..n];
      if closed || !HasLength(last, t) {
        r := r[t.full := TypeState(1, false)];
      } else {
        r := r[t.full := TypeState(StateOf(r, t.full).count + 1, StateOf(r, t.full).multi || !HasValue(last, t))];
      }
    }
    assert tlvs[..|tlvs|] == tlvs;
  }

  /** The loop body of _compress_address for one strategy. */
  method AdvanceOne(s: Strategy, base: int, types: map<U16, TypeState>, addrs: seq<Address>, k: nat, len: nat, i: nat,
                    commonHead: nat, samePrefixlen: nat)
    returns (r: Strategy, types': map<U16, TypeState>)
    requires k < |addrs| && i < len
    ensures r == Advanced(s, base, addrs, k, len, i, commonHead, samePrefixlen, types)
    ensures types' == Counted(types, addrs[k].tlvs, k == 0 || r.closed, if k == 0 then [] else addrs[k - 1].tlvs)
  {
    hide Counted, NewTlvs, ContinueTlvs;
    var a := addrs[k];
    var last := if k == 0 then [] else addrs[k - 1].tlvs;
    var closed := k == 0 || commonHead < i;
    var newTlvs, tlvCost := TlvCosts(a.tlvs, closed, last, types);
    var newCost := 2 + (if i > 0 then 1 else 0) + len;
    if a.plen != len * 8 {
      newCost := newCost + 1;
    }
    var continueCost, multi := 0, s.multiplen;
    if !closed {
      continueCost := len - i;
      if s.multiplen {
        continueCost := continueCost + 1;
      } else if samePrefixlen == 1 {
        continueCost := continueCost + (s.ptr - k + 1);
        multi := true;
      }
    }
    newCost := newCost + 2 + newTlvs;
    continueCost := continueCost + tlvCost;
    if closed || s.total + continueCost > base + newCost {
      r := Strategy(k, base, newCost, false, k > 0 || s.closed);
      closed := true;
    } else {
      r := Strategy(s.ptr, s.total, continueCost, multi, false);
    }
    types' := Count(types, a.tlvs, closed, last);
  }

  function LastTlvs(addrs: seq<Address>, k: nat): (r: seq<AddrTlv>)
    requires k < |addrs|
  {
    if k == 0 then [] else addrs[k - 1].tlvs
  }

  /** All strategies behind address k. */
  function MetAll(acs: seq<Strategy>, types: seq<map<U16, TypeState>>, addrs: seq<Address>, k: nat, len: nat,
                  commonHead: nat, same: nat): (r: seq<Strategy>)
    requires |acs| == |types| == MAX_ADDRLEN && 1 <= len <= MAX_ADDRLEN && k < |addrs|
    ensures |r| == MAX_ADDRLEN
  {
    var base := acs[len - 1].total;
    seq(MAX_ADDRLEN, i requires 0 <= i < MAX_ADDRLEN =>
      if i < len then Advanced(acs[i], base, addrs, k, len, i, commonHead, same, types[i]) else acs[i])
  }

  /** The counters behind address k, where met are the strategies behind it. */
  function CountedAll(met: seq<Strategy>, types: seq<map<U16, TypeState>>, addrs: seq<Address>, k: nat, len: nat)
    : (r: seq<map<U16, TypeState>>)
    requires |met| == |types| == MAX_ADDRLEN && len <= MAX_ADDRLEN && k < |addrs|
    ensures |r| == MAX_ADDRLEN
  {
    seq(MAX_ADDRLEN, i requires 0 <= i < MAX_ADDRLEN =>
      if i < len then Counted(types[i], addrs[k].tlvs, k == 0 || met[i].closed, LastTlvs(addrs, k)) else types[i])
  }

  /** The loop of _compress_address over the strategies. */
  method AdvanceAll(acs: array<Strategy>, types: array<map<U16, TypeState>>, addrs: seq<Address>, k: nat, len: nat,
                    commonHead: nat, samePrefixlen: nat)
    requires acs.Length == MAX_ADDRLEN && types.Length == MAX_ADDRLEN && 1 <= len <= MAX_ADDRLEN && k < |addrs|
    requires (acs as object) != types
    modifies acs, types
    ensures acs[..] == MetAll(old(acs[..]), old(types[..]), addrs, k, len, commonHead, samePrefixlen)
    ensures types[..] == CountedAll(acs[..], old(types[..]), addrs, k, len)
  {
    hide Counted, Advanced;
    ghost var was, wasTypes, base := acs[..], types[..], acs[len - 1].total;
    for i := 0 to len
      invariant forall j :: i <= j < MAX_ADDRLEN ==> acs[j] == was[j] && types[j] == wasTypes[j]
      invariant forall j :: 0 <= j < i ==>
        acs[j] == Advanced(was[j], base, addrs, k, len, j, commonHead, samePrefixlen, wasTypes[j])
      invariant forall j :: 0 <= j < i ==>
        types[j] == Counted(wasTypes[j], addrs[k].tlvs, k == 0 || acs[j].closed, LastTlvs(addrs, k))
    {
      acs[i], types[i] := AdvanceOne(acs[i], acs[len - 1].total, types[i], addrs, k, len, i, commonHead, samePrefixlen);
    }
  }

  // ---------- The session as a function ----------

  /** The whole state of the session: strategies, counters of TLV types for every head length, and the number of
   *  addresses with the last prefix length. */
  datatype Session = Session(acs: seq<Strategy>, types: seq<map<U16, TypeState>>, same: nat)

  predicate Whole(s: Session) {
    |s.acs| == |s.types| == MAX_ADDRLEN
  }

  function Begin(): (s: Session)
    ensures Whole(s)
  {
    Session(seq(MAX_ADDRLEN, _ => Strategy(0, 0, 0, false, false)), seq(MAX_ADDRLEN, _ => map[]), 1)
  }

  /** The common head of address k and the one before. */
  function HeadBefore(addrs: seq<Address>, k: nat): (h: nat)
    requires k < |addrs| && (k > 0 ==> |addrs[k - 1].bytes| == |addrs[k].bytes|)
  {
    if k == 0 then 0 else CommonFrom(addrs[k - 1].bytes, addrs[k].bytes, 0)
  }

  function SameBefore(addrs: seq<Address>, k: nat, same: nat): (r: nat)
    requires k < |addrs|
  {
    if k == 0 then same else if addrs[k - 1].plen == addrs[k].plen then same + 1 else 1
  }

  lemma HeadShort(addrs: seq<Address>, len: nat, k: nat)
    requires Input(addrs, len) && k < |addrs|
    ensures (k > 0 ==> |addrs[k - 1].bytes| == |addrs[k].bytes|) && HeadBefore(addrs, k) < len
  {
    if k > 0 {
      assert addrs[k - 1] in addrs && addrs[k] in addrs;
      CommonWhole(addrs[k - 1].bytes, addrs[k].bytes);
    }
  }

  /** _compress_address for address k. */
  ghost function Meet(s: Session, addrs: seq<Address>, k: nat, len: nat): (r: Session)
    requires Whole(s) && Input(addrs, len) && k < |addrs|
    ensures Whole(r)
  {
    hide Input;
    HeadShort(addrs, len, k);
    InputLen(addrs, len);
    var h, same := HeadBefore(addrs, k), SameBefore(addrs, k, s.same);
    var acs := if k == 0 then s.acs else Closing(s.acs, len, h);
    var met := MetAll(acs, s.types, addrs, k, len, h, same);
    Session(met, CountedAll(met, s.types, addrs, k, len), same)
  }

  lemma InputLen(addrs: seq<Address>, len: nat)
    requires Input(addrs, len)
    ensures 1 <= len <= MAX_ADDRLEN && |addrs| <= 255
  {
  }

  /** The cost of the address becomes part of the totals. */
  function Paid(acs: seq<Strategy>, len: nat): (r: seq<Strategy>)
    ensures |r| == |acs|
  {
    seq(|acs|, i requires 0 <= i < |acs| => if i < len then acs[i].(total := acs[i].total + acs[i].current) else acs[i])
  }

  /** The session after k addresses have found room. */
  ghost function After(addrs: seq<Address>, len: nat, k: nat): (s: Session)
    requires Input(addrs, len) && k <= |addrs|
    ensures Whole(s)
  {
    if k == 0 then Begin() else
    var m := Meet(After(addrs, len, k - 1), addrs, k - 1, len);
    Session(Paid(m.acs, len), m.types, m.same)
  }

  /** Strategy i leaves the message within its size and the block within 255 addresses. */
  predicate Affordable(s: Strategy, k: nat, room: int) {
    s.total + s.current <= room && k - s.ptr <= 254
  }

  /** There is room for address k if a strategy can afford it. */
  ghost predicate RoomFor(addrs: seq<Address>, len: nat, k: nat, room: int)
    requires Input(addrs, len) && k < |addrs|
  {
    exists i :: 0 <= i < len <= MAX_ADDRLEN && Affordable(Meet(After(addrs, len, k), addrs, k, len).acs[i], k, room)
  }

  /** The number of bytes that address k shares with the one before; the end of the addresses shares none. */
  ghost function HeadAt(addrs: seq<Address>, len: nat, k: nat): (h: nat)
    requires Input(addrs, len) && k <= |addrs|
    ensures h < len
  {
    hide Input;
    InputLen(addrs, len);
    if k == |addrs| then 0 else HeadShort(addrs, len, k); HeadBefore(addrs, k)
  }

  /** The mark of the last address of a block, from the strategies behind it. */
  function MarkOf(acs: seq<Strategy>, len: nat, commonHead: nat, end: int): (m: Mark)
    requires commonHead < len <= |acs|
  {
    var best := Best(acs, commonHead, len);
    Mark(acs[best].ptr, end, best, acs[best].multiplen)
  }

  /** The block of which address j is the last, if it is the last of one. */
  ghost function MarkAt(addrs: seq<Address>, len: nat, j: nat, end: int): (m: Mark)
    requires Input(addrs, len) && j < |addrs|
  {
    hide Input;
    InputLen(addrs, len);
    MarkOf(After(addrs, len, j + 1).acs, len, HeadAt(addrs, len, j + 1), end)
  }

  /** The loop over the addresses finds room for the first stop addresses and no more. */
  ghost predicate StopsAt(addrs: seq<Address>, len: nat, room: int, stop: nat)
    requires Input(addrs, len)
  {
    && stop <= |addrs| && (forall k :: 0 <= k < stop ==> RoomFor(addrs, len, k, room))
    && (stop < |addrs| ==> !RoomFor(addrs, len, stop, room))
  }

  /** The state in front of the first address. */
  ghost predicate Cleared(acs: seq<Strategy>, marks: seq<Mark>, addrs: seq<Address>, len: nat) {
    && Input(addrs, len) && |acs| == MAX_ADDRLEN && |marks| == |addrs|
      && forall j :: 0 <= j < |marks| ==> marks[j].start == -1
  }

  /** The part of _compress_address that looks at the address before: the number of addresses with one prefix length,
   *  the common head, and the block that ends there. */
  method MeetBefore(acs: array<Strategy>, marks: array<Mark>, addrs: seq<Address>, k: nat, len: nat, samePrefixlen: nat)
    returns (same: nat, commonHead: nat)
    requires acs.Length == MAX_ADDRLEN && 0 < k < |addrs| && (acs as object) != marks
    requires SessionInv(acs[..], marks[..], addrs, len, k)
    modifies acs, marks
    ensures same == SameBefore(addrs, k, samePrefixlen) && commonHead < len
    ensures |addrs[k - 1].bytes| == |addrs[k].bytes| && commonHead == HeadBefore(addrs, k)
    ensures acs[..] == Closing(old(acs[..]), len, commonHead)
    ensures marks[k - 1] == MarkOf(old(acs[..]), len, commonHead, old(marks[k - 1].end))
    ensures forall i :: 0 <= i < len ==> Fits(acs[i], addrs, k, i)
    ensures marks.Length == |addrs| && forall j :: 0 <= j < k ==> GoodMark(marks[j], addrs, len, j)
    ensures forall j :: k <= j < |addrs| ==> marks[j].start == -1
    ensures forall j :: 0 <= j < |addrs| && j != k - 1 ==> marks[j] == old(marks[j])
  {
    hide Fits, GoodMark, Closing, CommonFrom, Best;
    HeadShort(addrs, len, k);
    same := samePrefixlen;
    if addrs[k - 1].plen == addrs[k].plen {
      same := same + 1;
    } else {
      same := 1;
    }
    commonHead := CommonHead(addrs[k - 1].bytes, addrs[k].bytes, len);
    ghost var before, was := acs[..], marks[..];
    var best := CloseAddrBlock(acs, marks, len, k - 1, commonHead);
    OnlyTotals(before, len, commonHead);
    Closed(before, acs[..], was, marks[..], addrs, len, k, best);
  }

  /** _compress_address for address k: afterwards the addresses from acs[i].ptr to k share their first i bytes, for
   *  every i, and multiplen tells whether their prefix lengths differ; every address before k has the start of a
   *  block. */
  method CompressAddress(acs: array<Strategy>, types: array<map<U16, TypeState>>, marks: array<Mark>,
                         addrs: seq<Address>, k: nat, len: nat, samePrefixlen: nat)
    returns (same: nat)
    requires acs.Length == MAX_ADDRLEN && types.Length == MAX_ADDRLEN && k < |addrs| && samePrefixlen >= 1
    requires (acs as object) != types && (acs as object) != marks && (types as object) != marks
    requires if k == 0 then Cleared(acs[..], marks[..], addrs, len) else SessionInv(acs[..], marks[..], addrs, len, k)
    modifies acs, types, marks
    ensures SessionInv(acs[..], marks[..], addrs, len, k + 1) && same >= 1
    ensures Session(acs[..], types[..], same)
      == Meet(Session(old(acs[..]), old(types[..]), samePrefixlen), addrs, k, len)
    ensures k > 0 ==> marks[k - 1] == MarkOf(old(acs[..]), len, HeadAt(addrs, len, k), old(marks[k - 1].end))
    ensures forall j :: 0 <= j < |addrs| && j != k - 1 ==> marks[j] == old(marks[j])
  {
    hide Fits, GoodMark, Closing, CommonFrom, Best, MetAll, CountedAll, Input;
    InputLen(addrs, len);
    HeadShort(addrs, len, k);
    same := samePrefixlen;
    var commonHead := 0;
    if k > 0 {
      same, commonHead := MeetBefore(acs, marks, addrs, k, len, samePrefixlen);
    }
    ghost var closed := acs[..];
    AdvanceAll(acs, types, addrs, k, len, commonHead, same);
    AllFit(closed, acs[..], old(types[..]), addrs, k, len, commonHead, same);
  }

  lemma AllFit(acs: seq<Strategy>, met: seq<Strategy>, types: seq<map<U16, TypeState>>, addrs: seq<Address>, k: nat,
               len: nat, commonHead: nat, same: nat)
    requires Input(addrs, len) && k < |addrs| && |acs| == |types| == MAX_ADDRLEN
    requires |addrs[if k > 0 then k - 1 else 0].bytes| == |addrs[k].bytes| && commonHead == HeadBefore(addrs, k)
    requires k > 0 ==> forall i :: 0 <= i < len ==> Fits(acs[i], addrs, k, i)
    requires k > 0 && addrs[k - 1].plen != addrs[k].plen ==> same == 1
    requires met == MetAll(acs, types, addrs, k, len, commonHead, same)
    ensures forall i :: 0 <= i < len ==> Fits(met[i], addrs, k + 1, i)
  {
    hide Fits, Advanced;
    HeadShort(addrs, len, k);
    forall i | 0 <= i < len ensures Fits(met[i], addrs, k + 1, i) {
      if k > 0 {
        AdvanceFits(acs[i], met[i], acs[len - 1].total, addrs, k, len, i, commonHead, same, types[i]);
      } else {
        FirstFits(acs[i], acs[len - 1].total, addrs, len, i, commonHead, same, types[i]);
      }
    }
  }

  lemma OnlyTotals(acs: seq<Strategy>, len: nat, commonHead: nat)
    requires commonHead < len <= |acs|
    ensures var r := Closing(acs, len, commonHead); forall i :: 0 <= i < |acs| ==> r[i] == acs[i].(total := r[i].total)
  {
  }

  lemma FirstFits(s: Strategy, base: int, addrs: seq<Address>, len: nat, i: nat, commonHead: nat, same: nat,
                  types: map<U16, TypeState>)
    requires Input(addrs, len) && i < len && 0 < |addrs|
    ensures Fits(Advanced(s, base, addrs, 0, len, i, commonHead, same, types), addrs, 1, i)
  {
    hide ContinueTlvs, NewCost;
  }

  // ---------- All addresses ----------

  /** What becomes of the addresses of a message: one fragment, or the outcomes of the code when they need more
   *  space. */
  datatype Outcome = OneFragment | TooSmall | MoreFragments

  /** Part of rfc5444_writer_create_message: the loop over the addresses. room is max_msg_size. The loop stops at the
   *  first address that no strategy can afford; without one there is one fragment. */
  method CompressAll(marks: array<Mark>, addrs: seq<Address>, mandatory: seq<bool>, len: nat, room: int)
    returns (outcome: Outcome, ghost stop: nat)
    requires Input(addrs, len) && addrs != [] && marks.Length == |mandatory| == |addrs|
    requires forall j :: 0 <= j < |addrs| ==> marks[j].start == -1
    modifies marks
    ensures StopsAt(addrs, len, room, stop) && (outcome.OneFragment? <==> stop == |addrs|)
    ensures outcome.TooSmall? <==> stop < |addrs| && forall j :: 0 <= j < stop ==> mandatory[j]
    ensures outcome.OneFragment? ==> forall j :: 0 <= j < |addrs| ==>
      GoodMark(marks[j], addrs, len, j) && marks[j] == MarkAt(addrs, len, j, old(marks[j].end))
  {
    hide Fits, GoodMark, Meet, RoomFor, Paid, Closing, Input, Affordable, MarkOf, Marked;
    InputLen(addrs, len);
    var acs := new Strategy[MAX_ADDRLEN](_ => Strategy(0, 0, 0, false, false));
    var types := new map<U16, TypeState>[MAX_ADDRLEN](_ => map[]);
    var same, optional := 1, 0;
    assert Session(acs[..], types[..], same) == Begin();
    MarkedNone(marks[..], addrs, len);
    for k := 0 to |addrs|
      invariant same >= 1 && (optional == 0 <==> forall j :: 0 <= j < k ==> mandatory[j])
      invariant if k == 0 then Cleared(acs[..], marks[..], addrs, len)
        else SessionInv(acs[..], marks[..], addrs, len, k)
      invariant Session(acs[..], types[..], same) == After(addrs, len, k)
      invariant forall j :: 0 <= j < k ==> RoomFor(addrs, len, j, room)
      invariant Marked(marks[..], old(marks[..]), addrs, len, k)
    {
      ghost var marked := marks[..];
      same := CompressAddress(acs, types, marks, addrs, k, len, same);
      MarkedMore(marked, marks[..], old(marks[..]), addrs, len, k);
      var bestHead := FindBest(acs, len, k, room);
      RoomIs(addrs, len, k, room, acs[..]);
      if bestHead == -1 {
        return if optional == 0 then TooSmall else MoreFragments, k;
      }
      ghost var was := acs[..];
      AddCosts(acs, len);
      PaidFits(was, addrs, len, k + 1);
      if !mandatory[k] {
        optional := optional + 1;
      }
    }
    ghost var marked := marks[..];
    CloseLast(acs, marks, addrs, len);
    MarkedMore(marked, marks[..], old(marks[..]), addrs, len, |addrs|);
    MarkedAll(marks[..], old(marks[..]), addrs, len);
    outcome, stop := OneFragment, |addrs|;
  }

  /** The marks before address k - 1 are made and the others are untouched. */
  ghost predicate Marked(marks: seq<Mark>, was: seq<Mark>, addrs: seq<Address>, len: nat, k: nat)
    requires Input(addrs, len) && k <= |addrs| + 1
  {
    && |marks| == |was| == |addrs|
    && (forall j :: 0 <= j < k - 1 ==> marks[j] == MarkAt(addrs, len, j, was[j].end))
    && (forall j :: 0 <= j < |addrs| && k - 1 <= j ==> marks[j] == was[j])
  }

  lemma MarkedNone(marks: seq<Mark>, addrs: seq<Address>, len: nat)
    requires Input(addrs, len) && |marks| == |addrs|
    ensures Marked(marks, marks, addrs, len, 0)
  {
    hide MarkAt;
  }

  lemma MarkedMore(before: seq<Mark>, after: seq<Mark>, was: seq<Mark>, addrs: seq<Address>, len: nat, k: nat)
    requires Input(addrs, len) && k <= |addrs| && Marked(before, was, addrs, len, k) && |after| == |before|
    requires forall j :: 0 <= j < |addrs| && j != k - 1 ==> after[j] == before[j]
    requires k > 0 ==> after[k - 1] == MarkAt(addrs, len, k - 1, before[k - 1].end)
    ensures Marked(after, was, addrs, len, k + 1)
  {
    hide MarkAt;
  }

  lemma MarkedAll(marks: seq<Mark>, was: seq<Mark>, addrs: seq<Address>, len: nat)
    requires Input(addrs, len) && Marked(marks, was, addrs, len, |addrs| + 1)
    ensures forall j :: 0 <= j < |addrs| ==> marks[j] == MarkAt(addrs, len, j, was[j].end)
  {
    hide MarkAt;
  }

  /** The last address ends the last block. */
  method CloseLast(acs: array<Strategy>, marks: array<Mark>, addrs: seq<Address>, len: nat)
    requires acs.Length == MAX_ADDRLEN && (acs as object) != marks
      && SessionInv(acs[..], marks[..], addrs, len, |addrs|)
    modifies acs, marks
    ensures forall j :: 0 <= j < |addrs| ==> GoodMark(marks[j], addrs, len, j)
    ensures forall j :: 0 <= j < |addrs| - 1 ==> marks[j] == old(marks[j])
    ensures len <= MAX_ADDRLEN && marks[|addrs| - 1] == MarkOf(old(acs[..]), len, 0, old(marks[|addrs| - 1].end))
  {
    hide Fits, GoodMark, Closing, Input, Best;
    InputLen(addrs, len);
    ghost var before, was := acs[..], marks[..];
    var best := CloseAddrBlock(acs, marks, len, |addrs| - 1, 0);
    OnlyTotals(before, len, 0);
    Closed(before, acs[..], was, marks[..], addrs, len, |addrs|, best);
  }

  lemma RoomIs(addrs: seq<Address>, len: nat, k: nat, room: int, acs: seq<Strategy>)
    requires Input(addrs, len) && k < |addrs| && acs == Meet(After(addrs, len, k), addrs, k, len).acs
    ensures len <= |acs| && (RoomFor(addrs, len, k, room) <==> exists i :: 0 <= i < len && Affordable(acs[i], k, room))
  {
    hide Meet, After;
  }

  lemma PaidFits(acs: seq<Strategy>, addrs: seq<Address>, len: nat, k: nat)
    requires len <= |acs| && forall i :: 0 <= i < len ==> Fits(acs[i], addrs, k, i)
    ensures forall i :: 0 <= i < len ==> Fits(Paid(acs, len)[i], addrs, k, i)
  {
    hide Fits;
    forall i | 0 <= i < len ensures Fits(Paid(acs, len)[i], addrs, k, i) {
      SameFits(acs[i], Paid(acs, len)[i], addrs, k, i);
    }
  }

  /** The cost of the address becomes part of the total of every strategy. */
  method AddCosts(acs: array<Strategy>, len: nat)
    requires acs.Length == MAX_ADDRLEN && len <= MAX_ADDRLEN
    modifies acs
    ensures acs[..] == Paid(old(acs[..]), len)
  {
    for i := 0 to len
      invariant forall j :: 0 <= j < MAX_ADDRLEN ==>
        acs[j] == if j < i then old(acs[j]).(total := old(acs[j].total) + old(acs[j].current)) else old(acs[j])
    {
      acs[i] := acs[i].(total := acs[i].total + acs[i].current);
    }
  }

  lemma SameFits(s: Strategy, r: Strategy, addrs: seq<Address>, k: nat, i: nat)
    requires Fits(s, addrs, k, i) && r == s.(total := r.total)
    ensures Fits(r, addrs, k, i)
  {
  }

  /** The first of the cheapest strategies that leave the message within its size and the block within 255 addresses, or
   *  -1. */
  method FindBest(acs: array<Strategy>, len: nat, k: nat, room: int) returns (best: int)
    requires acs.Length == MAX_ADDRLEN && len <= MAX_ADDRLEN
    ensures -1 <= best < len
    ensures best == -1 <==> forall i :: 0 <= i < len ==> !Affordable(acs[i], k, room)
    ensures best >= 0 ==>
      Affordable(acs[best], k, room) && acs[best].total + acs[best].current <= room && k + 1 - acs[best].ptr <= 255
    ensures best == -1 ==>
      forall i :: 0 <= i < len ==> acs[i].total + acs[i].current > room || k + 1 - acs[i].ptr > 255
    ensures best >= 0 ==> forall i :: 0 <= i < len && Affordable(acs[i], k, room) ==>
      acs[best].total + acs[best].current <= acs[i].total + acs[i].current
      && (i < best ==> acs[best].total + acs[best].current < acs[i].total + acs[i].current)
  {
    best := -1;
    var bestSize := room + 1;
    for i := 0 to len
      invariant -1 <= best < i
      invariant best == -1 ==> bestSize == room + 1
      invariant best >= 0 ==> bestSize == acs[best].total + acs[best].current <= room && k - acs[best].ptr <= 254
      invariant forall j :: 0 <= j < i && k - acs[j].ptr <= 254 ==> bestSize <= acs[j].total + acs[j].current
      invariant forall j :: 0 <= j < best && k - acs[j].ptr <= 254 ==> bestSize < acs[j].total + acs[j].current
    {
      var size := acs[i].total + acs[i].current;
      if size < bestSize && k - acs[i].ptr <= 254 {
        best, bestSize := i, size;
      }
    }
  }

  // ---------- The blocks of a fragment ----------

  /** A block of the addresses from start to end. */
  datatype Cut = Cut(start: nat, end: nat, head: nat, multi: bool)

  ghost predicate GoodCut(c: Cut, addrs: seq<Address>, len: nat) {
    && c.start <= c.end < |addrs| && (c.multi ==> c.start < c.end)
    && Compressed(addrs[c.start..c.end + 1], len, c.head, c.multi)
  }

  /** The cuts follow each other from address a to address b - 1, every one with a common head, and with a common prefix
   *  length unless multi. */
  ghost predicate Partition(cuts: seq<Cut>, addrs: seq<Address>, len: nat, a: nat, b: nat)
    decreases |cuts|
  {
    if cuts == [] then a == b else
    cuts[0].start == a && GoodCut(cuts[0], addrs, len) && Partition(cuts[1..], addrs, len, cuts[0].end + 1, b)
  }

  /** The first address of every block points to its last one and knows its head. */
  ghost predicate Linked(cuts: seq<Cut>, marks: seq<Mark>) {
    forall c :: c in cuts ==>
      c.start < |marks| && marks[c.start].end == c.end && marks[c.start].head == c.head
        && marks[c.start].multi == c.multi
  }

  lemma {:induction false} PartitionFrom(cuts: seq<Cut>, addrs: seq<Address>, len: nat, a: nat, b: nat)
    requires Partition(cuts, addrs, len, a, b)
    ensures a <= b && forall c :: c in cuts ==> a <= c.start <= c.end < b && GoodCut(c, addrs, len)
    ensures a < b <==> cuts != []
  {
    if cuts != [] {
      PartitionFrom(cuts[1..], addrs, len, cuts[0].end + 1, b);
      assert cuts == [cuts[0]] + cuts[1..];
    }
  }

  predicate Backward(marks: seq<Mark>, n: nat) {
    n <= |marks| && forall j :: 0 <= j < n ==> 0 <= marks[j].start <= j
  }

  /** The blocks of the first n addresses, found by following _block_start from the last of them back. */
  function CutsOf(marks: seq<Mark>, n: nat): (cuts: seq<Cut>)
    requires Backward(marks, n)
  {
    if n == 0 then [] else
    var m := marks[n - 1];
    CutsOf(marks, m.start) + [Cut(m.start, n - 1, m.head, m.multi)]
  }

  /** The loop of _finalize_message_fragment that follows _block_start from the last address back, and lets the first
   *  address of every block point to its last. */
  method LinkBlocks(marks: array<Mark>, addrs: seq<Address>, len: nat)
    requires addrs != [] && marks.Length == |addrs|
      && forall j :: 0 <= j < |addrs| ==> GoodMark(marks[j], addrs, len, j)
    modifies marks
    ensures Backward(old(marks[..]), |addrs|)
    ensures var cuts := CutsOf(old(marks[..]), |addrs|);
      Partition(cuts, addrs, len, 0, |addrs|) && Linked(cuts, marks[..])
  {
    hide Compressed, CutsOf, Partition, Linked, GoodMark, GoodCut;
    ghost var was := marks[..];
    var addr := |addrs| - 1;
    ghost var cuts: seq<Cut> := [];
    NoCuts(was, addrs, len, |addrs|);
    while true
      invariant 0 <= addr < |addrs| && Partition(cuts, addrs, len, addr + 1, |addrs|) && Linked(cuts, marks[..])
      invariant Backward(was, |addrs|) && CutsOf(was, addr + 1) + cuts == CutsOf(was, |addrs|)
      invariant forall j :: 0 <= j <= addr ==> marks[j] == was[j] && GoodMark(marks[j], addrs, len, j)
      decreases addr
    {
      var start := marks[addr].start;
      ghost var before := marks[..];
      CutsStep(was, addr + 1, cuts);
      MoreCuts(before, cuts, addrs, len, addr);
      marks[start] := marks[start].(end := addr, multi := marks[addr].multi, head := marks[addr].head);
      cuts := [Cut(start, addr, before[addr].head, before[addr].multi)] + cuts;
      if start == 0 {
        return;
      }
      assert 0 < start;  // the consistency check of the code
      addr := start - 1;
    }
  }

  lemma NoCuts(marks: seq<Mark>, addrs: seq<Address>, len: nat, n: nat)
    requires |marks| == |addrs| == n && forall j :: 0 <= j < n ==> GoodMark(marks[j], addrs, len, j)
    ensures Backward(marks, n) && CutsOf(marks, n) + [] == CutsOf(marks, n)
    ensures Partition([], addrs, len, n, n) && Linked([], marks)
  {
    hide CutsOf, Compressed;
  }

  /** The block that ends with addr, in front of the blocks behind it. */
  lemma MoreCuts(marks: seq<Mark>, cuts: seq<Cut>, addrs: seq<Address>, len: nat, addr: nat)
    requires addr < |addrs| == |marks| && GoodMark(marks[addr], addrs, len, addr)
    requires Partition(cuts, addrs, len, addr + 1, |addrs|) && Linked(cuts, marks)
    ensures var m := marks[addr];
      && 0 <= m.start <= addr
      && var all := [Cut(m.start, addr, m.head, m.multi)] + cuts;
      && Partition(all, addrs, len, m.start, |addrs|)
      && Linked(all, marks[m.start := marks[m.start].(end := addr, multi := m.multi, head := m.head)])
  {
    hide Compressed;
    PartitionFrom(cuts, addrs, len, addr + 1, |addrs|);
    var m := marks[addr];
    var all := [Cut(m.start, addr, m.head, m.multi)] + cuts;
    assert all[1..] == cuts;
  }

  lemma CutsStep(marks: seq<Mark>, n: nat, cuts: seq<Cut>)
    requires 0 < n && Backward(marks, n)
    ensures var m := marks[n - 1];
      CutsOf(marks, n) + cuts == CutsOf(marks, m.start) + ([Cut(m.start, n - 1, m.head, m.multi)] + cuts)
    ensures marks[n - 1].start == 0 ==>
      CutsOf(marks, n) + cuts == [Cut(0, n - 1, marks[n - 1].head, marks[n - 1].multi)] + cuts
  {
  }
}
