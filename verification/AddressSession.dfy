/** rfc5444_writer_add_address and rfc5444_writer_add_addrtlv: how a message gets its addresses and their TLVs. */
module AddressSession {
  import opened Basics
  import opened Bytes
  import opened TlvFormat
  import opened AddressTlvs
  import Compression

  /** struct rfc5444_writer_addrtlv: the value is length bytes of the value buffer. */
  datatype Ref = Ref(full: U16, at: nat, length: nat)

  /** struct rfc5444_writer_address: a netaddr, and the walk of the tree of its TLVs. */
  datatype Record = Record(bytes: seq<Byte>, plen: Byte, mandatory: bool, tlvs: seq<Ref>)

  ghost predicate InBuffer(r: Ref, used: nat) {
    r.at + r.length <= used && r.length < 0x1_0000
  }

  ghost predicate GoodRecord(r: Record, used: nat) {
    && (forall t :: t in r.tlvs ==> InBuffer(t, used))
    && Ascend(r.tlvs)
  }

  ghost function TlvAt(buf: seq<Byte>, t: Ref): (r: AddrTlv)
    requires InBuffer(t, |buf|)
  {
    AddrTlv(t.full, buf[t.at..t.at + t.length])
  }

  ghost function TlvsAt(buf: seq<Byte>, ts: seq<Ref>): (r: seq<AddrTlv>)
    requires forall t :: t in ts ==> InBuffer(t, |buf|)
  {
    seq(|ts|, i requires 0 <= i < |ts| => (assert ts[i] in ts; TlvAt(buf, ts[i])))
  }

  /** The address that a record stands for. */
  ghost function AddressOf(buf: seq<Byte>, r: Record): (a: Address)
    requires GoodRecord(r, |buf|)
    ensures a.Valid()
  {
    Address(r.bytes, r.plen, TlvsAt(buf, r.tlvs))
  }

  ghost function AddressesOf(buf: seq<Byte>, records: seq<Record>, hs: seq<nat>): (r: seq<Address>)
    requires (forall r :: r in records ==> GoodRecord(r, |buf|)) && forall h :: h in hs ==> h < |records|
    ensures |r| == |hs| && forall a :: a in r ==> a.Valid()
  {
    seq(|hs|, i requires 0 <= i < |hs| =>
      (assert hs[i] in hs && records[hs[i]] in records; AddressOf(buf, records[hs[i]])))
  }

  /** The place of a type among ascending TLVs. */
  function Place(ts: seq<Ref>, full: U16): (k: nat)
    ensures k <= |ts| && (forall i :: 0 <= i < k ==> ts[i].full < full) && (k < |ts| ==> full <= ts[k].full)
  {
    if ts == [] || full <= ts[0].full then 0 else 1 + Place(ts[1..], full)
  }

  lemma Written(was: seq<Byte>, now: seq<Byte>, used: nat, r: Record)
    requires |was| == |now| && used <= |was| && now[..used] == was[..used] && GoodRecord(r, used)
    ensures GoodRecord(r, |was|) && AddressOf(now, r) == AddressOf(was, r)
  {
    forall i | 0 <= i < |r.tlvs| ensures TlvsAt(now, r.tlvs)[i] == TlvsAt(was, r.tlvs)[i] {
      var t := r.tlvs[i];
      assert t in r.tlvs;
      assert now[t.at..t.at + t.length] == now[..used][t.at..t.at + t.length];
      assert was[t.at..t.at + t.length] == was[..used][t.at..t.at + t.length];
    }
  }

  ghost predicate Ascend(ts: seq<Ref>) {
    forall i, j :: 0 <= i < j < |ts| ==> ts[i].full < ts[j].full
  }

  lemma InsertAscends(ts: seq<Ref>, k: nat, t: Ref)
    requires Ascend(ts) && k <= |ts| && (k > 0 ==> ts[k - 1].full < t.full) && (k < |ts| ==> t.full < ts[k].full)
    ensures Ascend(ts[..k] + [t] + ts[k..])
  {
    var q := ts[..k] + [t] + ts[k..];
    forall i, j | 0 <= i < j < |q| ensures q[i].full < q[j].full {
      var a, b := if i < k then i else i - 1, if j < k then j else j - 1;
      assert i != k ==> q[i] == ts[a];
      assert j != k ==> q[j] == ts[b];
      assert i < k ==> ts[i].full <= ts[k - 1].full;
      assert j > k ==> ts[k].full <= ts[j - 1].full;
    }
  }

  /** A TLV more, at its place. */
  lemma OneTlvMore(buf: seq<Byte>, r: Record, t: Ref, used: nat)
    requires GoodRecord(r, used) && InBuffer(t, used) && used <= |buf|
    requires forall u :: u in r.tlvs ==> u.full != t.full
    ensures GoodRecord(r, |buf|)
    ensures var k := Place(r.tlvs, t.full); var q := r.(tlvs := r.tlvs[..k] + [t] + r.tlvs[k..]);
      GoodRecord(q, used) && GoodRecord(q, |buf|)
      && AddressOf(buf, q).tlvs == AddressOf(buf, r).tlvs[..k] + [TlvAt(buf, t)] + AddressOf(buf, r).tlvs[k..]
  {
    hide TlvAt, Ascend, Place;
    var k := Place(r.tlvs, t.full);
    assert k < |r.tlvs| ==> r.tlvs[k] in r.tlvs;
    InsertAscends(r.tlvs, k, t);
    TlvsMore(buf, r.tlvs, k, t);
    forall u | u in r.tlvs[..k] + [t] + r.tlvs[k..] ensures InBuffer(u, used) {
    }
  }

  lemma TlvsMore(buf: seq<Byte>, ts: seq<Ref>, k: nat, t: Ref)
    requires k <= |ts| && InBuffer(t, |buf|) && forall u :: u in ts ==> InBuffer(u, |buf|)
    ensures var q := ts[..k] + [t] + ts[k..];
      (forall u :: u in q ==> InBuffer(u, |buf|))
        && TlvsAt(buf, q) == TlvsAt(buf, ts)[..k] + [TlvAt(buf, t)] + TlvsAt(buf, ts)[k..]
  {
    hide TlvAt, InBuffer;
    var q := ts[..k] + [t] + ts[k..];
    assert forall i :: 0 <= i < |q| ==> q[i] == if i < k then ts[i] else if i == k then t else ts[i - 1];
  }

  /** An address with one TLV more. */
  ghost predicate Gains(before: Address, after: Address, t: AddrTlv) {
    exists k: nat :: k <= |before.tlvs| && after == before.(tlvs := before.tlvs[..k] + [t] + before.tlvs[k..])
  }

  /** The addresses of a message under construction. records are the address objects, in the order in which they were
   *  made; mandatory and others are _addr_head and _non_mandatory_addr_head. */
  class AddressSession {
    const valueBuffer: array<Byte>
    var used: nat
    var records: seq<Record>
    var mandatory: seq<nat>
    var others: seq<nat>

    /** No netaddr has two records, every record is in one of the lists once, and its TLVs lie in the used part of the
     *  value buffer. */
    ghost predicate Valid()
      reads this
    {
      && used <= valueBuffer.Length
      && (forall r :: r in records ==> GoodRecord(r, used))
      && (forall i, j :: 0 <= i < j < |records| ==>
        (records[i].bytes, records[i].plen) != (records[j].bytes, records[j].plen))
      && (forall i :: i in mandatory + others <==> 0 <= i < |records|)
      && Distinct(mandatory + others)
    }

    ghost function AddressAt(i: nat): (a: Address)
      requires Valid() && i < |records|
      reads this, valueBuffer
      ensures a.Valid()
    {
      assert records[i] in records;
      AddressOf(valueBuffer[..], records[i])
    }

    /** The addresses as rfc5444_writer_create_message goes through them: the two lists merged. */
    ghost function Addresses(): (r: seq<Address>)
      requires Valid()
      reads this, valueBuffer
      ensures |r| == |mandatory| + |others| && forall a :: a in r ==> a.Valid()
    {
      assert forall r :: r in records ==> GoodRecord(r, valueBuffer.Length);
      AddressesOf(valueBuffer[..], records, mandatory + others)
    }

    constructor (valueBuffer: array<Byte>)
      ensures Valid() && this.valueBuffer == valueBuffer && records == []
    {
      this.valueBuffer := valueBuffer;
      used, records, mandatory, others := 0, [], [], [];
    }

    /** avl_find in the tree of addresses. */
    method FindAddress(bytes: seq<Byte>, plen: Byte) returns (h: int)
      requires Valid()
      ensures -1 <= h < |records|
      ensures h >= 0 ==> records[h].bytes == bytes && records[h].plen == plen
      ensures h == -1 ==> forall i :: 0 <= i < |records| ==> (records[i].bytes, records[i].plen) != (bytes, plen)
    {
      for i := 0 to |records|
        invariant forall j :: 0 <= j < i ==> (records[j].bytes, records[j].plen) != (bytes, plen)
      {
        if records[i].bytes == bytes && records[i].plen == plen {
          return i;
        }
      }
      h := -1;
    }

    /** rfc5444_writer_add_address: the record of the netaddr, a new one at the end of its list or the one that is
     *  there. An address that becomes mandatory later stays in the list of the others. */
    method AddAddress(bytes: seq<Byte>, plen: Byte, isMandatory: bool) returns (h: nat)
      requires Valid()
      modifies this`records, this`mandatory, this`others
      ensures Valid() && h < |records| && records[h].bytes == bytes && records[h].plen == plen
      ensures forall i :: 0 <= i < |old(records)| ==> i < |records| && AddressAt(i) == old(AddressAt(i))
      ensures h < |old(records)| ==>
        |records| == |old(records)| && mandatory == old(mandatory) && others == old(others)
        && records[h].mandatory == (old(records)[h].mandatory || isMandatory)
      ensures h >= |old(records)| ==>
        h == |old(records)| == |records| - 1 && AddressAt(h) == Address(bytes, plen, [])
          && records[h].mandatory == isMandatory
        && mandatory == (if isMandatory then old(mandatory) + [h] else old(mandatory))
        && others == (if isMandatory then old(others) else old(others) + [h])
    {
      hide GoodRecord, Distinct;
      var found := FindAddress(bytes, plen);
      if found == -1 {
        h := |records|;
        NewRecord(bytes, plen, used);
        NewInLists(mandatory, others, h);
        records := records + [Record(bytes, plen, false, [])];
        if isMandatory {
          mandatory := mandatory + [h];
        } else {
          others := others + [h];
        }
      } else {
        h := found;
      }
      assert records[h] in records;
      Promoted(valueBuffer[..], records[h], used, isMandatory);
      records := records[h := records[h].(mandatory := records[h].mandatory || isMandatory)];
    }

    /** rfc5444_writer_add_addrtlv without duplicates: the address gets the TLV at its place in type order, and no other
     *  value changes. */
    method AddAddrTlv(h: nat, full: U16, value: Value) returns (status: Status)
      requires Valid() && h < |records|
      modifies this`used, this`records, valueBuffer
      ensures Valid() && |records| == |old(records)|
      ensures if exists t :: t in old(AddressAt(h)).tlvs && t.full == full then status == DuplicateTlv
              else if value != [] && old(used) + |value| > valueBuffer.Length then status == OutOfAddrTlvMem
              else status == Okay
      ensures forall i :: 0 <= i < |records| && i != h ==> AddressAt(i) == old(AddressAt(i))
      ensures status != Okay ==> AddressAt(h) == old(AddressAt(h))
      ensures status == Okay ==> Gains(old(AddressAt(h)), AddressAt(h), AddrTlv(full, value))
    {
      var r := records[h];
      assert r in records;
      var k := Place(r.tlvs, full);
      if k < |r.tlvs| && r.tlvs[k].full == full {
        assert AddressAt(h).tlvs[k].full == full;
        return DuplicateTlv;
      }
      NoneOfType(valueBuffer[..], r, full);
      if value != [] && used + |value| > valueBuffer.Length {
        return OutOfAddrTlvMem;
      }
      Store(h, full, value);
      status := Okay;
    }

    /** _copy_addrtlv_value and the insertion into the tree. */
    method Store(h: nat, full: U16, value: Value)
      requires Valid() && h < |records| && used + |value| <= valueBuffer.Length
      requires forall t :: t in records[h].tlvs ==> t.full != full
      modifies this`used, this`records, valueBuffer
      ensures Valid() && |records| == |old(records)|
      ensures forall i :: 0 <= i < |records| && i != h ==> AddressAt(i) == old(AddressAt(i))
      ensures Gains(old(AddressAt(h)), AddressAt(h), AddrTlv(full, value))
    {
      hide GoodRecord, Distinct, AddressOf, Place;
      ghost var was, rs := valueBuffer[..], records;
      var at := used;
      OverlayIs(was, at, value);
      Copy(valueBuffer, at, value);
      var t := Ref(full, at, |value|);
      var k := Place(records[h].tlvs, full);
      forall i | 0 <= i < |records| ensures GoodRecord(records[i], used + |value|) && GoodRecord(records[i], |was|)
        && AddressOf(valueBuffer[..], records[i]) == AddressOf(was, records[i])
      {
        assert records[i] in records;
        Written(was, valueBuffer[..], used, records[i]);
        More(records[i], used, used + |value|);
      }
      OneTlvMore(valueBuffer[..], records[h], t, used + |value|);
      SameButTlvs(valueBuffer[..], records[h], records[h].tlvs[..k] + [t] + records[h].tlvs[k..]);
      assert TlvAt(valueBuffer[..], t) == AddrTlv(full, value);
      used := used + |value|;
      records := records[h := records[h].(tlvs := records[h].tlvs[..k] + [t] + records[h].tlvs[k..])];
    }
  }

  lemma More(r: Record, used: nat, now: nat)
    requires GoodRecord(r, used) && used <= now
    ensures GoodRecord(r, now)
  {
  }

  lemma SameButTlvs(buf: seq<Byte>, r: Record, ts: seq<Ref>)
    requires GoodRecord(r, |buf|) && GoodRecord(r.(tlvs := ts), |buf|)
    ensures AddressOf(buf, r.(tlvs := ts)) == AddressOf(buf, r).(tlvs := AddressOf(buf, r.(tlvs := ts)).tlvs)
    ensures |AddressOf(buf, r).tlvs| == |r.tlvs|
  {
  }

  lemma NewRecord(bytes: seq<Byte>, plen: Byte, used: nat)
    ensures GoodRecord(Record(bytes, plen, false, []), used)
  {
  }

  lemma NewInLists(a: seq<nat>, b: seq<nat>, n: nat)
    requires Distinct(a + b) && forall i :: i in a + b <==> 0 <= i < n
    ensures Distinct(a + [n] + b) && Distinct(a + (b + [n]))
    ensures forall i :: i in a + [n] + b <==> 0 <= i < n + 1
    ensures forall i :: i in a + (b + [n]) <==> 0 <= i < n + 1
  {
    assert n !in a + b;
    Inserted(a, b, n);
    Inserted(a + b, [], n);
    assert a + (b + [n]) == (a + b) + [n] + [];
  }

  lemma Inserted(a: seq<nat>, b: seq<nat>, n: nat)
    requires Distinct(a + b) && n !in a + b
    ensures Distinct(a + [n] + b) && forall i :: i in a + [n] + b <==> i in a + b || i == n
  {
    var s, t := a + b, a + [n] + b;
    assert forall i :: 0 <= i < |t| ==> t[i] == if i < |a| then s[i] else if i == |a| then n else s[i - 1];
    assert forall i :: 0 <= i < |s| ==> s[i] == if i < |a| then t[i] else t[i + 1];
    forall i, j | 0 <= i < j < |t| ensures t[i] != t[j] {
      assert i != |a| ==> t[i] == s[if i < |a| then i else i - 1];
      assert j != |a| ==> t[j] == s[if j < |a| then j else j - 1];
    }
    forall i | i in s ensures i in t {
      var k :| 0 <= k < |s| && s[k] == i;
      assert t[if k < |a| then k else k + 1] == i;
    }
  }

  /** The flag of a record is no part of its address. */
  lemma Promoted(buf: seq<Byte>, r: Record, used: nat, isMandatory: bool)
    requires GoodRecord(r, used) && used <= |buf|
    ensures var q := r.(mandatory := r.mandatory || isMandatory);
      GoodRecord(q, used) && GoodRecord(r, |buf|) && AddressOf(buf, q) == AddressOf(buf, r)
  {
  }

  lemma NoneOfType(buf: seq<Byte>, r: Record, full: U16)
    requires GoodRecord(r, |buf|)
    requires var k := Place(r.tlvs, full); k == |r.tlvs| || r.tlvs[k].full != full
    ensures forall t :: t in r.tlvs ==> t.full != full
    ensures forall t :: t in AddressOf(buf, r).tlvs ==> t.full != full
  {
  }

  // ---------- The addresses of a message ----------

  /** Bytes and prefix lengths of some records. */
  ghost function Netaddrs(records: seq<Record>, hs: seq<nat>): (r: seq<(seq<Byte>, Byte)>)
    requires forall h :: h in hs ==> h < |records|
    ensures |r| == |hs|
  {
    seq(|hs|, k requires 0 <= k < |hs| => (assert hs[k] in hs; (records[hs[k]].bytes, records[hs[k]].plen)))
  }

  /** Netaddrs of one length, at most 255, with prefix lengths below 255; neighbours differ in some byte. */
  ghost predicate Compressible(ns: seq<(seq<Byte>, Byte)>, len: nat) {
    && 1 <= len <= 16 && |ns| <= 255
    && (forall n :: n in ns ==> |n.0| == len && n.1 < 255)
    && (forall k :: 0 < k < |ns| ==> ns[k - 1].0 != ns[k].0)
  }

  /** The exact condition, on the netaddrs that were added, under which the message writer takes the addresses. */
  lemma InputExact(s: AddressSession, len: nat)
    requires s.Valid()
    ensures Compression.Input(s.Addresses(), len) <==> Compressible(Netaddrs(s.records, s.mandatory + s.others), len)
  {
    hide GoodRecord, Distinct, Address.Valid, TlvsAt;
    var hs, addrs := s.mandatory + s.others, s.Addresses();
    forall k: nat | k < |hs| ensures (addrs[k].bytes, addrs[k].plen) == Netaddrs(s.records, hs)[k] {
      assert hs[k] in hs && s.records[hs[k]] in s.records;
    }
    SameNetaddrs(addrs, Netaddrs(s.records, hs), len);
  }

  lemma SameNetaddrs(addrs: seq<Address>, ns: seq<(seq<Byte>, Byte)>, len: nat)
    requires |addrs| == |ns| && forall a :: a in addrs ==> a.Valid()
    requires forall k: nat :: k < |ns| ==> (addrs[k].bytes, addrs[k].plen) == ns[k]
    ensures Compression.Input(addrs, len) <==> Compressible(ns, len)
  {
    hide Address.Valid;
    if Compression.Input(addrs, len) {
      forall n | n in ns ensures |n.0| == len && n.1 < 255 {
        var k: nat :| k < |ns| && ns[k] == n;
        assert addrs[k] in addrs;
      }
      forall k | 0 < k < |ns| ensures ns[k - 1].0 != ns[k].0 {
        assert addrs[k - 1].bytes != addrs[k].bytes;
      }
    }
    if Compressible(ns, len) {
      forall a | a in addrs ensures |a.bytes| == len && a.plen < 255 {
        var k: nat :| k < |addrs| && addrs[k] == a;
        assert ns[k] in ns;
      }
    }
  }

  /** In whatever order they were added, netaddrs of which no two have the same bytes are taken. */
  lemma DifferentBytes(s: AddressSession, len: nat)
    requires s.Valid() && 1 <= len <= 16 && |s.mandatory| + |s.others| <= 255
    requires forall r :: r in s.records ==> |r.bytes| == len && r.plen < 255
    requires forall i, j :: 0 <= i < j < |s.records| ==> s.records[i].bytes != s.records[j].bytes
    ensures Compression.Input(s.Addresses(), len)
  {
    hide GoodRecord, Compression.Input;
    var hs := s.mandatory + s.others;
    var ns := Netaddrs(s.records, hs);
    forall n | n in ns ensures |n.0| == len && n.1 < 255 {
      var k: nat :| k < |ns| && ns[k] == n;
      assert hs[k] in hs && s.records[hs[k]] in s.records;
    }
    forall k: nat | 0 < k < |ns| ensures ns[k - 1].0 != ns[k].0 {
      assert hs[k - 1] in hs && hs[k] in hs && hs[k - 1] != hs[k];
    }
    InputExact(s, len);
  }
}
