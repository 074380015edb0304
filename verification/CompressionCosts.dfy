/** What the costs of the compression session mean in bytes. */
module CompressionCosts {
  import opened Basics
  import opened Bytes
  import opened TlvFormat
  import opened AddressTlvs
  import opened AddressTlvWriter
  import opened AddressBlocks
  import opened AddressBlockWriter
  import opened Compression

  function Single(t: AddrTlv): (r: Run) {
    Run(t.full, 0, [t.value])
  }

  function Singles(tlvs: seq<AddrTlv>): (r: seq<Run>) {
    seq(|tlvs|, i requires 0 <= i < |tlvs| => Single(tlvs[i]))
  }

  /** The TLVs of one address are runs of their own. */
  lemma {:induction false} FeedSingles(tlvs: seq<AddrTlv>, n: nat)
    requires n <= |tlvs| && forall i, j :: 0 <= i < j < |tlvs| ==> tlvs[i].full < tlvs[j].full
    ensures FeedAddress(Scan([], Singles(tlvs[..n])), 0, tlvs, n) == Scan([], Singles(tlvs))
    decreases |tlvs| - n
  {
    if n == |tlvs| {
      assert tlvs[..n] == tlvs;
    } else {
      var open := Singles(tlvs[..n]);
      assert ActiveAt(open, tlvs[n].full) == |open|;
      assert Singles(tlvs[..n + 1]) == open + [Single(tlvs[n])];
      FeedSingles(tlvs, n + 1);
    }
  }

  lemma SingleTlv(t: AddrTlv)
    ensures Inside(Single(t), 1) && |TlvBytes(RunTlv(Single(t), 1))| + 2 == TlvCost(t)
  {
    var u := RunTlv(Single(t), 1);
    assert u == Tlv(t.full, NoIndex, false, t.value);
    TlvPieces([], u);
    hide TlvBytes;
  }

  lemma {:induction false} SinglesBytes(tlvs: seq<AddrTlv>)
    ensures forall q :: q in Singles(tlvs) ==> Inside(q, 1)
    ensures |Written(Singles(tlvs), 1)| + 2 * |tlvs| == NewTlvs(tlvs)
  {
    hide TlvBytes, TlvCost, RunTlv, Inside;
    forall q | q in Singles(tlvs) ensures Inside(q, 1) {
      var k :| 0 <= k < |tlvs| && Singles(tlvs)[k] == q;
      SingleTlv(tlvs[k]);
    }
    if tlvs != [] {
      var n := |tlvs| - 1;
      SinglesBytes(tlvs[..n]);
      SingleTlv(tlvs[n]);
      assert Singles(tlvs) == Singles(tlvs[..n]) + [Single(tlvs[n])];
      WrittenMore(Singles(tlvs[..n]), Single(tlvs[n]), 1);
    }
  }

  /** The cost of a new block is the exact size of the block with this address alone, plus a byte for a head and two for
   *  the indices of every TLV, which only blocks of several addresses have. */
  lemma NewCostExact(a: Address, len: nat, i: nat)
    requires |a.bytes| == len && 1 <= len <= MAX_ADDRLEN && i < len && a.Valid()
    ensures SameLength([a], len)
    ensures NewCost(a, len, i) == |AddrBlockBytes([a], len, i, false)| + 2 + |BlockTlvs([a])|
      + (if i > 0 then 1 else 0) + 2 * |a.tlvs|
  {
    assert [a][0] == a;
    assert BlockTlvs([a]) == Written(Singles(a.tlvs), 1) by {
      OneAddress(a);
    }
    SinglesBytes(a.tlvs);
    assert |Mids([a], 0, len)| == len;
  }

  lemma OneAddress(a: Address)
    requires a.Valid()
    ensures RunsOf([a]) == Singles(a.tlvs)
  {
    FeedSingles(a.tlvs, 0);
    assert Singles(a.tlvs[..0]) == [];
    var s := FeedAddress(Scan([], []), 0, a.tlvs, 0);
    assert FeedBlock(Scan([], []), [a], 0) == FeedBlock(s, [a], 1) == s;
    assert [] + Singles(a.tlvs) == Singles(a.tlvs);
  }

  // ---------- A condition under which all addresses find room ----------

  /** The cost of the first k addresses if each begins a block of its own with the longest head. */
  function CostUpTo(addrs: seq<Address>, len: nat, k: nat): (r: nat)
    requires len >= 1 && k <= |addrs|
  {
    if k == 0 then 0 else CostUpTo(addrs, len, k - 1) + NewCost(addrs[k - 1], len, len - 1)
  }

  lemma {:induction false} CostGrows(addrs: seq<Address>, len: nat, j: nat, k: nat)
    requires len >= 1 && j <= k <= |addrs|
    ensures CostUpTo(addrs, len, j) <= CostUpTo(addrs, len, k)
  {
    if j < k {
      CostGrows(addrs, len, j, k - 1);
    }
  }

  /** The strategy with the longest head is what the others are compared with, so that it never costs more than a block
   *  for every address. */
  lemma LongestMeets(s: Session, addrs: seq<Address>, k: nat, len: nat)
    requires Whole(s) && Input(addrs, len) && k < |addrs|
    ensures 1 <= len <= MAX_ADDRLEN
    ensures var m := Meet(s, addrs, k, len).acs[len - 1];
      m.total + m.current <= s.acs[len - 1].total + NewCost(addrs[k], len, len - 1)
  {
    hide NewCost, ContinueTlvs, Counted, CountedAll, Input, HeadBefore, ContinueCost;
    InputLen(addrs, len);
    HeadShort(addrs, len, k);
  }

  lemma {:induction false} LongestTotal(addrs: seq<Address>, len: nat, k: nat)
    requires Input(addrs, len) && k <= |addrs|
    ensures 1 <= len <= MAX_ADDRLEN && After(addrs, len, k).acs[len - 1].total <= CostUpTo(addrs, len, k)
  {
    hide Meet, Input, NewCost;
    InputLen(addrs, len);
    if k > 0 {
      LongestTotal(addrs, len, k - 1);
      LongestMeets(After(addrs, len, k - 1), addrs, k - 1, len);
    }
  }

  /** If the message has room for every address in a block of its own, the session finds room for every address. */
  lemma RoomForAll(addrs: seq<Address>, len: nat, room: int)
    requires Input(addrs, len)
    ensures 1 <= len
      && (CostUpTo(addrs, len, |addrs|) <= room ==> forall k :: 0 <= k < |addrs| ==> RoomFor(addrs, len, k, room))
  {
    hide Meet, Input, NewCost, After, CostUpTo;
    InputLen(addrs, len);
    if CostUpTo(addrs, len, |addrs|) <= room {
      forall k | 0 <= k < |addrs| ensures RoomFor(addrs, len, k, room) {
        LongestTotal(addrs, len, k);
        LongestMeets(After(addrs, len, k), addrs, k, len);
        CostStep(addrs, len, k);
        CostGrows(addrs, len, k + 1, |addrs|);
        assert Affordable(Meet(After(addrs, len, k), addrs, k, len).acs[len - 1], k, room);
      }
    }
  }

  lemma StopsNot(addrs: seq<Address>, len: nat, room: int, stop: nat)
    requires Input(addrs, len) && StopsAt(addrs, len, room, stop)
    ensures len >= 1 && (CostUpTo(addrs, len, |addrs|) <= room ==> stop == |addrs|)
  {
    hide RoomFor, Input, CostUpTo;
    RoomForAll(addrs, len, room);
  }

  lemma CostStep(addrs: seq<Address>, len: nat, k: nat)
    requires len >= 1 && k < |addrs|
    ensures CostUpTo(addrs, len, k + 1) == CostUpTo(addrs, len, k) + NewCost(addrs[k], len, len - 1)
  {
  }

  // ---------- The bytes of TLVs in several blocks ----------

  /** The cost of the values of a run, each in a TLV of its own. */
  function ValuesCost(full: U16, values: seq<Value>): (r: nat) {
    if values == [] then 0 else
    ValuesCost(full, values[..|values| - 1]) + TlvCost(AddrTlv(full, values[|values| - 1]))
  }

  function RunsCost(runs: seq<Run>): (r: nat) {
    if runs == [] then 0 else
    RunsCost(runs[..|runs| - 1]) + ValuesCost(runs[|runs| - 1].full, runs[|runs| - 1].values)
  }

  lemma {:induction false} ValuesEqual(full: U16, values: seq<Value>, v: Value)
    requires forall u :: u in values ==> |u| == |v|
    ensures ValuesCost(full, values) == |values| * TlvCost(AddrTlv(full, v))
  {
    hide TlvCost;
    if values != [] {
      var n := |values| - 1;
      ValuesEqual(full, values[..n], v);
      assert values[n] in values;
      SameCost(full, values[n], v);
      assert (n + 1) * TlvCost(AddrTlv(full, v)) == n * TlvCost(AddrTlv(full, v)) + TlvCost(AddrTlv(full, v));
    }
  }

  lemma SameCost(full: U16, u: Value, v: Value)
    requires |u| == |v|
    ensures TlvCost(AddrTlv(full, u)) == TlvCost(AddrTlv(full, v))
  {
  }

  lemma TlvAtMost(t: Tlv)
    ensures |TlvBytes(t)| <= 4 + (if t.full % 256 > 0 then 1 else 0) + (if |t.value| == 0 then 0 else 2) + |t.value|
    ensures |t.value| <= 255 ==>
      |TlvBytes(t)| <= 4 + (if t.full % 256 > 0 then 1 else 0) + (if |t.value| == 0 then 0 else 1) + |t.value|
  {
    TlvPieces([], t);
    hide TlvBytes, FlagsOf;
  }

  /** Merging values into one TLV never takes more bytes than a TLV for every value. */
  lemma RunAtMost(r: Run, n: nat)
    requires Inside(r, n)
    ensures |TlvBytes(RunTlv(r, n))| <= ValuesCost(r.full, r.values)
  {
    hide TlvBytes, ValuesCost, Joined, TlvCost, RunIndex;
    var v, k := r.values[0], |r.values|;
    ValuesEqual(r.full, r.values, v);
    if AllSame(r.values) {
      OneAtMost(RunTlv(r, n), v);
      assert k * TlvCost(AddrTlv(r.full, v)) >= TlvCost(AddrTlv(r.full, v)) by {
        MulMono(1, k, TlvCost(AddrTlv(r.full, v)));
      }
    } else {
      JoinedLength(r.values, |v|);
      var u :| u in r.values && u != v;
      ManyAtMost(RunTlv(r, n), k, v);
    }
  }

  lemma OneAtMost(t: Tlv, v: Value)
    requires t.value == v
    ensures |TlvBytes(t)| <= TlvCost(AddrTlv(t.full, v))
  {
    TlvAtMost(t);
    hide TlvBytes;
  }

  lemma ManyAtMost(t: Tlv, k: nat, v: Value)
    requires k >= 2 && |v| >= 1 && |t.value| == k * |v|
    ensures |TlvBytes(t)| <= k * TlvCost(AddrTlv(t.full, v))
  {
    TlvAtMost(t);
    hide TlvBytes;
    var rest := TlvCost(AddrTlv(t.full, v)) - |v|;
    assert k * TlvCost(AddrTlv(t.full, v)) == k * rest + k * |v|;
    MulMono(2, k, rest);
  }

  lemma {:induction false} WrittenAtMost(runs: seq<Run>, n: nat)
    requires forall q :: q in runs ==> Inside(q, n)
    ensures |Written(runs, n)| <= RunsCost(runs)
  {
    hide Inside, RunTlv, TlvBytes;
    if runs != [] {
      var k := |runs| - 1;
      WrittenAtMost(runs[..k], n);
      WrittenMore(runs[..k], runs[k], n);
      RunAtMost(runs[k], n);
      assert runs == runs[..k] + [runs[k]];
    }
  }

  lemma {:induction false} RunsCostConcat(a: seq<Run>, b: seq<Run>)
    ensures RunsCost(a + b) == RunsCost(a) + RunsCost(b)
  {
    hide ValuesCost;
    if b == [] {
      assert a + b == a;
    } else {
      var n, r := |b| - 1, a + b;
      assert r[..|r| - 1] == a + b[..n];
      RunsCostConcat(a, b[..n]);
    }
  }

  lemma RunsCostOne(r: Run)
    ensures RunsCost([r]) == ValuesCost(r.full, r.values)
  {
    assert [r][..0] == [];
  }

  lemma RunsCostAt(runs: seq<Run>, k: nat, r: Run)
    requires k < |runs|
    ensures RunsCost(runs[k := r]) + ValuesCost(runs[k].full, runs[k].values)
      == RunsCost(runs) + ValuesCost(r.full, r.values)
  {
    hide ValuesCost, RunsCost;
    var front, back := runs[..k], runs[k + 1..];
    assert runs == front + [runs[k]] + back && runs[k := r] == front + [r] + back;
    RunsCostConcat(front + [runs[k]], back);
    RunsCostConcat(front, [runs[k]]);
    RunsCostConcat(front + [r], back);
    RunsCostConcat(front, [r]);
    RunsCostOne(runs[k]);
    RunsCostOne(r);
  }

  lemma ValuesMore(full: U16, values: seq<Value>, v: Value)
    ensures ValuesCost(full, values + [v]) == ValuesCost(full, values) + TlvCost(AddrTlv(full, v))
  {
    assert (values + [v])[..|values|] == values;
  }

  /** However a TLV is merged, it adds its own cost to the runs. */
  lemma FeedCost(s: Scan, j: nat, t: AddrTlv)
    ensures RunsCost(Feed(s, j, t).All()) == RunsCost(s.All()) + TlvCost(t)
  {
    hide RunsCost, TlvCost, ValuesCost;
    var k := ActiveAt(s.open, t.full);
    var begun := Run(t.full, j, [t.value]);
    assert AddrTlv(t.full, t.value) == t;
    NewRunCost(begun, t);
    if k == |s.open| {
      assert s.done + (s.open + [begun]) == s.All() + [begun];
      RunsCostConcat(s.All(), [begun]);
      RunsCostOne(begun);
    } else {
      var run := s.open[k];
      var longer := Run(t.full, run.first, run.values + [t.value]);
      RunsCostConcat(s.done, s.open);
      RunsCostAt(s.open, k, longer);
      RunsCostAt(s.open, k, begun);
      ValuesMore(t.full, run.values, t.value);
      RunsCostConcat(s.done, s.open[k := longer]);
      RunsCostConcat(s.done + [run], s.open[k := begun]);
      RunsCostConcat(s.done, [run]);
      RunsCostOne(run);
    }
  }

  lemma NewRunCost(r: Run, t: AddrTlv)
    requires r.full == t.full && r.values == [t.value]
    ensures ValuesCost(r.full, r.values) == TlvCost(t)
  {
    ValuesMore(t.full, [], t.value);
    assert [] + [t.value] == [t.value];
  }

  lemma {:induction false} FeedAddressCost(s: Scan, j: nat, tlvs: seq<AddrTlv>, t: nat)
    requires t <= |tlvs|
    ensures RunsCost(FeedAddress(s, j, tlvs, t).All()) + NewTlvs(tlvs[..t]) == RunsCost(s.All()) + NewTlvs(tlvs)
    decreases |tlvs| - t
  {
    hide RunsCost, TlvCost, Feed, Scan.All;
    if t == |tlvs| {
      assert tlvs[..t] == tlvs;
    } else {
      assert tlvs[..t + 1][..t] == tlvs[..t];
      FeedCost(s, j, tlvs[t]);
      FeedAddressCost(Feed(s, j, tlvs[t]), j, tlvs, t + 1);
    }
  }

  /** The cost of the TLVs of the first k addresses. */
  function TlvsUpTo(block: seq<Address>, k: nat): (r: nat)
    requires k <= |block|
  {
    if k == 0 then 0 else TlvsUpTo(block, k - 1) + NewTlvs(block[k - 1].tlvs)
  }

  lemma {:induction false} FeedBlockCost(s: Scan, block: seq<Address>, j: nat)
    requires j <= |block|
    ensures RunsCost(FeedBlock(s, block, j).All()) + TlvsUpTo(block, j) == RunsCost(s.All()) + TlvsUpTo(block, |block|)
    decreases |block| - j
  {
    hide RunsCost, NewTlvs, FeedAddress, Scan.All;
    if j < |block| {
      FeedAddressCost(s, j, block[j].tlvs, 0);
      assert block[j].tlvs[..0] == [];
      NoTlvs();
      FeedBlockCost(FeedAddress(s, j, block[j].tlvs, 0), block, j + 1);
    }
  }

  lemma NoTlvs()
    ensures NewTlvs([]) == 0 && RunsCost([]) == 0
  {
  }

  lemma BlockTlvsAtMost(block: seq<Address>)
    requires |block| <= 255 && forall a :: a in block ==> a.Valid()
    ensures |BlockTlvs(block)| <= TlvsUpTo(block, |block|)
  {
    hide RunsCost, Inv, Inside;
    RunsInside(block);
    WrittenAtMost(RunsOf(block), |block|);
    FeedBlockCost(Scan([], []), block, 0);
    NoTlvs();
    assert Scan([], []).All() == [];
  }

  // ---------- The bytes of several blocks ----------

  lemma {:induction false} CostParts(block: seq<Address>, len: nat, k: nat)
    requires len >= 1 && k <= |block|
    ensures CostUpTo(block, len, k) >= k * (len + 4) + TlvsUpTo(block, k)
      + (if k > 0 && block[0].plen != len * 8 then 1 else 0)
  {
    hide NewTlvs;
    if k > 0 {
      CostParts(block, len, k - 1);
      assert k * (len + 4) == (k - 1) * (len + 4) + (len + 4);
    }
  }

  lemma HeadTailAtMost(n: nat, len: nat, h: nat, t: nat)
    requires n >= 2 && h + t <= len
    ensures 6 + h + t + n * (len - h - t) + n <= n * (len + 4)
  {
    var m := len - h - t;
    assert n * (len + 4) == n * m + n * (h + t) + n * 4;
    assert n * (h + t) >= h + t;
  }

  /** A block of addresses with its TLV block never takes more bytes than a block for every address. */
  lemma BlockAtMost(block: seq<Address>, len: nat, head: nat, multi: bool)
    requires Compressed(block, len, head, multi) && SameLength(block, len) && (multi ==> |block| > 1)
    requires forall a :: a in block ==> a.Valid()
    ensures |AddrBlockBytes(block, len, head, multi)| + 2 + |BlockTlvs(block)| <= CostUpTo(block, len, |block|)
  {
    hide BlockTlvs, NewTlvs, Compressed, SameLength, AddrBits, AddrBlockBytes, BlockFlags, Address.Valid;
    BlockLength(block, len, head, multi);
    BlockTlvsAtMost(block);
    CostParts(block, len, |block|);
    if |block| > 1 {
      HeadTailAtMost(|block|, len, HeadLength(block, head), TailLength(block, len, head));
    }
  }

  lemma BlockLength(block: seq<Address>, len: nat, head: nat, multi: bool)
    requires Compressed(block, len, head, multi) && SameLength(block, len)
    ensures 1 <= |block| <= 255 && head < len <= MAX_ADDRLEN
    ensures var h, t := HeadLength(block, head), TailLength(block, len, head);
      && h + t < len && (|block| == 1 ==> h == 0 && t == 0)
      && |AddrBlockBytes(block, len, head, multi)| <= 2 + (if h > 0 then 1 + h else 0) + (if t > 0 then 1 + t else 0)
        + |block| * (len - h - t) + (if multi then |block| else if block[0].plen != len * 8 then 1 else 0)
  {
    hide BlockFlags, CommonTail;
    BlockSize(block, len, head, multi);
  }

  lemma {:induction false} CostSlice(addrs: seq<Address>, len: nat, a: nat, b: nat)
    requires len >= 1 && a <= b <= |addrs|
    ensures CostUpTo(addrs, len, b) == CostUpTo(addrs, len, a) + CostUpTo(addrs[a..b], len, b - a)
  {
    hide NewCost;
    if a < b {
      CostSlice(addrs, len, a, b - 1);
      CostPrefix(addrs[a..b - 1], addrs[a..b], len, b - a - 1);
    }
  }

  lemma {:induction false} CostPrefix(addrs: seq<Address>, all: seq<Address>, len: nat, k: nat)
    requires len >= 1 && k <= |addrs| && addrs <= all
    ensures CostUpTo(addrs, len, k) == CostUpTo(all, len, k)
  {
    hide NewCost;
    if k > 0 {
      CostPrefix(addrs, all, len, k - 1);
    }
  }
}
