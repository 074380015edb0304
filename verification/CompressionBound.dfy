/** When the compression session does not underestimate: if all addresses have one prefix length and no value of a TLV
 *  is so long that merging needs a longer length field, the blocks that the session chooses fit into the space that it
 *  counts. */
module CompressionBound {
  import opened Basics
  import opened Bytes
  import opened TlvFormat
  import opened AddressTlvs
  import opened AddressTlvWriter
  import opened AddressBlocks
  import opened AddressBlockWriter
  import opened Compression
  import opened CompressionCosts

  predicate OnePrefixLength(addrs: seq<Address>) {
    forall a :: a in addrs ==> a.plen == addrs[0].plen
  }

  /** A value with an 8 bit length field keeps it when every address has one of its length. */
  predicate ShortValues(addrs: seq<Address>) {
    forall a, t :: a in addrs && t in a.tlvs ==> |t.value| > 255 || |t.value| * |addrs| <= 255
  }

  // ---------- What the session counts for TLVs ----------

  /** The runs after the addresses from p to k - 1, in a block that begins with address p. */
  function ScanTo(addrs: seq<Address>, p: nat, k: nat): (s: Scan)
    requires p <= k <= |addrs|
    decreases k
  {
    if k == p then Scan([], []) else FeedAddress(ScanTo(addrs, p, k - 1), k - 1 - p, addrs[k - 1].tlvs, 0)
  }

  /** What the session counts for a run: its values once, or each of them if they differ. */
  function RunCharge(r: Run): (c: nat) {
    if r.values == [] then 0 else
    var l := |r.values[0]|;
    4 + (if r.full % 256 > 0 then 1 else 0) + (if l > 255 then 1 else 0) + (if l > 0 then 1 else 0)
    + if AllSame(r.values) then l else |r.values| * l
  }

  function RunsCharge(runs: seq<Run>): (c: nat) {
    if runs == [] then 0 else RunsCharge(runs[..|runs| - 1]) + RunCharge(runs[|runs| - 1])
  }

  /** The counters of a strategy are those of the current runs of its block. */
  ghost predicate Counts(open: seq<Run>, types: map<U16, TypeState>) {
    forall r :: r in open ==> StateOf(types, r.full) == TypeState(|r.values|, !AllSame(r.values))
  }

  lemma {:induction false} RunsChargeConcat(a: seq<Run>, b: seq<Run>)
    ensures RunsCharge(a + b) == RunsCharge(a) + RunsCharge(b)
  {
    hide RunCharge;
    if b == [] {
      assert a + b == a;
    } else {
      var n, r := |b| - 1, a + b;
      assert r[..|r| - 1] == a + b[..n];
      RunsChargeConcat(a, b[..n]);
    }
  }

  lemma RunsChargeOne(r: Run)
    ensures RunsCharge([r]) == RunCharge(r)
  {
    assert [r][..0] == [];
  }

  lemma RunsChargeAt(runs: seq<Run>, k: nat, r: Run)
    requires k < |runs|
    ensures RunsCharge(runs[k := r]) + RunCharge(runs[k]) == RunsCharge(runs) + RunCharge(r)
  {
    hide RunCharge, RunsCharge;
    var front, back := runs[..k], runs[k + 1..];
    assert runs == front + [runs[k]] + back && runs[k := r] == front + [r] + back;
    RunsChargeConcat(front + [runs[k]], back);
    RunsChargeConcat(front, [runs[k]]);
    RunsChargeConcat(front + [r], back);
    RunsChargeConcat(front, [r]);
    RunsChargeOne(runs[k]);
    RunsChargeOne(r);
  }

  lemma NewRunCharge(full: U16, first: nat, v: Value)
    ensures RunCharge(Run(full, first, [v])) == TlvCost(AddrTlv(full, v))
  {
  }

  /** The current run that a TLV may continue ends at the address before, exactly if that address has a TLV of the
   *  type. */
  lemma OpenReaches(s: Scan, block: seq<Address>, m: nat, n: nat, u: AddrTlv)
    requires Inv(s, block, m, n) && 0 < m < |block| && n < |block[m].tlvs| && block[m].Valid()
    requires u in block[m - 1].tlvs && u.full == block[m].tlvs[n].full
    ensures var k := ActiveAt(s.open, u.full); k < |s.open| && s.open[k].End() == m
  {
    hide True, Follows, Inside;
    var k := ActiveAt(s.open, u.full);
    assert Seen(block, m - 1, u.full, m, n);
    assert Covered(s.All(), u.full, m - 1);
    var r :| r in s.All() && r.Covers(u.full, m - 1);
    Fresh(block, m, n);
    if k == |s.open| {
      NotActive(s.done, s.open, u.full);
    } else {
      var o := s.open[k];
      assert o in s.All();
      OpenRun(s, block, m, n, k);
      if r in s.open {
        SameOpen(s.open, k, r);
      } else {
        LaterFirst(s, r, k);
      }
    }
  }

  lemma SameOpen(open: seq<Run>, k: nat, r: Run)
    requires DistinctTypes(open) && k < |open| && r in open && r.full == open[k].full
    ensures r == open[k]
  {
    var i :| 0 <= i < |open| && open[i] == r;
    assert open[i].full == open[k].full;
  }

  lemma LaterFirst(s: Scan, r: Run, k: nat)
    requires Chained(s.All()) && r in s.done && k < |s.open| && s.open[k].full == r.full
    ensures r.End() <= s.open[k].first
  {
    var i :| 0 <= i < |s.done| && s.done[i] == r;
    assert s.All()[i] == r && s.All()[|s.done| + k] == s.open[k];
    assert Follows(r, s.open[k]);
  }

  /** The session and the writer agree on which TLVs continue a run. */
  lemma ExtendsExact(s: Scan, block: seq<Address>, m: nat, n: nat)
    requires Inv(s, block, m, n) && 0 < m < |block| && n < |block[m].tlvs| && forall a :: a in block ==> a.Valid()
    ensures var t := block[m].tlvs[n];
      var k := ActiveAt(s.open, t.full);
      var longer := k < |s.open| && s.open[k].End() == m && s.open[k].values != []
        && |s.open[k].values[|s.open[k].values| - 1]| == |t.value|;
      HasLength(block[m - 1].tlvs, t) <==> longer
  {
    hide Inv, ActiveAt, True;
    var t := block[m].tlvs[n];
    var k := ActiveAt(s.open, t.full);
    if HasLength(block[m - 1].tlvs, t) {
      var u :| u in block[m - 1].tlvs && u.full == t.full && |u.value| == |t.value|;
      OpenReaches(s, block, m, n, u);
    }
    if k < |s.open| && s.open[k].End() == m {
      ActiveFull(s.open, t.full);
      OpenRun(s, block, m, n, k);
      LastValue(s.open[k], block, m, t.full);
    }
  }

  lemma ActiveFull(open: seq<Run>, full: U16)
    ensures ActiveAt(open, full) <= |open|
      && (ActiveAt(open, full) < |open| ==> open[ActiveAt(open, full)].full == full)
  {
  }

  /** The last value of a run is the value of the only TLV of its type that the last address has. */
  lemma LastValue(run: Run, block: seq<Address>, m: nat, full: U16)
    requires True(run, block) && run.values != [] && run.End() == m && 0 < m < |block| && run.full == full
    requires forall a :: a in block ==> a.Valid()
    ensures var last := AddrTlv(full, run.values[|run.values| - 1]);
      last in block[m - 1].tlvs && forall u :: u in block[m - 1].tlvs && u.full == full ==> u == last
  {
    var last := AddrTlv(full, run.values[|run.values| - 1]);
    assert block[m - 1].Valid();
    forall u | u in block[m - 1].tlvs && u.full == full ensures u == last {
      var i :| 0 <= i < |block[m - 1].tlvs| && block[m - 1].tlvs[i] == u;
      var j :| 0 <= j < |block[m - 1].tlvs| && block[m - 1].tlvs[j] == last;
    }
  }

  /** A TLV of an address that continues a block adds what the session counts for it. */
  lemma FeedCharge(s: Scan, block: seq<Address>, m: nat, n: nat, types: map<U16, TypeState>)
    requires Inv(s, block, m, n) && 0 < m < |block| && n < |block[m].tlvs| && forall a :: a in block ==> a.Valid()
    requires var k := ActiveAt(s.open, block[m].tlvs[n].full);
      k < |s.open| ==> StateOf(types, s.open[k].full) == TypeState(|s.open[k].values|, !AllSame(s.open[k].values))
    ensures var t := block[m].tlvs[n];
      RunsCharge(Feed(s, m, t).All()) == RunsCharge(s.All()) + ContinueTlv(t, false, block[m - 1].tlvs, types)
  {
    hide Inv, RunsCharge, RunCharge, HasLength, HasValue, ActiveAt, AllSame, True;
    var t := block[m].tlvs[n];
    var k := ActiveAt(s.open, t.full);
    var begun := Run(t.full, m, [t.value]);
    ExtendsExact(s, block, m, n);
    ActiveFull(s.open, t.full);
    NewRunCharge(t.full, m, t.value);
    assert AddrTlv(t.full, t.value) == t;
    if k == |s.open| {
      assert s.done + (s.open + [begun]) == s.All() + [begun];
      RunsChargeConcat(s.All(), [begun]);
      RunsChargeOne(begun);
    } else {
      var run := s.open[k];
      OpenRun(s, block, m, n, k);
      RunsChargeConcat(s.done, s.open);
      if run.End() == m && |run.values[|run.values| - 1]| == |t.value| {
        var longer := Run(t.full, run.first, run.values + [t.value]);
        RunsChargeAt(s.open, k, longer);
        RunsChargeConcat(s.done, s.open[k := longer]);
        SameStill(block, m, run, t);
        LongerCharge(run, t, |block|);
      } else {
        RunsChargeAt(s.open, k, begun);
        RunsChargeConcat(s.done + [run], s.open[k := begun]);
        RunsChargeConcat(s.done, [run]);
        RunsChargeOne(run);
      }
    }
  }

  lemma LongerCharge(run: Run, t: AddrTlv, n: nat)
    requires Inside(run, n) && run.full == t.full && |run.values[|run.values| - 1]| == |t.value|
    ensures var longer, l := Run(t.full, run.first, run.values + [t.value]), |t.value|;
      RunCharge(longer) == RunCharge(run)
        + if !AllSame(run.values) then l else if AllSame(longer.values) then 0 else l * |run.values|
  {
    hide AllSame;
    var longer, l, k := Run(t.full, run.first, run.values + [t.value]), |t.value|, |run.values|;
    assert run.values[k - 1] in run.values && longer.values[0] == run.values[0];
    SamePrefix(run.values, t.value);
    MoreValues(k, l);
  }

  lemma SamePrefix(values: seq<Value>, v: Value)
    requires values != []
    ensures AllSame(values + [v]) ==> AllSame(values)
  {
    var all := values + [v];
    if AllSame(all) {
      forall u | u in values ensures u == values[0] {
        assert u in all && all[0] == values[0];
      }
    }
  }

  lemma MoreValues(k: nat, l: nat)
    ensures (k + 1) * l == k * l + l && l * k == k * l
  {
  }

  // ---------- One address ----------

  lemma {:induction false} CountedOther(types: map<U16, TypeState>, tlvs: seq<AddrTlv>, closed: bool,
                                        last: seq<AddrTlv>, full: U16)
    requires forall t :: t in tlvs ==> t.full != full
    ensures StateOf(Counted(types, tlvs, closed, last), full) == StateOf(types, full)
  {
    hide HasLength, HasValue;
    if tlvs != [] {
      CountedOther(types, tlvs[..|tlvs| - 1], closed, last, full);
    }
  }

  lemma CountedStep(types: map<U16, TypeState>, tlvs: seq<AddrTlv>, n: nat, closed: bool, last: seq<AddrTlv>)
    requires n < |tlvs|
    ensures var before, t := Counted(types, tlvs[..n], closed, last), tlvs[n];
      Counted(types, tlvs[..n + 1], closed, last)
        == before[t.full := if closed || !HasLength(last, t) then TypeState(1, false)
                            else TypeState(StateOf(before, t.full).count + 1, StateOf(before, t.full).multi
                              || !HasValue(last, t))]
  {
    hide HasLength, HasValue;
    assert tlvs[..n + 1][..n] == tlvs[..n];
  }

  lemma OtherTypes(a: Address, n: nat)
    requires a.Valid() && n < |a.tlvs|
    ensures forall t :: t in a.tlvs[..n] ==> t.full != a.tlvs[n].full
  {
  }

  /** Feeding a TLV keeps the counters right. */
  lemma FeedCounts(s: Scan, block: seq<Address>, m: nat, n: nat, types: map<U16, TypeState>)
    requires Inv(s, block, m, n) && 0 < m < |block| && n < |block[m].tlvs| && forall a :: a in block ==> a.Valid()
    requires Counts(s.open, types)
    ensures var t, last := block[m].tlvs[n], block[m - 1].tlvs;
      var state := if !HasLength(last, t) then TypeState(1, false)
                   else TypeState(StateOf(types, t.full).count + 1, StateOf(types, t.full).multi || !HasValue(last, t));
      Counts(Feed(s, m, t).open, types[t.full := state])
  {
    hide Inv, HasLength, HasValue, ActiveAt, AllSame, True;
    var t := block[m].tlvs[n];
    var k := ActiveAt(s.open, t.full);
    ExtendsExact(s, block, m, n);
    ActiveFull(s.open, t.full);
    OneSame(t.value);
    OthersOpen(s, block, m, n);
    if k < |s.open| {
      var run := s.open[k];
      assert run in s.open;
      OpenRun(s, block, m, n, k);
      if run.End() == m && |run.values[|run.values| - 1]| == |t.value| {
        SameStill(block, m, run, t);
      }
    }
  }

  /** Only one current run has the type of a TLV. */
  lemma OthersOpen(s: Scan, block: seq<Address>, m: nat, n: nat)
    requires Inv(s, block, m, n) && m < |block| && n < |block[m].tlvs|
    ensures var full := block[m].tlvs[n].full;
      forall i :: 0 <= i < |s.open| && i != ActiveAt(s.open, full) ==> s.open[i].full != full
  {
    hide ActiveAt, True, Covered, Follows, AllActive;
    var full := block[m].tlvs[n].full;
    ActiveFull(s.open, full);
    NoneActive(s.open, full);
    forall i | 0 <= i < |s.open| && i != ActiveAt(s.open, full) ensures s.open[i].full != full {
      if ActiveAt(s.open, full) < |s.open| {
        DistinctAt(s.open, i, ActiveAt(s.open, full));
      }
    }
  }

  lemma NoneActive(open: seq<Run>, full: U16)
    ensures ActiveAt(open, full) == |open| ==> forall i :: 0 <= i < |open| ==> open[i].full != full
  {
  }

  /** The TLVs of an address that continues a block, from TLV n on. */
  lemma {:induction false} AddressCharge(s: Scan, block: seq<Address>, m: nat, n: nat, types: map<U16, TypeState>)
    requires 0 < m < |block| && n <= |block[m].tlvs| && Inv(s, block, m, n) && forall a :: a in block ==> a.Valid()
    requires Counts(s.open, Counted(types, block[m].tlvs[..n], false, block[m - 1].tlvs))
    ensures var tlvs, last := block[m].tlvs, block[m - 1].tlvs;
      && RunsCharge(FeedAddress(s, m, tlvs, n).All()) + ContinueTlvs(tlvs[..n], false, last, types)
         == RunsCharge(s.All()) + ContinueTlvs(tlvs, false, last, types)
      && Counts(FeedAddress(s, m, tlvs, n).open, Counted(types, tlvs, false, last))
    decreases |block[m].tlvs| - n
  {
    hide Inv, RunsCharge, ContinueTlv, HasLength, HasValue, Counts, Feed, Scan.All;
    var tlvs, last := block[m].tlvs, block[m - 1].tlvs;
    if n == |tlvs| {
      assert tlvs[..n] == tlvs;
    } else {
      var before := Counted(types, tlvs[..n], false, last);
      assert block[m] in block;
      OtherTypes(block[m], n);
      CountedOther(types, tlvs[..n], false, last, tlvs[n].full);
      CountedStep(types, tlvs, n, false, last);
      SameState(s.open, before, types, tlvs[n].full);
      FeedCharge(s, block, m, n, types);
      FeedCounts(s, block, m, n, before);
      FeedInv(s, block, m, n);
      assert tlvs[..n + 1][..n] == tlvs[..n];
      AddressCharge(Feed(s, m, tlvs[n]), block, m, n + 1, types);
    }
  }

  lemma SameState(open: seq<Run>, before: map<U16, TypeState>, types: map<U16, TypeState>, full: U16)
    requires Counts(open, before) && StateOf(before, full) == StateOf(types, full)
    ensures var k := ActiveAt(open, full);
      k < |open| ==> StateOf(types, open[k].full) == TypeState(|open[k].values|, !AllSame(open[k].values))
  {
    hide ActiveAt, AllSame;
    ActiveFull(open, full);
  }

  lemma {:induction false} ScanInv(addrs: seq<Address>, p: nat, k: nat, e: nat)
    requires p <= k <= e <= |addrs| <= 255 && forall a :: a in addrs ==> a.Valid()
    ensures Inv(ScanTo(addrs, p, k), addrs[p..e], k - p, 0)
    decreases k
  {
    hide Inv, FeedAddress;
    if k == p {
      StartInv(addrs[p..e]);
    } else {
      ScanInv(addrs, p, k - 1, e);
      var block := addrs[p..e];
      assert block[k - 1 - p] == addrs[k - 1] && addrs[k - 1] in addrs;
      FeedAddressInv(ScanTo(addrs, p, k - 1), block, k - 1 - p, 0);
    }
  }

  /** The TLVs of address k in a block that began before. */
  lemma GoesOn(addrs: seq<Address>, p: nat, k: nat, types: map<U16, TypeState>)
    requires p < k < |addrs| <= 255 && forall a :: a in addrs ==> a.Valid()
    requires Counts(ScanTo(addrs, p, k).open, types)
    ensures RunsCharge(ScanTo(addrs, p, k + 1).All())
      == RunsCharge(ScanTo(addrs, p, k).All()) + ContinueTlvs(addrs[k].tlvs, false, addrs[k - 1].tlvs, types)
    ensures Counts(ScanTo(addrs, p, k + 1).open, Counted(types, addrs[k].tlvs, false, addrs[k - 1].tlvs))
  {
    hide Inv, RunsCharge, ContinueTlv, Counts, FeedAddress, Scan.All;
    var block, m := addrs[p..k + 1], k - p;
    ScanInv(addrs, p, k, k + 1);
    assert block[m] == addrs[k] && block[m - 1] == addrs[k - 1] && addrs[k].tlvs[..0] == [];
    assert Counted(types, [], false, addrs[k - 1].tlvs) == types;
    assert ContinueTlvs([], false, addrs[k - 1].tlvs, types) == 0;
    AddressCharge(ScanTo(addrs, p, k), block, m, 0, types);
  }

  lemma {:induction false} SinglesCharge(tlvs: seq<AddrTlv>)
    ensures RunsCharge(Singles(tlvs)) == NewTlvs(tlvs)
  {
    hide RunCharge, TlvCost;
    if tlvs != [] {
      var n := |tlvs| - 1;
      SinglesCharge(tlvs[..n]);
      assert Singles(tlvs)[..n] == Singles(tlvs[..n]);
      NewRunCharge(tlvs[n].full, 0, tlvs[n].value);
      assert AddrTlv(tlvs[n].full, tlvs[n].value) == tlvs[n];
    }
  }

  lemma {:induction false} CountedNew(types: map<U16, TypeState>, tlvs: seq<AddrTlv>, last: seq<AddrTlv>, t: AddrTlv)
    requires t in tlvs
    ensures StateOf(Counted(types, tlvs, true, last), t.full) == TypeState(1, false)
  {
    hide HasLength, HasValue;
    var n := |tlvs| - 1;
    if t.full != tlvs[n].full {
      assert t in tlvs[..n];
      CountedNew(types, tlvs[..n], last, t);
    }
  }

  /** The TLVs of address k in a block that it begins. */
  lemma Begins(addrs: seq<Address>, k: nat, types: map<U16, TypeState>, last: seq<AddrTlv>)
    requires k < |addrs| && addrs[k].Valid()
    ensures RunsCharge(ScanTo(addrs, k, k + 1).All()) == NewTlvs(addrs[k].tlvs)
    ensures Counts(ScanTo(addrs, k, k + 1).open, Counted(types, addrs[k].tlvs, true, last))
  {
    hide RunsCharge, NewTlvs, Counted, Feed, Counts, ScanTo;
    ScanBegins(addrs, k);
    SinglesCharge(addrs[k].tlvs);
    SinglesCount(types, addrs[k].tlvs, last);
  }

  lemma ScanBegins(addrs: seq<Address>, k: nat)
    requires k < |addrs| && addrs[k].Valid()
    ensures var s := ScanTo(addrs, k, k + 1); s == Scan([], Singles(addrs[k].tlvs)) && s.All() == Singles(addrs[k].tlvs)
  {
    hide Feed;
    var tlvs := addrs[k].tlvs;
    FeedSingles(tlvs, 0);
    assert Singles(tlvs[..0]) == [];
    assert ScanTo(addrs, k, k) == Scan([], []);
  }

  lemma SinglesCount(types: map<U16, TypeState>, tlvs: seq<AddrTlv>, last: seq<AddrTlv>)
    ensures Counts(Singles(tlvs), Counted(types, tlvs, true, last))
  {
    hide Counted;
    forall r | r in Singles(tlvs)
      ensures StateOf(Counted(types, tlvs, true, last), r.full) == TypeState(|r.values|, !AllSame(r.values))
    {
      var i :| 0 <= i < |tlvs| && Singles(tlvs)[i] == r;
      CountedNew(types, tlvs, last, tlvs[i]);
    }
  }

  // ---------- Strategies ----------

  lemma {:induction false} AfterFits(addrs: seq<Address>, len: nat, k: nat)
    requires Input(addrs, len) && 0 < k <= |addrs|
    ensures len <= MAX_ADDRLEN && forall i :: 0 <= i < len ==> Fits(After(addrs, len, k).acs[i], addrs, k, i)
  {
    hide Input, Fits, MetAll, CountedAll, Closing, HeadBefore, CommonFrom;
    InputLen(addrs, len);
    HeadShort(addrs, len, k - 1);
    var s := After(addrs, len, k - 1);
    var h, same := HeadBefore(addrs, k - 1), SameBefore(addrs, k - 1, s.same);
    var acs := if k == 1 then s.acs else Closing(s.acs, len, h);
    if k > 1 {
      AfterFits(addrs, len, k - 1);
      OnlyTotals(s.acs, len, h);
      forall i | 0 <= i < len ensures Fits(acs[i], addrs, k - 1, i) {
        SameFits(s.acs[i], acs[i], addrs, k - 1, i);
      }
    }
    AllFit(acs, MetAll(acs, s.types, addrs, k - 1, len, h, same), s.types, addrs, k - 1, len, h, same);
    PaidFits(Meet(s, addrs, k - 1, len).acs, addrs, len, k);
  }

  /** The block of every address that may be the last of a block. */
  ghost function Marks(addrs: seq<Address>, len: nat): (m: seq<Mark>)
    requires Input(addrs, len)
    ensures |m| == |addrs|
  {
    seq(|addrs|, j requires 0 <= j < |addrs| => MarkAt(addrs, len, j, -1))
  }

  lemma MarkFits(addrs: seq<Address>, len: nat, j: nat)
    requires Input(addrs, len) && j < |addrs|
    ensures var m := MarkAt(addrs, len, j, -1);
      0 <= m.start <= j && m.head < len && m.start == After(addrs, len, j + 1).acs[m.head].ptr
  {
    hide Input, After, Best;
    AfterFits(addrs, len, j + 1);
    BestWithin(After(addrs, len, j + 1).acs, HeadAt(addrs, len, j + 1), len);
  }

  lemma BestWithin(acs: seq<Strategy>, i: nat, j: nat)
    requires i < j <= |acs|
    ensures i <= Best(acs, i, j) < j
  {
  }

  lemma MarksBack(addrs: seq<Address>, len: nat)
    requires Input(addrs, len)
    ensures Backward(Marks(addrs, len), |addrs|) && forall j :: 0 <= j < |addrs| ==> Marks(addrs, len)[j].head < len
  {
    hide Input, MarkAt;
    forall j | 0 <= j < |addrs|
      ensures 0 <= MarkAt(addrs, len, j, -1).start <= j && MarkAt(addrs, len, j, -1).head < len
    {
      MarkFits(addrs, len, j);
    }
  }

  /** What the session counts for the addresses from p to k - 1 in one block with a head of i bytes. */
  function Charge(addrs: seq<Address>, len: nat, i: nat, p: nat, k: nat): (c: nat)
    requires p < k <= |addrs| && i <= len
  {
    hide RunsCharge, ScanTo;
    MulMono(0, k - p - 1, len - i);
    4 + (if i > 0 then 1 else 0) + (if addrs[p].plen != len * 8 then 1 else 0) + len + (k - p - 1) * (len - i)
    + RunsCharge(ScanTo(addrs, p, k).All())
  }

  /** What the session counts for the blocks of the first n addresses. */
  function Chain(marks: seq<Mark>, addrs: seq<Address>, len: nat, n: nat): (c: nat)
    requires Backward(marks, n) && n <= |addrs| && forall j :: 0 <= j < n ==> marks[j].head < len
  {
    if n == 0 then 0 else
    var m := marks[n - 1];
    Chain(marks, addrs, len, m.start) + Charge(addrs, len, m.head, m.start, n)
  }

  /** What the session counts for the blocks that it chooses for the first n addresses. */
  ghost function Spent(addrs: seq<Address>, len: nat, n: nat): (c: nat)
    requires Input(addrs, len) && n <= |addrs|
  {
    hide Input, Marks;
    MarksBack(addrs, len);
    Chain(Marks(addrs, len), addrs, len, n)
  }

  lemma ChainStep(marks: seq<Mark>, addrs: seq<Address>, len: nat, n: nat)
    requires 0 < n <= |addrs| && Backward(marks, n) && forall j :: 0 <= j < n ==> marks[j].head < len
    ensures var m := marks[n - 1];
      0 <= m.start < n
        && Chain(marks, addrs, len, n) == Chain(marks, addrs, len, m.start) + Charge(addrs, len, m.head, m.start, n)
  {
    hide Charge;
  }

  lemma SpentStep(addrs: seq<Address>, len: nat, n: nat)
    requires Input(addrs, len) && 0 < n <= |addrs|
    ensures var m := MarkAt(addrs, len, n - 1, -1);
      0 <= m.start < n && m.head < len
        && Spent(addrs, len, n) == Spent(addrs, len, m.start) + Charge(addrs, len, m.head, m.start, n)
  {
    hide Input, MarkAt, Charge, Chain, After;
    MarksBack(addrs, len);
    MarkFits(addrs, len, n - 1);
    ChainStep(Marks(addrs, len), addrs, len, n);
  }

  /** A strategy has counted at least the blocks before its own and its own block. */
  ghost predicate Pays(s: Strategy, types: map<U16, TypeState>, addrs: seq<Address>, len: nat, k: nat, i: nat)
    requires Input(addrs, len) && 0 < k <= |addrs| && i < len
  {
    && !s.multiplen && s.ptr < k
    && Counts(ScanTo(addrs, s.ptr, k).open, types)
    && s.total >= Spent(addrs, len, s.ptr) + Charge(addrs, len, i, s.ptr, k)
  }

  lemma ChargeGoesOn(addrs: seq<Address>, len: nat, i: nat, p: nat, k: nat, types: map<U16, TypeState>)
    requires p < k < |addrs| <= 255 && i <= len && forall a :: a in addrs ==> a.Valid()
    requires Counts(ScanTo(addrs, p, k).open, types)
    ensures Charge(addrs, len, i, p, k + 1)
      == Charge(addrs, len, i, p, k) + (len - i) + ContinueTlvs(addrs[k].tlvs, false, addrs[k - 1].tlvs, types)
  {
    hide RunsCharge, ScanTo, Counts, ContinueTlvs;
    GoesOn(addrs, p, k, types);
    MoreValues(k - p - 1, len - i);
  }

  lemma ChargeBegins(addrs: seq<Address>, len: nat, i: nat, k: nat)
    requires k < |addrs| && i <= len && addrs[k].Valid()
    ensures Charge(addrs, len, i, k, k + 1) == NewCost(addrs[k], len, i)
  {
    hide RunsCharge, ScanTo, Counts, NewTlvs;
    Begins(addrs, k, map[], []);
  }

  /** When a block is closed, the total of the chosen strategy covers all blocks so far. */
  lemma ClosedPays(addrs: seq<Address>, len: nat, k: nat)
    requires Input(addrs, len) && 0 < k <= |addrs|
    requires var s := After(addrs, len, k);
      len <= MAX_ADDRLEN && forall i :: 0 <= i < len ==> Pays(s.acs[i], s.types[i], addrs, len, k, i)
    ensures var acs := After(addrs, len, k).acs;
      Spent(addrs, len, k) <= acs[Best(acs, HeadAt(addrs, len, k), len)].total
  {
    hide Input, After, Best, Charge, Counts, HeadAt, Spent;
    SpentStep(addrs, len, k);
    MarkFits(addrs, len, k - 1);
  }

  /** A strategy that goes on or begins a block with address k. */
  lemma AdvancePays(s: Strategy, base: int, types: map<U16, TypeState>, addrs: seq<Address>, len: nat, k: nat, i: nat,
                    h: nat, same: nat)
    requires Input(addrs, len) && 0 < k < |addrs| && i < len && same > 1 && forall a :: a in addrs ==> a.Valid()
    requires h < i || Pays(s, types, addrs, len, k, i)
    requires !s.multiplen && base >= Spent(addrs, len, k)
    ensures var r := Advanced(s, base, addrs, k, len, i, h, same, types);
      Pays(r.(total := r.total + r.current), Counted(types, addrs[k].tlvs, r.closed, addrs[k - 1].tlvs), addrs, len,
        k + 1, i)
  {
    hide Input, Spent, Charge, Counts, NewCost, ContinueTlvs, Counted, ScanTo;
    InputLen(addrs, len);
    assert addrs[k] in addrs;
    ChargeBegins(addrs, len, i, k);
    Begins(addrs, k, types, addrs[k - 1].tlvs);
    if i <= h {
      ChargeGoesOn(addrs, len, i, s.ptr, k, types);
      GoesOn(addrs, s.ptr, k, types);
    }
  }

  /** The session behind address k, strategy by strategy. */
  lemma AfterStep(addrs: seq<Address>, len: nat, k: nat, i: nat)
    requires Input(addrs, len) && k < |addrs| && i < len
    ensures len <= MAX_ADDRLEN
    ensures var s, h := After(addrs, len, k), HeadAt(addrs, len, k);
      var acs := if k == 0 then s.acs else Closing(s.acs, len, h);
      var same := SameBefore(addrs, k, s.same);
      var r := Advanced(acs[i], acs[len - 1].total, addrs, k, len, i, h, same, s.types[i]);
      var t := After(addrs, len, k + 1);
      && t.acs[i] == r.(total := r.total + r.current)
      && t.types[i] == Counted(s.types[i], addrs[k].tlvs, k == 0 || r.closed, LastTlvs(addrs, k))
      && t.same == same
  {
    hide Input, Advanced, Counted, Closing, CommonFrom;
    InputLen(addrs, len);
  }

  lemma FirstPays(addrs: seq<Address>, len: nat, i: nat)
    requires Input(addrs, len) && 0 < |addrs| && i < len
    ensures len <= MAX_ADDRLEN
    ensures Pays(After(addrs, len, 1).acs[i], After(addrs, len, 1).types[i], addrs, len, 1, i)
  {
    hide Input, After, Counted, Charge, NewCost, ContinueTlvs, Counts, ScanTo, Spent, HeadAt;
    InputLen(addrs, len);
    AddressValid(addrs, len, 0);
    AfterNone(addrs, len);
    AfterStep(addrs, len, 0, i);
    ChargeBegins(addrs, len, i, 0);
    Begins(addrs, 0, map[], []);
  }

  lemma AfterNone(addrs: seq<Address>, len: nat)
    requires Input(addrs, len)
    ensures After(addrs, len, 0) == Begin() && Spent(addrs, len, 0) == 0
  {
    hide Input, Marks;
    MarksBack(addrs, len);
  }

  lemma AddressValid(addrs: seq<Address>, len: nat, k: nat)
    requires Input(addrs, len) && k < |addrs|
    ensures addrs[k].Valid() && forall a :: a in addrs ==> a.Valid()
  {
    hide Address.Valid;
    assert addrs[k] in addrs;
  }

  lemma NextPays(addrs: seq<Address>, len: nat, k: nat, i: nat)
    requires Input(addrs, len) && OnePrefixLength(addrs) && 0 < k < |addrs| && i < len
    requires After(addrs, len, k).same >= 1
    requires forall j :: 0 <= j < len <= MAX_ADDRLEN ==>
      Pays(After(addrs, len, k).acs[j], After(addrs, len, k).types[j], addrs, len, k, j)
    ensures len <= MAX_ADDRLEN
    ensures Pays(After(addrs, len, k + 1).acs[i], After(addrs, len, k + 1).types[i], addrs, len, k + 1, i)
  {
    hide Input, After, Advanced, Counted, Charge, Counts, ScanTo, Spent, Best, HeadAt, Address.Valid;
    InputLen(addrs, len);
    AddressValid(addrs, len, k);
    AfterStep(addrs, len, k, i);
    ClosedPays(addrs, len, k);
    var s, h := After(addrs, len, k), HeadAt(addrs, len, k);
    var acs := Closing(s.acs, len, h);
    assert addrs[k - 1] in addrs && addrs[k] in addrs;
    BestLast(s.acs, len, h);
    AdvancePays(acs[i], acs[len - 1].total, s.types[i], addrs, len, k, i, h, SameBefore(addrs, k, s.same));
  }

  /** Behind a closed block the strategy with the longest head has the least total of those that were compared. */
  lemma BestLast(acs: seq<Strategy>, len: nat, h: nat)
    requires h < len <= |acs|
    ensures Closing(acs, len, h)[len - 1].total == acs[Best(acs, h, len)].total
    ensures forall i :: 0 <= i <= h ==> Closing(acs, len, h)[i] == acs[i]
    ensures forall i :: 0 <= i < len ==> Closing(acs, len, h)[i].multiplen == acs[i].multiplen
  {
  }

  lemma {:induction false} SessionPays(addrs: seq<Address>, len: nat, k: nat)
    requires Input(addrs, len) && OnePrefixLength(addrs) && 0 < k <= |addrs|
    ensures After(addrs, len, k).same >= 1 && len <= MAX_ADDRLEN
    ensures forall i :: 0 <= i < len ==>
      Pays(After(addrs, len, k).acs[i], After(addrs, len, k).types[i], addrs, len, k, i)
  {
    hide Input, After, Pays, Advanced, Counted, Closing;
    InputLen(addrs, len);
    AfterStep(addrs, len, k - 1, 0);
    if k == 1 {
      AfterNone(addrs, len);
      forall i | 0 <= i < len
        ensures Pays(After(addrs, len, k).acs[i], After(addrs, len, k).types[i], addrs, len, k, i)
      {
        FirstPays(addrs, len, i);
      }
    } else {
      SessionPays(addrs, len, k - 1);
      forall i | 0 <= i < len
        ensures Pays(After(addrs, len, k).acs[i], After(addrs, len, k).types[i], addrs, len, k, i)
      {
        NextPays(addrs, len, k - 1, i);
      }
    }
  }

  /** If the session finds room for all addresses, that room covers all that it counts for the blocks that it
   *  chooses. */
  lemma SpentFits(addrs: seq<Address>, len: nat, room: int)
    requires Input(addrs, len) && OnePrefixLength(addrs) && addrs != [] && StopsAt(addrs, len, room, |addrs|)
    ensures Spent(addrs, len, |addrs|) <= room
  {
    hide Input, After, Pays, Spent, Meet;
    var n := |addrs|;
    InputLen(addrs, len);
    SessionPays(addrs, len, n);
    ClosedPays(addrs, len, n);
    assert RoomFor(addrs, len, n - 1, room);
    var i :| 0 <= i < len <= MAX_ADDRLEN
      && Affordable(Meet(After(addrs, len, n - 1), addrs, n - 1, len).acs[i], n - 1, room);
    PaidAt(addrs, len, n, i);
  }

  lemma PaidAt(addrs: seq<Address>, len: nat, n: nat, i: nat)
    requires Input(addrs, len) && 0 < n <= |addrs| && i < len <= MAX_ADDRLEN
    ensures var r := Meet(After(addrs, len, n - 1), addrs, n - 1, len).acs[i];
      After(addrs, len, n).acs[i].total == r.total + r.current
  {
    hide Input, Meet;
  }

  // ---------- The bytes of the chosen blocks ----------

  lemma {:induction false} ScanIs(addrs: seq<Address>, p: nat, j: nat, k: nat)
    requires p <= j <= k <= |addrs|
    ensures FeedBlock(ScanTo(addrs, p, j), addrs[p..k], j - p) == FeedBlock(Scan([], []), addrs[p..k], 0)
    decreases j
  {
    hide FeedAddress;
    if j > p {
      ScanIs(addrs, p, j - 1, k);
      assert addrs[p..k][j - 1 - p] == addrs[j - 1];
    }
  }

  lemma ScanAll(addrs: seq<Address>, p: nat, k: nat)
    requires p <= k <= |addrs|
    ensures RunsOf(addrs[p..k]) == ScanTo(addrs, p, k).All()
  {
    hide FeedAddress, ScanTo;
    ScanIs(addrs, p, k, k);
  }

  /** A run takes no more bytes than the session counts. */
  lemma RunPays(r: Run, block: seq<Address>, n: nat)
    requires True(r, block) && |block| <= n
    requires forall a, t :: a in block && t in a.tlvs ==> |t.value| > 255 || |t.value| * n <= 255
    ensures |TlvBytes(RunTlv(r, |block|))| <= RunCharge(r)
  {
    hide TlvBytes, Joined, RunIndex, True, AllSame, RunCharge;
    TrueAt(r, block);
    TlvAtMost(RunTlv(r, |block|));
    if AllSame(r.values) {
      SameCharge(r, RunTlv(r, |block|));
    } else {
      JoinedLength(r.values, |r.values[0]|);
      MulMono(|r.values|, n, |r.values[0]|);
      MoreValues(n, |r.values[0]|);
      OtherCharge(r, RunTlv(r, |block|));
    }
  }

  lemma SameCharge(r: Run, t: Tlv)
    requires r.values != [] && AllSame(r.values) && t.full == r.full && t.value == r.values[0]
    requires |TlvBytes(t)| <= 4 + (if t.full % 256 > 0 then 1 else 0) + (if |t.value| == 0 then 0 else 2) + |t.value|
    requires |t.value| <= 255 ==>
      |TlvBytes(t)| <= 4 + (if t.full % 256 > 0 then 1 else 0) + (if |t.value| == 0 then 0 else 1) + |t.value|
    ensures |TlvBytes(t)| <= RunCharge(r)
  {
    hide TlvBytes, AllSame;
  }

  lemma OtherCharge(r: Run, t: Tlv)
    requires r.values != [] && !AllSame(r.values) && t.full == r.full && |t.value| == |r.values| * |r.values[0]|
    requires |r.values[0]| > 255 || |t.value| <= 255
    requires |TlvBytes(t)| <= 4 + (if t.full % 256 > 0 then 1 else 0) + (if |t.value| == 0 then 0 else 2) + |t.value|
    requires |t.value| <= 255 ==>
      |TlvBytes(t)| <= 4 + (if t.full % 256 > 0 then 1 else 0) + (if |t.value| == 0 then 0 else 1) + |t.value|
    ensures |TlvBytes(t)| <= RunCharge(r)
  {
    hide TlvBytes, AllSame;
  }

  lemma TrueAt(r: Run, block: seq<Address>)
    requires True(r, block)
    ensures Inside(r, |block|) && |r.values| <= |block|
    ensures block[r.first] in block && AddrTlv(r.full, r.values[0]) in block[r.first].tlvs
  {
  }

  lemma {:induction false} RunsPay(runs: seq<Run>, block: seq<Address>, n: nat)
    requires (forall r :: r in runs ==> True(r, block)) && |block| <= n
    requires forall a, t :: a in block && t in a.tlvs ==> |t.value| > 255 || |t.value| * n <= 255
    ensures forall r :: r in runs ==> Inside(r, |block|)
    ensures |Written(runs, |block|)| <= RunsCharge(runs)
  {
    hide RunCharge, RunTlv, TlvBytes, Inside, True, TlvsBytes;
    forall r | r in runs ensures Inside(r, |block|) {
      TrueAt(r, block);
    }
    if runs != [] {
      var k := |runs| - 1;
      RunsPay(runs[..k], block, n);
      WrittenMore(runs[..k], runs[k], |block|);
      RunPays(runs[k], block, n);
      assert runs == runs[..k] + [runs[k]];
    } else {
      TlvsNone();
      assert RunTlvs(runs, |block|) == [];
    }
  }

  lemma TlvsPay(addrs: seq<Address>, p: nat, k: nat)
    requires p < k <= |addrs| <= 255 && ShortValues(addrs) && forall a :: a in addrs ==> a.Valid()
    ensures |BlockTlvs(addrs[p..k])| <= RunsCharge(ScanTo(addrs, p, k).All())
  {
    hide RunsCharge, ScanTo, Chained, Inv, Inside, True, RunsOf, Address.Valid;
    var block := addrs[p..k];
    assert forall a :: a in block ==> a in addrs;
    ScanAll(addrs, p, k);
    RunsFaithful(block);
    RunsPay(RunsOf(block), block, |addrs|);
    BlockTlvsIs(block);
    RunsAre(block);
  }

  lemma RunsAre(block: seq<Address>)
    ensures RunsOf(block) == FeedBlock(Scan([], []), block, 0).All()
  {
    hide FeedBlock;
  }

  lemma HeadTailPays(n: nat, len: nat, h: nat, t: nat)
    requires n >= 2 && h + t < len
    ensures h + (if t > 0 then 1 + t else 0) + n * (len - h - t) <= len + (n - 1) * (len - h)
  {
    var m := len - h - t;
    assert n * (len - h) == n * m + n * t;
    assert n * (len - h) == (n - 1) * (len - h) + (len - h);
    assert t > 0 ==> n * t >= 1 + t;
  }

  /** A block takes no more bytes than the session counts. */
  lemma BlockPays(addrs: seq<Address>, len: nat, head: nat, p: nat, k: nat)
    requires p < k <= |addrs| <= 255 && ShortValues(addrs) && forall a :: a in addrs ==> a.Valid()
    requires Compressed(addrs[p..k], len, head, false) && SameLength(addrs[p..k], len)
    ensures |AddrBlockBytes(addrs[p..k], len, head, false)| + 2 + |BlockTlvs(addrs[p..k])|
      <= Charge(addrs, len, head, p, k)
  {
    hide RunsCharge, ScanTo, BlockTlvs, AddrBlockBytes, Compressed, SameLength, Address.Valid;
    TlvsPay(addrs, p, k);
    BlockLengthPays(addrs[p..k], len, head);
  }

  lemma BlockLengthPays(block: seq<Address>, len: nat, head: nat)
    requires Compressed(block, len, head, false) && SameLength(block, len)
    ensures 1 <= |block| <= 255 && head < len <= MAX_ADDRLEN
    ensures |AddrBlockBytes(block, len, head, false)|
      <= 2 + (if head > 0 then 1 else 0) + (if block[0].plen != len * 8 then 1 else 0) + len
        + (|block| - 1) * (len - head)
  {
    hide AddrBlockBytes, Compressed, SameLength, TailLength;
    BlockLength(block, len, head, false);
    if |block| > 1 {
      HeadTailPays(|block|, len, HeadLength(block, head), TailLength(block, len, head));
    }
  }

  // ---------- The exact undercount ----------

  /** A merged value needs a length field of two bytes, which each single one does not. */
  function Longer(r: Run, n: nat): (c: nat)
    requires Inside(r, n)
  {
    if |RunTlv(r, n).value| > 255 && |r.values[0]| <= 255 then 1 else 0
  }

  function LongRuns(runs: seq<Run>, n: nat): (c: nat)
    requires forall r :: r in runs ==> Inside(r, n)
  {
    if runs == [] then 0 else LongRuns(runs[..|runs| - 1], n) + Longer(runs[|runs| - 1], n)
  }

  /** The session counts two index fields for every TLV. */
  function SpareIndices(runs: seq<Run>, n: nat): (c: nat)
    requires forall r :: r in runs ==> Inside(r, n)
  {
    if runs == [] then 0 else
    SpareIndices(runs[..|runs| - 1], n) + 2 - |IndexBytes(RunIndex(runs[|runs| - 1], n))|
  }

  /** What a tail saves, or the head that a block of one address does not have. */
  function SpareBytes(block: seq<Address>, len: nat, head: nat): (c: int)
    requires SameLength(block, len) && head < len <= MAX_ADDRLEN
  {
    var t := TailLength(block, len, head);
    if |block| == 1 then (if head > 0 then 1 else 0) else |block| * t - |TailBytes(block[0], t)|
  }

  lemma RunExact(r: Run, n: nat)
    requires Inside(r, n) && |RunTlv(r, n).value| < 0x1_0000
    ensures |TlvBytes(RunTlv(r, n))| + 2 - |IndexBytes(RunIndex(r, n))| == RunCharge(r) + Longer(r, n)
  {
    hide Joined, RunIndex, IndexBytes, TlvBytes, FlagsOf, AllSame;
    TlvPieces([], RunTlv(r, n));
    if !AllSame(r.values) {
      JoinedLength(r.values, |r.values[0]|);
      OtherExact(r, n);
    }
  }

  /** Values that differ are not empty. */
  lemma OtherExact(r: Run, n: nat)
    requires Inside(r, n) && !AllSame(r.values)
    ensures |r.values[0]| > 0 && |r.values| * |r.values[0]| >= |r.values[0]|
  {
    var v :| v in r.values && v != r.values[0];
    MulMono(1, |r.values|, |r.values[0]|);
  }

  lemma {:induction false} RunsExact(runs: seq<Run>, n: nat)
    requires forall r :: r in runs ==> Inside(r, n) && |RunTlv(r, n).value| < 0x1_0000
    ensures |Written(runs, n)| + SpareIndices(runs, n) == RunsCharge(runs) + LongRuns(runs, n)
  {
    hide RunCharge, RunTlv, TlvBytes, Inside, TlvsBytes, RunIndex, IndexBytes, Longer;
    if runs == [] {
      TlvsNone();
      assert RunTlvs(runs, n) == [];
    } else {
      var k := |runs| - 1;
      RunsExact(runs[..k], n);
      WrittenMore(runs[..k], runs[k], n);
      RunExact(runs[k], n);
      assert runs == runs[..k] + [runs[k]];
    }
  }

  /** The bytes of a block of addresses of one prefix length against what the session counts for it: the block is
   *  undercounted exactly if merging makes more length fields longer than it saves bytes. */
  lemma BlockExact(addrs: seq<Address>, len: nat, head: nat, p: nat, k: nat)
    requires p < k <= |addrs| <= 255 && forall a :: a in addrs ==> a.Valid()
    requires Compressed(addrs[p..k], len, head, false) && SameLength(addrs[p..k], len) && head < len <= MAX_ADDRLEN
    requires Writable(RunsOf(addrs[p..k]), k - p)
    ensures var block, runs := addrs[p..k], RunsOf(addrs[p..k]);
      && |AddrBlockBytes(block, len, head, false)| + 2 + |BlockTlvs(block)|
         + SpareBytes(block, len, head) + SpareIndices(runs, k - p)
         == Charge(addrs, len, head, p, k) + LongRuns(runs, k - p)
      && (|AddrBlockBytes(block, len, head, false)| + 2 + |BlockTlvs(block)| > Charge(addrs, len, head, p, k)
          <==> LongRuns(runs, k - p) > SpareBytes(block, len, head) + SpareIndices(runs, k - p))
  {
    hide RunsCharge, ScanTo, BlockTlvs, AddrBlockBytes, Compressed, SameLength, Address.Valid, RunsOf, RunTlv, Inside,
      SpareBytes, SpareIndices, LongRuns;
    var block := addrs[p..k];
    assert forall a :: a in block ==> a in addrs;
    ScanAll(addrs, p, k);
    BlockTlvsIs(block);
    RunsAre(block);
    RunsExact(RunsOf(block), |block|);
    SizeExact(block, len, head);
  }

  lemma SizeExact(block: seq<Address>, len: nat, head: nat)
    requires Compressed(block, len, head, false) && SameLength(block, len)
    ensures 1 <= |block| <= 255 && head < len <= MAX_ADDRLEN
    ensures |AddrBlockBytes(block, len, head, false)| + SpareBytes(block, len, head)
      == 2 + (if head > 0 then 1 else 0) + (if block[0].plen != len * 8 then 1 else 0) + len
        + (|block| - 1) * (len - head)
  {
    hide AddrBlockBytes, BlockFlags, TailLength, HeadBytes, TailBytes, Mids, PrefixBytes;
    BlockSize(block, len, head, false);
    var n, h, t := |block|, HeadLength(block, head), TailLength(block, len, head);
    HeadPrefix(block, len, h);
    if n > 1 {
      MidsExact(n, len, h, t);
    } else {
      SingleEnds(block, len, head);
    }
  }

  lemma HeadPrefix(block: seq<Address>, len: nat, h: nat)
    requires SameLength(block, len) && h < len <= MAX_ADDRLEN
    ensures |HeadBytes(block[0], h)| == if h > 0 then 1 + h else 0
    ensures |PrefixBytes(block, len, false)| == if block[0].plen != len * 8 then 1 else 0
  {
  }

  lemma SingleEnds(block: seq<Address>, len: nat, head: nat)
    requires SameLength(block, len) && |block| == 1 && head < len <= MAX_ADDRLEN
    ensures TailLength(block, len, head) == 0 && |TailBytes(block[0], 0)| == 0
  {
  }

  lemma MidsExact(n: nat, len: nat, h: nat, t: nat)
    requires n >= 2 && h + t < len
    ensures n * (len - h - t) + n * t == (len - h) + (n - 1) * (len - h)
  {
    assert n * (len - h) == n * (len - h - t) + n * t;
    assert n * (len - h) == (n - 1) * (len - h) + (len - h);
  }

  lemma NoMulti(addrs: seq<Address>, len: nat, n: nat)
    requires Input(addrs, len) && OnePrefixLength(addrs) && 0 < n <= |addrs|
    ensures !Marks(addrs, len)[n - 1].multi
  {
    hide Input, After, Counts, Spent, Charge, Best;
    InputLen(addrs, len);
    SessionPays(addrs, len, n);
    BestWithin(After(addrs, len, n).acs, HeadAt(addrs, len, n), len);
  }

  // ---------- Where the session underestimates ----------

  /** Two addresses with a prefix length of 24 bits and one with 16 bits. */
  function TwoPrefixLengths(): (addrs: seq<Address>) {
    [Address([10, 0, 0, 1], 24, []), Address([10, 0, 0, 2], 24, []), Address([10, 0, 0, 3], 16, [])]
  }

  lemma TwoPrefixInput()
    ensures Input(TwoPrefixLengths(), 4) && |TwoPrefixLengths()| == 3
    ensures forall k :: 0 <= k < 3 ==> HeadAt(TwoPrefixLengths(), 4, k) == (if k == 0 then 0 else 3)
    ensures HeadAt(TwoPrefixLengths(), 4, 3) == 0
  {
    var a := TwoPrefixLengths();
    assert a[0].bytes[3] != a[1].bytes[3] && a[1].bytes[3] != a[2].bytes[3];
    Common3(a[0].bytes, a[1].bytes);
    Common3(a[1].bytes, a[2].bytes);
  }

  lemma Common3(a: seq<Byte>, b: seq<Byte>)
    requires |a| == |b| == 4 && a[..3] == b[..3] && a[3] != b[3]
    ensures CommonFrom(a, b, 0) == 3
  {
    var h := CommonFrom(a, b, 0);
    forall j | 0 <= j < 3 ensures a[j] == b[j] {
      assert a[..3][j] == b[..3][j];
    }
  }

  /** The total of the strategy with a head of i bytes after k of these addresses. */
  function TotalOf(k: nat, i: nat): (r: int) {
    (if i > 0 then 1 else 0) + if k == 1 then 9 else if k == 2 then 13 - i else 16 - 2 * i
  }

  lemma {:induction false} TwoPrefixTotals(k: nat)
    requires 1 <= k <= 3
    ensures Input(TwoPrefixLengths(), 4) && |TwoPrefixLengths()| == 3
    ensures var s := After(TwoPrefixLengths(), 4, k);
      s.same == (if k == 2 then 2 else 1)
      && forall i :: 0 <= i < 4 ==>
        s.acs[i].ptr == 0 && s.acs[i].total == TotalOf(k, i) && s.acs[i].multiplen == (k == 3)
  {
    hide Input, After, Counted, Closing, HeadAt;
    TwoPrefixInput();
    var addrs := TwoPrefixLengths();
    AfterNone(addrs, 4);
    if k > 1 {
      TwoPrefixTotals(k - 1);
      BestLast(After(addrs, 4, k - 1).acs, 4, 3);
    }
    AfterStep(addrs, 4, k - 1, 0);
    forall i | 0 <= i < 4
      ensures var s := After(addrs, 4, k).acs[i]; s.ptr == 0 && s.total == TotalOf(k, i) && s.multiplen == (k == 3)
    {
      AfterStep(addrs, 4, k - 1, i);
    }
  }

  /** The session finds room in 11 bytes for all three, in one block with a head of three bytes. */
  lemma TwoPrefixStops()
    ensures Input(TwoPrefixLengths(), 4) && StopsAt(TwoPrefixLengths(), 4, 11, 3)
    ensures |Marks(TwoPrefixLengths(), 4)| == 3 && Marks(TwoPrefixLengths(), 4)[2] == Mark(0, -1, 3, true)
  {
    hide Input, After, Meet, Best, HeadAt;
    var addrs := TwoPrefixLengths();
    TwoPrefixInput();
    forall k | 0 <= k < 3 ensures RoomFor(addrs, 4, k, 11) {
      var i := if k == 0 then 0 else 3;
      TwoPrefixTotals(k + 1);
      PaidAt(addrs, 4, k + 1, i);
      assert Affordable(Meet(After(addrs, 4, k), addrs, k, 4).acs[i], k, 11);
    }
    TwoPrefixTotals(3);
    BestIs(After(addrs, 4, 3).acs);
  }

  lemma BestIs(acs: seq<Strategy>)
    requires |acs| == MAX_ADDRLEN && forall i :: 0 <= i < 4 ==> acs[i].total == TotalOf(3, i)
    ensures Best(acs, 0, 4) == 3
  {
    BestWithin(acs, 0, 4);
    assert acs[3].total == 11 && acs[0].total == 16 && acs[1].total == 15 && acs[2].total == 13;
    hide Best;
    var b := Best(acs, 0, 4);
    assert acs[b].total <= acs[3].total;
  }

  // ---------- Where long values are undercounted ----------

  function Hundred(x: Byte): (v: Value)
    ensures |v| == 100 && v[0] == x
  {
    seq(100, _ => x)
  }

  function TlvOf(x: Byte): (t: AddrTlv) {
    AddrTlv(0x0500, Hundred(x))
  }

  /** An address without TLV and three with different values of 100 bytes. */
  function ThreeValues(): (addrs: seq<Address>)
    ensures |addrs| == 4
  {
    [Address([10, 0, 0, 1], 32, []), Address([10, 0, 0, 2], 32, [TlvOf(1)]), Address([10, 0, 0, 3], 32, [TlvOf(2)]),
     Address([10, 0, 0, 5], 32, [TlvOf(3)])]
  }

  lemma ThreeInput()
    ensures Input(ThreeValues(), 4)
    ensures forall k :: 0 <= k <= 4 ==> HeadAt(ThreeValues(), 4, k) == (if 0 < k < 4 then 3 else 0)
  {
    hide Hundred;
    var a := ThreeValues();
    assert a[0].bytes[3] != a[1].bytes[3] && a[1].bytes[3] != a[2].bytes[3] && a[2].bytes[3] != a[3].bytes[3];
    Common3(a[0].bytes, a[1].bytes);
    Common3(a[1].bytes, a[2].bytes);
    Common3(a[2].bytes, a[3].bytes);
  }

  /** What a TLV of these costs, alone and behind another. */
  lemma OneTlvCosts(x: Byte, last: seq<AddrTlv>, types: map<U16, TypeState>)
    ensures NewTlvs([]) == 0 && NewTlvs([TlvOf(x)]) == 105
    ensures ContinueTlvs([TlvOf(x)], false, last, types) == ContinueTlv(TlvOf(x), false, last, types)
    ensures !HasLength([], TlvOf(x))
    ensures forall y: Byte :: HasLength([TlvOf(y)], TlvOf(x)) && (HasValue([TlvOf(y)], TlvOf(x)) <==> x == y)
  {
    hide Hundred;
    assert [TlvOf(x)][..0] == [];
    forall y: Byte ensures HasLength([TlvOf(y)], TlvOf(x)) && (HasValue([TlvOf(y)], TlvOf(x)) <==> x == y) {
      assert TlvOf(y) in [TlvOf(y)];
    }
  }

  function SpentOn(k: nat, i: nat): (r: int) {
    (if i > 0 then 1 else 0) + if k == 1 then 8
      else if k == 2 then 117 - i else if k == 3 then 221 - 2 * i else 325 - 3 * i
  }

  ghost predicate ThreeAt(s: Session, k: nat, i: nat)
    requires Whole(s) && i < 4
  {
    && s.same == k && s.acs[i].ptr == 0 && s.acs[i].total == SpentOn(k, i) && !s.acs[i].multiplen
    && StateOf(s.types[i], 0x0500) == TypeState(if k > 0 then k - 1 else 0, k > 2)
  }

  ghost predicate ThreeState(s: Session, k: nat) {
    Whole(s) && forall i :: 0 <= i < 4 ==> ThreeAt(s, k, i)
  }

  /** A strategy that shares its head and is cheap enough goes on. */
  lemma GoesOnIs(s: Strategy, base: int, addrs: seq<Address>, k: nat, len: nat, i: nat, h: nat, same: nat,
                 types: map<U16, TypeState>)
    requires 0 < k < |addrs| && i <= h && i <= len && same > 1 && !s.multiplen
    requires var c := ContinueTlvs(addrs[k].tlvs, false, addrs[k - 1].tlvs, types);
      s.total + (len - i) + c <= base + NewCost(addrs[k], len, i)
    ensures var c := ContinueTlvs(addrs[k].tlvs, false, addrs[k - 1].tlvs, types);
      Advanced(s, base, addrs, k, len, i, h, same, types) == Strategy(s.ptr, s.total, len - i + c, false, false)
  {
    hide ContinueTlvs, NewCost;
  }

  lemma ThreeFirst(i: nat)
    requires i < 4
    ensures Input(ThreeValues(), 4)
    ensures ThreeAt(After(ThreeValues(), 4, 1), 1, i)
  {
    hide Input, After, HeadAt, Hundred, ContinueTlvs;
    ThreeInput();
    AfterNone(ThreeValues(), 4);
    AfterStep(ThreeValues(), 4, 0, i);
    OneTlvCosts(0, [], map[]);
    OneCounted(map[], 0, []);
  }

  lemma ThreeNext(k: nat, i: nat)
    requires 1 <= k < 4 && i < 4 && Input(ThreeValues(), 4) && ThreeState(After(ThreeValues(), 4, k), k)
    ensures ThreeAt(After(ThreeValues(), 4, k + 1), k + 1, i)
  {
    hide Input, After, HeadAt, Hundred, ContinueTlvs, NewTlvs, Closing, Advanced, Counted, HasLength, HasValue;
    ThreeInput();
    var addrs, s := ThreeValues(), After(ThreeValues(), 4, k);
    var x, last, types := if k == 1 then 1 else if k == 2 then 2 else 3, addrs[k - 1].tlvs, s.types[i];
    assert addrs[k].tlvs == [TlvOf(x)] && last == if k == 1 then [] else [TlvOf(x - 1)];
    assert ThreeAt(s, k, i) && ThreeAt(s, k, 3);
    BestLast(s.acs, 4, 3);
    OneTlvCosts(x, last, types);
    OneCounted(types, x, last);
    AfterStep(addrs, 4, k, i);
    GoesOnIs(Closing(s.acs, 4, 3)[i], Closing(s.acs, 4, 3)[3].total, addrs, k, 4, i, 3, k + 1, types);
  }

  lemma {:induction false} ThreeTotals(k: nat)
    requires 1 <= k <= 4
    ensures Input(ThreeValues(), 4) && ThreeState(After(ThreeValues(), 4, k), k)
  {
    hide Input, After, HeadAt, ThreeAt, ThreeValues;
    ThreeInput();
    if k > 1 {
      ThreeTotals(k - 1);
    }
    forall i | 0 <= i < 4 ensures ThreeAt(After(ThreeValues(), 4, k), k, i) {
      if k == 1 {
        ThreeFirst(i);
      } else {
        ThreeNext(k - 1, i);
      }
    }
  }

  lemma OneCounted(types: map<U16, TypeState>, x: Byte, last: seq<AddrTlv>)
    ensures Counted(types, [], false, last) == types && Counted(types, [], true, last) == types
    ensures StateOf(Counted(types, [TlvOf(x)], false, last), 0x0500) ==
      if !HasLength(last, TlvOf(x)) then TypeState(1, false)
      else TypeState(StateOf(types, 0x0500).count + 1, StateOf(types, 0x0500).multi || !HasValue(last, TlvOf(x)))
  {
    hide HasLength, HasValue, Hundred;
    assert [TlvOf(x)][..0] == [];
  }

  /** The session finds room in 317 bytes for all four, in one block with a head of three bytes. */
  lemma ThreeStops()
    ensures Input(ThreeValues(), 4) && StopsAt(ThreeValues(), 4, 317, 4)
    ensures Marks(ThreeValues(), 4)[3] == Mark(0, -1, 3, false)
  {
    hide Input, After, Meet, Best, HeadAt;
    var addrs := ThreeValues();
    ThreeInput();
    forall k | 0 <= k < 4 ensures RoomFor(addrs, 4, k, 317) {
      ThreeTotals(k + 1);
      assert ThreeAt(After(addrs, 4, k + 1), k + 1, 3);
      PaidAt(addrs, 4, k + 1, 3);
      assert Affordable(Meet(After(addrs, 4, k), addrs, k, 4).acs[3], k, 317);
    }
    ThreeTotals(4);
    forall i | 0 <= i < 4
      ensures var s := After(addrs, 4, 4).acs[i]; s.ptr == 0 && !s.multiplen && s.total == SpentOn(4, i)
    {
      assert ThreeAt(After(addrs, 4, 4), 4, i);
    }
    ThreeBest(After(addrs, 4, 4).acs);
  }

  lemma ThreeBest(acs: seq<Strategy>)
    requires |acs| == MAX_ADDRLEN && forall i :: 0 <= i < 4 ==> acs[i].total == SpentOn(4, i)
    ensures Best(acs, 0, 4) == 3
  {
    BestWithin(acs, 0, 4);
    assert acs[3].total == 317 && acs[0].total == 325 && acs[1].total == 323 && acs[2].total == 320;
    hide Best;
    var b := Best(acs, 0, 4);
    assert acs[b].total <= acs[3].total;
  }

  lemma ThreeRuns()
    ensures RunsOf(ThreeValues()) == [Run(0x0500, 1, [Hundred(1), Hundred(2), Hundred(3)])]
  {
    hide Hundred;
    var block, v1, v2, v3 := ThreeValues(), Hundred(1), Hundred(2), Hundred(3);
    var s0, s1 := Scan([], []), Scan([], [Run(0x0500, 1, [v1])]);
    var s2, s3 := Scan([], [Run(0x0500, 1, [v1, v2])]), Scan([], [Run(0x0500, 1, [v1, v2, v3])]);
    FeedOne(s0, s1, block, 1);
    FeedLonger([v1], v2);
    assert [v1] + [v2] == [v1, v2] && [v1, v2] + [v3] == [v1, v2, v3];
    FeedOne(s1, s2, block, 2);
    FeedLonger([v1, v2], v3);
    FeedOne(s2, s3, block, 3);
    assert FeedAddress(s0, 0, block[0].tlvs, 0) == s0;
    ThreeFeeds(s0, s1, s2, s3, block);
  }

  lemma ThreeFeeds(s0: Scan, s1: Scan, s2: Scan, s3: Scan, block: seq<Address>)
    requires |block| == 4 && FeedAddress(s0, 0, block[0].tlvs, 0) == s0 && FeedAddress(s0, 1, block[1].tlvs, 0) == s1
    requires FeedAddress(s1, 2, block[2].tlvs, 0) == s2 && FeedAddress(s2, 3, block[3].tlvs, 0) == s3
    ensures FeedBlock(s0, block, 0) == s3
  {
    hide FeedAddress;
    assert FeedBlock(s3, block, 4) == s3;
    assert FeedBlock(s2, block, 3) == s3;
    assert FeedBlock(s1, block, 2) == s3;
    assert FeedBlock(s0, block, 1) == s3;
  }

  lemma FeedLonger(vs: seq<Value>, v: Value)
    requires vs != [] && |vs[|vs| - 1]| == |v|
    ensures Feed(Scan([], [Run(0x0500, 1, vs)]), 1 + |vs|, AddrTlv(0x0500, v)) == Scan([], [Run(0x0500, 1, vs + [v])])
  {
    assert ActiveAt([Run(0x0500, 1, vs)], 0x0500) == 0;
  }

  lemma FeedOne(s: Scan, r: Scan, block: seq<Address>, j: nat)
    requires j < |block| && |block[j].tlvs| == 1 && Feed(s, j, block[j].tlvs[0]) == r
    ensures FeedAddress(s, j, block[j].tlvs, 0) == r
  {
    hide Feed;
    assert FeedAddress(r, j, block[j].tlvs, 1) == r;
  }

  /** Their block takes 318 bytes: the merged value needs a length field of two bytes. */
  lemma ThreeBytes()
    ensures Input(ThreeValues(), 4) && SameLength(ThreeValues(), 4) && OnePrefixLength(ThreeValues())
    ensures |AddrBlockBytes(ThreeValues(), 4, 3, false)| + 2 + |BlockTlvs(ThreeValues())| == 318
  {
    hide Hundred, AddrBlockBytes, BlockTlvs, RunsOf, TlvBytes, Input, Address.Valid;
    ThreeInput();
    var block := ThreeValues();
    AddressValid(block, 4, 0);
    ThreeRuns();
    ThreeTlv();
    BlockTlvsIs(block);
    RunsAre(block);
    OneWritten(Run(0x0500, 1, [Hundred(1), Hundred(2), Hundred(3)]), 4);
    ThreeSize();
  }

  lemma ThreeTlv()
    ensures var r := Run(0x0500, 1, [Hundred(1), Hundred(2), Hundred(3)]);
      Inside(r, 4) && |TlvBytes(RunTlv(r, 4))| == 306
  {
    hide Hundred, Joined, TlvBytes, FlagsOf, AllSame;
    var r := Run(0x0500, 1, [Hundred(1), Hundred(2), Hundred(3)]);
    ThreeDiffer();
    JoinedLength(r.values, 100);
    TlvPieces([], RunTlv(r, 4));
  }

  lemma ThreeDiffer()
    ensures var vs := [Hundred(1), Hundred(2), Hundred(3)]; !AllSame(vs) && forall v :: v in vs ==> |v| == 100
  {
    hide Hundred;
    var vs := [Hundred(1), Hundred(2), Hundred(3)];
    assert vs[1] in vs && vs[1][0] != vs[0][0];
  }

  lemma ThreeSize()
    ensures SameLength(ThreeValues(), 4) && |AddrBlockBytes(ThreeValues(), 4, 3, false)| == 10
  {
    hide Hundred, AddrBlockBytes, BlockFlags, Mids;
    BlockSize(ThreeValues(), 4, 3, false);
  }

  lemma OneWritten(r: Run, n: nat)
    requires Inside(r, n)
    ensures Written([r], n) == TlvBytes(RunTlv(r, n))
  {
    hide RunTlv, TlvBytes, TlvsBytes;
    assert RunTlvs([r], n) == [RunTlv(r, n)];
    TlvsBytesOne(RunTlv(r, n));
  }
}
