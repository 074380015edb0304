/** The TLVs of addresses: how the writer merges them into runs, one TLV with an index range for each run, and how the
 *  reader gives every address its own TLVs back (section 5.4 of RFC 5444). */
module AddressTlvs {
  import opened Bytes
  import opened TlvFormat

  /** struct rfc5444_writer_addrtlv; full is _full_type. */
  datatype AddrTlv = AddrTlv(full: U16, value: Value)

  /** tlv->_same_value, for the TLVs of the address before: one of them has the same type and value. */
  predicate HasValue(last: seq<AddrTlv>, t: AddrTlv) {
    exists u :: u in last && u.full == t.full && u.value == t.value
  }

  /** struct rfc5444_writer_address with its netaddr; tlvs is the walk of _addrtlv_tree. */
  datatype Address = Address(bytes: seq<Byte>, plen: Byte, tlvs: seq<AddrTlv>)
  {
    /** At most one TLV of a type, ascending. */
    ghost predicate Valid() {
      forall i, j :: 0 <= i < j < |tlvs| ==> tlvs[i].full < tlvs[j].full
    }
  }

  /** The TLVs in _current_tlv_list of a type: values for the addresses first, first + 1, ... */
  datatype Run = Run(full: U16, first: nat, values: seq<Value>)
  {
    function End(): (r: nat) {
      first + |values|
    }

    ghost predicate Covers(f: U16, j: int) {
      full == f && first <= j < End()
    }
  }

  predicate AllSame(values: seq<Value>) {
    forall v :: v in values ==> v == values[0]
  }

  function Joined(values: seq<Value>): (r: seq<Byte>) {
    if values == [] then [] else Joined(values[..|values| - 1]) + values[|values| - 1]
  }

  /** A run inside a block of n addresses. */
  ghost predicate Inside(r: Run, n: nat) {
    && r.values != [] && r.End() <= n <= 255
    && forall v :: v in r.values ==> |v| == |r.values[0]|
  }

  function RunIndex(r: Run, n: nat): (i: Index)
    requires Inside(r, n)
  {
    if r.first == 0 && |r.values| == n then NoIndex else if |r.values| == 1 then One(r.first)
    else Span(r.first, r.End() - 1)
  }

  /** The TLV that is written for a run. */
  function RunTlv(r: Run, n: nat): (t: Tlv)
    requires Inside(r, n)
  {
    var same := AllSame(r.values);
    Tlv(r.full, RunIndex(r, n), !same, if same then r.values[0] else Joined(r.values))
  }

  lemma {:induction false} JoinedLength(values: seq<Value>, length: nat)
    requires forall v :: v in values ==> |v| == length
    ensures |Joined(values)| == |values| * length
  {
    if values != [] {
      JoinedLength(values[..|values| - 1], length);
      assert |values| * length == (|values| - 1) * length + length;
    }
  }

  lemma SliceConcat<T>(a: seq<T>, b: seq<T>, i: nat, j: nat)
    requires i <= j <= |a|
    ensures (a + b)[i..j] == a[i..j] && (a + b)[|a|..] == b
  {
  }

  /** The bytes of value k in a joined value. */
  lemma {:induction false} JoinedAt(values: seq<Value>, length: nat, k: nat)
    requires k < |values| && forall v :: v in values ==> |v| == length
    ensures k * length + length <= |Joined(values)| == |values| * length
    ensures Joined(values)[k * length..k * length + length] == values[k]
  {
    var n := |values| - 1;
    var front, last := values[..n], values[n];
    var at := k * length;
    JoinedLength(values, length);
    JoinedLength(front, length);
    if k < n {
      OffsetFits(k, n, length, |Joined(front)|);
      JoinedAt(front, length, k);
      SliceConcat(Joined(front), last, at, at + length);
    } else {
      SliceConcat(Joined(front), last, 0, 0);
      assert at + length == |Joined(values)| by { OffsetFits(n, |values|, length, |values| * length); }
    }
  }

  lemma Quotient(n: nat, length: nat)
    requires n > 0
    ensures (n * length) % n == 0 && (n * length) / n == length
  {
    var a := n * length;
    var d := length - a / n;
    assert n * d == a % n;
    assert d >= 1 ==> n * d >= n;
    assert d <= -1 ==> n * d + n <= 0;
  }

  /** The value of a run with different values is a multivalue. */
  lemma RunValue(r: Run, n: Byte)
    requires Inside(r, n) && !AllSame(r.values)
    ensures var v, l := RunTlv(r, n).value, |r.values[0]|;
      v != [] && |v| == |r.values| * l && |v| % |r.values| == 0 && |v| / |r.values| == l && |r.values| > 1
  {
    var length := |r.values[0]|;
    JoinedLength(r.values, length);
    var v :| v in r.values && v != r.values[0];
    assert length > 0;
    assert |r.values| > 1;
    Quotient(|r.values|, length);
    OffsetFits(0, |r.values|, length, |r.values| * length);
  }

  lemma RunReadable(r: Run, n: Byte)
    requires Inside(r, n) && |RunTlv(r, n).value| < 0x1_0000
    ensures Readable(RunTlv(r, n), n) && EntryOf(RunTlv(r, n), n).Sound()
    ensures var e := EntryOf(RunTlv(r, n), n);
      e.order == r.full && e.index1 == r.first && e.index2 == r.End() - 1 && e.length == |r.values[0]|
  {
    hide Joined;
    if !AllSame(r.values) {
      RunValue(r, n);
    }
  }

  /** The reader finds the values of a run at the addresses of the run, and nowhere else. */
  lemma RunRead(r: Run, n: Byte, j: nat)
    requires Inside(r, n) && |RunTlv(r, n).value| < 0x1_0000
    ensures Readable(RunTlv(r, n), n)
    ensures var e := EntryOf(RunTlv(r, n), n);
      e.order == r.full && e.Sound() && (e.Covers(j) <==> r.Covers(r.full, j))
        && (e.Covers(j) ==> e.Value(j) == r.values[j - r.first])
  {
    hide Joined, Readable, Inside;
    RunReadable(r, n);
    if r.Covers(r.full, j) {
      RunValueAt(r, n, j);
    }
  }

  lemma RunValueAt(r: Run, n: Byte, j: nat)
    requires Inside(r, n) && |RunTlv(r, n).value| < 0x1_0000 && r.Covers(r.full, j) && Readable(RunTlv(r, n), n)
    requires var e := EntryOf(RunTlv(r, n), n);
      e.order == r.full && e.Sound() && e.index1 == r.first && e.index2 == r.End() - 1 && e.length == |r.values[0]|
    ensures EntryOf(RunTlv(r, n), n).Value(j) == r.values[j - r.first]
  {
    hide Joined, Readable;
    if AllSame(r.values) {
      assert r.values[j - r.first] in r.values;
    } else {
      JoinedAt(r.values, |r.values[0]|, j - r.first);
    }
  }

  // ---------- Merging ----------

  /** The state of _write_addresstlvs: the runs already written and the current run of each active type, in the order
   *  of the list of active types. */
  datatype Scan = Scan(done: seq<Run>, open: seq<Run>)
  {
    function All(): (r: seq<Run>) {
      done + open
    }
  }

  /** The position of a type in the list of active types, or its length. */
  function ActiveAt(open: seq<Run>, full: U16): (k: nat)
    ensures k <= |open| && (k < |open| ==> open[k].full == full)
    ensures k == |open| ==> forall r :: r in open ==> r.full != full
  {
    if open == [] || open[0].full == full then 0 else 1 + ActiveAt(open[1..], full)
  }

  /** The next TLV continues the run of its type if that reaches up to its address and has values of its length. */
  function Feed(s: Scan, j: nat, t: AddrTlv): (r: Scan) {
    var k := ActiveAt(s.open, t.full);
    if k == |s.open| then Scan(s.done, s.open + [Run(t.full, j, [t.value])]) else
    var run := s.open[k];
    if run.End() == j && run.values != [] && |run.values[|run.values| - 1]| == |t.value|
    then Scan(s.done, s.open[k := Run(t.full, run.first, run.values + [t.value])])
    else Scan(s.done + [run], s.open[k := Run(t.full, j, [t.value])])
  }

  function FeedAddress(s: Scan, j: nat, tlvs: seq<AddrTlv>, t: nat): (r: Scan)
    requires t <= |tlvs|
    decreases |tlvs| - t
  {
    if t == |tlvs| then s else FeedAddress(Feed(s, j, tlvs[t]), j, tlvs, t + 1)
  }

  function FeedBlock(s: Scan, block: seq<Address>, j: nat): (r: Scan)
    requires j <= |block|
    decreases |block| - j
  {
    if j == |block| then s else FeedBlock(FeedAddress(s, j, block[j].tlvs, 0), block, j + 1)
  }

  /** The runs of a block in the order in which they are written. */
  function RunsOf(block: seq<Address>): (r: seq<Run>) {
    FeedBlock(Scan([], []), block, 0).All()
  }

  /** Runs of one type follow each other; adjacent ones have values of different lengths. */
  ghost predicate Follows(r: Run, q: Run) {
    r.full == q.full ==>
      && r.values != [] && q.values != [] && r.End() <= q.first
      && (r.End() == q.first ==> |r.values[0]| != |q.values[0]|)
  }

  ghost predicate Chained(runs: seq<Run>) {
    forall a, b :: 0 <= a < b < |runs| ==> Follows(runs[a], runs[b])
  }

  /** A run holds values that the addresses have. */
  ghost predicate True(r: Run, block: seq<Address>) {
    && Inside(r, |block|)
    && forall j :: r.first <= j < r.End() ==> AddrTlv(r.full, r.values[j - r.first]) in block[j].tlvs
  }

  ghost predicate Covered(runs: seq<Run>, full: U16, j: int) {
    exists r :: r in runs && r.Covers(full, j)
  }

  /** The runs hold every TLV of the block exactly once, merged as far as possible. */
  ghost predicate Faithful(runs: seq<Run>, block: seq<Address>) {
    && (forall r :: r in runs ==> True(r, block))
    && Chained(runs)
    && (forall j, t :: 0 <= j < |block| && t in block[j].tlvs ==> Covered(runs, t.full, j))
  }

  /** A TLV of this type of address j is among those before TLV n of address m. */
  ghost predicate Seen(block: seq<Address>, j: int, full: U16, m: nat, n: nat)
    requires m <= |block| && (m < |block| ==> n <= |block[m].tlvs|)
  {
    j < m || (j == m < |block| && exists i :: 0 <= i < n && block[m].tlvs[i].full == full)
  }

  ghost predicate DistinctTypes(open: seq<Run>) {
    forall a, b :: 0 <= a < b < |open| ==> open[a].full != open[b].full
  }

  ghost predicate AllActive(done: seq<Run>, open: seq<Run>) {
    forall r :: r in done ==> exists k :: 0 <= k < |open| && open[k].full == r.full
  }

  lemma DistinctAt(open: seq<Run>, i: nat, j: nat)
    requires DistinctTypes(open) && i < |open| && j < |open| && i != j
    ensures open[i].full != open[j].full
  {
  }

  lemma ActiveStill(done: seq<Run>, open: seq<Run>, k: nat, r: Run)
    requires DistinctTypes(open) && AllActive(done, open) && k < |open| && r.full == open[k].full
    ensures DistinctTypes(open[k := r]) && AllActive(done, open[k := r]) && AllActive(done + [open[k]], open[k := r])
  {
    var q := open[k := r];
    forall x | x in done + [open[k]] ensures exists i :: 0 <= i < |q| && q[i].full == x.full {
      if x in done {
        var i :| 0 <= i < |open| && open[i].full == x.full;
        assert q[i].full == x.full;
      } else {
        assert q[k].full == x.full;
      }
    }
  }

  lemma ActiveMore(done: seq<Run>, open: seq<Run>, r: Run)
    requires DistinctTypes(open) && AllActive(done, open) && forall x :: x in open ==> x.full != r.full
    ensures DistinctTypes(open + [r]) && AllActive(done, open + [r])
  {
    var q := open + [r];
    forall x | x in done ensures exists i :: 0 <= i < |q| && q[i].full == x.full {
      var i :| 0 <= i < |open| && open[i].full == x.full;
      assert q[i].full == x.full;
    }
  }

  /** Faithful for what was seen. Every type that was seen is active. */
  ghost predicate Inv(s: Scan, block: seq<Address>, m: nat, n: nat) {
    && m <= |block| <= 255 && (m < |block| ==> n <= |block[m].tlvs|)
    && (forall r :: r in s.All() ==> True(r, block) && Seen(block, r.End() - 1, r.full, m, n))
    && Chained(s.All())
    && DistinctTypes(s.open) && AllActive(s.done, s.open)
    && (forall j, t :: 0 <= j < |block| && t in block[j].tlvs && Seen(block, j, t.full, m, n) ==>
      Covered(s.All(), t.full, j))
  }

  /** Nothing was seen before the first TLV. */
  lemma StartInv(block: seq<Address>)
    requires |block| <= 255
    ensures Inv(Scan([], []), block, 0, 0)
  {
    hide True, Follows, Covered, Inside;
  }

  lemma SeenMore(block: seq<Address>, j: int, full: U16, m: nat, n: nat)
    requires m < |block| && n < |block[m].tlvs|
    ensures Seen(block, j, full, m, n + 1) <==> Seen(block, j, full, m, n) || (j == m && full == block[m].tlvs[n].full)
  {
  }

  lemma Fresh(block: seq<Address>, m: nat, n: nat)
    requires m < |block| && n < |block[m].tlvs| && block[m].Valid()
    ensures forall j :: Seen(block, j, block[m].tlvs[n].full, m, n) ==> j < m
  {
  }

  /** A first TLV of its type. */
  lemma FeedNew(s: Scan, block: seq<Address>, m: nat, n: nat)
    requires Inv(s, block, m, n) && m < |block| && n < |block[m].tlvs| && block[m].Valid()
    requires ActiveAt(s.open, block[m].tlvs[n].full) == |s.open|
    ensures Inv(Feed(s, m, block[m].tlvs[n]), block, m, n + 1)
  {
    hide Follows, ActiveAt, DistinctTypes, AllActive, Chained, True, Seen, Covered;
    var t, q := block[m].tlvs[n], Feed(s, m, block[m].tlvs[n]);
    var r := Run(t.full, m, [t.value]);
    ActiveMore(s.done, s.open, r);
    NotActive(s.done, s.open, t.full);
    NewTrue(block, m, t);
    assert q.All() == s.All() + [r];
    ChainedMore(s.All(), r);
    Grown(s, q, block, m, n, r);
  }

  lemma NotActive(done: seq<Run>, open: seq<Run>, full: U16)
    requires AllActive(done, open) && forall r :: r in open ==> r.full != full
    ensures forall x :: x in done + open ==> x.full != full
  {
    forall x | x in done + open ensures x.full != full {
      if x in done {
        var k :| 0 <= k < |open| && open[k].full == x.full;
        assert open[k] in open;
      }
    }
  }

  /** A run of another type than all before. */
  lemma ChainedMore(runs: seq<Run>, r: Run)
    requires Chained(runs) && forall x :: x in runs ==> x.full != r.full
    ensures Chained(runs + [r])
  {
    var q := runs + [r];
    forall a, b | 0 <= a < b < |q| ensures Follows(q[a], q[b]) {
      if b == |runs| {
        DifferentTypes(runs[a], r);
      }
    }
  }

  lemma DifferentTypes(r: Run, q: Run)
    ensures r.full != q.full ==> Follows(r, q)
  {
  }

  /** What is left of Inv when the runs keep their addresses and r covers the new one. */
  lemma Grown(s: Scan, q: Scan, block: seq<Address>, m: nat, n: nat, r: Run)
    requires Inv(s, block, m, n) && m < |block| && n < |block[m].tlvs|
    requires r in q.All() && r.Covers(block[m].tlvs[n].full, m)
    requires forall x :: x in q.All() ==> x in s.All() || x == r
    requires forall x, f, j :: x in s.All() && x.Covers(f, j) ==> x in q.All() || r.Covers(f, j)
    requires True(r, block) && r.End() - 1 == m
    ensures forall x :: x in q.All() ==> True(x, block) && Seen(block, x.End() - 1, x.full, m, n + 1)
    ensures forall j, t :: 0 <= j < |block| && t in block[j].tlvs && Seen(block, j, t.full, m, n + 1) ==>
      Covered(q.All(), t.full, j)
  {
    hide True, Follows, Inside;
    forall x | x in q.All() ensures True(x, block) && Seen(block, x.End() - 1, x.full, m, n + 1) {
      SeenMore(block, x.End() - 1, x.full, m, n);
    }
    forall j, t | 0 <= j < |block| && t in block[j].tlvs && Seen(block, j, t.full, m, n + 1)
      ensures Covered(q.All(), t.full, j)
    {
      SeenMore(block, j, t.full, m, n);
      if Seen(block, j, t.full, m, n) {
        assert Covered(s.All(), t.full, j);
      }
    }
  }

  /** A TLV that continues the current run of its type. */
  lemma FeedExtend(s: Scan, block: seq<Address>, m: nat, n: nat)
    requires Inv(s, block, m, n) && m < |block| && n < |block[m].tlvs| && block[m].Valid()
    requires var k := ActiveAt(s.open, block[m].tlvs[n].full);
      k < |s.open| && s.open[k].End() == m && s.open[k].values != []
      && |s.open[k].values[|s.open[k].values| - 1]| == |block[m].tlvs[n].value|
    ensures Inv(Feed(s, m, block[m].tlvs[n]), block, m, n + 1)
  {
    hide Follows, ActiveAt, True, Seen, DistinctTypes, AllActive, Covered;
    var t, q := block[m].tlvs[n], Feed(s, m, block[m].tlvs[n]);
    var k := ActiveAt(s.open, t.full);
    var run := s.open[k];
    var r, at := Run(t.full, run.first, run.values + [t.value]), |s.done| + k;
    assert s.All()[at] == run;
    ActiveStill(s.done, s.open, k, r);
    assert q.All() == s.All()[at := r];
    Longer(run, block, m, t);
    forall a, b | 0 <= a < b < |q.All()| ensures Follows(q.All()[a], q.All()[b]) {
      assert Follows(s.All()[a], s.All()[b]);
      if b == at {
        FollowsLonger(s.All()[a], run, r);
      } else if a == at {
        DistinctAt(s.open, k, b - |s.done|);
        DifferentTypes(r, s.All()[b]);
      }
    }
    Replaced(s.All(), at, r);
    Grown(s, q, block, m, n, r);
  }

  lemma Replaced(runs: seq<Run>, at: nat, r: Run)
    requires at < |runs| && runs[at].full == r.full && runs[at].first == r.first && runs[at].End() <= r.End()
    ensures forall x :: x in runs[at := r] ==> x in runs || x == r
    ensures forall x, f, j :: x in runs && x.Covers(f, j) ==> x in runs[at := r] || r.Covers(f, j)
    ensures r in runs[at := r]
  {
    var q := runs[at := r];
    assert q[at] == r;
    forall x | x in runs && x != runs[at] ensures x in q {
      var i :| 0 <= i < |runs| && runs[i] == x;
      assert q[i] == x;
    }
  }

  lemma Longer(run: Run, block: seq<Address>, m: nat, t: AddrTlv)
    requires True(run, block) && run.End() == m < |block| && run.full == t.full && t in block[m].tlvs
    requires |run.values[|run.values| - 1]| == |t.value|
    ensures True(Run(t.full, run.first, run.values + [t.value]), block)
  {
    assert run.values[|run.values| - 1] in run.values;
    assert t == AddrTlv(t.full, t.value);
  }

  lemma FollowsLonger(x: Run, run: Run, r: Run)
    requires Follows(x, run) && run.values != [] && r.full == run.full && r.first == run.first && run.values <= r.values
    ensures Follows(x, r)
  {
  }

  /** A TLV that ends the current run of its type and begins another. */
  lemma FeedBreak(s: Scan, block: seq<Address>, m: nat, n: nat)
    requires Inv(s, block, m, n) && m < |block| && n < |block[m].tlvs| && block[m].Valid()
    requires var k := ActiveAt(s.open, block[m].tlvs[n].full);
      k < |s.open| && s.open[k].values != []
      && (s.open[k].End() != m || |s.open[k].values[|s.open[k].values| - 1]| != |block[m].tlvs[n].value|)
    ensures Inv(Feed(s, m, block[m].tlvs[n]), block, m, n + 1)
  {
    hide Follows, ActiveAt, True, Seen, DistinctTypes, AllActive, Covered, Chained;
    var t, q := block[m].tlvs[n], Feed(s, m, block[m].tlvs[n]);
    var k, d := ActiveAt(s.open, t.full), |s.done|;
    var run, r := s.open[k], Run(t.full, m, [t.value]);
    assert s.All()[d + k] == run;
    ActiveStill(s.done, s.open, k, r);
    Fresh(block, m, n);
    NewTrue(block, m, t);
    BreakFollows(run, block, m, t);
    BreakChained(s, q, run, r, k);
    BreakMembers(s, q, run, r, k);
    Grown(s, q, block, m, n, r);
  }

  lemma NewTrue(block: seq<Address>, m: nat, t: AddrTlv)
    requires m < |block| <= 255 && t in block[m].tlvs
    ensures True(Run(t.full, m, [t.value]), block)
  {
    assert t == AddrTlv(t.full, t.value);
  }

  lemma BreakFollows(run: Run, block: seq<Address>, m: nat, t: AddrTlv)
    requires True(run, block) && run.End() - 1 < m && run.full == t.full
    requires run.End() != m || |run.values[|run.values| - 1]| != |t.value|
    ensures Follows(run, Run(t.full, m, [t.value]))
  {
    assert run.values[|run.values| - 1] in run.values;
  }

  lemma BreakMembers(s: Scan, q: Scan, run: Run, r: Run, k: nat)
    requires k < |s.open| && s.open[k] == run && q == Scan(s.done + [run], s.open[k := r])
    ensures forall x :: x in q.All() ==> x in s.All() || x == r
    ensures forall x :: x in s.All() ==> x in q.All()
    ensures r in q.All()
  {
    forall x | x in q.All() ensures x in s.All() || x == r {
      assert x in q.done || x in q.open;
    }
    assert q.open[k] == r;
    forall x | x in s.All() ensures x in q.All() {
      if x in s.open {
        var i :| 0 <= i < |s.open| && s.open[i] == x;
        assert i == k || q.open[i] == x;
        assert i == k ==> q.done[|s.done|] == x;
      }
    }
  }

  lemma BreakChained(s: Scan, q: Scan, run: Run, r: Run, k: nat)
    requires k < |s.open| && s.open[k] == run && q == Scan(s.done + [run], s.open[k := r])
    requires run.values != [] && r.values != [] && run.full == r.full && run.End() <= r.first && Follows(run, r)
    requires Chained(s.All()) && DistinctTypes(s.open)
    ensures Chained(q.All())
  {
    hide Follows, DistinctTypes;
    forall a, b | 0 <= a < b < |q.All()| ensures Follows(q.All()[a], q.All()[b]) {
      BreakPair(s, q, run, r, k, a, b);
    }
  }

  lemma BreakPair(s: Scan, q: Scan, run: Run, r: Run, k: nat, a: nat, b: nat)
    requires k < |s.open| && s.open[k] == run && q == Scan(s.done + [run], s.open[k := r])
    requires run.values != [] && r.values != [] && run.full == r.full && run.End() <= r.first && Follows(run, r)
    requires Chained(s.All()) && DistinctTypes(s.open)
    requires a < b < |q.All()|
    ensures Follows(q.All()[a], q.All()[b])
  {
    var d := |s.done|;
    var x, y := q.All()[a], q.All()[b];
    assert s.All()[d + k] == run;
    if b < d {
      assert s.All()[a] == x && s.All()[b] == y;
    } else if b == d {
      assert s.All()[a] == x;
    } else if b - d - 1 == k {
      assert y == r;
      if a < d {
        assert s.All()[a] == x;
        assert Follows(x, run);
      } else if a > d {
        assert x == s.open[a - d - 1];
      }
    } else {
      assert y == s.open[b - d - 1] && s.All()[b - 1] == y;
      if a < d {
        assert s.All()[a] == x;
      } else if a - d - 1 != k && a > d {
        assert x == s.open[a - d - 1];
      }
    }
  }

  lemma FeedInv(s: Scan, block: seq<Address>, m: nat, n: nat)
    requires Inv(s, block, m, n) && m < |block| && n < |block[m].tlvs| && block[m].Valid()
    ensures Inv(Feed(s, m, block[m].tlvs[n]), block, m, n + 1)
  {
    hide Follows, ActiveAt, Seen, Covered;
    var t := block[m].tlvs[n];
    var k := ActiveAt(s.open, t.full);
    if k == |s.open| {
      FeedNew(s, block, m, n);
    } else {
      var run := s.open[k];
      assert run in s.All();
      if run.End() == m && |run.values[|run.values| - 1]| == |t.value| {
        FeedExtend(s, block, m, n);
      } else {
        FeedBreak(s, block, m, n);
      }
    }
  }

  lemma {:induction false} FeedAddressInv(s: Scan, block: seq<Address>, m: nat, n: nat)
    requires m < |block| && n <= |block[m].tlvs| && Inv(s, block, m, n) && block[m].Valid()
    ensures Inv(FeedAddress(s, m, block[m].tlvs, n), block, m + 1, 0)
    decreases |block[m].tlvs| - n
  {
    if n == |block[m].tlvs| {
      NextAddress(s, block, m);
    } else {
      FeedInv(s, block, m, n);
      FeedAddressInv(Feed(s, m, block[m].tlvs[n]), block, m, n + 1);
    }
  }

  lemma NextAddress(s: Scan, block: seq<Address>, m: nat)
    requires m < |block| && Inv(s, block, m, |block[m].tlvs|)
    ensures Inv(s, block, m + 1, 0)
  {
    hide True, Follows, Covered;
    forall j, t | 0 <= j < |block| && t in block[j].tlvs && Seen(block, j, t.full, m + 1, 0)
      ensures Covered(s.All(), t.full, j)
    {
      assert Seen(block, j, t.full, m, |block[m].tlvs|);
    }
  }

  lemma {:induction false} FeedBlockInv(s: Scan, block: seq<Address>, m: nat)
    requires m <= |block| && Inv(s, block, m, 0) && forall a :: a in block ==> a.Valid()
    ensures Inv(FeedBlock(s, block, m), block, |block|, 0)
    decreases |block| - m
  {
    hide Inv, FeedAddress;
    if m < |block| {
      FeedAddressInv(s, block, m, 0);
      FeedBlockInv(FeedAddress(s, m, block[m].tlvs, 0), block, m + 1);
    }
  }

  /** Merging loses nothing, invents nothing and merges all that may be merged. */
  lemma RunsFaithful(block: seq<Address>)
    requires |block| <= 255 && forall a :: a in block ==> a.Valid()
    ensures Faithful(RunsOf(block), block)
  {
    hide True, Follows, Covered;
    StartInv(block);
    FeedBlockInv(Scan([], []), block, 0);
    var s := FeedBlock(Scan([], []), block, 0);
    forall j, t | 0 <= j < |block| && t in block[j].tlvs ensures Covered(s.All(), t.full, j) {
      assert Seen(block, j, t.full, |block|, 0);
    }
  }

  /** The TLVs of a block of addresses. */
  function RunTlvs(runs: seq<Run>, n: nat): (r: seq<Tlv>)
    requires forall q :: q in runs ==> Inside(q, n)
    ensures |r| == |runs| && forall k :: 0 <= k < |r| ==> r[k] == RunTlv(runs[k], n)
  {
    seq(|runs|, k requires 0 <= k < |runs| => RunTlv(runs[k], n))
  }

  /** The values of the TLVs fit into their 16 bit length fields. */
  ghost predicate Writable(runs: seq<Run>, n: nat) {
    forall q :: q in runs ==> Inside(q, n) && |RunTlv(q, n).value| < 0x1_0000
  }

  lemma RunsReadable(runs: seq<Run>, n: Byte)
    requires Writable(runs, n)
    ensures forall t :: t in RunTlvs(runs, n) ==> Readable(t, n)
    ensures forall e :: e in EntriesOf(RunTlvs(runs, n), n) ==> e.Sound()
  {
    hide Readable, RunTlv, Inside, EntryOf;
    forall k | 0 <= k < |runs| ensures Readable(RunTlvs(runs, n)[k], n) && EntryOf(RunTlvs(runs, n)[k], n).Sound() {
      RunReadable(runs[k], n);
    }
  }

  lemma InvInside(s: Scan, block: seq<Address>, m: nat, n: nat)
    requires Inv(s, block, m, n)
    ensures |block| <= 255 && forall r :: r in s.All() ==> Inside(r, |block|)
    ensures forall r :: r in s.done ==> Inside(r, |block|)
    ensures DistinctTypes(s.open)
  {
    hide Inside, Follows, Chained;
    forall r | r in s.done ensures Inside(r, |block|) {
      assert r in s.All();
    }
  }

  lemma RunsInside(block: seq<Address>)
    requires |block| <= 255 && forall a :: a in block ==> a.Valid()
    ensures forall r :: r in RunsOf(block) ==> Inside(r, |block|)
    ensures Inv(FeedBlock(Scan([], []), block, 0), block, |block|, 0)
  {
    hide Inv;
    StartInv(block);
    FeedBlockInv(Scan([], []), block, 0);
    InvInside(FeedBlock(Scan([], []), block, 0), block, |block|, 0);
  }

  /** The TLVs that are written for a block. */
  function TlvsOf(block: seq<Address>): (r: seq<Tlv>)
    requires |block| <= 255 && forall a :: a in block ==> a.Valid()
  {
    RunsInside(block);
    RunTlvs(RunsOf(block), |block|)
  }
}
