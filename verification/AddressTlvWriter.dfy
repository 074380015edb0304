/** _write_addresstlv and _write_addresstlvs of rfc5444_msg_generator.c. */
module AddressTlvWriter {
  import opened Bytes
  import opened TlvFormat
  import opened AddressTlvs

  /** The index fields; flag is where the flags byte was left open. */
  method WriteIndex(buf: array<Byte>, at: nat, flag: nat, run: Run, n: Byte,
                    ghost was: seq<Byte>, ghost start: nat, ghost front: seq<Byte>, ghost ext: bool,
                    ghost rest: seq<Byte>)
    returns (next: nat)
    requires Inside(run, n) && flag == start + |front|
    requires Output(buf[..], was, start, at, front + [Bits(ext, false, false, false, false, false)] + rest)
    requires at + |IndexBytes(RunIndex(run, n))| <= buf.Length
    modifies buf
    ensures var i := RunIndex(run, n);
      && next == at + |IndexBytes(i)|
      && Output(buf[..], was, start, next,
        front + [Bits(ext, i.One?, i.Span?, false, false, false)] + (rest + IndexBytes(i)))
  {
    hide Output, AllSame, Bits, SetFlag, HasFlag;
    BitsSet(ext, false, false, false, false, false);
    ghost var flags := Bits(ext, false, false, false, false, false);
    var last := run.End() - 1;
    if run.first == 0 && last == n - 1 {
      assert rest + [] == rest;
      return at;
    } else if run.first == last {
      PatchFlag(buf, flag, TLV_SINGLE_IDX, was, start, at, front, flags, rest);
      ghost var f := Bits(ext, true, false, false, false, false);
      next := Put(buf, at, [run.first], was, start, front + [f] + rest);
      assert front + [f] + rest + [run.first] == front + [f] + (rest + [run.first]);
    } else {
      PatchFlag(buf, flag, TLV_MULTI_IDX, was, start, at, front, flags, rest);
      ghost var f := Bits(ext, false, true, false, false, false);
      next := Put(buf, at, [run.first], was, start, front + [f] + rest);
      next := Put(buf, next, [last], was, start, front + [f] + rest + [run.first]);
      assert front + [f] + rest + [run.first] + [last] == front + [f] + (rest + [run.first, last]);
    }
  }

  /** The length field; s, m and u are flags that are set before. */
  method WriteLength(buf: array<Byte>, at: nat, flag: nat, length: U16, ghost was: seq<Byte>, ghost start: nat,
                     ghost front: seq<Byte>, ghost ext: bool, ghost s: bool, ghost m: bool, ghost u: bool,
                     ghost rest: seq<Byte>)
    returns (next: nat)
    requires flag == start + |front|
    requires Output(buf[..], was, start, at, front + [Bits(ext, s, m, false, false, u)] + rest)
    requires at + |LengthBytes(length)| <= buf.Length
    modifies buf
    ensures next == at + |LengthBytes(length)|
    ensures Output(buf[..], was, start, next,
      front + [Bits(ext, s, m, length > 0, length > 255, u)] + (rest + LengthBytes(length)))
  {
    hide Output, Bits, SetFlag, HasFlag;
    BitsSetValue(ext, s, m, false, false, u);
    BitsSetValue(ext, s, m, false, length > 255, u);
    next := at;
    ghost var f, r := Bits(ext, s, m, false, length > 255, u), rest;
    if length > 255 {
      PatchFlag(buf, flag, TLV_EXTVALUE, was, start, at, front, Bits(ext, s, m, false, false, u), rest);
      next := Put(buf, next, [length / 256], was, start, front + [f] + rest);
      r := rest + [length / 256];
      assert front + [f] + rest + [length / 256] == front + [f] + r;
    }
    if length > 0 {
      PatchFlag(buf, flag, TLV_VALUE, was, start, next, front, f, r);
      f := Bits(ext, s, m, true, length > 255, u);
      next := Put(buf, next, [length % 256], was, start, front + [f] + r);
      assert front + [f] + r + [length % 256] == front + [f] + (r + [length % 256]);
      assert r + [length % 256] == rest + LengthBytes(length);
    } else {
      assert rest + [] == rest;
    }
  }

  /** The value of every TLV of the list, one behind the other. */
  method WriteValues(buf: array<Byte>, at: nat, values: seq<Value>, ghost was: seq<Byte>, ghost start: nat,
                     ghost out: seq<Byte>)
    returns (next: nat)
    requires Output(buf[..], was, start, at, out) && at + |Joined(values)| <= buf.Length
    modifies buf
    ensures next == at + |Joined(values)| && Output(buf[..], was, start, next, out + Joined(values))
  {
    hide Output;
    next := at;
    assert out + [] == out;
    for k := 0 to |values|
      invariant next == at + |Joined(values[..k])| && Output(buf[..], was, start, next, out + Joined(values[..k]))
    {
      assert values[..k + 1][..k] == values[..k];
      JoinedPrefix(values, k + 1);
      next := Put(buf, next, values[k], was, start, out + Joined(values[..k]));
      assert out + Joined(values[..k]) + values[k] == out + Joined(values[..k + 1]);
    }
    assert values[..|values|] == values;
  }

  lemma {:induction false} JoinedPrefix(values: seq<Value>, k: nat)
    requires k <= |values|
    ensures |Joined(values[..k])| <= |Joined(values)|
  {
    if k < |values| {
      JoinedPrefix(values[..|values| - 1], k);
      assert values[..|values| - 1][..k] == values[..k];
    } else {
      assert values[..k] == values;
    }
  }

  /** The type fields, with an open flags byte. */
  method WriteType(buf: array<Byte>, at: nat, full: U16, ghost was: seq<Byte>, ghost start: nat, ghost out: seq<Byte>)
    returns (next: nat, flag: nat)
    requires Output(buf[..], was, start, at, out) && at + 2 + |ExtBytes(full % 256)| <= buf.Length
    modifies buf
    ensures flag == start + |out + [full / 256]| && next == at + 2 + |ExtBytes(full % 256)|
    ensures Output(buf[..], was, start, next,
      out + [full / 256] + [Bits(full % 256 > 0, false, false, false, false, false)] + ExtBytes(full % 256))
  {
    hide Output;
    OutputIs(buf[..], was, start, at, out);
    ghost var front := out + [full / 256];
    next := Put(buf, at, [full / 256], was, start, out);
    flag := next;
    next := Put(buf, next, [0], was, start, front);
    assert front + [0] + [] == front + [0];
    if full % 256 != 0 {
      PatchFlag(buf, flag, TLV_TYPEEXT, was, start, next, front, 0, []);
      next := Put(buf, next, [full % 256], was, start, front + [0x80] + []);
      assert front + [0x80] + [] + [full % 256] == front + [0x80] + [full % 256];
    }
  }

  /** The value: one for all addresses, or one behind the other. */
  method WriteValue(buf: array<Byte>, at: nat, run: Run, same: bool, n: Byte, ghost was: seq<Byte>, ghost start: nat,
                    ghost out: seq<Byte>)
    returns (next: nat)
    requires Inside(run, n) && same == AllSame(run.values)
    requires Output(buf[..], was, start, at, out) && at + |RunTlv(run, n).value| <= buf.Length
    modifies buf
    ensures next == at + |RunTlv(run, n).value| && Output(buf[..], was, start, next, out + RunTlv(run, n).value)
  {
    hide Output, AllSame, Joined;
    RunLength(run, n);
    next := at;
    if |run.values[0]| > 0 {
      if same {
        next := Put(buf, next, run.values[0], was, start, out);
      } else {
        next := WriteValues(buf, next, run.values, was, start, out);
      }
    } else {
      assert out + [] == out;
    }
  }

  /** The multivalue flag, the length field and the value. */
  method WriteLengthAndValue(buf: array<Byte>, at: nat, flag: nat, run: Run, same: bool, n: Byte,
                             ghost was: seq<Byte>, ghost start: nat, ghost front: seq<Byte>, ghost rest: seq<Byte>)
    returns (next: nat)
    requires Inside(run, n) && same == AllSame(run.values) && flag == start + |front|
    requires var i := RunIndex(run, n);
      Output(buf[..], was, start, at, front + [Bits(run.full % 256 > 0, i.One?, i.Span?, false, false, false)] + rest)
    requires at + |LengthBytes(Length(RunTlv(run, n)))| + |RunTlv(run, n).value| <= buf.Length
    modifies buf
    ensures var t := RunTlv(run, n);
      && next == at + |LengthBytes(Length(t))| + |t.value|
      && Output(buf[..], was, start, next, front + [FlagsOf(t)] + (rest + LengthBytes(Length(t))) + t.value)
  {
    hide Output, AllSame, Joined, RunIndex, LengthBytes, Bits, SetFlag, HasFlag, FlagsOf, Length;
    ghost var t := RunTlv(run, n);
    ghost var ext, one, span := run.full % 256 > 0, t.index.One?, t.index.Span?;
    RunLength(run, n);
    RunFlags(run, n);
    next := at;
    var length: nat := |run.values[0]|;
    if !same {
      length := Low16(length * |run.values|);
      BitsSetValue(ext, one, span, false, false, false);
      PatchFlag(buf, flag, TLV_MULTIVALUE, was, start, next, front, Bits(ext, one, span, false, false, false), rest);
    }
    next := WriteLength(buf, next, flag, length, was, start, front, ext, one, span, !same, rest);
    next := WriteValue(buf, next, run, same, n, was, start, front + [FlagsOf(t)] + (rest + LengthBytes(length)));
  }

  /** _write_addresstlv for the current run of a type: one TLV with the index range of the run in a block of n
   *  addresses, a multivalue unless same (_same_value). */
  method WriteAddressTlv(buf: array<Byte>, at: nat, run: Run, same: bool, n: Byte,
                         ghost was: seq<Byte>, ghost start: nat, ghost out: seq<Byte>)
    returns (next: nat)
    requires Inside(run, n) && same == AllSame(run.values)
    requires Output(buf[..], was, start, at, out) && at + |TlvBytes(RunTlv(run, n))| <= buf.Length
    modifies buf
    ensures next == at + |TlvBytes(RunTlv(run, n))| && Output(buf[..], was, start, next, out + TlvBytes(RunTlv(run, n)))
  {
    hide Output, AllSame, Joined, RunIndex, IndexBytes, LengthBytes, ExtBytes, TlvBytes, Bits, SetFlag, HasFlag,
      FlagsOf, Length, Inside;
    ghost var t, front := RunTlv(run, n), out + [run.full / 256];
    TlvPieces(out, t);
    var flag;
    next, flag := WriteType(buf, at, run.full, was, start, out);
    ghost var ext := ExtBytes(run.full % 256);
    next := WriteIndex(buf, next, flag, run, n, was, start, front, run.full % 256 > 0, ext);
    next := WriteLengthAndValue(buf, next, flag, run, same, n, was, start, front, ext + IndexBytes(t.index));
    RegroupTlv(out, run.full / 256, FlagsOf(t), ext, IndexBytes(t.index), LengthBytes(Length(t)), t.value);
  }

  lemma RunFlags(run: Run, n: Byte)
    requires Inside(run, n)
    ensures var t := RunTlv(run, n);
      FlagsOf(t)
        == Bits(run.full % 256 > 0, t.index.One?, t.index.Span?, Length(t) > 0, Length(t) > 255, !AllSame(run.values))
  {
  }

  lemma RegroupTlv(out: seq<Byte>, full: Byte, flags: Byte, e: seq<Byte>, i: seq<Byte>, l: seq<Byte>, v: seq<Byte>)
    ensures out + [full] + [flags] + (e + i + l) + v == out + [full, flags] + e + i + l + v
  {
  }

  lemma RunLength(run: Run, n: Byte)
    requires Inside(run, n)
    ensures var t := RunTlv(run, n);
      && Length(t) == (if AllSame(run.values) then |run.values[0]| else Low16(|run.values[0]| * |run.values|))
      && (|run.values[0]| == 0 ==> t.value == [])
  {
    JoinedLength(run.values, |run.values[0]|);
  }

  // ---------- The loop over a block ----------

  /** tlv->_same_value, which _compress_address leaves in the TLV t of address j: the address before has a TLV of this
   *  type and length with the same value. */
  predicate SameValue(block: seq<Address>, j: nat, t: AddrTlv) {
    0 < j <= |block| && HasValue(block[j - 1].tlvs, t)
  }

  /** The fields _current_tlv_list and _same_value of the active types, and the list of active types, hold the open
   *  runs. */
  ghost predicate Tracks(open: seq<Run>, current: map<U16, Run>, same: map<U16, bool>, active: seq<U16>) {
    && |active| == |open| && same.Keys == current.Keys
    && (forall f :: f in current <==> f in active)
    && (forall k :: 0 <= k < |open| ==>
      active[k] == open[k].full && active[k] in current && current[active[k]] == open[k])
    && (forall f :: f in current ==> same[f] == AllSame(current[f].values))
  }

  function Written(runs: seq<Run>, n: nat): (r: seq<Byte>)
    requires forall q :: q in runs ==> Inside(q, n)
  {
    TlvsBytes(RunTlvs(runs, n))
  }

  lemma WrittenMore(runs: seq<Run>, r: Run, n: nat)
    requires (forall q :: q in runs ==> Inside(q, n)) && Inside(r, n)
    ensures Written(runs + [r], n) == Written(runs, n) + TlvBytes(RunTlv(r, n))
  {
    hide RunTlv, TlvBytes, TlvsBytes;
    assert RunTlvs(runs + [r], n) == RunTlvs(runs, n) + [RunTlv(r, n)];
    TlvsBytesConcat(RunTlvs(runs, n), [RunTlv(r, n)]);
    TlvsBytesOne(RunTlv(r, n));
  }

  lemma {:induction false} WrittenPrefix(runs: seq<Run>, all: seq<Run>, n: nat)
    requires (forall q :: q in all ==> Inside(q, n)) && runs <= all
    ensures (forall q :: q in runs ==> Inside(q, n)) && |Written(runs, n)| <= |Written(all, n)|
  {
    hide Inside, Written;
    if |runs| < |all| {
      var m := |all| - 1;
      assert all == all[..m] + [all[m]];
      WrittenPrefix(runs, all[..m], n);
      WrittenMore(all[..m], all[m], n);
    } else {
      assert runs == all;
    }
  }

  lemma {:induction false} FeedAddressGrows(s: Scan, j: nat, tlvs: seq<AddrTlv>, t: nat)
    requires t <= |tlvs|
    ensures s.done <= FeedAddress(s, j, tlvs, t).done
    decreases |tlvs| - t
  {
    if t < |tlvs| {
      FeedAddressGrows(Feed(s, j, tlvs[t]), j, tlvs, t + 1);
    }
  }

  lemma {:induction false} FeedBlockGrows(s: Scan, block: seq<Address>, j: nat)
    requires j <= |block|
    ensures s.done <= FeedBlock(s, block, j).done
    decreases |block| - j
  {
    if j < |block| {
      FeedAddressGrows(s, j, block[j].tlvs, 0);
      FeedBlockGrows(FeedAddress(s, j, block[j].tlvs, 0), block, j + 1);
    }
  }

  lemma ActiveIndex(open: seq<Run>, current: map<U16, Run>, same: map<U16, bool>, active: seq<U16>, full: U16)
    requires Tracks(open, current, same, active) && DistinctTypes(open)
    ensures var k := ActiveAt(open, full);
      if full in current then full in same && k < |open| && active[k] == full && current[full] == open[k]
        && same[full] == AllSame(open[k].values)
      else k == |open|
  {
    var k := ActiveAt(open, full);
    assert k < |open| ==> active[k] in active;
    if full in current {
      var i :| 0 <= i < |active| && active[i] == full;
      assert open[i] in open;
    }
  }

  lemma TracksUpdate(open: seq<Run>, current: map<U16, Run>, same: map<U16, bool>, active: seq<U16>, k: nat, r: Run)
    requires Tracks(open, current, same, active) && DistinctTypes(open) && k < |open| && r.full == open[k].full
    ensures Tracks(open[k := r], current[r.full := r], same[r.full := AllSame(r.values)], active)
  {
    hide AllSame;
  }

  lemma TracksMore(open: seq<Run>, current: map<U16, Run>, same: map<U16, bool>, active: seq<U16>, r: Run)
    requires Tracks(open, current, same, active) && r.full !in current
    ensures Tracks(open + [r], current[r.full := r], same[r.full := AllSame(r.values)], active + [r.full])
  {
    hide AllSame;
  }

  /** The cached comparison with the address before decides whether the values of the run stay the same. */
  lemma SameStill(block: seq<Address>, j: nat, run: Run, t: AddrTlv)
    requires True(run, block) && run.End() == j < |block| && run.full == t.full && forall a :: a in block ==> a.Valid()
    ensures AllSame(run.values + [t.value]) == (AllSame(run.values) && SameValue(block, j, t))
  {
    var n := |run.values|;
    var last := AddrTlv(run.full, run.values[n - 1]);
    assert last in block[j - 1].tlvs;
    assert SameValue(block, j, t) <==> t.value == last.value by {
      forall u | u in block[j - 1].tlvs && u.full == t.full ensures u == last {
        assert block[j - 1].Valid();
      }
    }
    var vs := run.values + [t.value];
    assert last.value in run.values && vs[0] == run.values[0];
    if AllSame(vs) {
      assert t.value in vs && last.value in vs;
      assert forall v :: v in run.values ==> v in vs;
    } else if AllSame(run.values) {
      assert t.value != last.value;
    }
  }

  lemma OpenRun(s: Scan, block: seq<Address>, m: nat, n: nat, k: nat)
    requires Inv(s, block, m, n) && k < |s.open|
    ensures True(s.open[k], block) && s.open[k].values != [] && Inside(s.open[k], |block|)
  {
    assert s.open[k] in s.All();
  }

  /** The body of the loop: TLV n of address m. */
  method FeedStep(buf: array<Byte>, at: nat, block: seq<Address>, m: nat, n: nat,
                  current: map<U16, Run>, same: map<U16, bool>, active: seq<U16>,
                  ghost s: Scan, ghost was: seq<Byte>, ghost start: nat, ghost out: seq<Byte>, ghost limit: seq<Run>)
    returns (next: nat, current': map<U16, Run>, same': map<U16, bool>, active': seq<U16>)
    requires Inv(s, block, m, n) && m < |block| && n < |block[m].tlvs| && forall a :: a in block ==> a.Valid()
    requires Tracks(s.open, current, same, active)
    requires Output(buf[..], was, start, at, out + (InvInside(s, block, m, n); Written(s.done, |block|)))
    requires (forall q :: q in limit ==> Inside(q, |block|)) && Feed(s, m, block[m].tlvs[n]).done <= limit
    requires start + |out| + |Written(limit, |block|)| <= buf.Length
    modifies buf
    ensures var q := Feed(s, m, block[m].tlvs[n]);
      && Inv(q, block, m, n + 1) && Tracks(q.open, current', same', active')
      && Output(buf[..], was, start, next, out + (InvInside(q, block, m, n + 1); Written(q.done, |block|)))
  {
    hide Output, Written, AllSame, Inside, Tracks, Inv, TlvBytes, RunTlv, True, DistinctTypes;
    var t := block[m].tlvs[n];
    next, current', same', active' := at, current, same, active;
    ghost var k, q := ActiveAt(s.open, t.full), Feed(s, m, t);
    InvInside(s, block, m, n);
    FeedInv(s, block, m, n);
    InvInside(q, block, m, n + 1);
    ActiveIndex(s.open, current, same, active, t.full);
    if t.full in current {
      var run := current[t.full];
      OpenRun(s, block, m, n, k);
      if run.End() != m || |run.values[|run.values| - 1]| != |t.value| {
        Room(buf[..], s.done, run, |block|, was, start, at, out, limit);
        next := WriteAddressTlv(buf, at, run, same[t.full], |block|, was, start, out + Written(s.done, |block|));
        current' := current[t.full := Run(t.full, m, [t.value])];
        same' := same[t.full := true];
        OneSame(t.value);
        TracksUpdate(s.open, current, same, active, k, Run(t.full, m, [t.value]));
      } else {
        SameStill(block, m, run, t);
        current' := current[t.full := Run(t.full, run.first, run.values + [t.value])];
        same' := same[t.full := same[t.full] && SameValue(block, m, t)];
        TracksUpdate(s.open, current, same, active, k, Run(t.full, run.first, run.values + [t.value]));
      }
    } else {
      active' := active + [t.full];
      current' := current[t.full := Run(t.full, m, [t.value])];
      same' := same[t.full := true];
      OneSame(t.value);
      TracksMore(s.open, current, same, active, Run(t.full, m, [t.value]));
    }
  }

  lemma OneSame(v: Value)
    ensures AllSame([v])
  {
  }

  /** There is room for a run that ends. */
  lemma Room(now: seq<Byte>, done: seq<Run>, run: Run, n: nat, was: seq<Byte>, start: nat, at: nat, out: seq<Byte>,
             limit: seq<Run>)
    requires (forall r :: r in done ==> Inside(r, n)) && Inside(run, n)
    requires Output(now, was, start, at, out + Written(done, n))
    requires (forall q :: q in limit ==> Inside(q, n)) && done + [run] <= limit
    ensures Written(done + [run], n) == Written(done, n) + TlvBytes(RunTlv(run, n))
    ensures at + |TlvBytes(RunTlv(run, n))| <= start + |out| + |Written(limit, n)|
    ensures out + Written(done, n) + TlvBytes(RunTlv(run, n)) == out + Written(done + [run], n)
  {
    hide Written, TlvBytes, RunTlv, Inside;
    WrittenMore(done, run, n);
    WrittenPrefix(done + [run], limit, n);
    OutputIs(now, was, start, at, out + Written(done, n));
  }

  /** All TLVs of address m. */
  method FeedAddressTlvs(buf: array<Byte>, at: nat, block: seq<Address>, m: nat,
                         current: map<U16, Run>, same: map<U16, bool>, active: seq<U16>,
                         ghost s: Scan, ghost was: seq<Byte>, ghost start: nat, ghost out: seq<Byte>,
                         ghost limit: seq<Run>)
    returns (next: nat, current': map<U16, Run>, same': map<U16, bool>, active': seq<U16>)
    requires m < |block| && Inv(s, block, m, 0) && forall a :: a in block ==> a.Valid()
    requires Tracks(s.open, current, same, active)
    requires Output(buf[..], was, start, at, out + (InvInside(s, block, m, 0); Written(s.done, |block|)))
    requires (forall q :: q in limit ==> Inside(q, |block|)) && FeedAddress(s, m, block[m].tlvs, 0).done <= limit
    requires start + |out| + |Written(limit, |block|)| <= buf.Length
    modifies buf
    ensures var q := FeedAddress(s, m, block[m].tlvs, 0);
      && Inv(q, block, m + 1, 0) && Tracks(q.open, current', same', active')
      && Output(buf[..], was, start, next, out + (InvInside(q, block, m + 1, 0); Written(q.done, |block|)))
  {
    hide Output, Written, AllSame, Inside, Tracks, Inv, TlvBytes, RunTlv, True, DistinctTypes, Feed;
    next, current', same', active' := at, current, same, active;
    ghost var q := s;
    InvInside(q, block, m, 0);
    for n := 0 to |block[m].tlvs|
      invariant Inv(q, block, m, n) && Tracks(q.open, current', same', active')
      invariant (forall r :: r in q.done ==> Inside(r, |block|))
        && Output(buf[..], was, start, next, out + Written(q.done, |block|))
      invariant FeedAddress(q, m, block[m].tlvs, n) == FeedAddress(s, m, block[m].tlvs, 0)
    {
      ghost var r := Feed(q, m, block[m].tlvs[n]);
      FeedAddressGrows(r, m, block[m].tlvs, n + 1);
      next, current', same', active' := FeedStep(buf, next, block, m, n, current', same', active', q, was, start, out,
        limit);
      q := r;
      InvInside(q, block, m, n + 1);
    }
    NextAddress(q, block, m);
  }

  /** _write_addresstlvs for a block of addresses. */
  method WriteAddressTlvs(buf: array<Byte>, at: nat, block: seq<Address>, ghost was: seq<Byte>, ghost start: nat,
                          ghost out: seq<Byte>)
    returns (next: nat)
    requires |block| <= 255 && forall a :: a in block ==> a.Valid()
    requires Output(buf[..], was, start, at, out)
    requires at + |BlockTlvs(block)| <= buf.Length
    modifies buf
    ensures next == at + |BlockTlvs(block)| && Output(buf[..], was, start, next, out + BlockTlvs(block))
  {
    hide Output, Written, AllSame, Inside, Tracks, Inv, TlvBytes, RunTlv, True, DistinctTypes, Feed, BlockTlvs;
    ghost var s, final := Scan([], []), FeedBlock(Scan([], []), block, 0);
    StartScan(block, out);
    BlockTlvsIs(block);
    OutputIs(buf[..], was, start, at, out);
    next := at;
    var current, same, active := map[], map[], [];
    for m := 0 to |block|
      invariant Inv(s, block, m, 0) && Tracks(s.open, current, same, active)
      invariant (forall r :: r in s.done ==> Inside(r, |block|))
        && Output(buf[..], was, start, next, out + Written(s.done, |block|))
      invariant FeedBlock(s, block, m) == final
    {
      ghost var q := FeedAddress(s, m, block[m].tlvs, 0);
      FeedBlockGrows(q, block, m + 1);
      WrittenPrefix(final.done, final.All(), |block|);
      next, current, same, active := FeedAddressTlvs(buf, next, block, m, current, same, active, s, was, start, out,
        final.done);
      s := q;
      InvInside(s, block, m + 1, 0);
    }
    InvInside(final, block, |block|, 0);
    TracksOpen(final.open, current, same, active);
    assert final.done + final.open[..0] == final.done;
    for k := 0 to |active|
      invariant (forall r :: r in final.done + final.open[..k] ==> Inside(r, |block|))
      invariant Output(buf[..], was, start, next, out + Written(final.done + final.open[..k], |block|))
    {
      var run := current[active[k]];
      assert run in final.All();
      assert final.done + final.open[..k + 1] == final.done + final.open[..k] + [run];
      Room(buf[..], final.done + final.open[..k], run, |block|, was, start, next, out, final.All());
      next := WriteAddressTlv(buf, next, run, same[active[k]], |block|, was, start,
        out + Written(final.done + final.open[..k], |block|));
    }
    assert final.done + final.open[..|active|] == final.All();
    OutputIs(buf[..], was, start, next, out + BlockTlvs(block));
  }

  /** The bytes of all TLVs of a block. */
  function BlockTlvs(block: seq<Address>): (r: seq<Byte>)
    requires |block| <= 255 && forall a :: a in block ==> a.Valid()
  {
    TlvsBytes(TlvsOf(block))
  }

  lemma StartScan(block: seq<Address>, out: seq<Byte>)
    requires |block| <= 255
    ensures Inv(Scan([], []), block, 0, 0) && Tracks([], map[], map[], []) && out + Written([], |block|) == out
  {
    hide Inv, Tracks, Inside, TlvsBytes;
    StartInv(block);
    StartTracks();
    TlvsNone();
    assert RunTlvs([], |block|) == [];
  }

  lemma StartTracks()
    ensures Tracks([], map[], map[], [])
  {
  }

  lemma TlvsNone()
    ensures TlvsBytes([]) == []
  {
  }

  lemma BlockTlvsIs(block: seq<Address>)
    requires |block| <= 255 && forall a :: a in block ==> a.Valid()
    ensures var f := FeedBlock(Scan([], []), block, 0);
      (forall r :: r in f.All() ==> Inside(r, |block|)) && BlockTlvs(block) == Written(f.All(), |block|)
    ensures Inv(FeedBlock(Scan([], []), block, 0), block, |block|, 0)
  {
    hide Inv, Inside, TlvsBytes, RunTlv, FeedBlock, RunTlvs;
    RunsInside(block);
  }

  lemma TracksOpen(open: seq<Run>, current: map<U16, Run>, same: map<U16, bool>, active: seq<U16>)
    requires Tracks(open, current, same, active)
    ensures |active| == |open|
    ensures forall k :: 0 <= k < |active| ==>
      active[k] in current && active[k] in same && current[active[k]] == open[k]
        && same[active[k]] == AllSame(open[k].values)
  {
  }
}
