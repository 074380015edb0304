/** The reader's side of address TLVs: every address of a block gets exactly its own TLVs back. */
module AddressDecode {
  import opened Bytes
  import opened TlvFormat
  import opened TlvBlock
  import opened AddressTlvs

  /** The TLVs with their values that a walk of the TLV tree finds for address j. */
  function Found(entries: seq<TlvEntry>, j: nat): (r: seq<AddrTlv>)
    requires forall e :: e in entries ==> e.Sound()
    ensures forall t :: t in r <==> exists e :: e in entries && e.Covers(j) && t == AddrTlv(e.order, e.Value(j))
  {
    if entries == [] then [] else
    var e, rest := entries[0], Found(entries[1..], j);
    assert forall x :: x in entries <==> x == e || x in entries[1..];
    if e.Covers(j) then [AddrTlv(e.order, e.Value(j))] + rest else rest
  }

  /** Two TLVs of one type for address j. */
  ghost predicate Clash(s: seq<TlvEntry>, j: nat) {
    exists a, b :: 0 <= a < b < |s| && s[a].order == s[b].order && s[a].Covers(j) && s[b].Covers(j)
  }

  lemma {:induction false} TwoPlaces<T>(s: seq<T>, x: T) returns (a: nat, b: nat)
    requires multiset(s)[x] >= 2
    ensures a < b < |s| && s[a] == x && s[b] == x
  {
    var n := |s| - 1;
    assert s == s[..n] + [s[n]];
    if s[n] == x {
      assert x in s[..n];
      a :| 0 <= a < n && s[a] == x;
      b := n;
    } else {
      a, b := TwoPlaces(s[..n], x);
    }
  }

  lemma TwiceIn<T>(s: seq<T>, a: nat, b: nat)
    requires a < b < |s| && s[a] == s[b]
    ensures multiset(s)[s[a]] >= 2
  {
    assert s == s[..b] + s[b..];
    assert s[a] in s[..b] && s[b] in s[b..];
  }

  lemma SameClash(s: seq<TlvEntry>, t: seq<TlvEntry>, j: nat)
    requires multiset(s) == multiset(t) && Clash(s, j)
    ensures Clash(t, j)
  {
    var a, b :| 0 <= a < b < |s| && s[a].order == s[b].order && s[a].Covers(j) && s[b].Covers(j);
    if s[a] == s[b] {
      TwiceIn(s, a, b);
      var c, d := TwoPlaces(t, s[a]);
    } else {
      assert s[a] in multiset(t) && s[b] in multiset(t);
      var c :| 0 <= c < |t| && t[c] == s[a];
      var d :| 0 <= d < |t| && t[d] == s[b];
      assert c < d || d < c;
    }
  }

  ghost predicate Strict(s: seq<AddrTlv>) {
    forall i, j :: 0 <= i < j < |s| ==> s[i].full < s[j].full
  }

  lemma {:induction false} FoundStrict(s: seq<TlvEntry>, j: nat)
    requires (forall e :: e in s ==> e.Sound()) && Ascending(s) && !Clash(s, j)
    ensures Strict(Found(s, j))
  {
    if s != [] {
      var e, r := s[0], s[1..];
      if Clash(r, j) {
        Tail(s, j);
      }
      FoundStrict(r, j);
      if e.Covers(j) {
        HeadBelow(s, j);
      }
    }
  }

  lemma Tail(s: seq<TlvEntry>, j: nat)
    requires s != [] && Clash(s[1..], j)
    ensures Clash(s, j)
  {
    var r := s[1..];
    var a, b :| 0 <= a < b < |r| && r[a].order == r[b].order && r[a].Covers(j) && r[b].Covers(j);
    assert s[a + 1].order == s[b + 1].order;
  }

  lemma HeadBelow(s: seq<TlvEntry>, j: nat)
    requires (forall e :: e in s ==> e.Sound()) && Ascending(s) && !Clash(s, j) && s != [] && s[0].Covers(j)
    ensures forall t :: t in Found(s[1..], j) ==> s[0].order < t.full
  {
    forall t | t in Found(s[1..], j) ensures s[0].order < t.full {
      var x :| x in s[1..] && x.Sound() && x.Covers(j) && t == AddrTlv(x.order, x.Value(j));
      var k :| 0 < k < |s| && s[k] == x;
      assert s[0].order <= s[k].order;
    }
  }

  /** An ascending sequence is determined by its elements. */
  lemma {:induction false} StrictUnique(s: seq<AddrTlv>, t: seq<AddrTlv>)
    requires Strict(s) && Strict(t) && forall x :: x in s <==> x in t
    ensures s == t
  {
    assert t != [] ==> t[0] in t;
    if s != [] {
      assert s[0] in t;
      assert t != [] && t[0] in s;
      assert s[0] == t[0];
      forall x | x in s[1..] ensures x in t[1..] {
        assert x in s && x != s[0];
        var k :| 0 <= k < |t| && t[k] == x;
        assert t[1..][k - 1] == x;
      }
      forall x | x in t[1..] ensures x in s[1..] {
        assert x in t && x != t[0];
        var k :| 0 <= k < |s| && s[k] == x;
        assert s[1..][k - 1] == x;
      }
      StrictUnique(s[1..], t[1..]);
    }
  }

  lemma RunPair(r: Run, q: Run, n: Byte, j: nat)
    requires Writable([r, q], n) && Follows(r, q) && Readable(RunTlv(r, n), n) && Readable(RunTlv(q, n), n)
    ensures var e, f := EntryOf(RunTlv(r, n), n), EntryOf(RunTlv(q, n), n);
      e.order != f.order || !e.Covers(j) || !f.Covers(j)
  {
    hide Readable, EntryOf, RunTlv, Inside;
    assert r in [r, q] && q in [r, q];
    RunRead(r, n, j);
    RunRead(q, n, j);
  }

  lemma RunsApart(runs: seq<Run>, n: Byte, j: nat)
    requires Chained(runs) && Writable(runs, n)
    requires forall t :: t in RunTlvs(runs, n) ==> Readable(t, n)
    ensures !Clash(EntriesOf(RunTlvs(runs, n), n), j)
  {
    hide Readable, EntryOf, RunTlv, Inside, Follows;
    var ts := RunTlvs(runs, n);
    var es := EntriesOf(ts, n);
    forall a, b | 0 <= a < b < |es| ensures es[a].order != es[b].order || !es[a].Covers(j) || !es[b].Covers(j) {
      assert Follows(runs[a], runs[b]);
      assert ts[a] in ts && ts[b] in ts;
      RunPair(runs[a], runs[b], n, j);
    }
  }

  /** What a run gives address j is a TLV that the address has. */
  lemma RunGives(r: Run, block: seq<Address>, n: Byte, j: nat)
    requires n == |block| && j < n && True(r, block) && |RunTlv(r, n).value| < 0x1_0000
    ensures Readable(RunTlv(r, n), n)
    ensures var e := EntryOf(RunTlv(r, n), n); e.Sound() && (e.Covers(j) <==> r.Covers(r.full, j))
    ensures var e := EntryOf(RunTlv(r, n), n);
      e.Covers(j) ==> AddrTlv(e.order, e.Value(j)) in block[j].tlvs && e.order == r.full
  {
    hide Readable, EntryOf, RunTlv, Inside;
    RunRead(r, n, j);
  }

  lemma FoundTrue(runs: seq<Run>, block: seq<Address>, n: Byte, j: nat, es: seq<TlvEntry>, t: AddrTlv)
    requires n == |block| && j < n && Faithful(runs, block) && Writable(runs, n)
    requires forall t :: t in RunTlvs(runs, n) ==> Readable(t, n)
    requires (forall e :: e in es ==> e.Sound()) && forall e :: e in es <==> e in EntriesOf(RunTlvs(runs, n), n)
    requires t in Found(es, j)
    ensures t in block[j].tlvs
  {
    hide Readable, EntryOf, RunTlv, Inside, Follows, Covered, True, Chained;
    var ts := RunTlvs(runs, n);
    var e :| e in es && e.Sound() && e.Covers(j) && t == AddrTlv(e.order, e.Value(j));
    assert e in EntriesOf(ts, n);
    var k :| 0 <= k < |ts| && EntriesOf(ts, n)[k] == e;
    RunGives(runs[k], block, n, j);
  }

  lemma TrueFound(runs: seq<Run>, block: seq<Address>, n: Byte, j: nat, es: seq<TlvEntry>, t: AddrTlv)
    requires n == |block| && j < n && Faithful(runs, block) && Writable(runs, n) && block[j].Valid()
    requires forall t :: t in RunTlvs(runs, n) ==> Readable(t, n)
    requires (forall e :: e in es ==> e.Sound()) && forall e :: e in es <==> e in EntriesOf(RunTlvs(runs, n), n)
    requires t in block[j].tlvs
    ensures t in Found(es, j)
  {
    hide Readable, EntryOf, RunTlv, Inside, Follows, True, Chained, Address.Valid;
    var ts := RunTlvs(runs, n);
    assert Covered(runs, t.full, j);
    var r :| r in runs && r.Covers(t.full, j);
    var k :| 0 <= k < |runs| && runs[k] == r;
    RunGives(r, block, n, j);
    var e := EntriesOf(ts, n)[k];
    assert e in es;
    OneOfType(block[j], t, AddrTlv(e.order, e.Value(j)));
  }

  lemma OneOfType(a: Address, t: AddrTlv, u: AddrTlv)
    requires a.Valid() && t in a.tlvs && u in a.tlvs && t.full == u.full
    ensures t == u
  {
  }

  /** TLVs that fit into their length fields are readable. */
  lemma TlvsReadable(block: seq<Address>)
    requires |block| <= 255 && (forall a :: a in block ==> a.Valid())
      && forall t :: t in TlvsOf(block) ==> |t.value| < 0x1_0000
    ensures Writable(RunsOf(block), |block|) && forall t :: t in TlvsOf(block) ==> Readable(t, |block|)
  {
    hide RunsOf, RunTlv, Inside, Readable, EntryOf;
    RunsInside(block);
    forall q | q in RunsOf(block) ensures |RunTlv(q, |block|).value| < 0x1_0000 {
      var k :| 0 <= k < |RunsOf(block)| && RunsOf(block)[k] == q;
      assert TlvsOf(block)[k] in TlvsOf(block);
    }
    RunsReadable(RunsOf(block), |block|);
  }

  /** For every block of addresses, the TLVs that the writer merges into index ranges and multivalues come out of the
   *  reader's tree as every address had them: types, values and order. */
  lemma DecodeBlock(block: seq<Address>, j: nat)
    requires j < |block| <= 255 && forall a :: a in block ==> a.Valid()
    requires forall t :: t in TlvsOf(block) ==> |t.value| < 0x1_0000 && Readable(t, |block|)
    ensures var es := InsertAll(EntriesOf(TlvsOf(block), |block|));
      (forall e :: e in es ==> e.Sound()) && Found(es, j) == block[j].tlvs
  {
    hide Readable, EntryOf, RunTlv, Inside, Follows, InsertAll, RunsOf, Clash, Writable, EntriesOf, RunTlvs, Ascending,
      Found;
    var runs, n := RunsOf(block), |block|;
    TlvsReadable(block);
    RunsReadable(runs, n);
    RunsFaithful(block);
    var es := EntriesOf(RunTlvs(runs, n), n);
    var tree := InsertAll(es);
    InsertAllFacts(es);
    assert forall e :: e in tree <==> e in multiset(es);
    RunsApart(runs, n, j);
    if Clash(tree, j) {
      SameClash(tree, es, j);
    }
    FoundStrict(tree, j);
    assert block[j].Valid();
    forall t | t in Found(tree, j) ensures t in block[j].tlvs {
      FoundTrue(runs, block, n, j, tree, t);
    }
    forall t | t in block[j].tlvs ensures t in Found(tree, j) {
      TrueFound(runs, block, n, j, tree, t);
    }
    StrictUnique(Found(tree, j), block[j].tlvs);
  }
}
