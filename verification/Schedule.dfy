/** _schedule_tlvblock: the merge of a TLV tree with the entries of a consumer, both sorted by type. */
module Schedule {
  import opened Bytes
  import opened TlvFormat
  import opened TlvBlock
  import opened AddressTlvs
  import opened AddressDecode

  /** struct rfc5444_reader_tlvblock_consumer_entry */
  datatype Entry = Entry(tlvType: Byte, ext: Byte, matchExt: bool, mandatory: bool, matchLength: bool, minLength: nat,
    maxLength: nat)
  {
    /** _calc_tlvconsumer_intorder */
    function Order(): (r: U16) {
      Join(tlvType, ext)
    }

    /** The types that the entry takes lie from Low to High. */
    function Low(): (r: U16) {
      if matchExt then Order() else Join(tlvType, 0)
    }

    function High(): (r: U16) {
      if matchExt then Order() else Join(tlvType, 255)
    }

    predicate Takes(tlv: TlvEntry) {
      Low() <= tlv.order <= High()
    }
  }

  /** _compare_tlvtypes of TLV t and entry c, where a position behind the end stands for NULL. */
  function CompareTypes(tlvs: seq<TlvEntry>, t: nat, entries: seq<Entry>, c: nat): (r: int) {
    if c >= |entries| then (if t >= |tlvs| then 0 else -1) else
    if t >= |tlvs| then 1 else
    if entries[c].matchExt then tlvs[t].order - entries[c].Order() else tlvs[t].order / 256 - entries[c].tlvType
  }

  lemma CompareIs(tlvs: seq<TlvEntry>, t: nat, entries: seq<Entry>, c: nat)
    requires t < |tlvs| && c < |entries|
    ensures CompareTypes(tlvs, t, entries, c) < 0 <==> tlvs[t].order < entries[c].Low()
    ensures CompareTypes(tlvs, t, entries, c) > 0 <==> tlvs[t].order > entries[c].High()
  {
  }

  /** The first entry that is not below a type; the merge passes all entries before it. */
  function Owner(entries: seq<Entry>, order: U16): (c: nat)
    ensures c <= |entries| && forall i :: 0 <= i < c ==> entries[i].High() < order
    ensures c < |entries| ==> order <= entries[c].High()
  {
    if entries == [] || order <= entries[0].High() then 0 else 1 + Owner(entries[1..], order)
  }

  /** The TLVs of a type go to entry i: it is the first that is not below the type, and takes it. */
  predicate Gets(entries: seq<Entry>, i: nat, order: U16) {
    i < |entries| && Owner(entries, order) == i && entries[i].Low() <= order
  }

  /** The types that go to an entry, on its fields: the type is that of the entry, with its extension if the entry has
   *  one, and every entry before it has a lower type, or the same with a lower extension. */
  lemma GetsExact(entries: seq<Entry>, i: nat, order: U16)
    ensures Gets(entries, i, order) <==>
      && i < |entries|
      && order / 256 == entries[i].tlvType && (entries[i].matchExt ==> order % 256 == entries[i].ext)
      && forall k :: 0 <= k < i ==>
        entries[k].tlvType < order / 256
          || (entries[k].tlvType == order / 256 && entries[k].matchExt && entries[k].ext < order % 256)
  {
    hide Entry.Low, Entry.High, Owner;
    OwnerIs(entries, order);
    forall k | 0 <= k < |entries|
      ensures entries[k].High() < order <==>
        entries[k].tlvType < order / 256
          || (entries[k].tlvType == order / 256 && entries[k].matchExt && entries[k].ext < order % 256)
      ensures entries[k].Low() <= order <= entries[k].High() <==>
        order / 256 == entries[k].tlvType && (entries[k].matchExt ==> order % 256 == entries[k].ext)
    {
      LowHighAre(entries[k], order);
    }
  }

  lemma LowHighAre(e: Entry, order: U16)
    ensures e.High() < order <==>
      e.tlvType < order / 256 || (e.tlvType == order / 256 && e.matchExt && e.ext < order % 256)
    ensures e.Low() <= order <= e.High() <==> order / 256 == e.tlvType && (e.matchExt ==> order % 256 == e.ext)
  {
  }

  /** An entry gets every type that it takes if and only if all entries before it lie below it. */
  lemma GetsAllExact(entries: seq<Entry>, i: nat)
    requires i < |entries|
    ensures (forall order: U16 :: entries[i].Low() <= order <= entries[i].High() ==> Gets(entries, i, order))
        <==> forall k :: 0 <= k < i ==> entries[k].High() < entries[i].Low()
  {
    hide Owner, Entry.Low, Entry.High;
    var low := entries[i].Low();
    LowHigh(entries[i]);
    OwnerIs(entries, low);
    if forall k :: 0 <= k < i ==> entries[k].High() < low {
      forall order: U16 | low <= order <= entries[i].High() ensures Gets(entries, i, order) {
        OwnerIs(entries, order);
      }
    } else {
      assert !Gets(entries, i, low);
    }
  }

  lemma LowHigh(e: Entry)
    ensures e.Low() <= e.High()
  {
  }

  /** Of entries that overlap only the first gets a TLV: an entry for all extensions of a type in front of an entry for
   *  one of them. */
  lemma Overlapping(mandatory: bool)
    ensures var all, one := Entry(5, 0, false, false, false, 0, 0), Entry(5, 3, true, mandatory, false, 0, 0);
      && all.Order() <= one.Order() && !Gets([all, one], 1, Join(5, 3)) && Gets([all, one], 0, Join(5, 3))
  {
  }

  lemma OwnerIs(entries: seq<Entry>, order: U16)
    ensures var c := Owner(entries, order);
      && c <= |entries| && (forall i :: 0 <= i < c ==> entries[i].High() < order)
      && (c < |entries| ==> order <= entries[c].High())
  {
  }

  /** TLV k covers the address and is not dropped for it (int_drop_tlv). */
  predicate Present(tlvs: seq<TlvEntry>, dropped: set<nat>, idx: Byte, k: nat) {
    k < |tlvs| && k !in dropped && tlvs[k].Covers(idx)
  }

  /** The positions below n of the TLVs that an entry should get, in tree order. */
  function Wanted(tlvs: seq<TlvEntry>, dropped: set<nat>, idx: Byte, entries: seq<Entry>, i: nat, n: nat): (r: seq<nat>)
    requires n <= |tlvs|
    ensures forall k: nat :: k in r <==> k < n && Gets(entries, i, tlvs[k].order) && Present(tlvs, dropped, idx, k)
  {
    if n == 0 then [] else
    var before := Wanted(tlvs, dropped, idx, entries, i, n - 1);
    if Gets(entries, i, tlvs[n - 1].order) && Present(tlvs, dropped, idx, n - 1) then before + [n - 1] else before
  }

  /** These positions ascend. */
  lemma {:induction false} WantedAscends(tlvs: seq<TlvEntry>, dropped: set<nat>, idx: Byte, entries: seq<Entry>, i: nat,
                                         n: nat, a: nat, b: nat)
    requires n <= |tlvs| && a < b < |Wanted(tlvs, dropped, idx, entries, i, n)|
    ensures var r := Wanted(tlvs, dropped, idx, entries, i, n); r[a] < r[b]
  {
    hide Gets, Present;
    var before := Wanted(tlvs, dropped, idx, entries, i, n - 1);
    if b < |before| {
      WantedAscends(tlvs, dropped, idx, entries, i, n - 1, a, b);
    } else {
      assert before[a] in before;
    }
  }

  predicate BadLength(e: Entry, tlv: TlvEntry) {
    e.matchLength && (tlv.length < e.minLength || tlv.length > e.maxLength)
  }

  /** What a TLV of a type that the entry gets does to its constraints. */
  predicate Offends(tlvs: seq<TlvEntry>, dropped: set<nat>, idx: Byte, entries: seq<Entry>, i: nat, k: nat)
    requires k < |tlvs|
  {
    && Gets(entries, i, tlvs[k].order)
    && if Present(tlvs, dropped, idx, k) then BadLength(entries[i], tlvs[k]) else entries[i].mandatory
  }

  ghost predicate OffendedBefore(tlvs: seq<TlvEntry>, dropped: set<nat>, idx: Byte, entries: seq<Entry>, i: nat, n: nat)
    requires n <= |tlvs|
  {
    exists k :: 0 <= k < n && Offends(tlvs, dropped, idx, entries, i, k)
  }

  /** The constraints of an entry as the merge sees them: a mandatory entry fails without a TLV of its type, and also if
   *  any TLV of its type in the block leaves out the address. */
  ghost predicate Fails(tlvs: seq<TlvEntry>, dropped: set<nat>, idx: Byte, entries: seq<Entry>, i: nat)
    requires i < |entries|
  {
    || (entries[i].mandatory && forall t :: t in tlvs ==> !Gets(entries, i, t.order))
    || OffendedBefore(tlvs, dropped, idx, entries, i, |tlvs|)
  }

  /** When an entry fails, on the fields of the entry and of the TLVs: without a TLV of a type that goes to it, if it is
   *  mandatory; through such a TLV that is for the address and has a length out of bounds; and through such a TLV that
   *  is not for the address, or dropped, if it is mandatory. */
  lemma FailsExact(tlvs: seq<TlvEntry>, dropped: set<nat>, idx: Byte, entries: seq<Entry>, i: nat)
    requires i < |entries|
    ensures var e := entries[i];
      Fails(tlvs, dropped, idx, entries, i) <==>
        || (e.mandatory && forall k :: 0 <= k < |tlvs| ==> !Gets(entries, i, tlvs[k].order))
        || exists k ::
          0 <= k < |tlvs| && Gets(entries, i, tlvs[k].order) &&
          if k !in dropped && tlvs[k].index1 <= idx <= tlvs[k].index2
          then e.matchLength && !(e.minLength <= tlvs[k].length <= e.maxLength) else e.mandatory
  {
    hide Gets;
    if exists k :: 0 <= k < |tlvs| && Gets(entries, i, tlvs[k].order) {
      var k :| 0 <= k < |tlvs| && Gets(entries, i, tlvs[k].order);
      assert tlvs[k] in tlvs;
    }
    if exists k :: 0 <= k < |tlvs| && Offends(tlvs, dropped, idx, entries, i, k) {
      var k :| 0 <= k < |tlvs| && Offends(tlvs, dropped, idx, entries, i, k);
      assert Gets(entries, i, tlvs[k].order);
    }
    assert forall k | 0 <= k < |tlvs| && Gets(entries, i, tlvs[k].order) ::
      Offends(tlvs, dropped, idx, entries, i, k) <==>
        if k !in dropped && tlvs[k].index1 <= idx <= tlvs[k].index2
        then entries[i].matchLength && !(entries[i].minLength <= tlvs[k].length <= entries[i].maxLength)
        else entries[i].mandatory;
  }

  /** Every entry has what it should get of the TLVs so far. */
  ghost predicate FoundSoFar(tlvs: seq<TlvEntry>, dropped: set<nat>, idx: Byte, entries: seq<Entry>, t: nat,
                             found: seq<seq<nat>>)
    requires t <= |tlvs|
  {
    |found| == |entries| && forall i :: 0 <= i < |entries| ==> found[i] == Wanted(tlvs, dropped, idx, entries, i, t)
  }

  /** The TLVs ahead are above the entries behind, and those behind went to no later entry than the current one. */
  ghost predicate InStep(tlvs: seq<TlvEntry>, entries: seq<Entry>, t: nat, c: nat)
    requires t <= |tlvs| && c <= |entries|
  {
    && (forall i, k :: 0 <= i < c && t <= k < |tlvs| ==> tlvs[k].order > entries[i].High())
    && (forall k :: 0 <= k < t ==> Owner(entries, tlvs[k].order) <= c)
    && (c < |entries| && CompareTypes(tlvs, t, entries, c) > 0 ==>
      forall k :: 0 <= k < t ==> !Gets(entries, c, tlvs[k].order))
  }

  /** The entries behind are decided, and the current one by the TLVs so far. */
  ghost predicate FailedSoFar(tlvs: seq<TlvEntry>, dropped: set<nat>, idx: Byte, entries: seq<Entry>, t: nat, c: nat,
                              failed: bool)
    requires t <= |tlvs| && c <= |entries|
  {
    failed <==> (exists i :: 0 <= i < c && Fails(tlvs, dropped, idx, entries, i))
                || (c < |entries| && OffendedBefore(tlvs, dropped, idx, entries, c, t))
  }

  /** The invariant of the merge. */
  ghost predicate Merged(tlvs: seq<TlvEntry>, dropped: set<nat>, idx: Byte, entries: seq<Entry>, t: nat, c: nat,
                         found: seq<seq<nat>>, failed: bool) {
    && t <= |tlvs| && c <= |entries| && FoundSoFar(tlvs, dropped, idx, entries, t, found)
    && InStep(tlvs, entries, t, c) && FailedSoFar(tlvs, dropped, idx, entries, t, c, failed)
  }

  lemma Start(tlvs: seq<TlvEntry>, dropped: set<nat>, idx: Byte, entries: seq<Entry>)
    ensures Merged(tlvs, dropped, idx, entries, 0, 0, seq(|entries|, _ => []), false)
  {
  }

  /** The TLV moves on: it goes to the current entry or to none. */
  lemma NextTlv(tlvs: seq<TlvEntry>, dropped: set<nat>, idx: Byte, entries: seq<Entry>, t: nat, c: nat,
                found: seq<seq<nat>>)
    requires Ascending(tlvs) && c <= |entries| && t < |tlvs|
    requires FoundSoFar(tlvs, dropped, idx, entries, t, found) && InStep(tlvs, entries, t, c)
    requires CompareTypes(tlvs, t, entries, c) <= 0
    ensures forall i :: 0 <= i < |entries| && i != c ==> found[i] == Wanted(tlvs, dropped, idx, entries, i, t + 1)
    ensures c < |entries| ==>
      Wanted(tlvs, dropped, idx, entries, c, t + 1)
        == if entries[c].Takes(tlvs[t]) && Present(tlvs, dropped, idx, t) then found[c] + [t] else found[c]
  {
    hide Owner;
    CurrentOwns(tlvs, entries, t, c);
  }

  /** A TLV that is not above the current entry belongs to it. */
  lemma CurrentOwns(tlvs: seq<TlvEntry>, entries: seq<Entry>, t: nat, c: nat)
    requires c <= |entries| && t < |tlvs| && InStep(tlvs, entries, t, c) && CompareTypes(tlvs, t, entries, c) <= 0
    ensures Owner(entries, tlvs[t].order) == c
    ensures c < |entries| ==> (Gets(entries, c, tlvs[t].order) <==> entries[c].Takes(tlvs[t]))
    ensures c < |entries| ==> (Gets(entries, c, tlvs[t].order) <==> CompareTypes(tlvs, t, entries, c) == 0)
  {
    hide Owner;
    OwnerIs(entries, tlvs[t].order);
    if c < |entries| {
      CompareIs(tlvs, t, entries, c);
    }
  }

  lemma OffendedNext(tlvs: seq<TlvEntry>, dropped: set<nat>, idx: Byte, entries: seq<Entry>, i: nat, t: nat)
    requires t < |tlvs|
    ensures OffendedBefore(tlvs, dropped, idx, entries, i, t + 1) <==>
      OffendedBefore(tlvs, dropped, idx, entries, i, t) || Offends(tlvs, dropped, idx, entries, i, t)
  {
    hide Offends;
  }

  lemma NoOffence(tlvs: seq<TlvEntry>, dropped: set<nat>, idx: Byte, entries: seq<Entry>, i: nat, m: nat, n: nat)
    requires m <= n <= |tlvs| && forall k :: m <= k < n ==> !Gets(entries, i, tlvs[k].order)
    ensures OffendedBefore(tlvs, dropped, idx, entries, i, n) <==> OffendedBefore(tlvs, dropped, idx, entries, i, m)
  {
    hide Gets;
  }

  /** The TLVs ahead when the entry moves on; t is the position of the next TLV. */
  lemma NextEntry(tlvs: seq<TlvEntry>, entries: seq<Entry>, t: nat, c: nat)
    requires Ascending(tlvs) && t <= |tlvs| && c < |entries| && CompareTypes(tlvs, t, entries, c) > 0
    ensures forall k :: t <= k < |tlvs| ==> tlvs[k].order > entries[c].High()
  {
    if t < |tlvs| {
      CompareIs(tlvs, t, entries, c);
    }
  }

  /** A step at which the current entry takes nothing more: its constraints are decided. */
  lemma Decided(tlvs: seq<TlvEntry>, dropped: set<nat>, idx: Byte, entries: seq<Entry>, i: nat, t: nat, n: nat)
    requires i < |entries| && t <= n <= |tlvs| && n <= t + 1
    requires forall k :: n <= k < |tlvs| ==> !Gets(entries, i, tlvs[k].order)
    requires (n == t || !Gets(entries, i, tlvs[t].order)) ==>
      forall k :: 0 <= k < t ==> !Gets(entries, i, tlvs[k].order)
    ensures Fails(tlvs, dropped, idx, entries, i) <==>
      || OffendedBefore(tlvs, dropped, idx, entries, i, n)
      || (entries[i].mandatory && (n == t || !Gets(entries, i, tlvs[t].order)))
  {
    hide Gets;
    NoOffence(tlvs, dropped, idx, entries, i, n, |tlvs|);
    if n == t || !Gets(entries, i, tlvs[t].order) {
      assert forall k :: 0 <= k < |tlvs| ==> !Gets(entries, i, tlvs[k].order);
    } else {
      assert tlvs[t] in tlvs;
    }
  }

  /** The exact meaning of the merge: it ends, every entry gets the TLVs of the types that go to it which cover the
   *  address, in tree order, and the constraints are those of Fails. */
  method ScheduleTlvBlock(tlvs: seq<TlvEntry>, dropped: set<nat>, entries: seq<Entry>, idx: Byte)
    returns (found: seq<seq<nat>>, failed: bool)
    requires Ascending(tlvs)
    ensures |found| == |entries|
      && forall i :: 0 <= i < |entries| ==> found[i] == Wanted(tlvs, dropped, idx, entries, i, |tlvs|)
    ensures failed <==> exists i :: 0 <= i < |entries| && Fails(tlvs, dropped, idx, entries, i)
  {
    hide Ascending, Wanted, Fails, OffendedBefore;
    var t, c := 0, 0;
    found, failed := seq(|entries|, _ => []), false;
    Start(tlvs, dropped, idx, entries);
    while c < |entries| || t < |tlvs|
      invariant Merged(tlvs, dropped, idx, entries, t, c, found, failed)
      decreases |tlvs| - t + |entries| - c
    {
      var match_ := t < |tlvs| && t !in dropped && tlvs[t].Covers(idx) && c < |entries|
        && CompareTypes(tlvs, t, entries, c) == 0;
      var t', c', found', failed' := t, c, found, failed;
      if CompareTypes(tlvs, t, entries, c) >= 0 {
        failed' := failed' || (entries[c].mandatory && !match_);
        if match_ {
          if entries[c].matchLength
            && (tlvs[t].length < entries[c].minLength || tlvs[t].length > entries[c].maxLength) {
            failed' := true;
          }
          found' := found[c := found[c] + [t]];
        }
      }
      if t < |tlvs| && CompareTypes(tlvs, t, entries, c) <= 0 {
        t' := t + 1;
      }
      if CompareTypes(tlvs, t', entries, c) > 0 {
        failed' := failed' || (entries[c].mandatory && !match_);
        c' := c + 1;
      }
      Step(tlvs, dropped, idx, entries, t, c, found, failed, t', c', found', failed');
      t, c, found, failed := t', c', found', failed';
    }
    AtEnd(tlvs, dropped, idx, entries, found, failed);
  }

  lemma AtEnd(tlvs: seq<TlvEntry>, dropped: set<nat>, idx: Byte, entries: seq<Entry>, found: seq<seq<nat>>,
              failed: bool)
    requires Merged(tlvs, dropped, idx, entries, |tlvs|, |entries|, found, failed)
    ensures |found| == |entries|
      && forall i :: 0 <= i < |entries| ==> found[i] == Wanted(tlvs, dropped, idx, entries, i, |tlvs|)
    ensures failed <==> exists i :: 0 <= i < |entries| && Fails(tlvs, dropped, idx, entries, i)
  {
  }

  ghost predicate IsStep(tlvs: seq<TlvEntry>, dropped: set<nat>, idx: Byte, entries: seq<Entry>, t: nat, c: nat,
                         found: seq<seq<nat>>, failed: bool, t': nat, c': nat, found': seq<seq<nat>>, failed': bool)
  {
    var cmp := CompareTypes(tlvs, t, entries, c);
    var hit := cmp == 0 && Present(tlvs, dropped, idx, t);
    && t' == (if t < |tlvs| && cmp <= 0 then t + 1 else t)
    && c' == (if CompareTypes(tlvs, t', entries, c) > 0 then c + 1 else c)
    && (cmp >= 0 || c' > c ==> c < |entries|)
    && (hit ==> c < |found|)
    && found' == (if hit then found[c := found[c] + [t]] else found)
    && (failed' <==> failed || (cmp >= 0 && entries[c].mandatory && !hit) || (hit && BadLength(entries[c], tlvs[t]))
                     || (c' > c && entries[c].mandatory && !hit))
  }

  lemma StepOrder(tlvs: seq<TlvEntry>, entries: seq<Entry>, t: nat, c: nat, t': nat, c': nat)
    requires Ascending(tlvs) && t <= |tlvs| && c <= |entries| && InStep(tlvs, entries, t, c)
    requires c < |entries| || t < |tlvs|
    requires t' == if t < |tlvs| && CompareTypes(tlvs, t, entries, c) <= 0 then t + 1 else t
    requires c' == if CompareTypes(tlvs, t', entries, c) > 0 then c + 1 else c
    ensures c' <= |entries| && InStep(tlvs, entries, t', c')
  {
    hide Ascending, Owner;
    if t' > t {
      CurrentOwns(tlvs, entries, t, c);
    }
    if c' > c {
      NextEntry(tlvs, entries, t', c);
    }
  }

  lemma StepFailed(tlvs: seq<TlvEntry>, dropped: set<nat>, idx: Byte, entries: seq<Entry>, t: nat, c: nat,
                   found: seq<seq<nat>>, failed: bool, t': nat, c': nat, found': seq<seq<nat>>, failed': bool)
    requires Ascending(tlvs) && Merged(tlvs, dropped, idx, entries, t, c, found, failed)
    requires c < |entries| || t < |tlvs|
    requires IsStep(tlvs, dropped, idx, entries, t, c, found, failed, t', c', found', failed') && c' <= |entries|
    ensures FailedSoFar(tlvs, dropped, idx, entries, t', c', failed')
  {
    if c == |entries| {
      return;
    }
    hide Ascending, OffendedBefore, Fails, FoundSoFar, Owner, Gets, Present, BadLength, Entry.Takes, Entry.Low,
      Entry.High;
    if t' > t {
      CurrentOwns(tlvs, entries, t, c);
      OffendedNext(tlvs, dropped, idx, entries, c, t);
    }
    if c' > c {
      EntryDone(tlvs, dropped, idx, entries, t, c, t');
    }
  }

  /** The entry is left behind. */
  lemma EntryDone(tlvs: seq<TlvEntry>, dropped: set<nat>, idx: Byte, entries: seq<Entry>, t: nat, c: nat, t': nat)
    requires Ascending(tlvs) && t <= |tlvs| && c < |entries| && InStep(tlvs, entries, t, c)
    requires t' == if t < |tlvs| && CompareTypes(tlvs, t, entries, c) <= 0 then t + 1 else t
    requires CompareTypes(tlvs, t', entries, c) > 0
    ensures Fails(tlvs, dropped, idx, entries, c) <==>
      OffendedBefore(tlvs, dropped, idx, entries, c, t')
        || (entries[c].mandatory && (t' == t || !Gets(entries, c, tlvs[t].order)))
    ensures c + 1 < |entries| ==> !OffendedBefore(tlvs, dropped, idx, entries, c + 1, t')
  {
    hide Ascending, OffendedBefore, Fails, Owner;
    if t' > t {
      CurrentOwns(tlvs, entries, t, c);
      UpTo(tlvs, t);
    }
    NextEntry(tlvs, entries, t', c);
    Decided(tlvs, dropped, idx, entries, c, t, t');
    if c + 1 < |entries| {
      NoOffence(tlvs, dropped, idx, entries, c + 1, 0, t');
      NothingYet(tlvs, dropped, idx, entries, c + 1);
    }
  }

  lemma UpTo(tlvs: seq<TlvEntry>, t: nat)
    requires Ascending(tlvs) && t < |tlvs|
    ensures forall k :: 0 <= k <= t ==> tlvs[k].order <= tlvs[t].order
  {
  }

  lemma NothingYet(tlvs: seq<TlvEntry>, dropped: set<nat>, idx: Byte, entries: seq<Entry>, i: nat)
    ensures !OffendedBefore(tlvs, dropped, idx, entries, i, 0)
  {
  }

  /** Every step keeps the invariant. */
  lemma Step(tlvs: seq<TlvEntry>, dropped: set<nat>, idx: Byte, entries: seq<Entry>, t: nat, c: nat,
             found: seq<seq<nat>>, failed: bool, t': nat, c': nat, found': seq<seq<nat>>, failed': bool)
    requires Ascending(tlvs) && Merged(tlvs, dropped, idx, entries, t, c, found, failed)
    requires c < |entries| || t < |tlvs|
    requires IsStep(tlvs, dropped, idx, entries, t, c, found, failed, t', c', found', failed')
    ensures Merged(tlvs, dropped, idx, entries, t', c', found', failed')
  {
    hide Ascending, OffendedBefore, Fails, FailedSoFar, InStep, Wanted;
    StepOrder(tlvs, entries, t, c, t', c');
    StepFailed(tlvs, dropped, idx, entries, t, c, found, failed, t', c', found', failed');
    if t' > t {
      NextTlv(tlvs, dropped, idx, entries, t, c, found);
      if c < |entries| {
        CompareIs(tlvs, t, entries, c);
      }
    }
  }

  // ---------- Mandatory entries ----------

  /** What the fields of an entry promise: it fails if it is mandatory and gets nothing, or if a TLV that it gets has a
   *  bad length. */
  ghost predicate Broken(tlvs: seq<TlvEntry>, dropped: set<nat>, idx: Byte, entries: seq<Entry>, i: nat)
    requires i < |entries|
  {
    var wanted := Wanted(tlvs, dropped, idx, entries, i, |tlvs|);
    (entries[i].mandatory && wanted == []) || exists k :: k in wanted && BadLength(entries[i], tlvs[k])
  }

  /** All TLVs of the types of the entry are for the address. */
  ghost predicate AllPresent(tlvs: seq<TlvEntry>, dropped: set<nat>, idx: Byte, entries: seq<Entry>, i: nat)
    requires i < |entries|
  {
    forall k :: 0 <= k < |tlvs| && Gets(entries, i, tlvs[k].order) ==> Present(tlvs, dropped, idx, k)
  }

  /** An entry that should fail fails, and the other way round exactly if it is not mandatory, or should fail, or all
   *  TLVs of its types are for the address. */
  lemma MandatoryExact(tlvs: seq<TlvEntry>, dropped: set<nat>, idx: Byte, entries: seq<Entry>, i: nat)
    requires i < |entries|
    ensures Broken(tlvs, dropped, idx, entries, i) ==> Fails(tlvs, dropped, idx, entries, i)
    ensures (Fails(tlvs, dropped, idx, entries, i) <==> Broken(tlvs, dropped, idx, entries, i)) <==>
      !entries[i].mandatory || Broken(tlvs, dropped, idx, entries, i) || AllPresent(tlvs, dropped, idx, entries, i)
  {
    hide Wanted, BadLength, Gets;
    var wanted := Wanted(tlvs, dropped, idx, entries, i, |tlvs|);
    if Broken(tlvs, dropped, idx, entries, i) {
      BrokenFails(tlvs, dropped, idx, entries, i);
    } else if wanted != [] {
      assert wanted[0] in wanted;
      assert tlvs[wanted[0]] in tlvs;
      forall k | 0 <= k < |tlvs| && Gets(entries, i, tlvs[k].order)
        ensures Offends(tlvs, dropped, idx, entries, i, k) <==> entries[i].mandatory && !Present(tlvs, dropped, idx, k)
      {
        assert Present(tlvs, dropped, idx, k) ==> k in wanted;
      }
    } else {
      forall k | 0 <= k < |tlvs| && Gets(entries, i, tlvs[k].order) ensures !Present(tlvs, dropped, idx, k) {
        assert k !in wanted;
      }
    }
  }

  lemma BrokenFails(tlvs: seq<TlvEntry>, dropped: set<nat>, idx: Byte, entries: seq<Entry>, i: nat)
    requires i < |entries|
    requires Broken(tlvs, dropped, idx, entries, i)
    ensures Fails(tlvs, dropped, idx, entries, i)
  {
    hide Wanted, BadLength, Gets;
    var wanted := Wanted(tlvs, dropped, idx, entries, i, |tlvs|);
    if k :| k in wanted && BadLength(entries[i], tlvs[k]) {
      assert Offends(tlvs, dropped, idx, entries, i, k);
    } else if exists k :: 0 <= k < |tlvs| && Gets(entries, i, tlvs[k].order) {
      var k :| 0 <= k < |tlvs| && Gets(entries, i, tlvs[k].order);
      assert k !in wanted;
      assert Offends(tlvs, dropped, idx, entries, i, k);
    } else {
      assert forall t :: t in tlvs ==> !Gets(entries, i, t.order);
    }
  }

  /** Two addresses with a TLV of one type each, of different lengths. */
  function TwoAddresses(): (r: seq<Address>)
    ensures forall a :: a in r ==> a.Valid()
  {
    [Address([10, 0, 0, 1], 32, [AddrTlv(0x0500, [7])]), Address([10, 0, 0, 2], 32, [AddrTlv(0x0500, [7, 7])])]
  }

  lemma TwoRuns()
    ensures RunsOf(TwoAddresses()) == [Run(0x0500, 0, [[7]]), Run(0x0500, 1, [[7, 7]])]
  {
    var block := TwoAddresses();
    var s0, t, u := Scan([], []), AddrTlv(0x0500, [7]), AddrTlv(0x0500, [7, 7]);
    var s1 := Scan([], [Run(0x0500, 0, [[7]])]);
    var s2 := Scan([Run(0x0500, 0, [[7]])], [Run(0x0500, 1, [[7, 7]])]);
    assert Feed(s0, 0, t) == s1;
    assert FeedAddress(s0, 0, block[0].tlvs, 0) == FeedAddress(s1, 0, block[0].tlvs, 1) == s1;
    assert ActiveAt(s1.open, 0x0500) == 0;
    assert Feed(s1, 1, u) == s2;
    assert FeedAddress(s1, 1, block[1].tlvs, 0) == FeedAddress(s2, 1, block[1].tlvs, 1) == s2;
    assert FeedBlock(s0, block, 0) == FeedBlock(s1, block, 1) == FeedBlock(s2, block, 2) == s2;
  }

  /** What the reader makes of the two addresses: the first has its mandatory TLV, and the constraints fail all the
   *  same. */
  lemma MandatoryPresentAndFailed()
    ensures forall t :: t in TlvsOf(TwoAddresses()) ==> Readable(t, 2)
    ensures var tlvs := InsertAll(EntriesOf(TlvsOf(TwoAddresses()), 2));
      var e := Entry(5, 0, false, true, false, 0, 0);
      tlvs == [TlvEntry(0x0500, 0, 0, 1, false, [7]), TlvEntry(0x0500, 1, 1, 2, false, [7, 7])]
      && Wanted(tlvs, {}, 0, [e], 0, 2) == [0] && Fails(tlvs, {}, 0, [e], 0)
  {
    TwoRuns();
    var ts := TlvsOf(TwoAddresses());
    assert ts == [Tlv(0x0500, One(0), false, [7]), Tlv(0x0500, One(1), false, [7, 7])];
    var tlvs := [TlvEntry(0x0500, 0, 0, 1, false, [7]), TlvEntry(0x0500, 1, 1, 2, false, [7, 7])];
    assert EntriesOf(ts, 2) == tlvs;
    InsertTwo(tlvs[0], tlvs[1]);
    var e := Entry(5, 0, false, true, false, 0, 0);
    assert Gets([e], 0, 0x0500);
    assert Wanted(tlvs, {}, 0, [e], 0, 0) == [];
    assert Wanted(tlvs, {}, 0, [e], 0, 1) == [0];
    assert Offends(tlvs, {}, 0, [e], 0, 1);
  }

  lemma InsertTwo(a: TlvEntry, b: TlvEntry)
    requires a.order == b.order
    ensures InsertAll([a, b]) == [a, b]
  {
    assert [a, b][..1] == [a] && [a][..0] == [];
    assert Orders([]) == [] && Orders([a]) == [a.order];
    assert InsertAll([a]) == [a];
    assert InsertEntry([a], b) == [a, b];
  }

  // ---------- What a consumer gets of an address ----------

  /** The TLVs of the types that go to an entry. */
  function OfTypes(s: seq<AddrTlv>, entries: seq<Entry>, i: nat): (r: seq<AddrTlv>)
    ensures forall t :: t in r <==> t in s && Gets(entries, i, t.full)
  {
    if s == [] then [] else
    var before, t := OfTypes(s[..|s| - 1], entries, i), s[|s| - 1];
    if Gets(entries, i, t.full) then before + [t] else before
  }

  /** The TLVs at some positions, with their values for an address. */
  function Values(tlvs: seq<TlvEntry>, ks: seq<nat>, idx: Byte): (r: seq<AddrTlv>)
    requires forall k :: k in ks ==> k < |tlvs| && tlvs[k].Covers(idx) && tlvs[k].Sound()
  {
    seq(|ks|, i requires 0 <= i < |ks| => (assert ks[i] in ks; AddrTlv(tlvs[ks[i]].order, tlvs[ks[i]].Value(idx))))
  }

  lemma {:induction false} FoundMore(s: seq<TlvEntry>, e: TlvEntry, idx: Byte)
    requires e.Sound() && forall t :: t in s ==> t.Sound()
    ensures Found(s + [e], idx) == Found(s, idx) + if e.Covers(idx) then [AddrTlv(e.order, e.Value(idx))] else []
  {
    if s == [] {
      assert [e][1..] == [];
    } else {
      assert (s + [e])[1..] == s[1..] + [e];
      FoundMore(s[1..], e, idx);
    }
  }

  /** What an entry gets is what the address has of the types of the entry. */
  lemma {:induction false} WantedValues(tlvs: seq<TlvEntry>, idx: Byte, entries: seq<Entry>, i: nat, n: nat)
    requires n <= |tlvs| && forall t :: t in tlvs ==> t.Sound()
    ensures Values(tlvs, Wanted(tlvs, {}, idx, entries, i, n), idx) == OfTypes(Found(tlvs[..n], idx), entries, i)
  {
    hide Gets;
    if n > 0 {
      var x, before := tlvs[n - 1], tlvs[..n - 1];
      assert tlvs[..n] == before + [x];
      FoundMore(before, x, idx);
      WantedValues(tlvs, idx, entries, i, n - 1);
      var f := Found(before, idx);
      if x.Covers(idx) {
        var g := f + [AddrTlv(x.order, x.Value(idx))];
        assert g[..|g| - 1] == f;
      } else {
        assert f + [] == f;
      }
    }
  }

  /** From the writer to the consumer: for every block, address and entry, the entry ends with exactly the TLVs of its
   *  types that the writer was given for the address. */
  lemma ConsumerGets(block: seq<Address>, j: Byte, entries: seq<Entry>, i: nat)
    requires j < |block| <= 255 && forall a :: a in block ==> a.Valid()
    requires forall t :: t in TlvsOf(block) ==> |t.value| < 0x1_0000
    ensures forall t :: t in TlvsOf(block) ==> Readable(t, |block|)
    ensures var tlvs := InsertAll(EntriesOf(TlvsOf(block), |block|));
      && Ascending(tlvs) && (forall t :: t in tlvs ==> t.Sound())
      && Values(tlvs, Wanted(tlvs, {}, j, entries, i, |tlvs|), j) == OfTypes(block[j].tlvs, entries, i)
  {
    hide TlvsOf, EntriesOf, Readable, InsertAll, Found, Address.Valid, Values, Wanted, OfTypes, TlvEntry.Sound;
    TlvsReadable(block);
    DecodeBlock(block, j);
    var es := EntriesOf(TlvsOf(block), |block|);
    InsertAllFacts(es);
    var tlvs := InsertAll(es);
    WantedValues(tlvs, j, entries, i, |tlvs|);
    assert tlvs[..|tlvs|] == tlvs;
  }

  // ---------- Sorting the entries ----------

  ghost predicate Sorted(s: seq<Entry>) {
    forall i, j :: 0 <= i < j < |s| ==> s[i].Order() <= s[j].Order()
  }

  /** A maximum below the minimum counts as the minimum. */
  function Repaired(e: Entry): (r: Entry)
    ensures r == e.(maxLength := r.maxLength) && r.minLength <= r.maxLength && e.maxLength <= r.maxLength
      && (r.maxLength == e.minLength || r.maxLength == e.maxLength)
  {
    if e.minLength > e.maxLength then e.(maxLength := e.minLength) else e
  }

  ghost function AllRepaired(es: seq<Entry>): (r: seq<Entry>) {
    seq(|es|, i requires 0 <= i < |es| => Repaired(es[i]))
  }

  /** The entries of one type and extension. */
  ghost function OfOrder(s: seq<Entry>, order: U16): (r: seq<Entry>) {
    if s == [] then [] else
    var before, e := OfOrder(s[..|s| - 1], order), s[|s| - 1];
    if 256 * (e.tlvType as int) + e.ext == order then before + [e] else before
  }

  lemma {:induction false} OfOrderConcat(s: seq<Entry>, t: seq<Entry>, order: U16)
    ensures OfOrder(s + t, order) == OfOrder(s, order) + OfOrder(t, order)
  {
    if t == [] {
      assert s + t == s;
    } else {
      var n, u := |t| - 1, s + t;
      assert u[..|u| - 1] == s + t[..n];
      OfOrderConcat(s, t[..n], order);
    }
  }

  lemma {:induction false} NoneOfOrder(s: seq<Entry>, order: U16)
    requires forall e :: e in s ==> e.Order() != order
    ensures OfOrder(s, order) == []
  {
    if s != [] {
      NoneOfOrder(s[..|s| - 1], order);
      assert s[|s| - 1] in s;
    }
  }

  /** Behind the last entry of the list that is not above e: entries of one type and extension stay in their order. */
  method InsertSorted(list: seq<Entry>, e: Entry) returns (r: seq<Entry>)
    requires Sorted(list)
    ensures Sorted(r) && multiset(r) == multiset(list) + multiset{e}
    ensures forall order: U16 :: OfOrder(r, order) == OfOrder(list + [e], order)
  {
    var at := |list|;
    while at > 0 && list[at - 1].Order() > e.Order()
      invariant 0 <= at <= |list| && forall k :: at <= k < |list| ==> list[k].Order() > e.Order()
    {
      at := at - 1;
    }
    r := list[..at] + [e] + list[at..];
    InsertedMultiset(list, at, e);
    InsertedSorted(list, at, e);
    forall order: U16 ensures OfOrder(r, order) == OfOrder(list + [e], order) {
      InsertedStable(list, at, e, order);
    }
  }

  lemma InsertedSorted(list: seq<Entry>, at: nat, e: Entry)
    requires Sorted(list) && at <= |list|
    requires (at > 0 ==> list[at - 1].Order() <= e.Order()) && (at < |list| ==> e.Order() < list[at].Order())
    ensures Sorted(list[..at] + [e] + list[at..])
  {
    hide Entry.Order;
    var r := list[..at] + [e] + list[at..];
    forall i, j | 0 <= i < j < |r| ensures r[i].Order() <= r[j].Order() {
      var a, b := if i < at then i else i - 1, if j < at then j else j - 1;
      assert i != at ==> r[i] == list[a];
      assert j != at ==> r[j] == list[b];
      assert i < at ==> list[i].Order() <= list[at - 1].Order();
      assert j > at ==> list[at].Order() <= list[j - 1].Order();
    }
  }

  lemma InsertedStable(list: seq<Entry>, at: nat, e: Entry, order: U16)
    requires at <= |list| && forall k :: at <= k < |list| ==> list[k].Order() > e.Order()
    ensures OfOrder(list[..at] + [e] + list[at..], order) == OfOrder(list + [e], order)
  {
    hide Entry.Order;
    OfOrderConcat(list[..at] + [e], list[at..], order);
    OfOrderConcat(list[..at], [e], order);
    OfOrderConcat(list, [e], order);
    assert list == list[..at] + list[at..];
    OfOrderConcat(list[..at], list[at..], order);
    if order == e.Order() {
      NoneOfOrder(list[at..], order);
    } else {
      NoneOfOrder([e], order);
    }
  }

  lemma MoreOfOrder(s: seq<Entry>, t: seq<Entry>, e: Entry)
    requires forall order: U16 :: OfOrder(s, order) == OfOrder(t, order)
    ensures forall order: U16 :: OfOrder(s + [e], order) == OfOrder(t + [e], order)
  {
    forall order: U16 ensures OfOrder(s + [e], order) == OfOrder(t + [e], order) {
      OfOrderConcat(s, [e], order);
      OfOrderConcat(t, [e], order);
    }
  }

  /** The entry list of _add_consumer: an insertion sort. Entries of one type and extension keep their order, in which
   *  the first of them gets the TLVs. */
  method SortEntries(es: seq<Entry>) returns (list: seq<Entry>)
    ensures Sorted(list) && multiset(list) == multiset(AllRepaired(es))
    ensures forall order: U16 :: OfOrder(list, order) == OfOrder(AllRepaired(es), order)
  {
    hide Sorted, OfOrder;
    list := [];
    EmptySorted();
    for i := 0 to |es|
      invariant Sorted(list) && multiset(list) == multiset(AllRepaired(es[..i]))
      invariant forall order: U16 :: OfOrder(list, order) == OfOrder(AllRepaired(es[..i]), order)
    {
      MoreOfOrder(list, AllRepaired(es[..i]), Repaired(es[i]));
      list := InsertSorted(list, Repaired(es[i]));
      assert AllRepaired(es[..i + 1]) == AllRepaired(es[..i]) + [Repaired(es[i])];
    }
    assert es[..|es|] == es;
  }

  lemma EmptySorted()
    ensures Sorted([])
  {
  }
}
