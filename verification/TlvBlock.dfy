/** TLV blocks (section 5.4 of RFC 5444) as the reader keeps them: in the AVL tree of module Avl, ordered by type. */
module TlvBlock {
  import opened Bytes
  import opened TlvFormat
  import opened OonfList
  import opened AvlShape
  import opened AvlRebalance
  import Avl

  /** avl_comp_uint16 */
  function Compare(a: int, b: int): (r: int) {
    if a > b then 1 else if a < b then -1 else 0
  }

  ghost function Orders(s: seq<TlvEntry>): (r: seq<int>) {
    seq(|s|, i requires 0 <= i < |s| => s[i].order)
  }

  /** avl_insert with duplicates. */
  ghost function InsertEntry(s: seq<TlvEntry>, e: TlvEntry): (r: seq<TlvEntry>) {
    Inserted(s, Slot(Compare, Orders(s), e.order), e)
  }

  /** The tree walk after the entries are inserted in the order in which they come. */
  ghost function InsertAll(s: seq<TlvEntry>): (r: seq<TlvEntry>) {
    if s == [] then [] else InsertEntry(InsertAll(s[..|s| - 1]), s[|s| - 1])
  }

  ghost predicate Ascending(s: seq<TlvEntry>) {
    forall i, j :: 0 <= i < j < |s| ==> s[i].order <= s[j].order
  }

  lemma {:induction false} SlotSides(s: seq<int>, key: int)
    requires forall i, j :: 0 <= i < j < |s| ==> s[i] <= s[j]
    ensures var i := Slot(Compare, s, key); (i > 0 ==> s[i - 1] <= key) && (i < |s| ==> key <= s[i])
  {
    if s != [] && key > s[0] {
      SlotSides(s[1..], key);
    }
  }

  lemma InsertedMultiset<T>(s: seq<T>, i: nat, x: T)
    requires i <= |s|
    ensures multiset(Inserted(s, i, x)) == multiset(s) + multiset{x}
  {
    assert s == s[..i] + s[i..];
  }

  lemma InsertedAscends(t: seq<TlvEntry>, i: nat, e: TlvEntry)
    requires Ascending(t) && i <= |t| && (i > 0 ==> t[i - 1].order <= e.order) && (i < |t| ==> e.order <= t[i].order)
    ensures Ascending(Inserted(t, i, e))
  {
    var r := Inserted(t, i, e);
    assert forall j :: 0 <= j < |r| ==> r[j] == if j < i then t[j] else if j == i then e else t[j - 1];
  }

  lemma {:induction false} InsertEntryFacts(t: seq<TlvEntry>, e: TlvEntry)
    requires Ascending(t)
    ensures Ascending(InsertEntry(t, e)) && multiset(InsertEntry(t, e)) == multiset(t) + multiset{e}
  {
    hide Slot, Inserted;
    SlotSides(Orders(t), e.order);
    var i := Slot(Compare, Orders(t), e.order);
    InsertedMultiset(t, i, e);
    InsertedAscends(t, i, e);
  }

  /** The tree holds the same TLVs as the block, ascending by type and extension. */
  lemma {:induction false} InsertAllFacts(s: seq<TlvEntry>)
    ensures Ascending(InsertAll(s)) && multiset(InsertAll(s)) == multiset(s)
  {
    hide Ascending, InsertEntry;
    if s == [] {
      EmptyAscends();
    } else {
      InsertAllFacts(s[..|s| - 1]);
      InsertEntryFacts(InsertAll(s[..|s| - 1]), s[|s| - 1]);
      assert s == s[..|s| - 1] + [s[|s| - 1]];
    }
  }

  lemma EmptyAscends()
    ensures Ascending([])
  {
  }

  /** The entries that the nodes of a list belong to (container_of). */
  ghost function Owned(owner: map<Node<int>, TlvEntry>, s: seq<Node<int>>): (r: seq<TlvEntry>)
    requires forall n :: n in s ==> n in owner
  {
    seq(|s|, i requires 0 <= i < |s| => owner[s[i]])
  }

  lemma InsertEntryIs(owner: map<Node<int>, TlvEntry>, s: seq<Node<int>>, e: TlvEntry)
    requires forall n :: n in s ==> n in owner && owner[n].order == n.key
    ensures InsertEntry(Owned(owner, s), e) == Inserted(Owned(owner, s), Slot(Compare, Keys(s), e.order), e)
  {
    assert Keys(s) == Orders(Owned(owner, s));
  }

  lemma InsertedElems<T>(s: seq<T>, i: nat, x: T)
    requires i <= |s|
    ensures Elems(Inserted(s, i, x)) == Elems(s) + {x}
  {
  }

  lemma OwnedInserted(owner: map<Node<int>, TlvEntry>, s: seq<Node<int>>, i: nat, n: Node<int>, e: TlvEntry)
    requires (forall m :: m in s ==> m in owner) && n !in s && i <= |s|
    ensures Owned(owner[n := e], Inserted(s, i, n)) == Inserted(Owned(owner, s), i, e)
  {
  }

  /** The avl_tree of struct rfc5444_reader_tlvblock_entry. owner is container_of. */
  class TlvTree {
    const tree: AvlTree<int>
    var owner: map<Node<int>, TlvEntry>

    ghost predicate Valid()
      reads this, tree, tree.head, tree.nodes
    {
      && Avl.Valid(tree) && tree.allowDups && tree.comp == Compare
      && tree.nodes <= owner.Keys && forall n :: n in tree.nodes ==> owner[n].order == n.key
    }

    /** The entries in the order of the tree walk. */
    ghost function Entries(): (r: seq<TlvEntry>)
      reads this, tree, tree.head, tree.nodes
      requires Valid()
    {
      Owned(owner, Avl.Contents(tree))
    }

    constructor ()
      ensures Valid() && Entries() == [] && fresh(tree) && fresh(tree.head) && tree.nodes == {}
    {
      var t := new AvlTree(Compare, true);
      owner := map[];
      tree := t;
      new;
      Avl.EmptyTree(tree);
    }

    /** avl_insert of a copy of the entry that was parsed. */
    method Insert(e: TlvEntry)
      requires Valid()
      modifies this, tree, tree.head, tree.nodes
      ensures Valid() && fresh(tree.nodes - old(tree.nodes))
      ensures Entries() == InsertEntry(old(Entries()), e)
    {
      hide Avl.Valid, Avl.Contents, Slot, Keys, Inserted, InsertEntry;
      ghost var before, entries := Avl.Contents(tree), Entries();
      var node := new Node<int>(e.order);
      Avl.ValidNodes(tree);
      var _ := Avl.Insert(tree, node);
      ghost var i := Slot(Compare, Keys(before), e.order);
      OwnedInserted(owner, before, i, node, e);
      InsertEntryIs(owner, before, e);
      owner := owner[node := e];
      Avl.ValidNodes(tree);
      InsertedElems(before, i, node);
    }

    /** The entries from the first to the last node of the list, as _schedule_tlvblock goes through them. */
    method Walk() returns (s: seq<TlvEntry>)
      requires Valid()
      ensures s == Entries()
    {
      hide Avl.Contents, Avl.GoodWalk, Owned;
      ghost var list := Avl.Contents(tree);
      ghost var i := 0;
      Avl.ValidNodes(tree);
      OwnedNone(owner, list);
      assert At(tree.head, list, 0).next == At(tree.head, list, 1);
      var node := tree.head.next;
      s := [];
      while node != tree.head
        invariant i <= |list| && node == At(tree.head, list, i + 1) && s == Owned(owner, list[..i])
        decreases |list| - i
      {
        OwnedNext(owner, list, i);
        assert At(tree.head, list, i + 1).next == At(tree.head, list, i + 2);
        s := s + [owner[node]];
        node := node.next;
        i := i + 1;
      }
      assert list[..i] == list;
    }
  }

  lemma OwnedNone(owner: map<Node<int>, TlvEntry>, s: seq<Node<int>>)
    ensures Owned(owner, s[..0]) == []
  {
  }

  lemma OwnedNext(owner: map<Node<int>, TlvEntry>, s: seq<Node<int>>, i: nat)
    requires i < |s| && forall n :: n in s ==> n in owner
    ensures s[i] in owner && Owned(owner, s[..i + 1]) == Owned(owner, s[..i]) + [owner[s[i]]]
  {
  }

  // ---------- Parsing a block ----------

  datatype BlockResult = BlockOk(entries: seq<TlvEntry>, at: nat) | BlockErr(error: Status)

  /** The TLVs from at on, as long as the cursor is in front of end. */
  function ParseTlvs(buf: seq<Byte>, at: nat, end: nat, eob: nat, addrCount: Byte): (r: BlockResult)
    requires end <= eob <= |buf|
    ensures r.BlockErr? ==> r.error != Okay && (Faulty(r.error) ==> r.error == DivisionByZero)
    ensures r.BlockOk? ==> end <= r.at && at + 2 * |r.entries| <= r.at && (at <= eob ==> r.at <= eob)
    ensures r.BlockOk? ==> forall e :: e in r.entries ==> e.Sound() && (addrCount > 0 ==> e.index2 < addrCount)
    decreases eob - at
  {
    if at >= end then BlockOk([], at) else
    match ParseTlv(buf, at, eob, addrCount)
    case TlvErr(error) => BlockErr(error)
    case TlvOk(e, next) => Prepend([e], ParseTlvs(buf, next, end, eob, addrCount))
  }

  function Prepend(es: seq<TlvEntry>, r: BlockResult): (q: BlockResult) {
    match r
    case BlockErr(_) => r
    case BlockOk(fs, at) => BlockOk(es + fs, at)
  }

  function TlvBlockEnd(buf: seq<Byte>, at: nat): (r: nat)
    requires at + 2 <= |buf|
  {
    at + 2 + Join(buf[at], buf[at + 1])
  }

  /** A length field and the TLVs behind it, in the order of the bytes. */
  function ParseBlock(buf: seq<Byte>, at: nat, eob: nat, addrCount: Byte): (r: BlockResult)
    requires eob <= |buf|
    ensures r.BlockErr? ==> r.error != Okay && (Faulty(r.error) ==> r.error == DivisionByZero)
    ensures r.BlockOk? ==> at + 2 + 2 * |r.entries| <= r.at <= eob
    ensures r.BlockOk? ==> forall e :: e in r.entries ==> e.Sound() && (addrCount > 0 ==> e.index2 < addrCount)
  {
    if at + 2 > eob || TlvBlockEnd(buf, at) > eob then BlockErr(EndOfBuffer)
    else ParseTlvs(buf, at + 2, TlvBlockEnd(buf, at), eob, addrCount)
  }

  /** _parse_tlvblock. Every TLV is parsed against the end of the message, not of the block, so the cursor may pass
   *  the end of the block; it does not pass eob. The loop ends on every byte string; the result is DivisionByZero
   *  exactly if a TLV that is reached divides by 0. */
  method ParseTlvBlock(buf: seq<Byte>, at: nat, eob: nat, addrCount: Byte)
    returns (status: Status, next: nat, block: TlvTree)
    requires eob <= |buf|
    ensures fresh(block) && fresh(block.tree) && fresh(block.tree.head) && fresh(block.tree.nodes) && block.Valid()
    ensures var r := ParseBlock(buf, at, eob, addrCount);
      && (r.BlockOk? ==> status == Okay && next == r.at && block.Entries() == InsertAll(r.entries))
      && (r.BlockErr? ==> status == r.error != Okay && next == eob)
    ensures status == DivisionByZero <==> SomeDivides(buf, BlockPlaces(buf, at, eob, addrCount))
  {
    hide TlvTree.Valid, TlvTree.Entries, InsertAll, InsertEntry, Prepend, ParseTlv, ParseTlvs, SomeDivides, BlockPlaces;
    BlockDivides(buf, at, eob, addrCount);
    block := new TlvTree();
    InsertAllNone();
    var (length, c) := GetU16(buf, Cursor(at, Okay), eob);
    var end := at + 2 + length;
    if end > eob {
      return EndOfBuffer, eob, block;
    }
    ghost var es: seq<TlvEntry> := [];
    next := c.at;
    PrependNone(ParseTlvs(buf, next, end, eob, addrCount));
    while next < end
      invariant at + 2 <= next <= eob
      invariant fresh(block) && fresh(block.tree) && fresh(block.tree.head) && fresh(block.tree.nodes)
      invariant block.Valid() && block.Entries() == InsertAll(es)
      invariant ParseTlvs(buf, at + 2, end, eob, addrCount) == Prepend(es, ParseTlvs(buf, next, end, eob, addrCount))
      decreases eob - next
    {
      ParseStep(buf, next, end, eob, addrCount);
      match ParseTlv(buf, next, eob, addrCount)
      case TlvErr(error) =>
        return error, eob, block;
      case TlvOk(e, after) =>
        InsertAllOne(es, e);
        PrependTwice(es, e, ParseTlvs(buf, after, end, eob, addrCount));
        block.Insert(e);
        next := after;
        es := es + [e];
    }
    ParseStep(buf, next, end, eob, addrCount);
    status := Okay;
  }

  lemma ParseStep(buf: seq<Byte>, at: nat, end: nat, eob: nat, addrCount: Byte)
    requires end <= eob <= |buf|
    ensures at >= end ==> forall es :: Prepend(es, ParseTlvs(buf, at, end, eob, addrCount)) == BlockOk(es, at)
    ensures at < end ==>
      var r := ParseTlv(buf, at, eob, addrCount);
      && (r.TlvErr? ==> forall es :: Prepend(es, ParseTlvs(buf, at, end, eob, addrCount)) == BlockErr(r.error))
      && (r.TlvOk? ==>
        ParseTlvs(buf, at, end, eob, addrCount) == Prepend([r.entry], ParseTlvs(buf, r.at, end, eob, addrCount)))
  {
    assert forall es: seq<TlvEntry> :: es + [] == es;
  }

  lemma InsertAllNone()
    ensures InsertAll([]) == []
  {
  }

  lemma PrependNone(r: BlockResult)
    ensures Prepend([], r) == r
  {
    if r.BlockOk? {
      assert [] + r.entries == r.entries;
    }
  }

  lemma InsertAllOne(es: seq<TlvEntry>, e: TlvEntry)
    ensures InsertAll(es + [e]) == InsertEntry(InsertAll(es), e)
  {
    assert (es + [e])[..|es|] == es;
  }

  lemma PrependTwice(es: seq<TlvEntry>, e: TlvEntry, r: BlockResult)
    ensures Prepend(es, Prepend([e], r)) == Prepend(es + [e], r)
  {
    if r.BlockOk? {
      assert es + ([e] + r.entries) == es + [e] + r.entries;
    }
  }

  // ---------- Where the code divides by 0 ----------

  /** A place at which _parse_tlv is called: cursor, end of the buffer and number of addresses. */
  datatype TlvPlace = TlvPlace(at: nat, eob: nat, addrCount: Byte)

  /** _parse_tlv divides by 0 at a place. */
  predicate Divides(buf: seq<Byte>, p: TlvPlace) {
    p.at <= p.eob <= |buf| && DividesByZero(buf, p.at, p.eob, p.addrCount)
  }

  /** The places that the loop over TLVs reaches. */
  function TlvPlaces(buf: seq<Byte>, at: nat, end: nat, eob: nat, addrCount: Byte): (r: seq<TlvPlace>)
    requires end <= eob <= |buf|
    decreases eob - at
  {
    if at >= end then [] else
    var t := ParseTlv(buf, at, eob, addrCount);
    [TlvPlace(at, eob, addrCount)] + if t.TlvOk? then TlvPlaces(buf, t.at, end, eob, addrCount) else []
  }

  function BlockPlaces(buf: seq<Byte>, at: nat, eob: nat, addrCount: Byte): (r: seq<TlvPlace>)
    requires eob <= |buf|
  {
    if at + 2 > eob || TlvBlockEnd(buf, at) > eob then []
    else TlvPlaces(buf, at + 2, TlvBlockEnd(buf, at), eob, addrCount)
  }

  /** One of the places divides by 0. */
  ghost predicate SomeDivides(buf: seq<Byte>, ps: seq<TlvPlace>) {
    exists p :: p in ps && Divides(buf, p)
  }

  lemma SomeConcat(buf: seq<Byte>, ps: seq<TlvPlace>, qs: seq<TlvPlace>)
    ensures SomeDivides(buf, ps + qs) <==> SomeDivides(buf, ps) || SomeDivides(buf, qs)
    ensures !SomeDivides(buf, [])
  {
  }

  lemma SomeOne(buf: seq<Byte>, p: TlvPlace)
    ensures SomeDivides(buf, [p]) <==> Divides(buf, p)
  {
    assert p in [p];
  }

  lemma {:induction false} TlvsDivide(buf: seq<Byte>, at: nat, end: nat, eob: nat, addrCount: Byte)
    requires end <= eob <= |buf|
    ensures ParseTlvs(buf, at, end, eob, addrCount) == BlockErr(DivisionByZero)
       <==> SomeDivides(buf, TlvPlaces(buf, at, end, eob, addrCount))
    decreases eob - at
  {
    hide ParseTlv, SomeDivides, DividesByZero;
    SomeConcat(buf, [], []);
    if at < end {
      var t, p := ParseTlv(buf, at, eob, addrCount), TlvPlace(at, eob, addrCount);
      DividesExact(buf, at, eob, addrCount);
      SomeOne(buf, p);
      if t.TlvOk? {
        TlvsDivide(buf, t.at, end, eob, addrCount);
        SomeConcat(buf, [p], TlvPlaces(buf, t.at, end, eob, addrCount));
      } else {
        SomeConcat(buf, [p], []);
      }
    }
  }

  /** A TLV block divides by 0 exactly if a TLV that is reached in it does. */
  lemma BlockDivides(buf: seq<Byte>, at: nat, eob: nat, addrCount: Byte)
    requires eob <= |buf|
    ensures ParseBlock(buf, at, eob, addrCount) == BlockErr(DivisionByZero) <==>
      SomeDivides(buf, BlockPlaces(buf, at, eob, addrCount))
  {
    hide ParseTlvs, TlvPlaces, SomeDivides;
    SomeConcat(buf, [], []);
    if at + 2 <= eob && TlvBlockEnd(buf, at) <= eob {
      TlvsDivide(buf, at + 2, TlvBlockEnd(buf, at), eob, addrCount);
    }
  }

  // ---------- Round trip ----------

  /** The reader undoes a sequence of TLVs. */
  lemma {:induction false} ReadTlvs(buf: seq<Byte>, p: nat, eob: nat, addrCount: Byte, ts: seq<Tlv>)
    requires forall t :: t in ts ==> Readable(t, addrCount)
    requires Has(buf, p, eob, TlvsBytes(ts))
    ensures ParseTlvs(buf, p, p + |TlvsBytes(ts)|, eob, addrCount)
         == BlockOk(EntriesOf(ts, addrCount), p + |TlvsBytes(ts)|)
    decreases |ts|
  {
    hide Readable, TlvBytes, TlvsBytes, Has, ParseTlv, EntryOf, ParseTlvs, EntriesOf;
    HasInside(buf, p, eob, TlvsBytes(ts));
    if ts == [] {
      TlvsBytesNone();
      NoTlvsLeft(buf, p, eob, addrCount);
      NoEntries(addrCount);
    } else {
      TlvsBytesHead(ts);
      HasConcat(buf, p, eob, TlvBytes(ts[0]), TlvsBytes(ts[1..]));
      ReadTlv(buf, p, eob, addrCount, ts[0]);
      ReadTlvs(buf, p + |TlvBytes(ts[0])|, eob, addrCount, ts[1..]);
      EntriesHead(ts, addrCount);
      TlvBytesLong(ts[0]);
      OneTlvLess(buf, p, p + |TlvsBytes(ts)|, eob, addrCount);
    }
  }

  lemma HasInside(buf: seq<Byte>, p: nat, eob: nat, b: seq<Byte>)
    requires Has(buf, p, eob, b)
    ensures p + |b| <= eob <= |buf|
  {
  }

  lemma NoEntries(addrCount: Byte)
    ensures EntriesOf([], addrCount) == []
  {
  }

  lemma EntriesHead(ts: seq<Tlv>, addrCount: Byte)
    requires ts != [] && forall t :: t in ts ==> Readable(t, addrCount)
    ensures forall t :: t in ts[1..] ==> Readable(t, addrCount)
    ensures EntriesOf(ts, addrCount) == [EntryOf(ts[0], addrCount)] + EntriesOf(ts[1..], addrCount)
  {
    hide Readable, EntryOf;
  }

  lemma NoTlvsLeft(buf: seq<Byte>, at: nat, eob: nat, addrCount: Byte)
    requires at <= eob <= |buf|
    ensures ParseTlvs(buf, at, at, eob, addrCount) == BlockOk([], at)
  {
  }

  lemma OneTlvLess(buf: seq<Byte>, at: nat, end: nat, eob: nat, addrCount: Byte)
    requires at < end <= eob <= |buf| && ParseTlv(buf, at, eob, addrCount).TlvOk?
    ensures var t := ParseTlv(buf, at, eob, addrCount);
      ParseTlvs(buf, at, end, eob, addrCount) == Prepend([t.entry], ParseTlvs(buf, t.at, end, eob, addrCount))
  {
    hide ParseTlv;
  }

  lemma TlvBytesLong(t: Tlv)
    ensures |TlvBytes(t)| >= 2 + |t.value|
  {
  }

  lemma TlvsBytesNone()
    ensures TlvsBytes([]) == []
  {
  }

  lemma TlvsBytesHead(ts: seq<Tlv>)
    requires ts != []
    ensures TlvsBytes(ts) == TlvBytes(ts[0]) + TlvsBytes(ts[1..])
  {
    assert ts == [ts[0]] + ts[1..];
    TlvsBytesConcat([ts[0]], ts[1..]);
    TlvsBytesOne(ts[0]);
  }

  /** A TLV block: its length field and its TLVs. */
  function TlvBlockBytes(ts: seq<Tlv>): (r: seq<Byte>)
    requires |TlvsBytes(ts)| < 0x1_0000
  {
    U16Bytes(|TlvsBytes(ts)|) + TlvsBytes(ts)
  }

  lemma ReadTlvBlock(buf: seq<Byte>, p: nat, eob: nat, addrCount: Byte, ts: seq<Tlv>)
    requires forall t :: t in ts ==> Readable(t, addrCount)
    requires |TlvsBytes(ts)| < 0x1_0000 && Has(buf, p, eob, TlvBlockBytes(ts))
    ensures ParseBlock(buf, p, eob, addrCount) == BlockOk(EntriesOf(ts, addrCount), p + |TlvBlockBytes(ts)|)
  {
    hide Readable, TlvBytes, TlvsBytes, EntryOf, ParseTlvs;
    HasConcat(buf, p, eob, U16Bytes(|TlvsBytes(ts)|), TlvsBytes(ts));
    ReadU16(buf, p, eob, |TlvsBytes(ts)|);
    ReadTlvs(buf, p + 2, eob, addrCount, ts);
  }
}
