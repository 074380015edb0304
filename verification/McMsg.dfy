/** aodvv2_mcmsg.c: the multicast messages that a router remembers to recognise redundant ones. */
module McMsg {
  import opened Bytes

  const MAX_ENTRIES := 16
  const UNSPECIFIED := 0  // the IPv6 address ::

  /** The address fields of a RREQ that make entries compatible. */
  datatype Key = Key(orig: nat, origLen: Byte, targ: nat, metricType: nat)

  /** What the set looks at in a received or originated RREQ. */
  datatype Rreq = Rreq(key: Key, seqnum: U16, metric: Byte, seqnortr: nat)

  /** internal_entry_t with its aodvv2_mcmsg_t */
  datatype Slot = Empty | Used(key: Key, seqnum: U16, metric: Byte, seqnortr: nat, timestamp: nat, removal: nat)

  /** aodvv2_seqnum_cmp: (int16_t)(received - existing) */
  function SeqCmp(existing: U16, received: U16): (r: int)
    ensures -0x8000 <= r < 0x8000 && (existing + r) % 0x1_0000 == received
  {
    (received - existing + 0x8000) % 0x1_0000 - 0x8000
  }

  /** _reset_entry_if_stale */
  function Refreshed(s: Slot, now: nat): (r: Slot) {
    if s.Used? && now > s.removal then Empty else s
  }

  /** _is_comparable */
  predicate Comparable(s: Slot, m: Rreq) {
    s.Used? && s.key == m.key && s.seqnortr == m.seqnortr
  }

  lemma ComparableIs(s: Slot, m: Rreq)
    requires s.Used?
    ensures Comparable(s, m) <==>
      if s.seqnortr == UNSPECIFIED && m.seqnortr == UNSPECIFIED then s.key == m.key
        else s.key == m.key && s.seqnortr == m.seqnortr
  {
  }

  datatype Verdict = Redundant | Ok

  // ---------- The specification ----------

  /** The first slot from i on that is in use, not stale, and comparable. */
  function Find(slots: seq<Slot>, m: Rreq, now: nat, i: nat): (k: nat)
    requires i <= |slots|
    ensures i <= k <= |slots| && (k < |slots| ==> Comparable(Refreshed(slots[k], now), m))
    ensures forall j :: i <= j < k ==> !Comparable(Refreshed(slots[j], now), m)
    decreases |slots| - i
  {
    if i == |slots| || Comparable(Refreshed(slots[i], now), m) then i else Find(slots, m, now, i + 1)
  }

  /** The first empty slot from i on. */
  function FindEmpty(slots: seq<Slot>, i: nat): (k: nat)
    requires i <= |slots|
    ensures i <= k <= |slots| && (k < |slots| ==> slots[k].Empty?) && forall j :: i <= j < k ==> slots[j].Used?
    decreases |slots| - i
  {
    if i == |slots| || slots[i].Empty? then i else FindEmpty(slots, i + 1)
  }

  /** The slots before n without the stale entries. */
  function Swept(slots: seq<Slot>, now: nat, n: nat): (r: seq<Slot>)
    ensures |r| == |slots| && forall i :: 0 <= i < |r| ==> r[i] == if i < n then Refreshed(slots[i], now) else slots[i]
  {
    seq(|slots|, i requires 0 <= i < |slots| => if i < n then Refreshed(slots[i], now) else slots[i])
  }

  /** A new entry. The code does not store the SeqNoRtr of the message. */
  function NewSlot(m: Rreq, now: nat, lifetime: nat): (r: Slot) {
    Used(m.key, m.seqnum, m.metric, UNSPECIFIED, now, now + lifetime)
  }

  /** Another live entry for the same key is no worse than the message. */
  predicate Beaten(s: Slot, m: Rreq, now: nat) {
    var r := Refreshed(s, now); r.Used? && r.key == m.key && r.metric <= m.metric
  }

  /** The first slot from i on, other than k, that beats the message. */
  function FindBeaten(slots: seq<Slot>, m: Rreq, now: nat, k: nat, i: nat): (b: nat)
    requires i <= |slots|
    ensures i <= b <= |slots| && (b < |slots| ==> b != k && Beaten(slots[b], m, now))
    ensures forall j :: i <= j < b && j != k ==> !Beaten(slots[j], m, now)
    decreases |slots| - i
  {
    if i == |slots| || (i != k && Beaten(slots[i], m, now)) then i else FindBeaten(slots, m, now, k, i + 1)
  }

  datatype Outcome = Outcome(slots: seq<Slot>, verdict: Verdict)

  /** A message without a comparable entry is put into the first empty slot, if there is one. */
  function Add(slots: seq<Slot>, m: Rreq, now: nat, lifetime: nat): (r: seq<Slot>)
    ensures |r| == |slots|
  {
    var e := FindEmpty(slots, 0);
    if e < |slots| then slots[e := NewSlot(m, now, lifetime)] else slots
  }

  /** A message with the comparable entry k. */
  function Update(slots: seq<Slot>, k: nat, m: Rreq, now: nat, lifetime: nat): (r: Outcome)
    requires k < |slots| && slots[k].Used? && slots[k].key == m.key
    ensures |r.slots| == |slots|
  {
    var s := slots[k].(timestamp := now, removal := now + lifetime);
    var cmp := SeqCmp(s.seqnum, m.seqnum);
    if cmp < 0 || (cmp == 0 && s.metric == m.metric) then Outcome(slots[k := s], Redundant) else
    var t := slots[k := s.(seqnum := m.seqnum, metric := m.metric)];
    var b := FindBeaten(t, m, now, k, 0);
    Outcome(Swept(t, now, b + 1)[k := t[k]], if b < |t| then Redundant else Ok)
  }

  /** aodvv2_mcmsg_process */
  function Process(slots: seq<Slot>, m: Rreq, now: nat, lifetime: nat): (r: Outcome)
    ensures |r.slots| == |slots|
  {
    var k := Find(slots, m, now, 0);
    if k == |slots| then Outcome(Add(Swept(slots, now, k), m, now, lifetime), Ok)
    else Update(Swept(slots, now, k + 1), k, m, now, lifetime)
  }

  // ---------- What the set guarantees ----------

  /** At most one entry for every key, and none with a SeqNoRtr. */
  ghost predicate OneEntry(slots: seq<Slot>) {
    && (forall i :: 0 <= i < |slots| && slots[i].Used? ==> slots[i].seqnortr == UNSPECIFIED)
    && (forall i, j :: 0 <= i < j < |slots| && slots[i].Used? && slots[j].Used? ==> slots[i].key != slots[j].key)
  }

  lemma SweptOneEntry(slots: seq<Slot>, now: nat, n: nat)
    requires OneEntry(slots)
    ensures OneEntry(Swept(slots, now, n))
  {
  }

  /** The set has the key of a message or room for it: a slot that is not in use, or whose removal has passed. */
  ghost predicate Takes(slots: seq<Slot>, m: Rreq, now: nat) {
    exists i :: 0 <= i < |slots| && (slots[i].Empty? || slots[i].removal < now || slots[i].key == m.key)
  }

  /** The entry makes the message redundant: it is newer, or it has the same sequence number and metric. */
  predicate Covers(s: Slot, m: Rreq) {
    s.Used? && (SeqCmp(s.seqnum, m.seqnum) < 0 || (s.seqnum == m.seqnum && s.metric == m.metric))
  }

  lemma NotBeaten(slots: seq<Slot>, m: Rreq, now: nat, k: nat, i: nat)
    requires i <= |slots| && k < |slots| && OneEntry(slots) && slots[k].Used? && slots[k].key == m.key
    ensures FindBeaten(slots, m, now, k, i) == |slots|
  {
  }

  /** An update replaces one entry and keeps the others as far as they are not stale. */
  lemma UpdateIs(slots: seq<Slot>, k: nat, m: Rreq, now: nat, lifetime: nat)
    requires OneEntry(slots) && k < |slots| && slots[k].Used? && slots[k].key == m.key
    ensures var r := Update(slots, k, m, now, lifetime);
      && (r.verdict.Redundant? <==> Covers(slots[k], m))
      && r.slots[k] == (if Covers(slots[k], m) then slots[k].(timestamp := now, removal := now + lifetime)
                        else slots[k].(timestamp := now, removal := now + lifetime, seqnum := m.seqnum,
                          metric := m.metric))
      && forall i :: 0 <= i < |slots| && i != k ==> r.slots[i] == slots[i] || r.slots[i] == Refreshed(slots[i], now)
  {
    hide FindBeaten, Swept;
    var t := slots[k := slots[k].(timestamp := now, removal := now + lifetime, seqnum := m.seqnum, metric := m.metric)];
    assert OneEntry(t);
    NotBeaten(t, m, now, k, 0);
  }

  // ---------- One message, on the fields of the entries ----------

  /** A message is new if every entry that compares with it has a removal that has passed. It goes into the first slot
   *  that is not in use or stale, with the times of its arrival and of its removal; all other stale entries go, and all
   *  entries whose removal has not passed stay. */
  lemma UnknownExact(slots: seq<Slot>, m: Rreq, now: nat, lifetime: nat)
    requires forall k ::
      0 <= k < |slots| && slots[k].Used? && slots[k].key == m.key && slots[k].seqnortr == m.seqnortr ==>
        slots[k].removal < now
    ensures var r := Process(slots, m, now, lifetime);
      && r.verdict == Ok
      && forall i :: 0 <= i < |slots| ==>
        r.slots[i] == if slots[i].Used? && now <= slots[i].removal then slots[i]
          else if forall j :: 0 <= j < i ==> slots[j].Used? && now <= slots[j].removal
            then Used(m.key, m.seqnum, m.metric, 0, now, now + lifetime)
          else Empty
  {
    var k := Find(slots, m, now, 0);
    assert k == |slots|;
    var t := Swept(slots, now, k);
    var e := FindEmpty(t, 0);
    forall i | 0 <= i < |slots| ensures t[i].Used? <==> slots[i].Used? && now <= slots[i].removal {
    }
    assert e < |t| ==> !t[e].Used?;
  }

  /** The message meets an entry k that compares with it, whose removal has not passed, and before which there is no
   *  other. The removal is put off. A message that is older by at most half of the circle, or has the number and the
   *  metric of the entry, is redundant and changes no other field. Any other replaces number and metric, and is
   *  redundant exactly if another entry for the key is no worse, up to which stale entries go. */
  lemma KnownExact(slots: seq<Slot>, m: Rreq, now: nat, lifetime: nat, k: nat)
    requires k < |slots| && slots[k].Used? && slots[k].key == m.key && slots[k].seqnortr == m.seqnortr
      && now <= slots[k].removal
    requires forall j ::
      0 <= j < k && slots[j].Used? && slots[j].key == m.key && slots[j].seqnortr == m.seqnortr ==>
        slots[j].removal < now
    ensures var r, s := Process(slots, m, now, lifetime), slots[k];
      if (m.seqnum - s.seqnum) % 0x1_0000 >= 0x8000 || (m.seqnum == s.seqnum && m.metric == s.metric) then
        && r.verdict == Redundant
        && r.slots[k] == Used(s.key, s.seqnum, s.metric, s.seqnortr, now, now + lifetime)
        && forall i :: 0 <= i < |slots| && i != k ==>
          r.slots[i] == if i < k && slots[i].Used? && slots[i].removal < now then Empty else slots[i]
      else
        && (r.verdict == Redundant <==>
            exists j ::
              0 <= j < |slots| && j != k && slots[j].Used? && now <= slots[j].removal && slots[j].key == m.key
                && slots[j].metric <= m.metric)
        && r.slots[k] == Used(m.key, m.seqnum, m.metric, m.seqnortr, now, now + lifetime)
        && forall i :: 0 <= i < |slots| && i != k ==>
          r.slots[i] == if slots[i].Used? && slots[i].removal < now
            && (i < k
                || forall j :: 0 <= j < i && j != k ==>
                  !(slots[j].Used? && now <= slots[j].removal && slots[j].key == m.key && slots[j].metric <= m.metric))
          then Empty else slots[i]
  {
    hide Update, Rivals;
    RivalsAre(slots, m, now);
    assert Find(slots, m, now, 0) == k;
    var t := Swept(slots, now, k + 1);
    UpdateExact(t, k, m, now, lifetime);
    forall j | 0 <= j < |slots| ensures Rivals(t[j], m, now) <==> Rivals(slots[j], m, now) {
      StaleNoRival(slots[j], m, now);
    }
  }

  lemma RivalsAre(slots: seq<Slot>, m: Rreq, now: nat)
    ensures forall j :: 0 <= j < |slots| ==> (Rivals(slots[j], m, now) <==>
      slots[j].Used? && now <= slots[j].removal && slots[j].key == m.key && slots[j].metric <= m.metric)
  {
  }

  lemma StaleNoRival(s: Slot, m: Rreq, now: nat)
    ensures Rivals(Refreshed(s, now), m, now) <==> Rivals(s, m, now)
    ensures Rivals(s, m, now) <==> Beaten(s, m, now)
  {
  }

  lemma UpdateExact(t: seq<Slot>, k: nat, m: Rreq, now: nat, lifetime: nat)
    requires k < |t| && t[k].Used? && t[k].key == m.key
    ensures var r, s := Update(t, k, m, now, lifetime), t[k];
      if (m.seqnum - s.seqnum) % 0x1_0000 >= 0x8000 || (m.seqnum == s.seqnum && m.metric == s.metric) then
        r == Outcome(t[k := s.(timestamp := now, removal := now + lifetime)], Redundant)
      else
        && (r.verdict == Redundant <==> exists j :: 0 <= j < |t| && j != k && Rivals(t[j], m, now))
        && r.slots[k] == Used(m.key, m.seqnum, m.metric, s.seqnortr, now, now + lifetime)
        && forall i :: 0 <= i < |t| && i != k ==>
          r.slots[i] == if t[i].Used? && t[i].removal < now
            && (forall j :: 0 <= j < i && j != k ==> !Rivals(t[j], m, now)) then Empty else t[i]
  {
    hide FindBeaten, Rivals, Beaten;
    var u := t[k := Used(m.key, m.seqnum, m.metric, t[k].seqnortr, now, now + lifetime)];
    var b := FindBeaten(u, m, now, k, 0);
    forall j | 0 <= j < |t| && j != k ensures Rivals(t[j], m, now) <==> Beaten(u[j], m, now) {
      StaleNoRival(t[j], m, now);
    }
    if b < |t| {
      assert Rivals(t[b], m, now);
    }
  }

  /** An entry for the key of a message whose removal has not passed, and with a metric that is no worse. */
  predicate Rivals(s: Slot, m: Rreq, now: nat) {
    s.Used? && now <= s.removal && s.key == m.key && s.metric <= m.metric
  }

  /** With no SeqNoRtr in use, every router keeps at most one entry per key. */
  lemma ProcessOneEntry(slots: seq<Slot>, m: Rreq, now: nat, lifetime: nat)
    requires OneEntry(slots) && m.seqnortr == UNSPECIFIED
    ensures OneEntry(Process(slots, m, now, lifetime).slots)
  {
    hide FindEmpty, Update;
    var k := Find(slots, m, now, 0);
    if k < |slots| {
      var t := Swept(slots, now, k + 1);
      SweptOneEntry(slots, now, k + 1);
      UpdateIs(t, k, m, now, lifetime);
    } else {
      SweptOneEntry(slots, now, k);
    }
  }

  /** The exact verdict: a message is redundant if and only if there is an entry for its key, whose removal has not
   *  passed, and which is newer by at most half of the circle of sequence numbers, or has the same sequence number
   *  and metric. */
  lemma VerdictExact(slots: seq<Slot>, m: Rreq, now: nat, lifetime: nat)
    requires OneEntry(slots) && m.seqnortr == UNSPECIFIED
    ensures Process(slots, m, now, lifetime).verdict.Redundant? <==>
      exists k :: 0 <= k < |slots| && slots[k].Used? && slots[k].key == m.key && now <= slots[k].removal
        && ((m.seqnum - slots[k].seqnum) % 0x1_0000 >= 0x8000
            || (slots[k].seqnum == m.seqnum && slots[k].metric == m.metric))
  {
    hide Update, Covers;
    var k := Find(slots, m, now, 0);
    CoversIs(m);
    if k < |slots| {
      SweptOneEntry(slots, now, k + 1);
      UpdateIs(Swept(slots, now, k + 1), k, m, now, lifetime);
      assert slots[k].Used? && now <= slots[k].removal;
    }
  }

  /** The sign of the difference of two numbers, as a number. */
  lemma CoversIs(m: Rreq)
    ensures forall s: Slot :: Covers(s, m) <==>
      s.Used? && ((m.seqnum - s.seqnum) % 0x1_0000 >= 0x8000 || (s.seqnum == m.seqnum && s.metric == m.metric))
  {
  }

  /** Sequence numbers only move forward: an entry that stays for its key gets no older number. */
  lemma SeqnumForward(slots: seq<Slot>, m: Rreq, now: nat, lifetime: nat, i: nat)
    requires OneEntry(slots) && m.seqnortr == UNSPECIFIED && i < |slots|
    ensures var r := Process(slots, m, now, lifetime).slots[i];
      Refreshed(slots[i], now).Used? ==> r.Used? && r.key == slots[i].key && SeqCmp(slots[i].seqnum, r.seqnum) >= 0
  {
    hide Update;
    var k := Find(slots, m, now, 0);
    if k < |slots| {
      SweptOneEntry(slots, now, k + 1);
      UpdateIs(Swept(slots, now, k + 1), k, m, now, lifetime);
    }
  }

  /** What is left of a message: an entry that covers it, or nothing if the set was full. */
  lemma Remembered(slots: seq<Slot>, m: Rreq, now: nat, lifetime: nat)
    requires OneEntry(slots) && m.seqnortr == UNSPECIFIED
    ensures var r := Process(slots, m, now, lifetime).slots;
      if Takes(slots, m, now)
      then exists k ::
        0 <= k < |r| && r[k].Used? && r[k].key == m.key && r[k].removal == now + lifetime && Covers(r[k], m)
      else forall k :: 0 <= k < |r| && r[k].Used? ==> r[k].key != m.key
  {
    hide Update;
    var k := Find(slots, m, now, 0);
    var r := Process(slots, m, now, lifetime).slots;
    if k < |slots| {
      SweptOneEntry(slots, now, k + 1);
      UpdateIs(Swept(slots, now, k + 1), k, m, now, lifetime);
      assert slots[k].key == m.key;
      assert r[k].Used? && Covers(r[k], m);
    } else {
      var t := Swept(slots, now, k);
      var e := FindEmpty(t, 0);
      if e < |t| {
        assert t[e].Empty?;
        assert slots[e].Empty? || slots[e].removal < now;
        assert r[e].Used? && Covers(r[e], m);
      } else {
        forall i | 0 <= i < |slots| ensures slots[i].Used? && now <= slots[i].removal && slots[i].key != m.key {
          assert t[i].Used?;
        }
      }
    }
  }

  /** Messages with the times at which they are processed, one after the other. */
  function ProcessAll(slots: seq<Slot>, ms: seq<(Rreq, nat)>, lifetime: nat): (r: seq<Slot>)
    ensures |r| == |slots|
  {
    if ms == [] then slots else
    Process(ProcessAll(slots, ms[..|ms| - 1], lifetime), ms[|ms| - 1].0, ms[|ms| - 1].1, lifetime).slots
  }

  /** Messages with other keys than m, without a SeqNoRtr, at times up to later. */
  ghost predicate Others(ms: seq<(Rreq, nat)>, m: Rreq, later: nat) {
    forall x :: x in ms ==> x.0.key != m.key && x.0.seqnortr == UNSPECIFIED && x.1 <= later
  }

  /** A message with another key leaves a live entry as it is, and makes no entry for the key. */
  lemma OtherKey(slots: seq<Slot>, m: Rreq, x: Rreq, now: nat, lifetime: nat, i: nat)
    requires OneEntry(slots) && x.seqnortr == UNSPECIFIED && x.key != m.key && i < |slots|
    ensures var r := Process(slots, x, now, lifetime).slots;
      && (slots[i].Used? && slots[i].key == m.key && now <= slots[i].removal ==> r[i] == slots[i])
      && (r[i].Used? && r[i].key == m.key ==> r[i] == slots[i])
  {
    hide Update;
    var k := Find(slots, x, now, 0);
    if k < |slots| {
      SweptOneEntry(slots, now, k + 1);
      UpdateIs(Swept(slots, now, k + 1), k, x, now, lifetime);
    }
  }

  lemma {:induction false} OthersKeep(slots: seq<Slot>, m: Rreq, ms: seq<(Rreq, nat)>, later: nat, lifetime: nat,
                                      i: nat)
    requires OneEntry(slots) && Others(ms, m, later) && i < |slots|
    ensures var r := ProcessAll(slots, ms, lifetime);
      && OneEntry(r)
      && (slots[i].Used? && slots[i].key == m.key && later <= slots[i].removal ==> r[i] == slots[i])
      && (r[i].Used? && r[i].key == m.key ==> r[i] == slots[i])
  {
    hide OneEntry, Process;
    if ms != [] {
      var n := |ms| - 1;
      assert ms[n] in ms;
      OthersKeep(slots, m, ms[..n], later, lifetime, i);
      var s := ProcessAll(slots, ms[..n], lifetime);
      OtherKey(s, m, ms[n].0, ms[n].1, lifetime, i);
      ProcessOneEntry(s, ms[n].0, ms[n].1, lifetime);
    }
  }

  /** Whatever messages with other keys come between two copies of a message, the second copy is redundant exactly if
   *  the set had the key or room for the first, and the lifetime has not passed: at the time of removal the entry still
   *  counts, and at the next it does not. */
  lemma DuplicateSuppressedAfter(slots: seq<Slot>, m: Rreq, now: nat, ms: seq<(Rreq, nat)>, later: nat, lifetime: nat)
    requires OneEntry(slots) && m.seqnortr == UNSPECIFIED && now <= later && Others(ms, m, later)
    ensures var between := ProcessAll(Process(slots, m, now, lifetime).slots, ms, lifetime);
      Process(between, m, later, lifetime).verdict.Redundant? <==>
        later <= now + lifetime
        && exists i :: 0 <= i < |slots| && (slots[i].Empty? || slots[i].removal < now || slots[i].key == m.key)
  {
    hide Process, ProcessAll, OneEntry, Takes;
    TakesIs(slots, m, now);
    var first := Process(slots, m, now, lifetime).slots;
    var between := ProcessAll(first, ms, lifetime);
    Remembered(slots, m, now, lifetime);
    ProcessOneEntry(slots, m, now, lifetime);
    StillOne(first, m, ms, later, lifetime);
    VerdictExact(between, m, later, lifetime);
    CoversIs(m);
    forall k | 0 <= k < |between|
      ensures between[k].Used? && between[k].key == m.key ==> between[k] == first[k]
      ensures first[k].Used? && first[k].key == m.key && later <= first[k].removal ==> between[k] == first[k]
    {
      OthersKeep(first, m, ms, later, lifetime, k);
    }
    if Takes(slots, m, now) {
      var k :| 0 <= k < |first| && first[k].Used? && first[k].key == m.key && first[k].removal == now + lifetime
        && Covers(first[k], m);
      OnlyEntry(first, m.key, k);
    }
  }

  lemma TakesIs(slots: seq<Slot>, m: Rreq, now: nat)
    ensures Takes(slots, m, now) <==>
      exists i :: 0 <= i < |slots| && (slots[i].Empty? || slots[i].removal < now || slots[i].key == m.key)
  {
  }

  lemma OnlyEntry(slots: seq<Slot>, key: Key, k: nat)
    requires OneEntry(slots) && k < |slots| && slots[k].Used? && slots[k].key == key
    ensures forall i :: 0 <= i < |slots| && slots[i].Used? && slots[i].key == key ==> i == k
  {
  }

  /** The same without messages between the copies. */
  lemma DuplicateSuppressed(slots: seq<Slot>, m: Rreq, now: nat, later: nat, lifetime: nat)
    requires OneEntry(slots) && m.seqnortr == UNSPECIFIED && now <= later
    ensures Process(Process(slots, m, now, lifetime).slots, m, later, lifetime).verdict.Redundant? <==>
      later <= now + lifetime
      && exists i :: 0 <= i < |slots| && (slots[i].Empty? || slots[i].removal < now || slots[i].key == m.key)
  {
    hide Process, OneEntry;
    DuplicateSuppressedAfter(slots, m, now, [], later, lifetime);
  }

  lemma {:induction false} StillOne(slots: seq<Slot>, m: Rreq, ms: seq<(Rreq, nat)>, later: nat, lifetime: nat)
    requires OneEntry(slots) && Others(ms, m, later)
    ensures OneEntry(ProcessAll(slots, ms, lifetime))
  {
    hide OneEntry, Process;
    if ms != [] {
      var n := |ms| - 1;
      assert ms[n] in ms;
      StillOne(slots, m, ms[..n], later, lifetime);
      ProcessOneEntry(ProcessAll(slots, ms[..n], lifetime), ms[n].0, ms[n].1, lifetime);
    }
  }

  // ---------- What lapses ----------

  /** Once the removal of all entries for its key has passed, a message is taken again, however old its number is, and
   *  it is put into the set if one slot is not in use or stale. */
  lemma StaleTaken(slots: seq<Slot>, m: Rreq, now: nat, lifetime: nat, e: nat)
    requires forall k :: 0 <= k < |slots| && slots[k].Used? && slots[k].key == m.key ==> slots[k].removal < now
    requires e < |slots| && (slots[e].Empty? || slots[e].removal < now)
    ensures var r := Process(slots, m, now, lifetime);
      && r.verdict == Ok
      && exists k :: 0 <= k <= e && r.slots[k] == Used(m.key, m.seqnum, m.metric, 0, now, now + lifetime)
    decreases e
  {
    hide Process;
    UnknownExact(slots, m, now, lifetime);
    if j :| 0 <= j < e && !(slots[j].Used? && now <= slots[j].removal) {
      StaleTaken(slots, m, now, lifetime, j);
    }
  }

  /** An originator that starts again with its number 5: its first message counts for 300 units of time. */
  lemma StartsAgain(key: Key)
    ensures var m := Rreq(key, 5, 0, 0);
      var s := Process(seq(16, _ => Empty), m, 0, 300).slots;
      && s[0] == Used(key, 5, 0, 0, 0, 300)
      && Process(s, m, 300, 300).verdict == Redundant
      && Process(s, m, 301, 300).verdict == Ok && Process(s, m, 301, 300).slots[0] == Used(key, 5, 0, 0, 301, 601)
  {
    hide Process;
    var m, empty := Rreq(key, 5, 0, 0), seq(16, _ => Empty);
    UnknownExact(empty, m, 0, 300);
    var s := Process(empty, m, 0, 300).slots;
    KnownExact(s, m, 300, 300, 0);
    UnknownExact(s, m, 301, 300);
  }

  // ---------- A full set ----------

  /** The first RREQ of an originator. */
  function FirstOf(n: nat): (m: Rreq) {
    Rreq(Key(n, 128, 0, 0), 1, 0, UNSPECIFIED)
  }

  /** The first RREQs of sixteen originators at time 0. */
  function Sixteen(): (ms: seq<(Rreq, nat)>) {
    seq(MAX_ENTRIES, i requires 0 <= i < MAX_ENTRIES => (FirstOf(i), 0))
  }

  /** The set after the first RREQs of n originators at time 0. */
  function Filled(n: nat, lifetime: nat): (r: seq<Slot>)
    ensures |r| == MAX_ENTRIES
  {
    seq(MAX_ENTRIES, i requires 0 <= i < MAX_ENTRIES => if i < n then NewSlot(FirstOf(i), 0, lifetime) else Empty)
  }

  lemma NotInFilled(n: nat, lifetime: nat)
    ensures Find(Filled(n, lifetime), FirstOf(n), 0, 0) == MAX_ENTRIES
    ensures Swept(Filled(n, lifetime), 0, MAX_ENTRIES) == Filled(n, lifetime)
  {
  }

  /** A set with room takes one more. */
  lemma OneMoreFilled(n: nat, lifetime: nat)
    requires n < MAX_ENTRIES
    ensures Process(Filled(n, lifetime), FirstOf(n), 0, lifetime) == Outcome(Filled(n + 1, lifetime), Ok)
  {
    hide Find, FindEmpty, Swept;
    NotInFilled(n, lifetime);
    FirstEmpty(Filled(n, lifetime), n);
  }

  lemma FirstEmpty(slots: seq<Slot>, n: nat)
    requires n < |slots| && slots[n].Empty? && forall i :: 0 <= i < n ==> slots[i].Used?
    ensures FindEmpty(slots, 0) == n
  {
  }

  lemma {:induction false} FilledBy(ms: seq<(Rreq, nat)>, lifetime: nat)
    requires |ms| <= MAX_ENTRIES && forall i :: 0 <= i < |ms| ==> ms[i] == (FirstOf(i), 0)
    ensures ProcessAll(Filled(0, lifetime), ms, lifetime) == Filled(|ms|, lifetime)
  {
    hide Process, Filled, FirstOf;
    if ms != [] {
      FilledBy(ms[..|ms| - 1], lifetime);
      OneMoreFilled(|ms| - 1, lifetime);
    }
  }

  /** Sixteen originators fill the set. Up to the time of their removal, the first RREQ of a seventeenth leaves no
   *  entry, and its duplicate is not redundant. From the next time on the sixteen are gone, and the seventeenth is
   *  remembered. */
  lemma FullSetForgets(lifetime: nat, now: nat)
    ensures var full := ProcessAll(seq(MAX_ENTRIES, _ => Empty), Sixteen(), lifetime);
      var m := FirstOf(16);
      var first := Process(full, m, now, lifetime);
      && |full| == 16 && (forall i :: 0 <= i < 16 ==> full[i] == Used(Key(i, 128, 0, 0), 1, 0, 0, 0, lifetime))
      && first.verdict == Ok
      && first.slots == (if now <= lifetime then full
                         else [Used(Key(16, 128, 0, 0), 1, 0, 0, now, now + lifetime)] + seq(15, _ => Empty))
      && Process(first.slots, m, now, lifetime).verdict == if now <= lifetime then Ok else Redundant
  {
    hide Process, ProcessAll;
    assert Filled(0, lifetime) == seq(MAX_ENTRIES, _ => Empty);
    FilledBy(Sixteen(), lifetime);
    var full := Filled(MAX_ENTRIES, lifetime);
    var m := FirstOf(16);
    UnknownExact(full, m, now, lifetime);
    var first := Process(full, m, now, lifetime).slots;
    if now <= lifetime {
      assert first == full;
    } else {
      assert first == [Used(m.key, 1, 0, 0, now, now + lifetime)] + seq(15, _ => Empty);
      assert OneEntry(first);
      VerdictExact(first, m, now, lifetime);
      assert first[0].key == m.key;
    }
  }

  /** Entries never hold a SeqNoRtr, so a message with one is never redundant, however often it comes. */
  lemma SeqNoRtrForgotten(slots: seq<Slot>, m: Rreq, now: nat, lifetime: nat)
    requires m.seqnortr != UNSPECIFIED
      && forall i :: 0 <= i < |slots| && slots[i].Used? ==> slots[i].seqnortr == UNSPECIFIED
    ensures var o := Process(slots, m, now, lifetime);
      o.verdict.Ok? && forall i :: 0 <= i < |slots| && o.slots[i].Used? ==> o.slots[i].seqnortr == UNSPECIFIED
  {
    hide Update;
    var k := Find(slots, m, now, 0);
    assert k == |slots|;
  }

  // ---------- The set ----------

  class McMsgSet {
    const entries: array<Slot>
    const lifetime: nat

    ghost predicate Valid()
      reads this
    {
      entries.Length == MAX_ENTRIES
    }

    /** aodvv2_mcmsg_init */
    constructor (lifetime: nat)
      ensures Valid() && this.lifetime == lifetime && fresh(entries)
        && forall i :: 0 <= i < MAX_ENTRIES ==> entries[i] == Empty
    {
      this.lifetime := lifetime;
      entries := new Slot[MAX_ENTRIES](_ => Empty);
    }

    /** _reset_entry_if_stale */
    method ResetEntryIfStale(i: nat, now: nat)
      requires Valid() && i < MAX_ENTRIES
      modifies entries
      ensures entries[..] == old(entries[..])[i := Refreshed(old(entries[i]), now)]
      ensures entries[i] == if old(entries[i]).Used? && old(entries[i]).removal < now then Empty else old(entries[i])
    {
      if entries[i].Empty? {
        return;
      }
      if now > entries[i].removal {
        entries[i] := Empty;
      }
    }

    /** _find_comparable_entry: the first entry that compares with the message and whose removal has not passed. It
     *  resets the stale entries on its way. */
    method FindComparableEntry(m: Rreq, now: nat) returns (k: nat)
      requires Valid()
      modifies entries
      ensures k == Find(old(entries[..]), m, now, 0)
      ensures entries[..] == Swept(old(entries[..]), now, if k < MAX_ENTRIES then k + 1 else k)
      ensures k <= MAX_ENTRIES && forall i :: 0 <= i < MAX_ENTRIES ==>
        var s := old(entries[..])[i];
        && (i <= k && s.Used? ==>
              (i == k <==> s.key == m.key && s.seqnortr == m.seqnortr && now <= s.removal))
        && (i == k ==> s.Used?)
        && entries[i] == if i < k && s.Used? && s.removal < now then Empty else s
    {
      ghost var was := entries[..];
      k := 0;
      while k < MAX_ENTRIES
        invariant 0 <= k <= MAX_ENTRIES && entries[..] == Swept(was, now, k)
        invariant Find(was, m, now, 0) == Find(was, m, now, k)
      {
        ResetEntryIfStale(k, now);
        assert entries[..] == Swept(was, now, k + 1);
        if entries[k].Used? && entries[k].key == m.key && entries[k].seqnortr == m.seqnortr {
          return;
        }
        k := k + 1;
      }
    }

    /** _add */
    method AddEntry(m: Rreq, now: nat) returns (added: bool)
      requires Valid()
      modifies entries
      ensures entries[..] == Add(old(entries[..]), m, now, lifetime)
        && (added <==> FindEmpty(old(entries[..]), 0) < MAX_ENTRIES)
    {
      var i := 0;
      while i < MAX_ENTRIES
        invariant 0 <= i <= MAX_ENTRIES && entries[..] == old(entries[..])
        invariant FindEmpty(entries[..], 0) == FindEmpty(entries[..], i)
      {
        if entries[i].Empty? {
          entries[i] := NewSlot(m, now, lifetime);
          return true;
        }
        i := i + 1;
      }
      added := false;
    }

    /** The comparison with the other entries at the end of aodvv2_mcmsg_process. */
    method CompareOthers(k: nat, m: Rreq, now: nat) returns (verdict: Verdict)
      requires Valid() && k < MAX_ENTRIES && entries[k].Used? && entries[k].key == m.key
        && entries[k].metric == m.metric
      modifies entries
      ensures var b := FindBeaten(old(entries[..]), m, now, k, 0);
        && verdict == (if b < MAX_ENTRIES then Redundant else Ok)
        && entries[..] == Swept(old(entries[..]), now, b + 1)[k := old(entries[k])]
    {
      ghost var was := entries[..];
      var i := 0;
      assert Swept(was, now, 0)[k := was[k]] == was;
      while i < MAX_ENTRIES
        invariant 0 <= i <= MAX_ENTRIES && entries[..] == Swept(was, now, i)[k := was[k]]
        invariant FindBeaten(was, m, now, k, 0) == FindBeaten(was, m, now, k, i)
      {
        if i != k {
          ResetEntryIfStale(i, now);
          assert entries[..] == Swept(was, now, i + 1)[k := was[k]];
          if entries[i].Used? && entries[i].key == m.key && entries[i].metric <= entries[k].metric {
            return Redundant;
          }
        } else {
          assert entries[..] == Swept(was, now, i + 1)[k := was[k]];
        }
        i := i + 1;
      }
      assert entries[..] == Swept(was, now, MAX_ENTRIES + 1)[k := was[k]];
      verdict := Ok;
    }

    /** aodvv2_mcmsg_process; the clock is read once. */
    method ProcessMessage(m: Rreq, now: nat) returns (verdict: Verdict)
      requires Valid()
      modifies entries
      ensures Outcome(entries[..], verdict) == Process(old(entries[..]), m, now, lifetime)
    {
      hide Update, Add, Swept;
      var k := FindComparableEntry(m, now);
      if k == MAX_ENTRIES {
        var _ := AddEntry(m, now);
        return Ok;
      }
      verdict := UpdateEntry(k, m, now);
    }

    /** The part of aodvv2_mcmsg_process behind a comparable entry. */
    method UpdateEntry(k: nat, m: Rreq, now: nat) returns (verdict: Verdict)
      requires Valid() && k < MAX_ENTRIES && entries[k].Used? && entries[k].key == m.key
      modifies entries
      ensures Outcome(entries[..], verdict) == Update(old(entries[..]), k, m, now, lifetime)
    {
      hide FindBeaten, Swept, SeqCmp, Refreshed, Beaten;
      ghost var was := entries[..];
      entries[k] := entries[k].(timestamp := now, removal := now + lifetime);
      ghost var s := entries[k];
      assert entries[..] == was[k := s];
      var cmp := SeqCmp(entries[k].seqnum, m.seqnum);
      if cmp < 0 {
        return Redundant;
      }
      if cmp == 0 && entries[k].metric == m.metric {
        return Redundant;
      }
      entries[k] := entries[k].(seqnum := m.seqnum, metric := m.metric);
      assert entries[..] == was[k := s][k := s.(seqnum := m.seqnum, metric := m.metric)];
      assert entries[..] == was[k := s.(seqnum := m.seqnum, metric := m.metric)];
      verdict := CompareOthers(k, m, now);
    }
  }
}
