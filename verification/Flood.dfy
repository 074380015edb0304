/** AODVv2 route discovery (aodvv2_reader.c): what a router does with a RREQ or RREP, and every run of a network of
 *  them. */
module Flood {
  import opened Basics
  import opened Bytes
  import opened McMsg

  const HOP_COUNT := 3
  const HOP_COUNT_MAX := 255

  /** aodvv2_metric_link_cost */
  function LinkCost(metricType: nat): (r: nat) {
    if metricType == HOP_COUNT then 1 else 0
  }

  /** aodvv2_metric_max */
  function MetricMax(metricType: nat): (r: nat) {
    if metricType == HOP_COUNT then HOP_COUNT_MAX else 0
  }

  /** aodvv2_metric_update */
  function MetricUpdate(metricType: nat, metric: Byte): (r: Byte) {
    if metricType == HOP_COUNT then (metric + 1) % 256 else metric
  }

  /** A RREQ on the wire, as aodvv2_writer.c makes it. */
  datatype RreqMsg = RreqMsg(hopLimit: Byte, metricType: nat, orig: nat, origLen: Byte, seqnum: U16, metric: Byte,
    targ: nat)

  /** What the entries of the set compare, with the sequence number as the reader takes it: one byte of the two. */
  function Seen(m: RreqMsg): (r: Rreq) {
    Rreq(Key(m.orig, m.origLen, m.targ, m.metricType), m.seqnum % 256, m.metric, UNSPECIFIED)
  }

  datatype Action = Drop | Forward(m: RreqMsg) | Reply(hopLimit: Byte)

  /** A RREQ that passes the checks of the reader, up to the set of multicast messages. */
  predicate Acceptable(m: RreqMsg) {
    && m.hopLimit > 1 && m.orig != UNSPECIFIED && m.targ != UNSPECIFIED && m.seqnum % 256 != 0
    && MetricMax(m.metricType) - LinkCost(m.metricType) > m.metric
  }

  datatype Reaction = Reaction(slots: seq<Slot>, action: Action)

  /** One received RREQ. improves: the router has no route to the originator, or the message offers a better one;
   *  client: the target is a client of the router. */
  function ReceiveRreq(slots: seq<Slot>, m: RreqMsg, now: nat, lifetime: nat, improves: bool,
                       client: bool): (r: Reaction)
  {
    if !Acceptable(m) then Reaction(slots, Drop) else
    var o := Process(slots, Seen(m), now, lifetime);
    if o.verdict.Redundant? || !improves then Reaction(o.slots, Drop) else
    if client then Reaction(o.slots, Reply(m.hopLimit - 1)) else
    Reaction(o.slots, Forward(m.(hopLimit := m.hopLimit - 1, metric := MetricUpdate(m.metricType, m.metric),
      seqnum := m.seqnum % 256)))
  }

  /** A router takes up a RREQ: it has hops left behind this router, names originator, target and a number, has the hop
   *  count metric below its limit, is not older than the entry for it that counts or the same, and offers a better
   *  route. */
  ghost predicate TakesUp(slots: seq<Slot>, m: RreqMsg, now: nat, improves: bool) {
    && m.hopLimit > 1 && m.orig != 0 && m.targ != 0 && m.seqnum % 256 != 0 && m.metricType == 3 && m.metric < 254
    && improves
    && !exists k ::
      0 <= k < |slots| && slots[k].Used? && slots[k].key == Key(m.orig, m.origLen, m.targ, 3) && now <= slots[k].removal
        && ((m.seqnum % 256 - slots[k].seqnum) % 0x1_0000 >= 0x8000
            || (slots[k].seqnum == m.seqnum % 256 && slots[k].metric == m.metric))
  }

  /** The exact reaction to every RREQ: the router of the target answers with one hop less; any other sends the message
   *  on with one hop less, one more in the metric, and the low byte of its number; and a RREQ that is not taken up is
   *  dropped. */
  lemma ReactionExact(slots: seq<Slot>, m: RreqMsg, now: nat, lifetime: nat, improves: bool, client: bool)
    requires OneEntry(slots)
    ensures ReceiveRreq(slots, m, now, lifetime, improves, client).action ==
      if m.hopLimit > 1 && m.orig != 0 && m.targ != 0 && m.seqnum % 256 != 0 && m.metricType == 3 && m.metric < 254
        && improves
        && !(exists k ::
          0 <= k < |slots| && slots[k].Used? && slots[k].key == Key(m.orig, m.origLen, m.targ, 3)
            && now <= slots[k].removal
            && ((m.seqnum % 256 - slots[k].seqnum) % 0x1_0000 >= 0x8000
                || (slots[k].seqnum == m.seqnum % 256 && slots[k].metric == m.metric)))
      then
        if client then Reply(m.hopLimit - 1)
        else Forward(RreqMsg(m.hopLimit - 1, 3, m.orig, m.origLen, m.seqnum % 256, m.metric + 1, m.targ))
      else Drop
  {
    hide Process, OneEntry;
    VerdictExact(slots, Seen(m), now, lifetime);
  }

  /** The same by name. */
  lemma ReactionIs(slots: seq<Slot>, m: RreqMsg, now: nat, lifetime: nat, improves: bool, client: bool)
    requires OneEntry(slots)
    ensures ReceiveRreq(slots, m, now, lifetime, improves, client).action ==
      if !TakesUp(slots, m, now, improves) then Drop
      else if client then Reply(m.hopLimit - 1)
      else Forward(RreqMsg(m.hopLimit - 1, 3, m.orig, m.origLen, m.seqnum % 256, m.metric + 1, m.targ))
  {
    hide ReceiveRreq, OneEntry;
    ReactionExact(slots, m, now, lifetime, improves, client);
  }

  /** What the router remembers: nothing of a message that fails a check, and otherwise what the set makes of its
   *  fields, whether the route is better or not. */
  lemma MemoryExact(slots: seq<Slot>, m: RreqMsg, now: nat, lifetime: nat, improves: bool, client: bool)
    ensures ReceiveRreq(slots, m, now, lifetime, improves, client).slots ==
      if m.hopLimit > 1 && m.orig != 0 && m.targ != 0 && m.seqnum % 256 != 0 && m.metricType == 3 && m.metric < 254
      then Process(slots, Rreq(Key(m.orig, m.origLen, m.targ, 3), m.seqnum % 256, m.metric, 0), now, lifetime).slots
      else slots
  {
    hide Process;
  }

  /** The number that a router records and forwards is the one that was sent if and only if it is below 256; a number
   *  with a low byte of 0 gets past no router. The writer copies the two bytes of the number as they lie in memory, and
   *  the reader takes the first of them; on a little-endian machine that is the low byte, as it is here. */
  lemma LowByte(slots: seq<Slot>, m: RreqMsg, now: nat, lifetime: nat, improves: bool, client: bool)
    ensures Seen(m).seqnum == m.seqnum <==> m.seqnum < 256
    ensures var r := ReceiveRreq(slots, m, now, lifetime, improves, client);
      && (m.seqnum % 256 == 0 ==> r == Reaction(slots, Drop))
      && (r.action.Forward? ==> r.action.m.seqnum != 0 && (r.action.m.seqnum == m.seqnum <==> m.seqnum < 256))
  {
  }

  /** A first RREQ with number 256 is dropped, and one with number 257 goes on with number 1. */
  lemma LowByteLost(lifetime: nat)
    ensures var m := RreqMsg(255, HOP_COUNT, 1, 128, 256, 0, 2);
      && ReceiveRreq([Empty], m, 0, lifetime, true, false).action == Drop
      && ReceiveRreq([Empty], m.(seqnum := 257), 0, lifetime, true, false).action
        == Forward(m.(hopLimit := 254, metric := 1, seqnum := 1))
  {
    var m := RreqMsg(255, HOP_COUNT, 1, 128, 257, 0, 2);
    assert Find([Empty], Seen(m), 0, 0) == 1;
  }

  // ---------- The reader ----------

  /** The static _msg_data of aodvv2_reader.c with the callbacks that fill it, for RREQs. */
  class RreqReader {
    const known: McMsgSet
    var hopLimit: Byte
    var metricType: nat
    var orig: nat
    var origLen: Byte
    var seqnum: U16
    var metric: Byte
    var targ: nat
    var targSeqnum: U16

    constructor (known: McMsgSet)
      ensures this.known == known
    {
      this.known := known;
      hopLimit, metricType, orig, origLen, seqnum, metric, targ, targSeqnum := 0, 0, 0, 0, 0, 0, 0, 0;
    }

    /** _cb_rreq_blocktlv_messagetlvs_okay */
    method MessageTlvs(limit: Option<Byte>) returns (ok: bool)
      modifies this`hopLimit
      ensures ok <==> limit.Some? && limit.value > 0
      ensures ok ==> hopLimit == limit.value - 1
    {
      if limit.None? {
        return false;
      }
      hopLimit := limit.value;
      if hopLimit == 0 {
        return false;
      }
      hopLimit := hopLimit - 1;
      ok := true;
    }

    /** _cb_rreq_blocktlv_addresstlvs_okay, for an address with the first bytes of its sequence number TLVs, and the
     *  extension and the value of its metric TLV. An address without any of them is the target. */
    method AddressTlvs(addr: nat, plen: Byte, origSeq: Option<Byte>, targSeq: Option<Byte>,
                       metricTlv: Option<(Byte, Byte)>) returns (ok: bool)
      modifies this`orig, this`origLen, this`seqnum, this`targ, this`targSeqnum, this`metricType, this`metric
      ensures ok <==> (origSeq.Some? <==> metricTlv.Some?)
      ensures if origSeq.Some? then orig == addr && origLen == plen && seqnum == origSeq.value
              else orig == old(orig) && origLen == old(origLen) && seqnum == old(seqnum)
      ensures targ == if targSeq.Some? || origSeq.None? then addr else old(targ)
      ensures if ok && metricTlv.Some? then metricType == metricTlv.value.0 && metric == metricTlv.value.1
              else metricType == old(metricType) && metric == old(metric)
    {
      var isOrig := false;
      if origSeq.Some? {
        isOrig := true;
        orig, origLen, seqnum := addr, plen, origSeq.value;
      }
      if targSeq.Some? {
        targ, targSeqnum := addr, targSeq.value;
      }
      if targSeq.None? && !isOrig {
        targ := addr;
      }
      if metricTlv.None? && isOrig {
        return false;
      }
      if metricTlv.Some? {
        if !isOrig {
          return false;
        }
        metricType, metric := metricTlv.value.0, metricTlv.value.1;
      }
      ok := true;
    }

    /** The message that the fields make up. */
    ghost function Current(): (m: RreqMsg)
      reads this
    {
      RreqMsg((hopLimit + 1) % 256, metricType, orig, origLen, seqnum, metric, targ)
    }

    /** _cb_rreq_end_callback; Drop stands for RFC5444_DROP_PACKET. */
    method End(now: nat, improves: bool, client: bool) returns (action: Action)
      requires known.Valid() && hopLimit < 255 && seqnum < 256
      modifies this`metric, known.entries
      ensures Reaction(known.entries[..], action)
        == ReceiveRreq(old(known.entries[..]), old(Current()), now, known.lifetime, improves, client)
      ensures OneEntry(old(known.entries[..])) ==>
        action ==
          if !TakesUp(old(known.entries[..]), old(Current()), now, improves) then Drop
          else if client then Reply(hopLimit)
          else Forward(RreqMsg(hopLimit, 3, orig, origLen, seqnum, old(metric) + 1, targ))
    {
      hide Process, TakesUp, OneEntry;
      if OneEntry(known.entries[..]) {
        ReactionIs(known.entries[..], Current(), now, known.lifetime, improves, client);
      }
      if orig == UNSPECIFIED || seqnum == 0 {
        return Drop;
      }
      if targ == UNSPECIFIED {
        return Drop;
      }
      if hopLimit == 0 {
        return Drop;
      }
      var linkCost := LinkCost(metricType);
      if MetricMax(metricType) - linkCost <= metric {
        return Drop;
      }
      var verdict := known.ProcessMessage(Rreq(Key(orig, origLen, targ, metricType), seqnum, metric, UNSPECIFIED), now);
      if verdict == Redundant {
        return Drop;
      }
      metric := MetricUpdate(metricType, metric);
      if !improves {
        return Drop;
      }
      if client {
        return Reply(hopLimit);
      }
      action := Forward(RreqMsg(hopLimit, metricType, orig, origLen, seqnum, metric, targ));
    }

    /** The reader calls the callbacks for a RREQ that aodvv2_writer.c made: message, originator, target, end. */
    method Handle(m: RreqMsg, now: nat, improves: bool, client: bool) returns (action: Action)
      requires known.Valid() && m.metricType < 256
      modifies this, known.entries
      ensures Reaction(known.entries[..], action)
        == ReceiveRreq(old(known.entries[..]), m, now, known.lifetime, improves, client)
      ensures OneEntry(old(known.entries[..])) ==>
        action ==
          if !TakesUp(old(known.entries[..]), m, now, improves) then Drop
          else if client then Reply(m.hopLimit - 1)
          else Forward(RreqMsg(m.hopLimit - 1, 3, m.orig, m.origLen, m.seqnum % 256, m.metric + 1, m.targ))
    {
      hide Process, Acceptable, TakesUp, OneEntry;
      if OneEntry(known.entries[..]) {
        ReactionIs(known.entries[..], m, now, known.lifetime, improves, client);
      }
      ZeroLimit(m);
      var ok := MessageTlvs(Some(m.hopLimit));
      if !ok {
        return Drop;
      }
      ok := AddressTlvs(m.orig, m.origLen, Some(m.seqnum % 256), None, Some((m.metricType, m.metric)));
      ok := AddressTlvs(m.targ, 128, None, None, None);
      LowByteTwice(known.entries[..], m, now, known.lifetime, improves, client);
      action := End(now, improves, client);
    }
  }

  lemma ZeroLimit(m: RreqMsg)
    ensures m.hopLimit == 0 ==> !Acceptable(m)
  {
  }

  lemma LowByteTwice(slots: seq<Slot>, m: RreqMsg, now: nat, lifetime: nat, improves: bool, client: bool)
    ensures ReceiveRreq(slots, m.(seqnum := m.seqnum % 256), now, lifetime, improves, client)
         == ReceiveRreq(slots, m, now, lifetime, improves, client)
  {
    assert Seen(m.(seqnum := m.seqnum % 256)) == Seen(m);
  }

  // ---------- The network ----------

  /** A message on its way to a router. */
  datatype Copy = RreqCopy(dest: nat, m: RreqMsg) | RrepCopy(dest: nat, hopLimit: Byte)

  /** The sets of the routers, the copies in flight, and the number of discoveries that are still to be started. */
  datatype Network = Network(routers: seq<seq<Slot>>, flight: seq<Copy>, discoveries: nat)

  function Copies(m: RreqMsg, targets: seq<nat>): (r: seq<Copy>)
    ensures |r| == |targets| && forall i :: 0 <= i < |r| ==> r[i] == RreqCopy(targets[i], m)
  {
    seq(|targets|, i requires 0 <= i < |targets| => RreqCopy(targets[i], m))
  }

  /** aodvv2_find_route: a RREQ with the full hop limit and no hops, of which at most one copy reaches every router. */
  ghost predicate Discover(s: Network, t: Network, origin: nat, m: RreqMsg, targets: seq<nat>, now: nat,
                           lifetime: nat)
  {
    && s.discoveries > 0 && origin < |s.routers| && |targets| <= |s.routers|
      && (forall d :: d in targets ==> d < |s.routers|)
    && m.hopLimit == HOP_COUNT_MAX && m.metric == 0 && m.metricType == HOP_COUNT
    && t == Network(
      s.routers[origin := Process(s.routers[origin], Seen(m).(seqnum := m.seqnum), now, lifetime).slots],
      s.flight + Copies(m, targets), s.discoveries - 1)
  }

  /** A router receives copy k of a RREQ; what it sends reaches any of the routers, or one of them. */
  ghost predicate GetRreq(s: Network, t: Network, k: nat, now: nat, lifetime: nat, improves: bool, client: bool,
                          targets: seq<nat>, next: nat)
  {
    && k < |s.flight| && s.flight[k].RreqCopy? && s.flight[k].dest < |s.routers|
    && |targets| <= |s.routers| && (forall d :: d in targets ==> d < |s.routers|) && next < |s.routers|
    && var c := s.flight[k];
       var r := ReceiveRreq(s.routers[c.dest], c.m, now, lifetime, improves, client);
       var rest := Without(s.flight, k);
       t == Network(s.routers[c.dest := r.slots],
         match r.action
         case Drop => rest
         case Forward(m) => rest + Copies(m, targets)
         case Reply(h) => rest + [RrepCopy(next, h)],
         s.discoveries)
  }

  /** The exact step: of the copies in flight, copy k goes. If the router takes it up and has the target as a client,
   *  one RREP with one hop less goes to the next hop of the way back; if it takes it up and has not, one RREQ with one
   *  hop less and one more in the metric goes to every neighbour that hears it. Other routers are not concerned. */
  lemma GetRreqExact(s: Network, t: Network, k: nat, now: nat, lifetime: nat, improves: bool, client: bool,
                     targets: seq<nat>, next: nat)
    requires GetRreq(s, t, k, now, lifetime, improves, client, targets, next) && OneEntry(s.routers[s.flight[k].dest])
    ensures var d, m := s.flight[k].dest, s.flight[k].m;
      && t.flight == s.flight[..k] + s.flight[k + 1..] + (
        if !TakesUp(s.routers[d], m, now, improves) then []
        else if client then [RrepCopy(next, m.hopLimit - 1)]
        else
          var more := RreqMsg(m.hopLimit - 1, 3, m.orig, m.origLen, m.seqnum % 256, m.metric + 1, m.targ);
          seq(|targets|, i requires 0 <= i < |targets| => RreqCopy(targets[i], more)))
      && t.discoveries == s.discoveries && |t.routers| == |s.routers|
      && t.routers[d] == ReceiveRreq(s.routers[d], m, now, lifetime, improves, client).slots
      && forall r :: 0 <= r < |s.routers| && r != d ==> t.routers[r] == s.routers[r]
  {
    hide Process, ReceiveRreq, OneEntry, TakesUp;
    var c := s.flight[k];
    ReactionIs(s.routers[c.dest], c.m, now, lifetime, improves, client);
  }

  /** A router receives copy k of a RREP and relays it to the next hop, or does not: because the hop limit is used up,
   *  because it drops the message for another reason, or because it is the end of the way. */
  ghost predicate GetRrep(s: Network, t: Network, k: nat, relays: bool, next: nat) {
    && k < |s.flight| && s.flight[k].RrepCopy? && next < |s.routers|
    && var c := s.flight[k];
       var rest := Without(s.flight, k);
       t == s.(flight := if c.hopLimit > 0 && relays then rest + [RrepCopy(next, c.hopLimit - 1)] else rest)
  }

  /** A copy is lost. */
  ghost predicate Lose(s: Network, t: Network, k: nat) {
    k < |s.flight| && t == s.(flight := Without(s.flight, k))
  }

  /** One thing that happens in the network. */
  datatype Event =
    | Discovers(origin: nat, m: RreqMsg, targets: seq<nat>, now: nat, lifetime: nat)
    | GetsRreq(k: nat, now: nat, lifetime: nat, improves: bool, client: bool, targets: seq<nat>, next: nat)
    | GetsRrep(k: nat, relays: bool, next: nat)
    | Loses(k: nat)

  ghost predicate Happens(s: Network, t: Network, e: Event) {
    match e
    case Discovers(origin, m, targets, now, lifetime) => Discover(s, t, origin, m, targets, now, lifetime)
    case GetsRreq(k, now, lifetime, improves, client, targets, next) =>
      GetRreq(s, t, k, now, lifetime, improves, client, targets, next)
    case GetsRrep(k, relays, next) => GetRrep(s, t, k, relays, next)
    case Loses(k) => Lose(s, t, k)
  }

  ghost predicate Step(s: Network, t: Network) {
    exists e :: Happens(s, t, e)
  }

  /** The states of a run, one step after the other. */
  ghost predicate IsRun(run: seq<Network>) {
    forall i :: 0 <= i < |run| - 1 ==> Step(run[i], run[i + 1])
  }

  ghost predicate Initial(s: Network) {
    s.flight == [] && forall r :: r in s.routers ==> forall i :: 0 <= i < |r| ==> r[i] == Empty
  }

  // ---------- What every run keeps ----------

  /** Under the hop count metric, hop limit and metric of a RREQ in flight add up to the maximum. */
  ghost predicate GoodCopy(c: Copy) {
    c.RreqCopy? ==> c.m.hopLimit + c.m.metric == HOP_COUNT_MAX && c.m.hopLimit > 0 && c.m.metricType == HOP_COUNT
  }

  ghost predicate Safe(s: Network) {
    (forall c :: c in s.flight ==> GoodCopy(c)) && forall r :: r in s.routers ==> OneEntry(r)
  }

  lemma ReceiveKeeps(slots: seq<Slot>, m: RreqMsg, now: nat, lifetime: nat, improves: bool, client: bool)
    requires OneEntry(slots) && GoodCopy(RreqCopy(0, m))
    ensures var r := ReceiveRreq(slots, m, now, lifetime, improves, client);
      OneEntry(r.slots) && (r.action.Forward? ==> GoodCopy(RreqCopy(0, r.action.m)))
  {
    hide OneEntry, Process;
    ProcessOneEntry(slots, Seen(m), now, lifetime);
  }

  lemma WithoutIn(s: seq<Copy>, k: nat)
    requires k < |s|
    ensures forall c :: c in Without(s, k) ==> c in s
  {
  }

  lemma EventSafe(s: Network, t: Network, e: Event)
    requires Safe(s) && Happens(s, t, e)
    ensures Safe(t)
  {
    hide OneEntry, Process, ReceiveRreq;
    match e
    case Discovers(origin, m, targets, now, lifetime) =>
      assert s.routers[origin] in s.routers;
      ProcessOneEntry(s.routers[origin], Seen(m).(seqnum := m.seqnum), now, lifetime);
    case GetsRreq(k, now, lifetime, improves, client, targets, next) =>
      WithoutIn(s.flight, k);
      var c := s.flight[k];
      assert c in s.flight && s.routers[c.dest] in s.routers;
      ReceiveKeeps(s.routers[c.dest], c.m, now, lifetime, improves, client);
    case GetsRrep(k, _, _) =>
      WithoutIn(s.flight, k);
    case Loses(k) =>
      WithoutIn(s.flight, k);
  }

  /** In every state of every run, hop limit and metric of every RREQ in flight add up to 255, and no router has two
   *  entries for one originator, target and metric type. */
  lemma {:induction false} RunSafe(run: seq<Network>, i: nat)
    requires run != [] && Initial(run[0]) && IsRun(run) && i < |run|
    ensures Safe(run[i])
  {
    if i > 0 {
      RunSafe(run, i - 1);
      assert Step(run[i - 1], run[i - 1 + 1]);
      var e :| Happens(run[i - 1], run[i], e);
      EventSafe(run[i - 1], run[i], e);
    }
  }

  /** The time at which a router looks at its set, if one does. */
  function Clock(e: Event): (r: Option<nat>) {
    match e
    case Discovers(_, _, _, now, _) => Some(now)
    case GetsRreq(_, now, _, _, _, _, _) => Some(now)
    case _ => None
  }

  /** Along every step, an entry that does not grow stale keeps its place and key, and its sequence number is only
   *  replaced by one that is not older in the circular order. */
  lemma EventForward(s: Network, t: Network, e: Event, r: nat, i: nat)
    requires Safe(s) && Happens(s, t, e) && r < |s.routers| && i < |s.routers[r]|
    ensures |t.routers| == |s.routers| && |t.routers[r]| == |s.routers[r]|
    ensures var a, b := s.routers[r][i], t.routers[r][i];
      a.Used? && (Clock(e).Some? ==> Clock(e).value <= a.removal) ==>
        b.Used? && b.key == a.key && SeqCmp(a.seqnum, b.seqnum) >= 0
  {
    hide OneEntry, Process;
    assert s.routers[r] in s.routers;
    match e
    case Discovers(origin, m, targets, now, lifetime) =>
      SeqnumForward(s.routers[r], Seen(m).(seqnum := m.seqnum), now, lifetime, i);
    case GetsRreq(k, now, lifetime, improves, client, targets, next) =>
      SeqnumForward(s.routers[r], Seen(s.flight[k].m), now, lifetime, i);
    case _ =>
  }

  // ---------- Every run ends ----------

  /** The most that can come of a RREP with a hop limit: itself and its relays. */
  function RrepWeight(h: nat): (r: nat) {
    h + 1
  }

  /** The most that can come of a RREQ in a network of n routers: itself, and copies for all routers or a RREP. */
  function RreqWeight(n: nat, h: nat): (r: nat)
    ensures r > 0
  {
    if h == 0 then 1 else
    assert n * RreqWeight(n, h - 1) >= 0;
    1 + n * RreqWeight(n, h - 1) + RrepWeight(h - 1)
  }

  function Weight(n: nat, c: Copy): (r: nat)
    ensures r > 0
  {
    match c case RreqCopy(_, m) => RreqWeight(n, m.hopLimit) case RrepCopy(_, h) => RrepWeight(h)
  }

  function Total(n: nat, cs: seq<Copy>): (r: nat) {
    if cs == [] then 0 else Weight(n, cs[0]) + Total(n, cs[1..])
  }

  lemma {:induction false} TotalConcat(n: nat, a: seq<Copy>, b: seq<Copy>)
    ensures Total(n, a + b) == Total(n, a) + Total(n, b)
  {
    if a == [] {
      assert a + b == b;
    } else {
      assert (a + b)[1..] == a[1..] + b;
      TotalConcat(n, a[1..], b);
    }
  }

  lemma TotalWithout(n: nat, cs: seq<Copy>, k: nat)
    requires k < |cs|
    ensures Total(n, cs) == Total(n, Without(cs, k)) + Weight(n, cs[k])
  {
    assert cs == cs[..k] + ([cs[k]] + cs[k + 1..]);
    TotalConcat(n, cs[..k], [cs[k]] + cs[k + 1..]);
    TotalConcat(n, cs[..k], cs[k + 1..]);
    assert ([cs[k]] + cs[k + 1..])[1..] == cs[k + 1..];
  }

  lemma {:induction false} TotalCopies(n: nat, m: RreqMsg, targets: seq<nat>)
    ensures Total(n, Copies(m, targets)) == |targets| * RreqWeight(n, m.hopLimit)
  {
    if targets != [] {
      assert Copies(m, targets)[1..] == Copies(m, targets[1..]);
      TotalCopies(n, m, targets[1..]);
    }
  }

  /** What is in flight, and what the discoveries to come can put into flight. */
  function Measure(s: Network): (r: nat) {
    var n := |s.routers|;
    assert n * RreqWeight(n, HOP_COUNT_MAX) >= 0;
    Total(n, s.flight) + s.discoveries * (1 + n * RreqWeight(n, HOP_COUNT_MAX))
  }

  lemma AtMost(k: nat, n: nat, w: nat)
    requires k <= n
    ensures k * w <= n * w
  {
    assert n * w == k * w + (n - k) * w;
  }

  lemma DiscoverShrinks(s: Network, t: Network, origin: nat, m: RreqMsg, targets: seq<nat>, now: nat, lifetime: nat)
    requires Discover(s, t, origin, m, targets, now, lifetime)
    ensures |t.routers| == |s.routers| && Measure(t) < Measure(s)
  {
    hide Process, Total, RreqWeight;
    var n := |s.routers|;
    var w := RreqWeight(n, HOP_COUNT_MAX);
    TotalConcat(n, s.flight, Copies(m, targets));
    TotalCopies(n, m, targets);
    AtMost(|targets|, n, w);
    assert s.discoveries * (1 + n * w) == (s.discoveries - 1) * (1 + n * w) + (1 + n * w);
  }

  lemma FlightShrinks(s: Network, t: Network)
    requires |t.routers| == |s.routers| && t.discoveries == s.discoveries
      && Total(|s.routers|, t.flight) < Total(|s.routers|, s.flight)
    ensures Measure(t) < Measure(s)
  {
    hide Total, RreqWeight;
  }

  lemma RreqShrinks(s: Network, t: Network, k: nat, now: nat, lifetime: nat, improves: bool, client: bool,
                    targets: seq<nat>, next: nat)
    requires GetRreq(s, t, k, now, lifetime, improves, client, targets, next)
    ensures |t.routers| == |s.routers| && Measure(t) < Measure(s)
  {
    hide Process, Total, RreqWeight, Measure, Without;
    var n, c := |s.routers|, s.flight[k];
    TotalWithout(n, s.flight, k);
    var r := ReceiveRreq(s.routers[c.dest], c.m, now, lifetime, improves, client);
    ReplyShrinks(n, Without(s.flight, k), c.m.hopLimit, r.action, targets, next);
    FlightShrinks(s, t);
  }

  lemma RrepShrinks(s: Network, t: Network, k: nat, relays: bool, next: nat)
    requires GetRrep(s, t, k, relays, next)
    ensures |t.routers| == |s.routers| && Measure(t) < Measure(s)
  {
    hide RreqWeight, Measure, Without;
    var n, c := |s.routers|, s.flight[k];
    TotalWithout(n, s.flight, k);
    if c.hopLimit > 0 && relays {
      TotalConcat(n, Without(s.flight, k), [RrepCopy(next, c.hopLimit - 1)]);
    }
    FlightShrinks(s, t);
  }

  lemma EventShrinks(s: Network, t: Network, e: Event)
    requires Happens(s, t, e)
    ensures |t.routers| == |s.routers| && Measure(t) < Measure(s)
  {
    hide Discover, GetRreq, GetRrep, Measure, Total;
    match e
    case Discovers(origin, m, targets, now, lifetime) => DiscoverShrinks(s, t, origin, m, targets, now, lifetime);
    case GetsRreq(k, now, lifetime, improves, client, targets, next) =>
      RreqShrinks(s, t, k, now, lifetime, improves, client, targets, next);
    case GetsRrep(k, relays, next) => RrepShrinks(s, t, k, relays, next);
    case Loses(k) =>
      TotalWithout(|s.routers|, s.flight, k);
      FlightShrinks(s, t);
  }

  lemma ReplyShrinks(n: nat, rest: seq<Copy>, h: nat, action: Action, targets: seq<nat>, next: nat)
    requires |targets| <= n && (action.Forward? ==> action.m.hopLimit + 1 == h)
      && (action.Reply? ==> action.hopLimit + 1 == h)
    ensures var flight := match action
        case Drop => rest
        case Forward(m) => rest + Copies(m, targets)
        case Reply(l) => rest + [RrepCopy(next, l)];
      Total(n, flight) < Total(n, rest) + RreqWeight(n, h)
  {
    match action
    case Drop =>
    case Forward(m) =>
      TotalConcat(n, rest, Copies(m, targets));
      TotalCopies(n, m, targets);
      AtMost(|targets|, n, RreqWeight(n, h - 1));
    case Reply(l) =>
      TotalConcat(n, rest, [RrepCopy(next, l)]);
  }

  /** Every run of a finite network with finitely many discoveries ends: it has at most as many steps as the measure of
   *  its first state. */
  lemma {:induction false} RunEnds(run: seq<Network>)
    requires run != [] && IsRun(run)
    ensures |run| <= Measure(run[0]) + 1
    decreases |run|
  {
    if |run| > 1 {
      hide Measure;
      assert Step(run[0], run[0 + 1]);
      var e :| Happens(run[0], run[1], e);
      EventShrinks(run[0], run[1], e);
      var rest := run[1..];
      forall i | 0 <= i < |rest| - 1 ensures Step(rest[i], rest[i + 1]) {
        assert Step(run[i + 1], run[i + 1 + 1]);
      }
      RunEnds(rest);
    }
  }
}
