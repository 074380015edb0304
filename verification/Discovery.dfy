/** How far AODVv2 finds a route. A RREP starts with the hops that the RREQ has left (aodvv2_reader.c, aodvv2_writer.c),
 *  so that the way back has to share 255 hops with the way out. */
module Discovery {
  import opened Basics
  import opened Bytes
  import opened McMsg
  import opened Flood

  // ---------- No route is found beyond 127 hops ----------

  /** Messages only go between neighbours: what a router sends reaches routers that are at most one hop farther from the
   *  originators, or one hop nearer to them. All discoveries start at distance 0, and only routers at the given
   *  distance or beyond have a target as a client. */
  ghost predicate Local(s: Network, e: Event, dist: seq<nat>, far: nat) {
    && |dist| == |s.routers|
    && match e
       case Discovers(origin, _, targets, _, _) =>
         origin < |dist| && dist[origin] == 0 && forall d :: d in targets ==> d < |dist| && dist[d] <= 1
       case GetsRreq(k, _, _, _, client, targets, next) =>
         && k < |s.flight| && s.flight[k].dest < |dist| && next < |dist|
         && (client ==> dist[s.flight[k].dest] >= far)
         && dist[s.flight[k].dest] <= dist[next] + 1
         && forall d :: d in targets ==> d < |dist| && dist[d] <= dist[s.flight[k].dest] + 1
       case GetsRrep(k, _, next) =>
         k < |s.flight| && s.flight[k].dest < |dist| && next < |dist| && dist[s.flight[k].dest] <= dist[next] + 1
       case Loses(_) => true
  }

  ghost predicate LocalStep(s: Network, t: Network, dist: seq<nat>, far: nat) {
    exists e :: Happens(s, t, e) && Local(s, e, dist, far)
  }

  ghost predicate IsLocalRun(run: seq<Network>, dist: seq<nat>, far: nat) {
    forall i :: 0 <= i < |run| - 1 ==> LocalStep(run[i], run[i + 1], dist, far)
  }

  /** The hops that a copy has left, at the distance at which it is. */
  ghost predicate Spends(c: Copy, dist: seq<nat>, far: nat) {
    && c.dest < |dist|
    && match c
       case RreqCopy(d, m) => m.hopLimit + dist[d] <= 256
       case RrepCopy(d, h) => h + 2 * far <= 256 + dist[d]
  }

  ghost predicate AllSpend(s: Network, dist: seq<nat>, far: nat) {
    |dist| == |s.routers| && forall c :: c in s.flight ==> Spends(c, dist, far)
  }

  lemma CopiesSpend(m: RreqMsg, targets: seq<nat>, dist: seq<nat>, far: nat)
    requires forall d :: d in targets ==> d < |dist| && m.hopLimit + dist[d] <= 256
    ensures forall c :: c in Copies(m, targets) ==> Spends(c, dist, far)
  {
    forall c | c in Copies(m, targets) ensures Spends(c, dist, far) {
      var i :| 0 <= i < |targets| && Copies(m, targets)[i] == c;
      assert targets[i] in targets;
    }
  }

  lemma EventSpends(s: Network, t: Network, e: Event, dist: seq<nat>, far: nat)
    requires Safe(s) && AllSpend(s, dist, far) && Happens(s, t, e) && Local(s, e, dist, far)
    ensures AllSpend(t, dist, far)
  {
    hide Process, OneEntry, ReceiveRreq, TakesUp, GoodCopy, Without, Copies;
    match e
    case Discovers(origin, m, targets, now, lifetime) =>
      CopiesSpend(m, targets, dist, far);
    case GetsRreq(k, now, lifetime, improves, client, targets, next) =>
      var c := s.flight[k];
      assert c in s.flight && s.routers[c.dest] in s.routers && Spends(c, dist, far);
      WithoutIn(s.flight, k);
      var action := ReceiveRreq(s.routers[c.dest], c.m, now, lifetime, improves, client).action;
      ReactionIs(s.routers[c.dest], c.m, now, lifetime, improves, client);
      if action.Forward? {
        CopiesSpend(action.m, targets, dist, far);
      } else if action.Reply? {
        assert Spends(RrepCopy(next, action.hopLimit), dist, far);
      }
    case GetsRrep(k, relays, next) =>
      assert s.flight[k] in s.flight;
      WithoutIn(s.flight, k);
    case Loses(k) =>
      WithoutIn(s.flight, k);
  }

  lemma {:induction false} RunSpends(run: seq<Network>, dist: seq<nat>, far: nat, i: nat)
    requires run != [] && Initial(run[0]) && |dist| == |run[0].routers| && IsLocalRun(run, dist, far) && i < |run|
    ensures Safe(run[i]) && AllSpend(run[i], dist, far)
  {
    if i > 0 {
      hide Happens, Local, Safe, AllSpend;
      RunSpends(run, dist, far, i - 1);
      assert LocalStep(run[i - 1], run[i - 1 + 1], dist, far);
      var e :| Happens(run[i - 1], run[i], e) && Local(run[i - 1], e, dist, far);
      EventSafe(run[i - 1], run[i], e);
      EventSpends(run[i - 1], run[i], e, dist, far);
    }
  }

  /** In every run of every network, a RREP from a router at a distance or beyond gets back to an originator with a hop
   *  limit of 256 less twice the distance at most. If the target is 128 hops away or more, no RREP gets back with a hop
   *  limit that the reader accepts, and the discovery fails, although RREQs get 254 hops far. */
  lemma TooFar(run: seq<Network>, dist: seq<nat>, far: nat, i: nat, c: Copy)
    requires run != [] && Initial(run[0]) && |dist| == |run[0].routers| && IsLocalRun(run, dist, far) && i < |run|
    requires c in run[i].flight && c.RrepCopy? && c.dest < |dist| && dist[c.dest] == 0
    ensures c.hopLimit <= 256 - 2 * far
    ensures c.hopLimit > 0 ==> far <= 127
  {
    hide IsLocalRun;
    RunSpends(run, dist, far, i);
  }

  // ---------- A route is found up to 127 hops ----------

  /** A RREQ as aodvv2_find_route starts it. */
  ghost predicate Starts(m: RreqMsg) {
    m.hopLimit == 255 && m.metric == 0 && m.metricType == 3 && m.orig != 0 && m.targ != 0 && m.seqnum % 256 != 0
  }

  /** The RREQ after a number of routers. */
  function Hop(m: RreqMsg, i: nat): (r: RreqMsg)
    requires i < 255
  {
    RreqMsg(255 - i, 3, m.orig, m.origLen, if i == 0 then m.seqnum else m.seqnum % 256, i, m.targ)
  }

  function Unused(): (r: seq<Slot>)
    ensures |r| == 16 && forall i :: 0 <= i < 16 ==> r[i] == Empty
  {
    seq(16, _ => Empty)
  }

  /** The set of the router i of a line, when the RREQ has passed it. */
  function Passed(m: RreqMsg, i: nat, now: nat, lifetime: nat): (r: seq<Slot>)
    requires i < 256
  {
    [Used(Key(m.orig, m.origLen, m.targ, 3), if i == 0 then m.seqnum else m.seqnum % 256, if i == 0 then 0 else i - 1,
      0, now, now + lifetime)] + seq(15, _ => Empty)
  }

  /** The line after j steps: the RREQ goes from router 0 to router n, and the RREP goes back. */
  function LineAt(m: RreqMsg, n: nat, j: nat, now: nat, lifetime: nat): (r: Network)
    requires 1 <= n <= 254 && j <= 2 * n && j <= 256
  {
    Network(
      seq(n + 1, i requires 0 <= i < n + 1 => if i < j then Passed(m, i, now, lifetime) else Unused()),
      if j == 0 then [] else if j <= n then [RreqCopy(j, Hop(m, j - 1))] else [RrepCopy(2 * n - j, 256 - j)],
      if j == 0 then 1 else 0)
  }

  lemma UnusedTakes(m: Rreq, now: nat, lifetime: nat)
    ensures Process(Unused(), m, now, lifetime).slots
      == [Used(m.key, m.seqnum, m.metric, 0, now, now + lifetime)] + seq(15, _ => Empty)
  {
    hide Process, Unused;
    UnknownExact(Unused(), m, now, lifetime);
    assert Unused()[0].Empty?;
  }

  lemma LineInitial(m: RreqMsg, n: nat, now: nat, lifetime: nat)
    requires 1 <= n <= 254
    ensures Initial(LineAt(m, n, 0, now, lifetime))
  {
    var s := LineAt(m, n, 0, now, lifetime);
    forall r | r in s.routers ensures r == Unused() {
      var i :| 0 <= i < |s.routers| && s.routers[i] == r;
    }
  }

  /** The first step, of the originator's router. */
  lemma LineStarts(m: RreqMsg, n: nat, now: nat, lifetime: nat)
    requires Starts(m) && 1 <= n <= 254
    ensures LocalStep(LineAt(m, n, 0, now, lifetime), LineAt(m, n, 1, now, lifetime), Hops(n), n)
  {
    hide Process;
    var s, t := LineAt(m, n, 0, now, lifetime), LineAt(m, n, 1, now, lifetime);
    UnusedTakes(Rreq(Key(m.orig, m.origLen, m.targ, 3), m.seqnum, 0, 0), now, lifetime);
    assert Copies(m, [1]) == [RreqCopy(1, Hop(m, 0))];
    assert t.routers == s.routers[0 := Passed(m, 0, now, lifetime)];
    assert Happens(s, t, Discovers(0, m, [1], now, lifetime));
  }

  /** Router j receives the RREQ: it sends it on, or is the last one and answers. */
  lemma HopReceived(m: RreqMsg, n: nat, j: nat, now: nat, lifetime: nat)
    requires Starts(m) && 1 <= j <= n <= 254
    ensures ReceiveRreq(Unused(), Hop(m, j - 1), now, lifetime, true, j == n)
         == Reaction(Passed(m, j, now, lifetime), if j == n then Reply(255 - n) else Forward(Hop(m, j)))
  {
    hide Process, ReceiveRreq, Unused;
    var h := Hop(m, j - 1);
    ReactionIs(Unused(), h, now, lifetime, true, j == n);
    MemoryExact(Unused(), h, now, lifetime, true, j == n);
    UnusedTakes(Rreq(Key(m.orig, m.origLen, m.targ, 3), h.seqnum % 256, h.metric, 0), now, lifetime);
  }

  /** The RREQ gets to router j. */
  lemma LineForward(m: RreqMsg, n: nat, j: nat, now: nat, lifetime: nat)
    requires Starts(m) && 1 <= j <= n <= 254
    ensures LocalStep(LineAt(m, n, j, now, lifetime), LineAt(m, n, j + 1, now, lifetime), Hops(n), n)
  {
    hide ReceiveRreq, Unused, Hop, Passed, Starts;
    var s, t := LineAt(m, n, j, now, lifetime), LineAt(m, n, j + 1, now, lifetime);
    var targets := if j == n then [] else [j + 1];
    HopReceived(m, n, j, now, lifetime);
    assert t.routers == s.routers[j := Passed(m, j, now, lifetime)];
    assert Without(s.flight, 0) == [];
    if j < n {
      assert Copies(Hop(m, j), targets) == [RreqCopy(j + 1, Hop(m, j))];
    }
    assert Happens(s, t, GetsRreq(0, now, lifetime, true, j == n, targets, n - 1));
  }

  /** The RREP gets to router 2 * n - j. */
  lemma LineBack(m: RreqMsg, n: nat, j: nat, now: nat, lifetime: nat)
    requires 1 <= n < j < 2 * n <= 256
    ensures LocalStep(LineAt(m, n, j, now, lifetime), LineAt(m, n, j + 1, now, lifetime), Hops(n), n)
  {
    hide Passed;
    var s, t := LineAt(m, n, j, now, lifetime), LineAt(m, n, j + 1, now, lifetime);
    assert Without(s.flight, 0) == [];
    assert t.routers == s.routers;
    assert Happens(s, t, GetsRrep(0, true, 2 * n - j - 1));
  }

  /** The distances along a line. */
  function Hops(n: nat): (r: seq<nat>)
    ensures |r| == n + 1 && forall i :: 0 <= i <= n ==> r[i] == i
  {
    seq(n + 1, i => i)
  }

  /** The states of the discovery. */
  function LineRun(m: RreqMsg, n: nat, now: nat, lifetime: nat): (r: seq<Network>)
    requires 1 <= n <= 128
    ensures |r| == 2 * n + 1 && forall j :: 0 <= j <= 2 * n ==> r[j] == LineAt(m, n, j, now, lifetime)
  {
    seq(2 * n + 1, j requires 0 <= j < 2 * n + 1 => LineAt(m, n, j, now, lifetime))
  }

  /** Along a line of n hops there is a run in which the RREQ gets to the target's router, and its RREP is back at the
   *  originator's router after 2 * n steps, with a hop limit of 256 - 2 * n, the most that TooFar allows. The reader
   *  takes it if that is not 0: if and only if there are at most 127 hops. */
  lemma DiscoveryCompletes(m: RreqMsg, n: nat, now: nat, lifetime: nat)
    requires Starts(m) && 1 <= n <= 128
    ensures exists run: seq<Network> ::
      && |run| == 2 * n + 1 && Initial(run[0]) && |run[0].routers| == n + 1 && run[0].discoveries == 1
      && IsLocalRun(run, Hops(n), n) && run[2 * n].flight == [RrepCopy(0, 256 - 2 * n)]
      && (256 - 2 * n > 0 <==> n <= 127)
  {
    hide LocalStep, Starts, Hops;
    var run := LineRun(m, n, now, lifetime);
    forall j | 0 <= j < |run| - 1 ensures LocalStep(run[j], run[j + 1], Hops(n), n) {
      hide LineAt;
      if j == 0 {
        LineStarts(m, n, now, lifetime);
      } else if j <= n {
        LineForward(m, n, j, now, lifetime);
      } else {
        LineBack(m, n, j, now, lifetime);
      }
    }
    assert IsLocalRun(run, Hops(n), n);
    assert run[2 * n].flight == [RrepCopy(0, 256 - 2 * n)];
    LineInitial(m, n, now, lifetime);
  }
}
