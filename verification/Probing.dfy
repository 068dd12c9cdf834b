/** Routing probes: a probe follows the next hops of the nodes it visits and collects a capacity,
    while tables keep changing around it. */
module Probing {
  import opened Types
  import opened RoutingTable
  import opened Codec
  import opened Network

  /** The capacity after the loop over the channels to the next hop: each one overwrites it on the
      first hop, and can only lower it on later ones. */
  function Collected(channels: seq<Channel>, hop: Key, first: bool, cap: int64): int64 {
    if channels == [] then cap
    else
      var n := |channels| - 1;
      var rest := Collected(channels[..n], hop, first, cap);
      if channels[n].remote == hop && (first || channels[n].balance < rest) then channels[n].balance else rest
  }

  /** The channel listed at place `i` is the last one to `hop`. */
  predicate LastListed(channels: seq<Channel>, hop: Key, i: nat) {
    i < |channels| && channels[i].remote == hop && forall j :: i < j < |channels| ==> channels[j].remote != hop
  }

  /** On the first hop the capacity becomes the balance of the last channel listed to the next hop. */
  lemma {:induction false} CollectedFirst(channels: seq<Channel>, hop: Key, cap: int64, i: nat)
    requires LastListed(channels, hop, i)
    ensures Collected(channels, hop, true, cap) == channels[i].balance
  {
    var n := |channels| - 1;
    if i < n {
      CollectedFirst(channels[..n], hop, cap, i);
    }
  }

  /** Without a channel to the next hop it stays as it is. */
  lemma {:induction false} CollectedNone(channels: seq<Channel>, hop: Key, first: bool, cap: int64)
    requires forall i :: 0 <= i < |channels| ==> channels[i].remote != hop
    ensures Collected(channels, hop, first, cap) == cap
  {
    if channels != [] {
      CollectedNone(channels[..|channels| - 1], hop, first, cap);
    }
  }

  lemma {:induction false} HasLast(channels: seq<Channel>, hop: Key, ch: Channel) returns (i: nat)
    requires ch in channels && ch.remote == hop
    ensures LastListed(channels, hop, i)
  {
    i := |channels| - 1;
    if channels[i].remote != hop {
      assert channels == channels[..i] + [channels[i]];
      i := HasLast(channels[..i], hop, ch);
    }
  }

  /** The key registered at an address, the zero key when there is none. */
  function KeyOf(keyAt: map<Address, Key>, a: Address): Key {
    if a in keyAt then keyAt[a] else seq(33, _ => 0)
  }

  /** One hop of a probe at a node with table `t`; none without an entry for the destination. */
  function AddHop(t: Table, keyAt: map<Address, Key>, channels: seq<Channel>, r: Route): Option<Route> {
    match Lookup(t, r.destination)
    case None => None
    case Some(e) =>
      var cap := Collected(channels, KeyOf(keyAt, e.nextHop), r.hops == [], r.capacity);
      Some(r.(capacity := cap, hops := r.hops + [e.nextHop]))
  }

  // ---- probes in a running network ----

  /** A probe in flight; `visited` are the nodes it has been sent to, from its source on, and
      `promised` is the capacity the source's entry had when it was launched. */
  datatype Probe = Probe(route: Route, visited: seq<Key>, promised: int64)

  datatype ProbeState = ProbeState(net: State, probes: set<Probe>)

  datatype ProbeStep =
    | Network(step: Step)
    | Launch(source: Key, dest: Address, token: Bytes)
    | Forward(p: Probe)

  /** The node the probe was last sent to. */
  function At(p: Probe): Key
    requires p.visited != []
  {
    p.visited[|p.visited| - 1]
  }

  ghost predicate ProbeInit(cfg: Config, s: ProbeState) {
    Init(cfg, s.net) && s.probes == {}
  }

  ghost predicate LaunchStep(cfg: Config, s: ProbeState, u: Key, d: Address, token: Bytes, s': ProbeState) {
    && u in cfg.channels && u in s.net.tables
    && var r := AddHop(s.net.tables[u], cfg.keyAt, cfg.channels[u], Route(d, token, 0, []));
    && r.Some?
    && var e := Lookup(s.net.tables[u], d).value;
    s' == s.(probes := s.probes + {Probe(r.value, [u, KeyOf(cfg.keyAt, e.nextHop)], e.capacity)})
  }

  /** A node that is not the destination adds its own next hop and sends the probe on, as long as the
      route still fits a frame. */
  ghost predicate ForwardStep(cfg: Config, s: ProbeState, p: Probe, s': ProbeState) {
    && p in s.probes && p.visited != [] && At(p) in cfg.channels && At(p) in cfg.addrOf && At(p) in s.net.tables
    && p.route.destination != cfg.addrOf[At(p)]
    && var r := AddHop(s.net.tables[At(p)], cfg.keyAt, cfg.channels[At(p)], p.route);
    && r.Some? && |r.value.hops| <= MAX_FRAMED_HOPS
    && var e := Lookup(s.net.tables[At(p)], p.route.destination).value;
    s' == s.(probes := s.probes + {Probe(r.value, p.visited + [KeyOf(cfg.keyAt, e.nextHop)], p.promised)})
  }

  ghost predicate ProbeNext(cfg: Config, s: ProbeState, step: ProbeStep, s': ProbeState)
    requires WellFormed(cfg)
  {
    match step
    case Network(n) => Next(cfg, s.net, n, s'.net) && s'.probes == s.probes
    case Launch(u, d, token) => LaunchStep(cfg, s, u, d, token, s')
    case Forward(p) => ForwardStep(cfg, s, p, s')
  }

  // ---- what a probe has collected ----

  /** Consecutive nodes are joined by channels, with at least `c` on every channel. */
  ghost predicate Trail(cfg: Config, v: seq<Key>, c: int) {
    var n := |v| - 1;
    n >= 1 && Edge(cfg, v[n - 1], v[n], c) && (n > 1 ==> Trail(cfg, v[..n], c))
  }

  /** Consecutive nodes are joined by channels of any balance. */
  ghost predicate Joined(cfg: Config, v: seq<Key>) {
    var n := |v| - 1;
    n >= 1 && HasChannel(cfg, v[n - 1], v[n]) && v[n] in cfg.addrOf && (n > 1 ==> Joined(cfg, v[..n]))
  }

  /** Capping a start value by every channel of every hop but the first. */
  ghost function CappedAlong(cfg: Config, v: seq<Key>, start: int64): int64
    requires Joined(cfg, v)
  {
    var n := |v| - 1;
    if n == 1 then start else Capped(cfg.channels[v[n - 1]], v[n], CappedAlong(cfg, v[..n], start))
  }

  /** What the hops of a probe add up to. */
  ghost function Gathered(cfg: Config, v: seq<Key>): int64
    requires Joined(cfg, v)
  {
    var n := |v| - 1;
    if n == 1 then Collected(cfg.channels[v[0]], v[1], true, 0)
    else Collected(cfg.channels[v[n - 1]], v[n], false, Gathered(cfg, v[..n]))
  }

  /** `hops` are the addresses of the nodes after the first. */
  ghost predicate HopsAre(cfg: Config, hops: seq<Address>, v: seq<Key>) {
    var n := |hops|;
    |v| == n + 1 && (n > 0 ==>
      v[n] in cfg.addrOf && hops[n - 1] == cfg.addrOf[v[n]] && HopsAre(cfg, hops[..n - 1], v[..n]))
  }

  lemma {:induction false} TrailJoined(cfg: Config, v: seq<Key>, c: int)
    requires Trail(cfg, v, c)
    ensures Joined(cfg, v)
  {
    if |v| > 2 {
      TrailJoined(cfg, v[..|v| - 1], c);
    }
  }

  /** The probe is where its promise can still be kept. */
  ghost predicate OnCourse(cfg: Config, s: State, p: Probe)
    requires p.visited != []
  {
    At(p) in cfg.addrOf &&
    (cfg.addrOf[At(p)] == p.route.destination || PromisedBy(s, At(p), p.route.destination, p.promised))
  }

  ghost predicate ProbeOk(cfg: Config, s: State, p: Probe) {
    && Trail(cfg, p.visited, p.promised) && Joined(cfg, p.visited)
    && HopsAre(cfg, p.route.hops, p.visited)
    && p.route.capacity == Gathered(cfg, p.visited)
    && OnCourse(cfg, s, p)
  }

  ghost predicate ProbeInv(cfg: Config, s: ProbeState) {
    Inv(cfg, s.net) && forall p :: p in s.probes ==> ProbeOk(cfg, s.net, p)
  }

  /** What every node's entry guarantees about its next hop. */
  lemma NextHopOk(cfg: Config, s: State, u: Key, d: Address)
    requires Inv(cfg, s) && u in s.tables && Lookup(s.tables[u], d).Some?
    ensures var e := Lookup(s.tables[u], d).value; var hop := KeyOf(cfg.keyAt, e.nextHop);
      && Edge(cfg, u, hop, e.capacity) && cfg.addrOf[hop] == e.nextHop
      && (cfg.addrOf[hop] == d || PromisedBy(s, hop, d, e.capacity))
  {
    assert OptOk(cfg, s, u, d, Lookup(s.tables[u], d));
  }

  lemma EdgeWeaken(cfg: Config, u: Key, v: Key, c: int, c': int)
    requires Edge(cfg, u, v, c) && c' <= c
    ensures Edge(cfg, u, v, c')
  {
  }

  lemma LaunchedOk(cfg: Config, s: State, u: Key, hop: Key, q: Probe)
    requires Edge(cfg, u, hop, q.promised) && q.visited == [u, hop] && q.route.hops == [cfg.addrOf[hop]]
    requires q.route.capacity == Collected(cfg.channels[u], hop, true, 0)
    requires cfg.addrOf[hop] == q.route.destination || PromisedBy(s, hop, q.route.destination, q.promised)
    ensures ProbeOk(cfg, s, q)
  {
    assert HopsAre(cfg, q.route.hops[..0], q.visited[..1]);
  }

  lemma LaunchKeeps(cfg: Config, s: ProbeState, u: Key, d: Address, token: Bytes, s': ProbeState)
    requires WellFormed(cfg) && ProbeInv(cfg, s) && LaunchStep(cfg, s, u, d, token, s')
    ensures ProbeInv(cfg, s')
  {
    NextHopOk(cfg, s.net, u, d);
    var e := Lookup(s.net.tables[u], d).value;
    var hop := KeyOf(cfg.keyAt, e.nextHop);
    var r := AddHop(s.net.tables[u], cfg.keyAt, cfg.channels[u], Route(d, token, 0, [])).value;
    LaunchedOk(cfg, s.net, u, hop, Probe(r, [u, hop], e.capacity));
  }

  lemma TrailStep(cfg: Config, v: seq<Key>, hop: Key, c: int, hops: seq<Address>, start: int64)
    requires Trail(cfg, v, c) && Joined(cfg, v) && HopsAre(cfg, hops, v) && Edge(cfg, v[|v| - 1], hop, c)
    requires start == Gathered(cfg, v)
    ensures Trail(cfg, v + [hop], c) && Joined(cfg, v + [hop]) && HopsAre(cfg, hops + [cfg.addrOf[hop]], v + [hop])
    ensures Gathered(cfg, v + [hop]) == Collected(cfg.channels[v[|v| - 1]], hop, false, start)
  {
    assert (v + [hop])[..|v|] == v;
    assert (hops + [cfg.addrOf[hop]])[..|hops|] == hops;
  }

  lemma ForwardedOk(cfg: Config, s: State, p: Probe, c: int, hop: Key, q: Probe)
    requires ProbeOk(cfg, s, p) && Edge(cfg, At(p), hop, c) && p.promised <= c
    requires cfg.addrOf[hop] == p.route.destination || PromisedBy(s, hop, p.route.destination, c)
    requires q.visited == p.visited + [hop] && q.promised == p.promised && q.route.destination == p.route.destination
    requires q.route.hops == p.route.hops + [cfg.addrOf[hop]]
    requires q.route.capacity == Collected(cfg.channels[At(p)], hop, false, p.route.capacity)
    ensures ProbeOk(cfg, s, q)
  {
    EdgeWeaken(cfg, At(p), hop, c, p.promised);
    TrailStep(cfg, p.visited, hop, p.promised, p.route.hops, p.route.capacity);
  }

  lemma ForwardKeeps(cfg: Config, s: ProbeState, p: Probe, s': ProbeState)
    requires WellFormed(cfg) && ProbeInv(cfg, s) && ForwardStep(cfg, s, p, s')
    ensures ProbeInv(cfg, s')
  {
    var u, d := At(p), p.route.destination;
    assert ProbeOk(cfg, s.net, p);
    NextHopOk(cfg, s.net, u, d);
    var e := Lookup(s.net.tables[u], d).value;
    var hop := KeyOf(cfg.keyAt, e.nextHop);
    var r := AddHop(s.net.tables[u], cfg.keyAt, cfg.channels[u], p.route).value;
    ForwardedOk(cfg, s.net, p, e.capacity, hop, Probe(r, p.visited + [hop], p.promised));
  }

  lemma ProbeNextKeeps(cfg: Config, s: ProbeState, step: ProbeStep, s': ProbeState)
    requires WellFormed(cfg) && ProbeInv(cfg, s) && ProbeNext(cfg, s, step, s')
    ensures ProbeInv(cfg, s')
  {
    match step
    case Network(n) =>
      NextInv(cfg, s.net, n, s'.net);
      forall p | p in s'.probes ensures ProbeOk(cfg, s'.net, p) {
        assert ProbeOk(cfg, s.net, p);
      }
    case Launch(u, d, token) => LaunchKeeps(cfg, s, u, d, token, s');
    case Forward(p) => ForwardKeeps(cfg, s, p, s');
  }

  // ---- runs ----

  ghost predicate ProbeStepTaken(cfg: Config, ss: seq<ProbeState>, steps: seq<ProbeStep>, i: nat)
    requires WellFormed(cfg)
  {
    i < |steps| && i + 1 < |ss| && ProbeNext(cfg, ss[i], steps[i], ss[i + 1])
  }

  ghost predicate IsProbeRun(cfg: Config, ss: seq<ProbeState>, steps: seq<ProbeStep>)
    requires WellFormed(cfg)
  {
    && |ss| == |steps| + 1 && ProbeInit(cfg, ss[0])
    && forall i: nat :: i < |steps| ==> ProbeStepTaken(cfg, ss, steps, i)
  }

  lemma {:induction false} ProbeRunInv(cfg: Config, ss: seq<ProbeState>, steps: seq<ProbeStep>, i: nat)
    requires WellFormed(cfg) && IsProbeRun(cfg, ss, steps) && i < |ss|
    ensures ProbeInv(cfg, ss[i])
  {
    if i == 0 {
      InitInv(cfg, ss[0].net);
    } else {
      ProbeRunInv(cfg, ss, steps, i - 1);
      assert ProbeStepTaken(cfg, ss, steps, i - 1);
      ProbeNextKeeps(cfg, ss[i - 1], steps[i - 1], ss[i]);
    }
  }

  lemma {:induction false} CollectedBound(channels: seq<Channel>, hop: Key, first: bool, cap: int64, c: int)
    requires forall ch :: ch in channels && ch.remote == hop ==> ch.balance >= c
    requires cap >= c || (first && exists ch :: ch in channels && ch.remote == hop)
    ensures Collected(channels, hop, first, cap) >= c
  {
    if channels != [] {
      var n := |channels| - 1;
      assert channels == channels[..n] + [channels[n]];
      if channels[n].remote != hop || !first {
        CollectedBound(channels[..n], hop, first, cap, c);
      }
    }
  }

  lemma {:induction false} GatheredAtLeast(cfg: Config, v: seq<Key>, c: int)
    requires Trail(cfg, v, c) && Joined(cfg, v)
    ensures Gathered(cfg, v) >= c
  {
    var n := |v| - 1;
    if n == 1 {
      CollectedBound(cfg.channels[v[0]], v[1], true, 0, c);
    } else {
      GatheredAtLeast(cfg, v[..n], c);
      CollectedBound(cfg.channels[v[n - 1]], v[n], false, Gathered(cfg, v[..n]), c);
    }
  }

  /** The probe guarantee, in every run with any interleaving of table changes and probe hops: a probe
      has visited consecutive channel neighbours, lists exactly their addresses as hops, and carries at
      least the capacity its source promised when it was launched. */
  lemma ProbeGuarantee(cfg: Config, ss: seq<ProbeState>, steps: seq<ProbeStep>, i: nat, p: Probe)
    requires WellFormed(cfg) && IsProbeRun(cfg, ss, steps) && i < |ss| && p in ss[i].probes
    ensures Trail(cfg, p.visited, p.promised) && Joined(cfg, p.visited) && HopsAre(cfg, p.route.hops, p.visited)
    ensures p.route.capacity == Gathered(cfg, p.visited) && p.route.capacity >= p.promised
  {
    ProbeRunInv(cfg, ss, steps, i);
    assert ProbeOk(cfg, ss[i].net, p);
    GatheredAtLeast(cfg, p.visited, p.promised);
  }

  /** Before state `i` of the run the probe's source launched one for this destination, with this token. */
  ghost predicate LaunchedBefore(steps: seq<ProbeStep>, i: nat, p: Probe) {
    exists j: nat :: LaunchedAt(steps, i, p, j)
  }

  ghost predicate LaunchedAt(steps: seq<ProbeStep>, i: nat, p: Probe, j: nat) {
    j < i <= |steps| && p.visited != [] && steps[j] == Launch(p.visited[0], p.route.destination, p.route.token)
  }

  /** Forwarding keeps where a probe came from, where it goes and its token: every probe on its way was launched so. */
  lemma {:induction false} ProbeFromLaunch(cfg: Config, ss: seq<ProbeState>, steps: seq<ProbeStep>, i: nat, p: Probe)
    requires WellFormed(cfg) && IsProbeRun(cfg, ss, steps) && i < |ss| && p in ss[i].probes
    ensures LaunchedBefore(steps, i, p)
  {
    if i > 0 {
      assert ProbeStepTaken(cfg, ss, steps, i - 1);
      if p in ss[i - 1].probes {
        ProbeFromLaunch(cfg, ss, steps, i - 1, p);
        var j: nat :| LaunchedAt(steps, i - 1, p, j);
        assert LaunchedAt(steps, i, p, j);
      } else {
        match steps[i - 1]
        case Network(n) =>
        case Launch(u, d, token) =>
          assert LaunchedAt(steps, i, p, i - 1);
        case Forward(q) =>
          ProbeFromLaunch(cfg, ss, steps, i - 1, q);
          var j: nat :| LaunchedAt(steps, i - 1, q, j);
          assert LaunchedAt(steps, i, p, j);
      }
    }
  }

  /** A probe that has not arrived is never at a loss: the node it was sent to runs the protocol and
      has an entry for the destination. */
  lemma ProbeNeverStuck(cfg: Config, ss: seq<ProbeState>, steps: seq<ProbeStep>, i: nat, p: Probe)
    requires WellFormed(cfg) && IsProbeRun(cfg, ss, steps) && i < |ss| && p in ss[i].probes
    ensures p.visited != [] && At(p) in cfg.addrOf
    ensures cfg.addrOf[At(p)] != p.route.destination ==>
      At(p) in cfg.channels && At(p) in ss[i].net.tables
        && AddHop(ss[i].net.tables[At(p)], cfg.keyAt, cfg.channels[At(p)], p.route).Some?
  {
    ProbeRunInv(cfg, ss, steps, i);
    assert ProbeOk(cfg, ss[i].net, p);
  }

  // ---- how the collected capacity compares with the route's ----

  /** Later hops cap by every channel. */
  lemma {:induction false} CollectedIsCapped(channels: seq<Channel>, hop: Key, cap: int64)
    ensures Collected(channels, hop, false, cap) == Capped(channels, hop, cap)
  {
    if channels != [] {
      CollectedIsCapped(channels[..|channels| - 1], hop, cap);
    }
  }

  lemma {:induction false} CappedMin(channels: seq<Channel>, hop: Key, a: int64, b: int64)
    requires a <= b
    ensures Capped(channels, hop, a) == if Capped(channels, hop, b) < a then Capped(channels, hop, b) else a
  {
    if channels != [] {
      CappedMin(channels[..|channels| - 1], hop, a, b);
    }
  }

  lemma {:induction false} CappedAlongMin(cfg: Config, v: seq<Key>, a: int64, b: int64)
    requires Joined(cfg, v) && a <= b
    ensures CappedAlong(cfg, v, a) == if CappedAlong(cfg, v, b) < a then CappedAlong(cfg, v, b) else a
  {
    var n := |v| - 1;
    if n > 1 {
      CappedAlongMin(cfg, v[..n], a, b);
      CappedMin(cfg.channels[v[n - 1]], v[n], CappedAlong(cfg, v[..n], a), CappedAlong(cfg, v[..n], b));
    }
  }

  /** The last listed balance of the channels from the first node to the second. */
  ghost function LastBalance(cfg: Config, v: seq<Key>): int64
    requires Joined(cfg, v)
  {
    HasLastChannel(cfg, v);
    var i: nat :| LastListed(cfg.channels[v[0]], v[1], i);
    cfg.channels[v[0]][i].balance
  }

  lemma HasLastChannel(cfg: Config, v: seq<Key>)
    requires Joined(cfg, v)
    ensures v[0] in cfg.channels && exists i: nat :: LastListed(cfg.channels[v[0]], v[1], i)
  {
    HasFirstChannel(cfg, v);
    var ch :| ch in cfg.channels[v[0]] && ch.remote == v[1];
    var i := HasLast(cfg.channels[v[0]], v[1], ch);
  }

  /** It is what a probe collects on its first hop. */
  lemma FirstCollected(cfg: Config, v: seq<Key>, cap: int64)
    requires Joined(cfg, v)
    ensures v[0] in cfg.channels && Collected(cfg.channels[v[0]], v[1], true, cap) == LastBalance(cfg, v)
  {
    HasLastChannel(cfg, v);
    var i: nat :| LastListed(cfg.channels[v[0]], v[1], i) && LastBalance(cfg, v) == cfg.channels[v[0]][i].balance;
    CollectedFirst(cfg.channels[v[0]], v[1], cap, i);
  }

  /** The smallest balance of the channels from the first node to the second. */
  ghost function LeastBalance(cfg: Config, v: seq<Key>): int64
    requires Joined(cfg, v)
  {
    HasFirstChannel(cfg, v);
    Capped(cfg.channels[v[0]], v[1], LastBalance(cfg, v))
  }

  /** The smallest balance along the whole trail. */
  ghost function Width(cfg: Config, v: seq<Key>): int64
    requires Joined(cfg, v)
  {
    CappedAlong(cfg, v, LeastBalance(cfg, v))
  }

  lemma {:induction false} HasFirstChannel(cfg: Config, v: seq<Key>)
    requires Joined(cfg, v)
    ensures v[0] in cfg.channels && HasChannel(cfg, v[0], v[1])
  {
    if |v| > 2 {
      HasFirstChannel(cfg, v[..|v| - 1]);
    }
  }

  lemma CappedIff(channels: seq<Channel>, hop: Key, cap: int64, c: int)
    ensures Capped(channels, hop, cap) >= c <==>
      cap >= c && forall ch :: ch in channels && ch.remote == hop ==> ch.balance >= c
  {
    if cap >= c && forall ch :: ch in channels && ch.remote == hop ==> ch.balance >= c {
      CappedAtLeast(channels, hop, cap, c);
    }
  }

  lemma {:induction false} CappedAlongIff(cfg: Config, v: seq<Key>, start: int64, c: int)
    requires Joined(cfg, v) && (start >= c <==> Edge(cfg, v[0], v[1], c))
    ensures CappedAlong(cfg, v, start) >= c <==> Trail(cfg, v, c)
  {
    var n := |v| - 1;
    if n > 1 {
      CappedAlongIff(cfg, v[..n], start, c);
      CappedIff(cfg.channels[v[n - 1]], v[n], CappedAlong(cfg, v[..n], start), c);
    }
  }

  lemma {:induction false} FirstRegistered(cfg: Config, v: seq<Key>)
    requires Joined(cfg, v)
    ensures v[1] in cfg.addrOf
  {
    if |v| > 2 {
      FirstRegistered(cfg, v[..|v| - 1]);
    }
  }

  /** `Width` is what its name says: the largest capacity that every channel of the trail can carry. */
  lemma WidthIff(cfg: Config, v: seq<Key>, c: int)
    requires Joined(cfg, v)
    ensures Width(cfg, v) >= c <==> Trail(cfg, v, c)
  {
    HasFirstChannel(cfg, v);
    FirstRegistered(cfg, v);
    CappedIff(cfg.channels[v[0]], v[1], LastBalance(cfg, v), c);
    if Edge(cfg, v[0], v[1], c) {
      CollectedBound(cfg.channels[v[0]], v[1], true, 0, c);
      FirstCollected(cfg, v, 0);
    }
    CappedAlongIff(cfg, v, LeastBalance(cfg, v), c);
  }

  lemma SameFirstHop(cfg: Config, v: seq<Key>)
    requires Joined(cfg, v) && |v| > 2
    ensures LastBalance(cfg, v[..|v| - 1]) == LastBalance(cfg, v)
  {
    FirstCollected(cfg, v, 0);
    FirstCollected(cfg, v[..|v| - 1], 0);
  }

  lemma {:induction false} GatheredIs(cfg: Config, v: seq<Key>)
    requires Joined(cfg, v)
    ensures Gathered(cfg, v) == CappedAlong(cfg, v, LastBalance(cfg, v))
  {
    var n := |v| - 1;
    if n > 1 {
      GatheredIs(cfg, v[..n]);
      CollectedIsCapped(cfg.channels[v[n - 1]], v[n], Gathered(cfg, v[..n]));
      SameFirstHop(cfg, v);
    } else {
      FirstCollected(cfg, v, 0);
    }
  }

  /** The smallest balance of the hops after the first; the largest number when there is only one hop. */
  ghost function Rest(cfg: Config, v: seq<Key>): int64
    requires Joined(cfg, v)
  {
    CappedAlong(cfg, v, 0x7fff_ffff_ffff_ffff)
  }

  /** With several channels to the first hop a probe may report more than its route can carry, because the last
      listed balance stands in for the smallest. It reports the true width if and only if that last balance is the
      smallest, or the hops after the first are no wider than the smallest anyway. */
  lemma GatheredExactIff(cfg: Config, v: seq<Key>)
    requires Joined(cfg, v)
    ensures Gathered(cfg, v) >= Width(cfg, v)
    ensures Gathered(cfg, v) == Width(cfg, v) <==>
      LastBalance(cfg, v) == LeastBalance(cfg, v) || Rest(cfg, v) <= LeastBalance(cfg, v)
  {
    GatheredIs(cfg, v);
    CappedAlongMin(cfg, v, LeastBalance(cfg, v), 0x7fff_ffff_ffff_ffff);
    CappedAlongMin(cfg, v, LastBalance(cfg, v), 0x7fff_ffff_ffff_ffff);
  }

  /** Two registered nodes; the first lists two channels to the second, of balances 1 and then 5. */
  function Pair(a: Key, b: Key, ha: Address, hb: Address): Config {
    Config(map[a := [Channel(b, 1), Channel(b, 5)]], map[a := ha, b := hb], map[ha := a, hb := b])
  }

  lemma PairPass(a: Key, b: Key, ha: Address, hb: Address)
    requires a != b && ha != hb
    ensures SyncPass(NodeView(Pair(a, b, ha, hb), a, 0), []) == [Entry(hb, hb, 1, 0)]
  {
    var v, t := NodeView(Pair(a, b, ha, hb), a, 0), [Entry(hb, hb, 1, 0)];
    assert v.channels[0] in v.channels;
    CappedAtLeast(v.channels, b, 1, 1);
    CappedAtLeast(v.channels, b, 5, 1);
    assert SyncUpTo(v, [], 0) == [];
    assert SyncUpTo(v, [], 1) == SyncChannel(v, [], v.channels[0]) == t;
    assert Lower(t, hb, 5) == t && Without(t, hb) == [];
  }

  lemma PairCollects(a: Key, b: Key, ha: Address, hb: Address, token: Bytes)
    requires a != b && ha != hb
    ensures var cfg := Pair(a, b, ha, hb);
      AddHop([Entry(hb, hb, 1, 0)], cfg.keyAt, cfg.channels[a], Route(hb, token, 0, [])) == Some(Route(hb, token, 5, [hb]))
  {
    var cs := Pair(a, b, ha, hb).channels[a];
    assert LastListed(cs, b, 1);
    CollectedFirst(cs, b, 0, 1);
    assert [] + [hb] == [hb];
  }

  lemma PairWidth(a: Key, b: Key, ha: Address, hb: Address)
    requires a != b && ha != hb && Joined(Pair(a, b, ha, hb), [a, b])
    ensures Width(Pair(a, b, ha, hb), [a, b]) == 1
  {
    var cs := Pair(a, b, ha, hb).channels[a];
    assert cs[0] in cs && LastListed(cs, b, 1);
    CollectedFirst(cs, b, 0, 1);
    FirstCollected(Pair(a, b, ha, hb), [a, b], 0);
    CappedIff(cs, b, 5, 1);
    CappedIff(cs, b, 5, 2);
  }

  /** In a run of two nodes, a balance pass and then a launch, the probe reports 5 where its route carries 1. */
  lemma ProbeMayOverReport(a: Key, b: Key, ha: Address, hb: Address, token: Bytes)
      returns (ss: seq<ProbeState>, steps: seq<ProbeStep>, p: Probe)
    requires a != b && ha != hb
    ensures var cfg := Pair(a, b, ha, hb);
      && WellFormed(cfg) && IsProbeRun(cfg, ss, steps) && p in ss[|ss| - 1].probes
      && p.route.capacity == 5 && Joined(cfg, p.visited) && Width(cfg, p.visited) == 1
  {
    var cfg := Pair(a, b, ha, hb);
    var t := [Entry(hb, hb, 1, 0)];
    PairPass(a, b, ha, hb);
    PairCollects(a, b, ha, hb, token);
    p := Probe(Route(hb, token, 5, [hb]), [a, b], 1);
    var none: Table := [];
    var s0 := ProbeState(State(map[a := none], {}), {});
    var s1 := ProbeState(State(map[a := t], {}), {});
    var s2 := s1.(probes := s1.probes + {p});
    ss, steps := [s0, s1, s2], [Network(Sync(a, 0)), Launch(a, hb, token)];
    assert ProbeNext(cfg, s0, steps[0], s1) && LaunchStep(cfg, s1, a, hb, token, s2);
    forall i: nat | i < |steps| ensures ProbeStepTaken(cfg, ss, steps, i) {
      assert i == 0 || i == 1;
    }
    ProbeGuarantee(cfg, ss, steps, 2, p);
    PairWidth(a, b, ha, hb);
  }
}
