/** The routing protocol as a whole: nodes with tables, responses and probes in flight, and every
    interleaving of balance passes, table exchanges and probe hops, over fixed channel balances. */
module Network {
  import opened Types
  import opened RoutingTable
  import opened Codec

  /** The fixed surroundings: every running node's channels, and the address registry all nodes
      build from the same chain, in both directions. */
  datatype Config = Config(channels: map<Key, seq<Channel>>, addrOf: map<Key, Address>, keyAt: map<Address, Key>)

  /** Running nodes are registered and the two directions of the registry agree. */
  ghost predicate WellFormed(cfg: Config) {
    && cfg.channels.Keys <= cfg.addrOf.Keys
    && (forall k :: k in cfg.addrOf ==> cfg.addrOf[k] in cfg.keyAt && cfg.keyAt[cfg.addrOf[k]] == k)
  }

  lemma RegistryInjective(cfg: Config)
    requires WellFormed(cfg)
    ensures OneKeyPerAddress(cfg.addrOf)
  {
    forall k, l | k in cfg.addrOf && l in cfg.addrOf && cfg.addrOf[k] == cfg.addrOf[l] ensures k == l {
      assert cfg.keyAt[cfg.addrOf[k]] == k;
    }
  }

  ghost predicate HasChannel(cfg: Config, u: Key, v: Key) {
    u in cfg.channels && exists ch :: ch in cfg.channels[u] && ch.remote == v
  }

  /** `u` has channels to the registered node `v`, and each has a balance of at least `c`. */
  ghost predicate Edge(cfg: Config, u: Key, v: Key, c: int) {
    && HasChannel(cfg, u, v) && v in cfg.addrOf
    && forall ch :: ch in cfg.channels[u] && ch.remote == v ==> ch.balance >= c
  }

  /** Two running nodes that list a channel with each other, and so may hold a peer connection. */
  ghost predicate Peers(cfg: Config, u: Key, v: Key) {
    HasChannel(cfg, u, v) && HasChannel(cfg, v, u)
  }

  /** `p` is a walk along channels to the node registered at `d`, every channel of every hop having a balance
      of at least `c`, along which tables are exchanged: every hop but the last joins peers. */
  ghost predicate PeerWalk(cfg: Config, p: seq<Key>, d: Address, c: int) {
    if |p| == 0 then false
    else if |p| == 1 then p[0] in cfg.addrOf && cfg.addrOf[p[0]] == d
    else Edge(cfg, p[0], p[1], c) && (|p| > 2 ==> Peers(cfg, p[0], p[1])) && PeerWalk(cfg, p[1..], d, c)
  }

  ghost predicate ReachesVia(cfg: Config, u: Key, v: Key, d: Address, c: int) {
    exists p :: |p| >= 2 && p[0] == u && p[1] == v && PeerWalk(cfg, p, d, c)
  }

  ghost predicate Reaches(cfg: Config, u: Key, d: Address, c: int) {
    exists v :: ReachesVia(cfg, u, v, d, c)
  }

  // ---- state and steps ----

  datatype Message = Message(from: Key, to: Key, dests: seq<Destination>)

  datatype State = State(tables: map<Key, Table>, sent: set<Message>)

  datatype Step =
    | Sync(node: Key, height: uint64)
    | Respond(from: Key, to: Key)
    | Deliver(m: Message, height: uint64)

  function NodeView(cfg: Config, u: Key, height: uint64): View
    requires u in cfg.channels && u in cfg.addrOf
  {
    View(cfg.addrOf[u], cfg.addrOf, cfg.channels[u], height)
  }

  ghost predicate Init(cfg: Config, s: State) {
    s.tables == (map u | u in cfg.channels :: []) && s.sent == {}
  }

  /** Responses may be delayed, reordered and even delivered twice: `sent` only grows. A response is
      processed only if it fits a frame; a longer one is cut on the wire and cannot be opened. */
  ghost predicate Next(cfg: Config, s: State, step: Step, s': State)
    requires WellFormed(cfg)
  {
    s.tables.Keys == cfg.channels.Keys &&
    match step
    case Sync(u, h) =>
      && u in cfg.channels
      && s' == s.(tables := s.tables[u := SyncPass(NodeView(cfg, u, h), s.tables[u])])
    case Respond(from, to) =>
      && Peers(cfg, to, from)
      && s' == s.(sent := s.sent + {Message(from, to, Destinations(s.tables[from]))})
    case Deliver(m, h) =>
      && m in s.sent && m.to in cfg.channels && |m.dests| <= MAX_FRAMED_ENTRIES
      && s' == s.(tables := s.tables[m.to := Offers(NodeView(cfg, m.to, h), s.tables[m.to], m.from, m.dests)])
  }

  // ---- the invariant ----

  /** The table promises at least `c` towards `d`. */
  ghost predicate Promises(t: Table, d: Address, c: int) {
    Lookup(t, d).Some? && Lookup(t, d).value.capacity >= c
  }

  ghost predicate PromisedBy(s: State, u: Key, d: Address, c: int) {
    u in s.tables && Promises(s.tables[u], d, c)
  }

  /** The entry's next hop is a channel neighbour; the capacity is at most each balance to it and,
      unless the hop is the destination, at most what the hop itself promises; and some real walk
      through that hop carries the capacity all the way. */
  ghost predicate EntryOk(cfg: Config, s: State, u: Key, e: Entry) {
    && u in cfg.addrOf && e.dest != cfg.addrOf[u]
    && e.nextHop in cfg.keyAt
    && var hop := cfg.keyAt[e.nextHop];
    && hop in cfg.addrOf && cfg.addrOf[hop] == e.nextHop
    && Edge(cfg, u, hop, e.capacity)
    && (e.dest == e.nextHop || PromisedBy(s, hop, e.dest, e.capacity))
    && ReachesVia(cfg, u, hop, e.dest, e.capacity)
  }

  ghost predicate OptOk(cfg: Config, s: State, u: Key, d: Address, o: Option<Entry>) {
    o.Some? ==> o.value.dest == d && EntryOk(cfg, s, u, o.value)
  }

  ghost predicate TableOk(cfg: Config, s: State, u: Key, t: Table) {
    Distinct(t) && forall d {:trigger OptOk(cfg, s, u, d, Lookup(t, d))} :: OptOk(cfg, s, u, d, Lookup(t, d))
  }

  /** An in-flight destination is still promised by its sender and is reachable from it. */
  ghost predicate DestOk(cfg: Config, s: State, from: Key, x: Destination) {
    PromisedBy(s, from, x.address, x.capacity) && Reaches(cfg, from, x.address, x.capacity)
  }

  ghost predicate MessageOk(cfg: Config, s: State, m: Message) {
    Peers(cfg, m.to, m.from) && forall x :: x in m.dests ==> DestOk(cfg, s, m.from, x)
  }

  ghost predicate Inv(cfg: Config, s: State) {
    && s.tables.Keys == cfg.channels.Keys
    && (forall u :: u in s.tables ==> TableOk(cfg, s, u, s.tables[u]))
    && (forall m :: m in s.sent ==> MessageOk(cfg, s, m))
  }

  /** No promise is ever withdrawn. */
  ghost predicate GrowsTo(t: Table, t': Table) {
    forall d, c :: Promises(t, d, c) ==> Promises(t', d, c)
  }

  ghost predicate Grows(s: State, s': State) {
    && s.tables.Keys == s'.tables.Keys && s.sent <= s'.sent
    && forall u :: u in s.tables ==> GrowsTo(s.tables[u], s'.tables[u])
  }

  // ---- walks ----

  lemma {:induction false} PeerWalkWeaken(cfg: Config, p: seq<Key>, d: Address, c: int, c': int)
    requires PeerWalk(cfg, p, d, c) && c' <= c
    ensures PeerWalk(cfg, p, d, c')
  {
    if |p| >= 2 {
      PeerWalkWeaken(cfg, p[1..], d, c, c');
    }
  }

  /** A hop in front of a walk. */
  lemma PeerWalkExtend(cfg: Config, u: Key, v: Key, d: Address, c: int, c': int)
    requires Peers(cfg, u, v) && Edge(cfg, u, v, c') && Reaches(cfg, v, d, c) && c' <= c
    ensures ReachesVia(cfg, u, v, d, c')
  {
    var w :| ReachesVia(cfg, v, w, d, c);
    var p :| |p| >= 2 && p[0] == v && p[1] == w && PeerWalk(cfg, p, d, c);
    PeerWalkWeaken(cfg, p, d, c, c');
    assert ([u] + p)[1..] == p;
    assert PeerWalk(cfg, [u] + p, d, c');
  }

  lemma PeerWalkDirect(cfg: Config, u: Key, v: Key, c: int)
    requires Edge(cfg, u, v, c)
    ensures ReachesVia(cfg, u, v, cfg.addrOf[v], c)
  {
    var p := [u, v];
    assert p[1..] == [v];
    assert PeerWalk(cfg, p, cfg.addrOf[v], c);
  }

  // ---- the invariant is kept ----

  lemma OfferKeeps(cfg: Config, s: State, u: Key, h: uint64, t: Table, from: Key, x: Destination)
    requires WellFormed(cfg) && Peers(cfg, u, from) && TableOk(cfg, s, u, t) && DestOk(cfg, s, from, x)
    ensures var t' := Offer(NodeView(cfg, u, h), t, from, x); TableOk(cfg, s, u, t') && GrowsTo(t, t')
  {
    var v := NodeView(cfg, u, h);
    var t' := Offer(v, t, from, x);
    var e := Entry(x.address, HopAddress(v, from), Capped(v.channels, from, x.capacity), h);
    if x.address != v.local {
      assert Edge(cfg, u, from, e.capacity);
      assert cfg.keyAt[e.nextHop] == from;
      PeerWalkExtend(cfg, u, from, x.address, x.capacity, e.capacity);
      assert PromisedBy(s, from, e.dest, e.capacity);
      assert EntryOk(cfg, s, u, e);
    }
    OfferDistinct(v, t, from, x);
    forall d ensures OptOk(cfg, s, u, d, Lookup(t', d)) {
      assert OptOk(cfg, s, u, d, Lookup(t, d));
      OfferLookup(v, t, from, x, d);
    }
    forall d, c | Promises(t, d, c) ensures Promises(t', d, c) {
      OfferLookup(v, t, from, x, d);
    }
  }

  lemma {:induction false} OffersKeep(cfg: Config, s: State, u: Key, h: uint64, t: Table, from: Key,
      ds: seq<Destination>)
    requires WellFormed(cfg) && Peers(cfg, u, from) && TableOk(cfg, s, u, t)
    requires forall x :: x in ds ==> DestOk(cfg, s, from, x)
    ensures var t' := Offers(NodeView(cfg, u, h), t, from, ds); TableOk(cfg, s, u, t') && GrowsTo(t, t')
    decreases |ds|
  {
    if ds != [] {
      var n := |ds| - 1;
      OffersKeep(cfg, s, u, h, t, from, ds[..n]);
      OfferKeeps(cfg, s, u, h, Offers(NodeView(cfg, u, h), t, from, ds[..n]), from, ds[n]);
    }
  }

  /** A sound entry is never lowered by a balance pass over the same balances. */
  lemma OkWithin(cfg: Config, s: State, u: Key, h: uint64, d: Address, o: Option<Entry>)
    requires WellFormed(cfg) && u in cfg.channels && OptOk(cfg, s, u, d, o)
    ensures WithinFirst(NodeView(cfg, u, h), o, |cfg.channels[u]|)
  {
    if o.Some? {
      var v := NodeView(cfg, u, h);
      forall i | 0 <= i < |v.channels| ensures Within(v, o.value, v.channels[i]) {
        var ch := v.channels[i];
        if ch.remote in v.addrOf && v.addrOf[ch.remote] == o.value.nextHop {
          assert cfg.keyAt[o.value.nextHop] == ch.remote;
          assert ch in cfg.channels[u];
        }
      }
    }
  }

  lemma DirectOk(cfg: Config, s: State, u: Key, ch: Channel, h: uint64)
    requires WellFormed(cfg) && u in cfg.channels && ch in cfg.channels[u] && ch.remote in cfg.addrOf
    requires cfg.addrOf[ch.remote] != cfg.addrOf[u]
    ensures var hop := cfg.addrOf[ch.remote];
      EntryOk(cfg, s, u, Entry(hop, hop, Capped(cfg.channels[u], ch.remote, ch.balance), h))
  {
    var c := Capped(cfg.channels[u], ch.remote, ch.balance);
    assert Edge(cfg, u, ch.remote, c);
    PeerWalkDirect(cfg, u, ch.remote, c);
  }

  /** One channel of a balance pass keeps a sound entry sound and lowers nothing. */
  lemma ChannelKeeps(cfg: Config, s: State, u: Key, h: uint64, was: Option<Entry>, i: nat, d: Address)
    requires WellFormed(cfg) && u in cfg.channels && i < |cfg.channels[u]| && OptOk(cfg, s, u, d, was)
    ensures var now := ChannelEffect(NodeView(cfg, u, h), was, cfg.channels[u][i], d);
      && OptOk(cfg, s, u, d, now)
      && (was.Some? ==> now.Some? && now.value.capacity >= was.value.capacity)
  {
    var v, ch := NodeView(cfg, u, h), cfg.channels[u][i];
    OkWithin(cfg, s, u, h, d, was);
    if was.Some? {
      assert Within(v, was.value, v.channels[i]);
    }
    if ch.remote in v.addrOf && v.addrOf[ch.remote] != v.local {
      DirectOk(cfg, s, u, ch, h);
    }
  }

  lemma {:induction false} PassKeeps(cfg: Config, s: State, u: Key, h: uint64, was: Option<Entry>, n: nat, d: Address)
    requires WellFormed(cfg) && u in cfg.channels && n <= |cfg.channels[u]| && OptOk(cfg, s, u, d, was)
    ensures var now := PassEffect(NodeView(cfg, u, h), was, n, d);
      && OptOk(cfg, s, u, d, now)
      && (was.Some? ==> now.Some? && now.value.capacity >= was.value.capacity)
  {
    if n > 0 {
      PassKeeps(cfg, s, u, h, was, n - 1, d);
      ChannelKeeps(cfg, s, u, h, PassEffect(NodeView(cfg, u, h), was, n - 1, d), n - 1, d);
    }
  }

  lemma SyncKeeps(cfg: Config, s: State, u: Key, h: uint64, t: Table)
    requires WellFormed(cfg) && u in cfg.channels && TableOk(cfg, s, u, t)
    ensures var t' := SyncPass(NodeView(cfg, u, h), t); TableOk(cfg, s, u, t') && GrowsTo(t, t')
  {
    var v := NodeView(cfg, u, h);
    SyncDistinct(v, t, |v.channels|);
    forall d ensures OptOk(cfg, s, u, d, Lookup(SyncPass(v, t), d))
             ensures forall c :: Promises(t, d, c) ==> Promises(SyncPass(v, t), d, c)
    {
      assert OptOk(cfg, s, u, d, Lookup(t, d));
      SyncUpToLookup(v, t, |v.channels|, d);
      PassKeeps(cfg, s, u, h, Lookup(t, d), |v.channels|, d);
    }
  }

  lemma ResponseOk(cfg: Config, s: State, from: Key)
    requires Inv(cfg, s) && from in s.tables
    ensures forall x :: x in Destinations(s.tables[from]) ==> DestOk(cfg, s, from, x)
  {
    var t := s.tables[from];
    forall x | x in Destinations(t) ensures DestOk(cfg, s, from, x) {
      var i :| 0 <= i < |t| && Destinations(t)[i] == x;
      LookupUnique(t, t[i]);
      assert OptOk(cfg, s, from, t[i].dest, Lookup(t, t[i].dest));
    }
  }

  /** What is sound stays sound while tables only grow. */
  lemma OkGrows(cfg: Config, s: State, s': State)
    requires Grows(s, s')
    ensures forall u, t :: TableOk(cfg, s, u, t) ==> TableOk(cfg, s', u, t)
    ensures forall m :: MessageOk(cfg, s, m) ==> MessageOk(cfg, s', m)
  {
    forall u, d, c | PromisedBy(s, u, d, c) ensures PromisedBy(s', u, d, c) {
    }
    forall u, t | TableOk(cfg, s, u, t) ensures TableOk(cfg, s', u, t) {
      forall d ensures OptOk(cfg, s', u, d, Lookup(t, d)) {
        assert OptOk(cfg, s, u, d, Lookup(t, d));
      }
    }
    forall m | MessageOk(cfg, s, m) ensures MessageOk(cfg, s', m) {
      forall x | x in m.dests ensures DestOk(cfg, s', m.from, x) {
        assert DestOk(cfg, s, m.from, x);
      }
    }
  }

  lemma InitInv(cfg: Config, s: State)
    requires WellFormed(cfg) && Init(cfg, s)
    ensures Inv(cfg, s)
  {
  }

  /** Every step keeps the invariant and withdraws no promise. */
  lemma NextInv(cfg: Config, s: State, step: Step, s': State)
    requires WellFormed(cfg) && Inv(cfg, s) && Next(cfg, s, step, s')
    ensures Inv(cfg, s') && Grows(s, s')
  {
    match step
    case Sync(u, h) =>
      SyncKeeps(cfg, s, u, h, s.tables[u]);
      OkGrows(cfg, s, s');
    case Respond(from, to) =>
      ResponseOk(cfg, s, from);
      OkGrows(cfg, s, s');
    case Deliver(m, h) =>
      assert MessageOk(cfg, s, m);
      OffersKeep(cfg, s, m.to, h, s.tables[m.to], m.from, m.dests);
      OkGrows(cfg, s, s');
  }

  // ---- runs ----

  ghost predicate StepTaken(cfg: Config, ss: seq<State>, steps: seq<Step>, i: nat)
    requires WellFormed(cfg)
  {
    i < |steps| && i + 1 < |ss| && Next(cfg, ss[i], steps[i], ss[i + 1])
  }

  /** `ss[0]` has empty tables and each `steps[i]` leads from `ss[i]` to `ss[i + 1]`. */
  ghost predicate IsRun(cfg: Config, ss: seq<State>, steps: seq<Step>)
    requires WellFormed(cfg)
  {
    && |ss| == |steps| + 1
    && Init(cfg, ss[0])
    && forall i: nat :: i < |steps| ==> StepTaken(cfg, ss, steps, i)
  }

  lemma {:induction false} RunInv(cfg: Config, ss: seq<State>, steps: seq<Step>, i: nat)
    requires WellFormed(cfg) && IsRun(cfg, ss, steps) && i < |ss|
    ensures Inv(cfg, ss[i])
  {
    if i == 0 {
      InitInv(cfg, ss[0]);
    } else {
      RunInv(cfg, ss, steps, i - 1);
      assert StepTaken(cfg, ss, steps, i - 1);
      NextInv(cfg, ss[i - 1], steps[i - 1], ss[i]);
    }
  }

  lemma {:induction false} RunGrows(cfg: Config, ss: seq<State>, steps: seq<Step>, i: nat, j: nat)
    requires WellFormed(cfg) && IsRun(cfg, ss, steps) && i <= j < |ss|
    ensures Grows(ss[i], ss[j])
    decreases j
  {
    if i < j {
      RunGrows(cfg, ss, steps, i, j - 1);
      RunInv(cfg, ss, steps, j - 1);
      assert StepTaken(cfg, ss, steps, j - 1);
      NextInv(cfg, ss[j - 1], steps[j - 1], ss[j]);
    }
  }

  /** Soundness over every run: each stored entry, and each destination in flight, is witnessed by
      a real walk of channels to the destination with at least that balance on every channel;
      a stored entry's walk leaves through its next hop. */
  lemma Soundness(cfg: Config, ss: seq<State>, steps: seq<Step>, i: nat)
    requires WellFormed(cfg) && IsRun(cfg, ss, steps) && i < |ss|
    ensures forall u, e :: u in ss[i].tables && e in ss[i].tables[u] ==>
      e.nextHop in cfg.keyAt && ReachesVia(cfg, u, cfg.keyAt[e.nextHop], e.dest, e.capacity)
    ensures forall m, x :: m in ss[i].sent && x in m.dests ==> Reaches(cfg, m.from, x.address, x.capacity)
  {
    RunInv(cfg, ss, steps, i);
    forall u, e | u in ss[i].tables && e in ss[i].tables[u]
      ensures e.nextHop in cfg.keyAt && ReachesVia(cfg, u, cfg.keyAt[e.nextHop], e.dest, e.capacity)
    {
      LookupUnique(ss[i].tables[u], e);
      assert OptOk(cfg, ss[i], u, e.dest, Lookup(ss[i].tables[u], e.dest));
    }
    forall m, x | m in ss[i].sent && x in m.dests ensures Reaches(cfg, m.from, x.address, x.capacity) {
      assert DestOk(cfg, ss[i], m.from, x);
    }
  }

  /** The next-hop chain: in every reachable state an entry is at most the balance of each channel to
      its next hop and, unless that hop is the destination, at most the hop's own entry. */
  lemma NextHopChain(cfg: Config, ss: seq<State>, steps: seq<Step>, i: nat, u: Key, e: Entry)
    requires WellFormed(cfg) && IsRun(cfg, ss, steps) && i < |ss|
    requires u in ss[i].tables && e in ss[i].tables[u]
    ensures e.nextHop in cfg.keyAt && Edge(cfg, u, cfg.keyAt[e.nextHop], e.capacity)
    ensures e.dest == e.nextHop || PromisedBy(ss[i], cfg.keyAt[e.nextHop], e.dest, e.capacity)
  {
    RunInv(cfg, ss, steps, i);
    LookupUnique(ss[i].tables[u], e);
    assert OptOk(cfg, ss[i], u, e.dest, Lookup(ss[i].tables[u], e.dest));
  }

  lemma RunKeepsPromise(cfg: Config, ss: seq<State>, steps: seq<Step>, i: nat, j: nat, u: Key, d: Address, c: int)
    requires WellFormed(cfg) && IsRun(cfg, ss, steps) && i <= j < |ss| && PromisedBy(ss[i], u, d, c)
    ensures PromisedBy(ss[j], u, d, c)
  {
    RunGrows(cfg, ss, steps, i, j);
  }

  // ---- convergence ----

  /** At step `a`, `v` answers with its table, and at step `b`, `u` processes that very answer. */
  ghost predicate ExchangeAt(ss: seq<State>, steps: seq<Step>, a: nat, b: nat, u: Key, v: Key) {
    && a < b < |steps| && a < |ss| && v in ss[a].tables && steps[a] == Respond(v, u)
    && steps[b].Deliver? && steps[b].m == Message(v, u, Destinations(ss[a].tables[v]))
  }

  ghost predicate FreshExchange(ss: seq<State>, steps: seq<Step>, lo: nat, hi: nat, u: Key, v: Key) {
    exists a: nat, b: nat :: lo <= a && b < hi && ExchangeAt(ss, steps, a, b, u, v)
  }

  /** A full exchange round: a fresh exchange in both directions of every peer connection, in any
      order and with any other steps in between. */
  ghost predicate Round(cfg: Config, ss: seq<State>, steps: seq<Step>, lo: nat, hi: nat) {
    forall u, v :: Peers(cfg, u, v) ==> FreshExchange(ss, steps, lo, hi, u, v)
  }

  ghost predicate AllSynced(cfg: Config, steps: seq<Step>, hi: nat) {
    forall u :: u in cfg.channels ==> exists a :: 0 <= a < hi <= |steps| && steps[a].Sync? && steps[a].node == u
  }

  /** Every node has run a balance pass by `marks[0]`, and a full round fits between any two
      consecutive marks. */
  ghost predicate Rounds(cfg: Config, ss: seq<State>, steps: seq<Step>, marks: seq<nat>) {
    && marks != [] && AllSynced(cfg, steps, marks[0])
    && (forall r :: 0 <= r < |marks| ==> marks[r] <= |steps|)
    && (forall r {:trigger marks[r]} :: 0 < r < |marks| ==>
          marks[r - 1] <= marks[r] && Round(cfg, ss, steps, marks[r - 1], marks[r]))
  }

  lemma SyncPromises(cfg: Config, s: State, u: Key, h: uint64, t: Table, v: Key, c: int)
    requires WellFormed(cfg) && TableOk(cfg, s, u, t) && Edge(cfg, u, v, c) && u in cfg.addrOf
    requires cfg.addrOf[u] != cfg.addrOf[v]
    ensures Promises(SyncPass(NodeView(cfg, u, h), t), cfg.addrOf[v], c)
  {
    var w, d := NodeView(cfg, u, h), cfg.addrOf[v];
    RegistryInjective(cfg);
    assert OptOk(cfg, s, u, d, Lookup(t, d));
    OkWithin(cfg, s, u, h, d, Lookup(t, d));
    PassEffectServes(w, Lookup(t, d), |w.channels|, d);
    SyncUpToLookup(w, t, |w.channels|, d);
    var ch :| ch in cfg.channels[u] && ch.remote == v;
    var i :| 0 <= i < |w.channels| && w.channels[i] == ch;
    assert Served(w, Lookup(SyncPass(w, t), d), w.channels[i], d);
    CappedAtLeast(w.channels, ch.remote, ch.balance, c);
  }

  /** After processing a response, the receiver promises each destination in it, capped by its own
      channels to the sender. */
  lemma {:induction false} OffersPromise(v: View, t: Table, peer: Key, ds: seq<Destination>, x: Destination)
    requires x in ds && x.address != v.local
    ensures Promises(Offers(v, t, peer, ds), x.address, Capped(v.channels, peer, x.capacity))
    decreases |ds|
  {
    var n := |ds| - 1;
    OfferLookup(v, Offers(v, t, peer, ds[..n]), peer, ds[n], x.address);
    if ds[n] != x {
      OffersPromise(v, t, peer, ds[..n], x);
    }
  }

  lemma {:induction false} PeerWalkEnds(cfg: Config, p: seq<Key>, d: Address, c: int)
    requires PeerWalk(cfg, p, d, c)
    ensures exists k :: k in cfg.addrOf && cfg.addrOf[k] == d
  {
    if |p| >= 2 {
      PeerWalkEnds(cfg, p[1..], d, c);
    }
  }

  lemma {:induction false} TableSize(t: Table, addrOf: map<Key, Address>)
    requires Distinct(t) && forall e :: e in t ==> exists k :: k in addrOf && addrOf[k] == e.dest
    ensures |t| <= |addrOf|
  {
    if t != [] {
      assert t[0] in t;
      var k :| k in addrOf && addrOf[k] == t[0].dest;
      var rest := addrOf - {k};
      forall e | e in t[1..] ensures exists l :: l in rest && rest[l] == e.dest {
        var l :| l in addrOf && addrOf[l] == e.dest;
        assert l in rest && rest[l] == e.dest;
      }
      TableSize(t[1..], rest);
      assert addrOf.Keys == rest.Keys + {k};
    }
  }

  lemma TableFits(cfg: Config, s: State, u: Key, t: Table)
    requires TableOk(cfg, s, u, t)
    ensures |t| <= |cfg.addrOf|
  {
    forall e | e in t ensures exists k :: k in cfg.addrOf && cfg.addrOf[k] == e.dest {
      LookupUnique(t, e);
      assert OptOk(cfg, s, u, e.dest, Lookup(t, e.dest));
      var p :| |p| >= 2 && PeerWalk(cfg, p, e.dest, e.capacity);
      PeerWalkEnds(cfg, p, e.dest, e.capacity);
    }
    TableSize(t, cfg.addrOf);
  }

  /** With at most 5459 registered addresses no response ever outgrows a frame. */
  lemma ResponsesFit(cfg: Config, ss: seq<State>, steps: seq<Step>, i: nat, u: Key)
    requires WellFormed(cfg) && IsRun(cfg, ss, steps) && i < |ss| && u in ss[i].tables
    requires |cfg.addrOf| <= MAX_FRAMED_ENTRIES
    ensures |Destinations(ss[i].tables[u])| <= MAX_FRAMED_ENTRIES
  {
    RunInv(cfg, ss, steps, i);
    TableFits(cfg, ss[i], u, ss[i].tables[u]);
  }

  lemma PromiseShared(t: Table, d: Address, c: int) returns (x: Destination)
    requires Promises(t, d, c)
    ensures x in Destinations(t) && x.address == d && x.capacity >= c
  {
    var e := Lookup(t, d).value;
    var i :| 0 <= i < |t| && t[i] == e;
    x := Destinations(t)[i];
  }

  lemma SyncStepPromises(cfg: Config, s: State, step: Step, s': State, v: Key, c: int)
    requires WellFormed(cfg) && Inv(cfg, s) && step.Sync? && Next(cfg, s, step, s')
    requires Edge(cfg, step.node, v, c) && cfg.addrOf[step.node] != cfg.addrOf[v]
    ensures PromisedBy(s', step.node, cfg.addrOf[v], c)
  {
    SyncPromises(cfg, s, step.node, step.height, s.tables[step.node], v, c);
  }

  lemma DeliverStepPromises(cfg: Config, s: State, step: Step, s': State, x: Destination, c: int)
    requires WellFormed(cfg) && Inv(cfg, s) && step.Deliver? && Next(cfg, s, step, s')
    requires x in step.m.dests && x.capacity >= c && Edge(cfg, step.m.to, step.m.from, c)
    requires x.address != cfg.addrOf[step.m.to]
    ensures PromisedBy(s', step.m.to, x.address, c)
  {
    var m := step.m;
    OffersPromise(NodeView(cfg, m.to, step.height), s.tables[m.to], m.from, m.dests, x);
    CappedAtLeast(cfg.channels[m.to], m.from, x.capacity, c);
  }

  lemma DeliveredPromise(cfg: Config, ss: seq<State>, steps: seq<Step>, b: nat, x: Destination, c: int)
    requires WellFormed(cfg) && IsRun(cfg, ss, steps) && b < |steps| && steps[b].Deliver?
    requires x in steps[b].m.dests && x.capacity >= c && Edge(cfg, steps[b].m.to, steps[b].m.from, c)
    requires x.address != cfg.addrOf[steps[b].m.to]
    ensures PromisedBy(ss[b + 1], steps[b].m.to, x.address, c)
  {
    RunInv(cfg, ss, steps, b);
    assert StepTaken(cfg, ss, steps, b);
    DeliverStepPromises(cfg, ss[b], steps[b], ss[b + 1], x, c);
  }

  /** One fresh exchange carries a promise of `v` over to `u`. */
  lemma ExchangePromises(cfg: Config, ss: seq<State>, steps: seq<Step>, lo: nat, hi: nat, u: Key, v: Key, d: Address,
      c: int)
    requires WellFormed(cfg) && IsRun(cfg, ss, steps) && lo <= hi <= |steps|
    requires FreshExchange(ss, steps, lo, hi, u, v) && Edge(cfg, u, v, c) && PromisedBy(ss[lo], v, d, c)
    requires u in cfg.addrOf && d != cfg.addrOf[u]
    ensures PromisedBy(ss[hi], u, d, c)
  {
    var a: nat, b: nat :| lo <= a && b < hi && ExchangeAt(ss, steps, a, b, u, v);
    RunKeepsPromise(cfg, ss, steps, lo, a, v, d, c);
    var x := PromiseShared(ss[a].tables[v], d, c);
    DeliveredPromise(cfg, ss, steps, b, x, c);
    RunKeepsPromise(cfg, ss, steps, b + 1, hi, u, d, c);
  }

  lemma SyncedPromises(cfg: Config, ss: seq<State>, steps: seq<Step>, hi: nat, u: Key, v: Key, c: int)
    requires WellFormed(cfg) && IsRun(cfg, ss, steps) && hi <= |steps| && AllSynced(cfg, steps, hi)
    requires Edge(cfg, u, v, c) && u in cfg.addrOf && cfg.addrOf[u] != cfg.addrOf[v]
    ensures PromisedBy(ss[hi], u, cfg.addrOf[v], c)
  {
    var a :| 0 <= a < hi && steps[a].Sync? && steps[a].node == u;
    RunInv(cfg, ss, steps, a);
    assert StepTaken(cfg, ss, steps, a);
    SyncStepPromises(cfg, ss[a], steps[a], ss[a + 1], v, c);
    RunKeepsPromise(cfg, ss, steps, a + 1, hi, u, cfg.addrOf[v], c);
  }

  lemma {:induction false} MarksOrdered(cfg: Config, ss: seq<State>, steps: seq<Step>, marks: seq<nat>, k: nat)
    requires Rounds(cfg, ss, steps, marks) && k < |marks|
    ensures marks[0] <= marks[k] <= |steps|
  {
    if k > 0 {
      MarksOrdered(cfg, ss, steps, marks, k - 1);
    }
  }

  /** A direct neighbour is promised from the first mark on. */
  lemma DirectAtMark(cfg: Config, ss: seq<State>, steps: seq<Step>, marks: seq<nat>, k: nat, u: Key, v: Key, c: int)
    requires WellFormed(cfg) && IsRun(cfg, ss, steps) && Rounds(cfg, ss, steps, marks) && k < |marks|
    requires Edge(cfg, u, v, c) && u in cfg.addrOf && cfg.addrOf[u] != cfg.addrOf[v]
    ensures marks[k] < |ss| && PromisedBy(ss[marks[k]], u, cfg.addrOf[v], c)
  {
    MarksOrdered(cfg, ss, steps, marks, k);
    SyncedPromises(cfg, ss, steps, marks[0], u, v, c);
    RunKeepsPromise(cfg, ss, steps, marks[0], marks[k], u, cfg.addrOf[v], c);
  }

  /** A promise of a peer at one mark is matched at the next. */
  lemma RoundAtMark(cfg: Config, ss: seq<State>, steps: seq<Step>, marks: seq<nat>, k: nat, u: Key, v: Key,
      d: Address, c: int)
    requires WellFormed(cfg) && IsRun(cfg, ss, steps)
    requires Rounds(cfg, ss, steps, marks) && 0 < k < |marks|
    requires Peers(cfg, u, v) && Edge(cfg, u, v, c) && u in cfg.addrOf && d != cfg.addrOf[u]
    requires marks[k - 1] < |ss| && PromisedBy(ss[marks[k - 1]], v, d, c)
    ensures marks[k] < |ss| && PromisedBy(ss[marks[k]], u, d, c)
  {
    assert FreshExchange(ss, steps, marks[k - 1], marks[k], u, v);
    ExchangePromises(cfg, ss, steps, marks[k - 1], marks[k], u, v, d, c);
  }

  /** Convergence: once every node has run one balance pass and `k` full rounds have gone by, every
      node promises at least the bottleneck of every walk of at most `k + 1` channels. */
  lemma {:induction false} Convergence(cfg: Config, ss: seq<State>, steps: seq<Step>, marks: seq<nat>, k: nat,
      p: seq<Key>, d: Address, c: int)
    requires WellFormed(cfg) && IsRun(cfg, ss, steps)
    requires Rounds(cfg, ss, steps, marks) && k < |marks|
    requires PeerWalk(cfg, p, d, c) && 2 <= |p| <= k + 2
    requires p[0] in cfg.addrOf && d != cfg.addrOf[p[0]]
    ensures marks[k] < |ss| && PromisedBy(ss[marks[k]], p[0], d, c)
  {
    var u, v := p[0], p[1];
    PeerWalkFirst(cfg, p, d, c);
    if cfg.addrOf[v] == d {
      DirectAtMark(cfg, ss, steps, marks, k, u, v, c);
    } else {
      Convergence(cfg, ss, steps, marks, k - 1, p[1..], d, c);
      RoundAtMark(cfg, ss, steps, marks, k, u, v, d, c);
    }
  }

  lemma PeerWalkFirst(cfg: Config, p: seq<Key>, d: Address, c: int)
    requires PeerWalk(cfg, p, d, c) && |p| >= 2
    ensures Edge(cfg, p[0], p[1], c)
    ensures cfg.addrOf[p[1]] != d ==> |p| > 2 && Peers(cfg, p[0], p[1]) && PeerWalk(cfg, p[1..], d, c)
  {
  }

  // ---- exactness ----

  ghost predicate NoRepeat(p: seq<Key>) {
    forall i, j :: 0 <= i < j < |p| ==> p[i] != p[j]
  }

  lemma {:induction false} PeerWalkSuffix(cfg: Config, p: seq<Key>, d: Address, c: int, i: nat)
    requires PeerWalk(cfg, p, d, c) && i < |p|
    ensures PeerWalk(cfg, p[i..], d, c)
  {
    if i > 0 {
      PeerWalkSuffix(cfg, p[1..], d, c, i - 1);
      assert p[1..][i - 1..] == p[i..];
    } else {
      assert p[0..] == p;
    }
  }

  /** Loops can be cut out of a walk without losing capacity. */
  lemma {:induction false} CutLoops(cfg: Config, p: seq<Key>, d: Address, c: int) returns (q: seq<Key>)
    requires PeerWalk(cfg, p, d, c)
    ensures PeerWalk(cfg, q, d, c) && NoRepeat(q) && q[0] == p[0] && |q| <= |p|
    ensures forall x :: x in q ==> x in p
    decreases |p|
  {
    if |p| == 1 {
      q := p;
    } else if p[0] in p[1..] {
      var i :| 0 < i < |p| && p[i] == p[0];
      PeerWalkSuffix(cfg, p, d, c, i);
      q := CutLoops(cfg, p[i..], d, c);
    } else {
      var rest := CutLoops(cfg, p[1..], d, c);
      q := [p[0]] + rest;
      assert q[1..] == rest;
    }
  }

  /** No simple walk from `u` to `d` that carries `c` has more than `n` nodes. */
  ghost predicate SimpleWalksWithin(cfg: Config, u: Key, d: Address, c: int, n: nat) {
    forall q :: PeerWalk(cfg, q, d, c) && NoRepeat(q) && q[0] == u ==> |q| <= n
  }

  lemma ReachedInRounds(cfg: Config, u: Key, d: Address, c: int, n: nat) returns (q: seq<Key>)
    requires Reaches(cfg, u, d, c) && u in cfg.addrOf && d != cfg.addrOf[u] && SimpleWalksWithin(cfg, u, d, c, n)
    ensures PeerWalk(cfg, q, d, c) && q[0] == u && 2 <= |q| <= n
  {
    var v :| ReachesVia(cfg, u, v, d, c);
    var p :| |p| >= 2 && p[0] == u && p[1] == v && PeerWalk(cfg, p, d, c);
    q := CutLoops(cfg, p, d, c);
  }

  /** The protocol computes widest paths exactly: after one balance pass everywhere, and as many full rounds as
      the longest simple walk that carries `c` needs, a node promises `c` towards a destination if and only if
      some walk along which tables are exchanged carries it. */
  lemma WidestPaths(cfg: Config, ss: seq<State>, steps: seq<Step>, marks: seq<nat>, k: nat, u: Key, d: Address, c: int)
    requires WellFormed(cfg) && IsRun(cfg, ss, steps) && Rounds(cfg, ss, steps, marks) && k < |marks|
    requires u in cfg.channels && d != cfg.addrOf[u] && SimpleWalksWithin(cfg, u, d, c, k + 2)
    ensures marks[k] < |ss| && (PromisedBy(ss[marks[k]], u, d, c) <==> Reaches(cfg, u, d, c))
  {
    MarksOrdered(cfg, ss, steps, marks, k);
    if Reaches(cfg, u, d, c) {
      var q := ReachedInRounds(cfg, u, d, c, k + 2);
      Convergence(cfg, ss, steps, marks, k, q, d, c);
    }
    if PromisedBy(ss[marks[k]], u, d, c) {
      Soundness(cfg, ss, steps, marks[k]);
      var e := Lookup(ss[marks[k]].tables[u], d).value;
      var v := cfg.keyAt[e.nextHop];
      var p :| |p| >= 2 && p[0] == u && p[1] == v && PeerWalk(cfg, p, d, e.capacity);
      PeerWalkWeaken(cfg, p, d, e.capacity, c);
      assert ReachesVia(cfg, u, v, d, c);
    }
  }

  // ---- plain channel paths ----

  /** `p` is a path of channels to the node registered at `d`, every channel of every hop having a balance of at
      least `c`. */
  ghost predicate ChannelPath(cfg: Config, p: seq<Key>, d: Address, c: int) {
    if |p| == 0 then false
    else if |p| == 1 then p[0] in cfg.addrOf && cfg.addrOf[p[0]] == d
    else Edge(cfg, p[0], p[1], c) && ChannelPath(cfg, p[1..], d, c)
  }

  /** A channel between two running nodes is listed at both ends. */
  ghost predicate Mutual(cfg: Config) {
    forall u, v :: HasChannel(cfg, u, v) && v in cfg.channels ==> HasChannel(cfg, v, u)
  }

  /** A walk along which tables are exchanged is a path of channels; and where channels between running nodes are
      listed at both ends, there is no other kind of path. */
  lemma {:induction false} PeerWalkIff(cfg: Config, p: seq<Key>, d: Address, c: int)
    ensures PeerWalk(cfg, p, d, c) ==> ChannelPath(cfg, p, d, c)
    ensures Mutual(cfg) ==> (PeerWalk(cfg, p, d, c) <==> ChannelPath(cfg, p, d, c))
  {
    if |p| >= 2 {
      PeerWalkIff(cfg, p[1..], d, c);
    }
  }

  lemma {:induction false} PeerWalkNodes(cfg: Config, p: seq<Key>, d: Address, c: int)
    requires WellFormed(cfg) && PeerWalk(cfg, p, d, c)
    ensures forall x :: x in p ==> x in cfg.addrOf
  {
    if |p| >= 2 {
      PeerWalkNodes(cfg, p[1..], d, c);
    }
  }

  lemma {:induction false} NoRepeatBound(p: seq<Key>, keys: set<Key>)
    requires NoRepeat(p) && forall x :: x in p ==> x in keys
    ensures |p| <= |keys|
  {
    if p != [] {
      NoRepeatBound(p[1..], keys - {p[0]});
    }
  }

  /** In particular, where channels are listed at both ends, two rounds fewer than there are registered nodes
      always suffice for exactly the widest paths of channels, whatever the network looks like. */
  lemma WidestChannelPaths(cfg: Config, ss: seq<State>, steps: seq<Step>, marks: seq<nat>, k: nat, u: Key, d: Address,
      c: int)
    requires WellFormed(cfg) && Mutual(cfg) && IsRun(cfg, ss, steps) && Rounds(cfg, ss, steps, marks) && k < |marks|
    requires u in cfg.channels && d != cfg.addrOf[u] && |cfg.addrOf| <= k + 2
    ensures marks[k] < |ss|
    ensures PromisedBy(ss[marks[k]], u, d, c) <==> exists p :: ChannelPath(cfg, p, d, c) && p[0] == u
  {
    forall q | PeerWalk(cfg, q, d, c) && NoRepeat(q) && q[0] == u ensures |q| <= k + 2 {
      PeerWalkNodes(cfg, q, d, c);
      NoRepeatBound(q, cfg.addrOf.Keys);
    }
    WidestPaths(cfg, ss, steps, marks, k, u, d, c);
    if p :| ChannelPath(cfg, p, d, c) && p[0] == u {
      PeerWalkIff(cfg, p, d, c);
      assert ReachesVia(cfg, u, p[1], d, c);
    }
    if v :| ReachesVia(cfg, u, v, d, c) {
      var p :| |p| >= 2 && p[0] == u && p[1] == v && PeerWalk(cfg, p, d, c);
      PeerWalkIff(cfg, p, d, c);
    }
  }
}
