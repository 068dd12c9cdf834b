/** Loops of next hops: what they look like, what closes them, and that they can happen. */
module Loops {
  import opened Types
  import opened RoutingTable
  import opened Codec
  import opened Network

  /** `p` follows next hops towards `d`: each node but the last has an entry for `d` whose next hop is the node
      after it. */
  ghost predicate Follows(cfg: Config, s: State, p: seq<Key>, d: Address) {
    forall j: nat {:trigger FollowsAt(cfg, s, p, d, j)} :: FollowsAt(cfg, s, p, d, j)
  }

  ghost predicate FollowsAt(cfg: Config, s: State, p: seq<Key>, d: Address, j: nat) {
    j + 1 < |p| ==> HopsTo(cfg, s, p[j], p[j + 1], d)
  }

  ghost predicate HopsTo(cfg: Config, s: State, u: Key, v: Key, d: Address) {
    && u in s.tables && Lookup(s.tables[u], d).Some?
    && var e := Lookup(s.tables[u], d).value;
    e.nextHop in cfg.keyAt && cfg.keyAt[e.nextHop] == v
  }

  function CapacityAt(s: State, u: Key, d: Address): int {
    if u in s.tables && Lookup(s.tables[u], d).Some? then Lookup(s.tables[u], d).value.capacity else 0
  }

  /** Capacities never fall along next hops, up to a node that has an entry itself. */
  lemma HopRises(cfg: Config, s: State, u: Key, v: Key, w: Key, d: Address)
    requires WellFormed(cfg) && Inv(cfg, s) && HopsTo(cfg, s, u, v, d) && HopsTo(cfg, s, v, w, d)
    ensures CapacityAt(s, u, d) <= CapacityAt(s, v, d)
  {
    assert OptOk(cfg, s, u, d, Lookup(s.tables[u], d));
    assert OptOk(cfg, s, v, d, Lookup(s.tables[v], d));
  }

  lemma {:induction false} FollowingRises(cfg: Config, s: State, p: seq<Key>, d: Address, i: nat, j: nat)
    requires WellFormed(cfg) && Inv(cfg, s) && Follows(cfg, s, p, d) && i <= j < |p| - 1
    ensures CapacityAt(s, p[i], d) <= CapacityAt(s, p[j], d)
    decreases j
  {
    if i < j {
      FollowingRises(cfg, s, p, d, i, j - 1);
      assert FollowsAt(cfg, s, p, d, j - 1) && FollowsAt(cfg, s, p, d, j);
      HopRises(cfg, s, p[j - 1], p[j], p[j + 1], d);
    }
  }

  /** Loops are flat: in every reachable state, all entries towards a destination along a loop of next hops have
      one capacity. */
  lemma LoopsAreFlat(cfg: Config, ss: seq<State>, steps: seq<Step>, n: nat, p: seq<Key>, d: Address, i: nat, j: nat)
    requires WellFormed(cfg) && IsRun(cfg, ss, steps) && n < |ss|
    requires |p| >= 2 && Follows(cfg, ss[n], p, d) && p[|p| - 1] == p[0] && i < |p| && j < |p|
    ensures CapacityAt(ss[n], p[i], d) == CapacityAt(ss[n], p[j], d)
  {
    RunInv(cfg, ss, steps, n);
    LoopLevel(cfg, ss[n], p, d, i);
    LoopLevel(cfg, ss[n], p, d, j);
  }

  lemma LoopLevel(cfg: Config, s: State, p: seq<Key>, d: Address, i: nat)
    requires WellFormed(cfg) && Inv(cfg, s)
    requires |p| >= 2 && Follows(cfg, s, p, d) && p[|p| - 1] == p[0] && i < |p|
    ensures CapacityAt(s, p[i], d) == CapacityAt(s, p[0], d)
  {
    var last := |p| - 2;
    if i <= last {
      FollowingRises(cfg, s, p, d, 0, i);
      FollowingRises(cfg, s, p, d, i, last);
      assert FollowsAt(cfg, s, p, d, last) && FollowsAt(cfg, s, p, d, 0);
      HopRises(cfg, s, p[last], p[0], p[1], d);
    }
  }

  /** An entry that a peer's offer made. */
  ghost predicate MadeBy(s: State, v: View, u: Key, from: Key, x: Destination, e: Entry)
    requires u in s.tables
  {
    && e == Entry(x.address, HopAddress(v, from), Capped(v.channels, from, x.capacity), v.height)
    && Lookup(Offer(v, s.tables[u], from, x), x.address) == Some(e) && Lookup(s.tables[u], x.address) != Some(e)
  }

  /** The state after `u` has processed one offer. */
  function Offered(s: State, v: View, u: Key, from: Key, x: Destination): State
    requires u in s.tables
  {
    s.(tables := s.tables[u := Offer(v, s.tables[u], from, x)])
  }

  /** An offer that makes an entry no higher than one already known replaces one of the same capacity. */
  lemma EqualReplaced(v: View, t: Table, from: Key, x: Destination, e: Entry)
    requires Lookup(Offer(v, t, from, x), x.address) == Some(e) && Lookup(t, x.address) != Some(e)
    requires Promises(t, x.address, e.capacity)
    ensures Lookup(t, x.address).Some? && Lookup(t, x.address).value.capacity == e.capacity
  {
    OfferLookup(v, t, from, x, x.address);
  }

  /** The next hop of an entry that an offer made is the offerer, which promises at least as much. */
  lemma OfferedHop(cfg: Config, s: State, u: Key, h: uint64, from: Key, x: Destination, e: Entry)
    requires WellFormed(cfg) && Inv(cfg, s) && Peers(cfg, u, from) && DestOk(cfg, s, from, x)
    requires u in s.tables && MadeBy(s, NodeView(cfg, u, h), u, from, x, e)
    ensures u in cfg.addrOf && x.address != cfg.addrOf[u]
    ensures e.nextHop in cfg.keyAt && cfg.keyAt[e.nextHop] == from && PromisedBy(s, from, x.address, e.capacity)
  {
    OfferLookup(NodeView(cfg, u, h), s.tables[u], from, x, x.address);
  }

  /** Back at `u`, there is an entry at least as high as what the first node of the way promises. */
  lemma ReturnsPromise(cfg: Config, s: State, u: Key, q: seq<Key>, d: Address, c: int)
    requires WellFormed(cfg) && Inv(cfg, s) && Follows(cfg, s, q, d) && q != [] && q[|q| - 1] == u
    requires u in cfg.addrOf && d != cfg.addrOf[u] && PromisedBy(s, q[0], d, c)
    ensures PromisedBy(s, u, d, c)
  {
    LoopReturns(cfg, s, u, q, d);
  }

  /** Only an equal offer closes a loop: if an entry that a peer's offer has just made lies on a loop of next hops,
      it has replaced one of the same capacity. */
  lemma ClosedByEqualOffer(cfg: Config, s: State, u: Key, h: uint64, from: Key, x: Destination, e: Entry, p: seq<Key>)
    requires WellFormed(cfg) && Inv(cfg, s) && Peers(cfg, u, from) && DestOk(cfg, s, from, x)
    requires u in s.tables && MadeBy(s, NodeView(cfg, u, h), u, from, x, e)
    requires |p| >= 2 && Follows(cfg, Offered(s, NodeView(cfg, u, h), u, from, x), p, x.address)
    requires p[0] == u == p[|p| - 1] && u !in p[1..|p| - 1]
    ensures Lookup(s.tables[u], x.address).Some? && Lookup(s.tables[u], x.address).value.capacity == e.capacity
  {
    var v, d := NodeView(cfg, u, h), x.address;
    OfferedHop(cfg, s, u, h, from, x, e);
    RestOfLoop(cfg, s, Offered(s, v, u, from, x), u, from, e, d, p);
    var q := p[1..];
    assert q != [] && q[0] == from && q[|q| - 1] == u;
    ReturnsPromise(cfg, s, u, q, d, e.capacity);
    EqualReplaced(v, s.tables[u], from, x, e);
  }

  /** The other nodes of a loop through an entry just offered follow the offerer's own next hops back to `u`. */
  lemma RestOfLoop(cfg: Config, s: State, s': State, u: Key, from: Key, e: Entry, d: Address, p: seq<Key>)
    requires WellFormed(cfg) && s'.tables.Keys == s.tables.Keys && u in s.tables
    requires forall w :: w in s.tables && w != u ==> s'.tables[w] == s.tables[w]
    requires |p| >= 2 && Follows(cfg, s', p, d) && p[0] == u && u !in p[1..|p| - 1]
    requires Lookup(s'.tables[u], d) == Some(e) && e.nextHop in cfg.keyAt && cfg.keyAt[e.nextHop] == from
    ensures p[1] == from && Follows(cfg, s, p[1..], d)
  {
    assert FollowsAt(cfg, s', p, d, 0);
    OthersFollow(cfg, s, s', u, p, d);
  }

  /** Next hops of the other nodes were the same before `u` processed an offer. */
  lemma OthersFollow(cfg: Config, s: State, s': State, u: Key, p: seq<Key>, d: Address)
    requires s'.tables.Keys == s.tables.Keys && forall w :: w in s.tables && w != u ==> s'.tables[w] == s.tables[w]
    requires |p| >= 2 && Follows(cfg, s', p, d) && u !in p[1..|p| - 1]
    ensures Follows(cfg, s, p[1..], d)
  {
    var q := p[1..];
    forall j: nat ensures FollowsAt(cfg, s, q, d, j) {
      assert FollowsAt(cfg, s', p, d, j + 1);
      if j + 1 < |q| {
        assert q[j] == p[1..|p| - 1][j];
      }
    }
  }

  /** Following next hops to a node that is not the destination, that node has an entry at least as high as the
      first. */
  lemma LoopReturns(cfg: Config, s: State, u: Key, q: seq<Key>, d: Address)
    requires WellFormed(cfg) && Inv(cfg, s) && Follows(cfg, s, q, d) && q != [] && q[|q| - 1] == u
    requires u in cfg.addrOf && d != cfg.addrOf[u] && PromisedBy(s, q[0], d, CapacityAt(s, q[0], d))
    ensures PromisedBy(s, u, d, CapacityAt(s, q[0], d))
  {
    if |q| >= 2 {
      var last := |q| - 2;
      FollowingRises(cfg, s, q, d, 0, last);
      assert FollowsAt(cfg, s, q, d, last);
      assert OptOk(cfg, s, q[last], d, Lookup(s.tables[q[last]], d));
    }
  }

  // ---- without equal offers there is no loop ----

  /** `p` goes round a loop of next hops towards `d`. */
  ghost predicate Loop(cfg: Config, s: State, p: seq<Key>, d: Address) {
    |p| >= 2 && p[0] == p[|p| - 1] && Follows(cfg, s, p, d)
  }

  ghost predicate LoopFree(cfg: Config, s: State) {
    forall p, d :: !Loop(cfg, s, p, d)
  }

  /** `u`'s next hop for `d` is the same in both states, or is now `d` itself. */
  ghost predicate SameHop(s: State, s': State, u: Key, d: Address) {
    u in s'.tables && Lookup(s'.tables[u], d).Some? ==>
      || Lookup(s'.tables[u], d).value.nextHop == d
      || (u in s.tables && Lookup(s.tables[u], d).Some?
          && Lookup(s.tables[u], d).value.nextHop == Lookup(s'.tables[u], d).value.nextHop)
  }

  /** No hop of a loop leads to the destination itself, which has no entry for itself. */
  lemma NotToItself(cfg: Config, s: State, u: Key, v: Key, w: Key, d: Address)
    requires WellFormed(cfg) && Inv(cfg, s) && HopsTo(cfg, s, u, v, d) && HopsTo(cfg, s, v, w, d)
    ensures Lookup(s.tables[u], d).value.nextHop != d
  {
    assert OptOk(cfg, s, u, d, Lookup(s.tables[u], d));
    assert OptOk(cfg, s, v, d, Lookup(s.tables[v], d));
  }

  /** The hop after index `j` of a loop is followed by another. */
  lemma LoopGoesOn(cfg: Config, s: State, p: seq<Key>, d: Address, j: nat) returns (w: Key)
    requires Loop(cfg, s, p, d) && j + 1 < |p|
    ensures HopsTo(cfg, s, p[j], p[j + 1], d) && HopsTo(cfg, s, p[j + 1], w, d)
  {
    assert FollowsAt(cfg, s, p, d, j);
    if j + 2 < |p| {
      assert FollowsAt(cfg, s, p, d, j + 1);
      w := p[j + 2];
    } else {
      assert FollowsAt(cfg, s, p, d, 0);
      w := p[1];
    }
  }

  ghost predicate KeptAt(s: State, s': State, p: seq<Key>, d: Address, j: nat) {
    j + 1 < |p| ==> SameHop(s, s', p[j], d)
  }

  /** The nodes of `p` have kept their next hops for `d`. */
  ghost predicate AllKept(s: State, s': State, p: seq<Key>, d: Address) {
    forall j: nat {:trigger KeptAt(s, s', p, d, j)} :: KeptAt(s, s', p, d, j)
  }

  /** A loop whose nodes have kept their next hops was there before. */
  lemma LoopWasThere(cfg: Config, s: State, s': State, p: seq<Key>, d: Address)
    requires WellFormed(cfg) && Inv(cfg, s') && Loop(cfg, s', p, d)
    requires AllKept(s, s', p, d)
    ensures Loop(cfg, s, p, d)
  {
    forall j: nat ensures FollowsAt(cfg, s, p, d, j) {
      if j + 1 < |p| {
        var w := LoopGoesOn(cfg, s', p, d, j);
        NotToItself(cfg, s', p[j], p[j + 1], w, d);
        assert KeptAt(s, s', p, d, j);
      }
    }
  }

  lemma AllSameHops(cfg: Config, s: State, s': State)
    requires WellFormed(cfg) && Inv(cfg, s') && LoopFree(cfg, s)
    requires forall u, d :: SameHop(s, s', u, d)
    ensures LoopFree(cfg, s')
  {
    forall p, d ensures !Loop(cfg, s', p, d) {
      if Loop(cfg, s', p, d) {
        forall j: nat ensures KeptAt(s, s', p, d, j) {
        }
        LoopWasThere(cfg, s, s', p, d);
        assert false;
      }
    }
  }

  /** A loop can be entered anywhere. */
  lemma Rotated(cfg: Config, s: State, p: seq<Key>, d: Address, i: nat) returns (q: seq<Key>)
    requires Loop(cfg, s, p, d) && i < |p| - 1
    ensures Loop(cfg, s, q, d) && q[0] == p[i]
  {
    var n := |p| - 1 - i;
    q := p[i..|p| - 1] + p[..i + 1];
    forall j: nat ensures FollowsAt(cfg, s, q, d, j) {
      if j + 1 < |q| {
        if j < n {
          assert FollowsAt(cfg, s, p, d, i + j);
        } else {
          assert FollowsAt(cfg, s, p, d, j - n);
        }
      }
    }
  }

  lemma {:induction false} FirstReturn(q: seq<Key>, u: Key, k: nat) returns (n: nat)
    requires 0 < k < |q| && q[k] == u
    ensures 0 < n <= k && q[n] == u && u !in q[1..n]
  {
    if u in q[1..k] {
      var j :| 0 <= j < k - 1 && q[1..k][j] == u;
      n := FirstReturn(q, u, j + 1);
    } else {
      n := k;
    }
  }

  /** A loop through `u` can be cut to one that passes `u` once. */
  lemma LoopAt(cfg: Config, s: State, p: seq<Key>, d: Address, u: Key) returns (q: seq<Key>)
    requires Loop(cfg, s, p, d) && u in p[..|p| - 1]
    ensures Loop(cfg, s, q, d) && q[0] == u && u !in q[1..|q| - 1]
  {
    var i :| 0 <= i < |p| - 1 && p[..|p| - 1][i] == u;
    var r := Rotated(cfg, s, p, d, i);
    var n := FirstReturn(r, u, |r| - 1);
    q := r[..n + 1];
    assert q[1..|q| - 1] == r[1..n];
    forall j: nat ensures FollowsAt(cfg, s, q, d, j) {
      assert FollowsAt(cfg, s, r, d, j);
    }
  }

  /** The offer replaces an entry of the same capacity that goes through another hop. */
  ghost predicate ReplacesEqual(v: View, t: Table, from: Key, x: Destination) {
    && x.address != v.local && Lookup(t, x.address).Some?
    && Capped(v.channels, from, x.capacity) == Lookup(t, x.address).value.capacity
    && HopAddress(v, from) != Lookup(t, x.address).value.nextHop
  }

  /** An offer changes a next hop only where it is stored. */
  lemma OfferHops(cfg: Config, s: State, u: Key, v: View, from: Key, x: Destination, w: Key, d: Address)
    requires u in s.tables && (w != u || d != x.address || !(x.address != v.local)
      || (Lookup(s.tables[u], d).Some? && Lookup(s.tables[u], d).value.nextHop == HopAddress(v, from)))
    ensures SameHop(s, Offered(s, v, u, from, x), w, d)
  {
    OfferLookup(v, s.tables[u], from, x, d);
  }

  lemma OfferedInv(cfg: Config, s: State, u: Key, h: uint64, from: Key, x: Destination)
    requires WellFormed(cfg) && Inv(cfg, s) && u in s.tables && Peers(cfg, u, from) && DestOk(cfg, s, from, x)
    ensures var s' := Offered(s, NodeView(cfg, u, h), u, from, x); Inv(cfg, s') && Grows(s, s')
  {
    OfferKeeps(cfg, s, u, h, s.tables[u], from, x);
    OkGrows(cfg, s, Offered(s, NodeView(cfg, u, h), u, from, x));
  }

  /** An offer that replaces no equal entry makes no loop. */
  lemma OfferLoopFree(cfg: Config, s: State, u: Key, h: uint64, from: Key, x: Destination)
    requires WellFormed(cfg) && Inv(cfg, s) && LoopFree(cfg, s)
    requires u in s.tables && Peers(cfg, u, from) && DestOk(cfg, s, from, x)
    requires !ReplacesEqual(NodeView(cfg, u, h), s.tables[u], from, x)
    ensures LoopFree(cfg, Offered(s, NodeView(cfg, u, h), u, from, x))
  {
    var v := NodeView(cfg, u, h);
    var s' := Offered(s, v, u, from, x);
    OfferedInv(cfg, s, u, h, from, x);
    forall p, d ensures !Loop(cfg, s', p, d) {
      if Loop(cfg, s', p, d) {
        if SameHop(s, s', u, d) || u !in p[..|p| - 1] {
          OthersSameHop(cfg, s, u, v, from, x, p, d);
          LoopWasThere(cfg, s, s', p, d);
          assert false;
        } else {
          LoopNeedsTie(cfg, s, u, h, from, x, p, d);
          assert false;
        }
      }
    }
  }

  lemma OthersSameHop(cfg: Config, s: State, u: Key, v: View, from: Key, x: Destination, p: seq<Key>, d: Address)
    requires u in s.tables && |p| >= 2 && (SameHop(s, Offered(s, v, u, from, x), u, d) || u !in p[..|p| - 1])
    ensures AllKept(s, Offered(s, v, u, from, x), p, d)
  {
    var s' := Offered(s, v, u, from, x);
    forall j: nat ensures KeptAt(s, s', p, d, j) {
      if j + 1 < |p| {
        if p[j] != u {
          OfferHops(cfg, s, u, v, from, x, p[j], d);
        } else {
          assert p[..|p| - 1][j] == u;
        }
      }
    }
  }

  lemma LoopNeedsTie(cfg: Config, s: State, u: Key, h: uint64, from: Key, x: Destination, p: seq<Key>, d: Address)
    requires WellFormed(cfg) && Inv(cfg, s) && u in s.tables && Peers(cfg, u, from) && DestOk(cfg, s, from, x)
    requires Loop(cfg, Offered(s, NodeView(cfg, u, h), u, from, x), p, d) && u in p[..|p| - 1]
    requires !SameHop(s, Offered(s, NodeView(cfg, u, h), u, from, x), u, d)
    ensures ReplacesEqual(NodeView(cfg, u, h), s.tables[u], from, x)
  {
    var v := NodeView(cfg, u, h);
    OfferLookup(v, s.tables[u], from, x, d);
    var q := LoopAt(cfg, Offered(s, v, u, from, x), p, d, u);
    var e := Lookup(Offered(s, v, u, from, x).tables[u], d).value;
    ClosedByEqualOffer(cfg, s, u, h, from, x, e, q);
  }

  /** None of the offers, made one after another, replaces an equal entry. */
  ghost predicate NoTie(v: View, t: Table, from: Key, ds: seq<Destination>) {
    ds == [] ||
      (NoTie(v, t, from, ds[..|ds| - 1]) && !ReplacesEqual(v, Offers(v, t, from, ds[..|ds| - 1]), from, ds[|ds| - 1]))
  }

  /** The state after `u` has processed `ds`. */
  function AllOffered(s: State, v: View, u: Key, from: Key, ds: seq<Destination>): State
    requires u in s.tables
  {
    s.(tables := s.tables[u := Offers(v, s.tables[u], from, ds)])
  }

  lemma AllOfferedInv(cfg: Config, s: State, u: Key, h: uint64, from: Key, ds: seq<Destination>)
    requires WellFormed(cfg) && Inv(cfg, s) && u in s.tables && Peers(cfg, u, from)
    requires forall x :: x in ds ==> DestOk(cfg, s, from, x)
    ensures var s' := AllOffered(s, NodeView(cfg, u, h), u, from, ds); Inv(cfg, s') && Grows(s, s')
  {
    OffersKeep(cfg, s, u, h, s.tables[u], from, ds);
    OkGrows(cfg, s, AllOffered(s, NodeView(cfg, u, h), u, from, ds));
  }

  lemma OfferedLast(s: State, v: View, u: Key, from: Key, ds: seq<Destination>)
    requires u in s.tables && ds != []
    ensures Offered(AllOffered(s, v, u, from, ds[..|ds| - 1]), v, u, from, ds[|ds| - 1]) == AllOffered(s, v, u, from, ds)
  {
  }

  lemma {:induction false} OffersLoopFree(cfg: Config, s: State, u: Key, h: uint64, from: Key, ds: seq<Destination>)
    requires WellFormed(cfg) && Inv(cfg, s) && LoopFree(cfg, s) && u in s.tables && Peers(cfg, u, from)
    requires forall x :: x in ds ==> DestOk(cfg, s, from, x)
    requires NoTie(NodeView(cfg, u, h), s.tables[u], from, ds)
    ensures LoopFree(cfg, AllOffered(s, NodeView(cfg, u, h), u, from, ds))
    decreases |ds|
  {
    var v := NodeView(cfg, u, h);
    if ds == [] {
      assert AllOffered(s, v, u, from, ds) == s;
    } else {
      var n := |ds| - 1;
      OffersLoopFree(cfg, s, u, h, from, ds[..n]);
      AllOfferedInv(cfg, s, u, h, from, ds[..n]);
      StillOk(cfg, s, AllOffered(s, v, u, from, ds[..n]), from, ds[n]);
      OfferLoopFree(cfg, AllOffered(s, v, u, from, ds[..n]), u, h, from, ds[n]);
      OfferedLast(s, v, u, from, ds);
    }
  }

  lemma StillOk(cfg: Config, s: State, s': State, from: Key, x: Destination)
    requires Grows(s, s') && DestOk(cfg, s, from, x)
    ensures DestOk(cfg, s', from, x)
  {
  }

  /** A balance pass changes next hops to the destination itself only. */
  lemma {:induction false} PassHops(v: View, was: Option<Entry>, n: nat, d: Address)
    requires n <= |v.channels|
    ensures var now := PassEffect(v, was, n, d);
      now.Some? ==> now.value.nextHop == d || (was.Some? && was.value.nextHop == now.value.nextHop)
  {
    if n > 0 {
      PassHops(v, was, n - 1, d);
    }
  }

  lemma SyncLoopFree(cfg: Config, s: State, u: Key, h: uint64, s': State)
    requires WellFormed(cfg) && Inv(cfg, s) && Inv(cfg, s') && LoopFree(cfg, s) && u in s.tables
    requires s' == s.(tables := s.tables[u := SyncPass(NodeView(cfg, u, h), s.tables[u])])
    ensures LoopFree(cfg, s')
  {
    var v := NodeView(cfg, u, h);
    forall w, d ensures SameHop(s, s', w, d) {
      SyncUpToLookup(v, s.tables[u], |v.channels|, d);
      PassHops(v, Lookup(s.tables[u], d), |v.channels|, d);
    }
    AllSameHops(cfg, s, s');
  }

  /** No response processed in the run replaces an equal entry. */
  ghost predicate NoTies(cfg: Config, ss: seq<State>, steps: seq<Step>) {
    forall i: nat {:trigger TielessAt(cfg, ss, steps, i)} :: TielessAt(cfg, ss, steps, i)
  }

  ghost predicate TielessAt(cfg: Config, ss: seq<State>, steps: seq<Step>, i: nat) {
    i < |steps| && i < |ss| && steps[i].Deliver? && steps[i].m.to in ss[i].tables && steps[i].m.to in cfg.channels
      && steps[i].m.to in cfg.addrOf ==>
      NoTie(NodeView(cfg, steps[i].m.to, steps[i].height), ss[i].tables[steps[i].m.to], steps[i].m.from, steps[i].m.dests)
  }

  lemma StepLoopFree(cfg: Config, s: State, step: Step, s': State)
    requires WellFormed(cfg) && Inv(cfg, s) && LoopFree(cfg, s) && Next(cfg, s, step, s')
    requires step.Deliver? ==> NoTie(NodeView(cfg, step.m.to, step.height), s.tables[step.m.to], step.m.from, step.m.dests)
    ensures LoopFree(cfg, s')
  {
    NextInv(cfg, s, step, s');
    match step
    case Sync(u, h) => SyncLoopFree(cfg, s, u, h, s');
    case Respond(from, to) => AllSameHops(cfg, s, s');
    case Deliver(m, h) =>
      assert MessageOk(cfg, s, m);
      OffersLoopFree(cfg, s, m.to, h, m.from, m.dests);
  }

  /** Next hops never form a loop in a run in which no offer replaces an entry of the same capacity through another
      hop. So the rule that an equal offer replaces what is known is all there is to blame for loops. */
  lemma {:induction false} NoTiesNoLoops(cfg: Config, ss: seq<State>, steps: seq<Step>, i: nat)
    requires WellFormed(cfg) && IsRun(cfg, ss, steps) && NoTies(cfg, ss, steps) && i < |ss|
    ensures LoopFree(cfg, ss[i])
  {
    if i == 0 {
      StartLoopFree(cfg, ss[0]);
    } else {
      NoTiesNoLoops(cfg, ss, steps, i - 1);
      RunInv(cfg, ss, steps, i - 1);
      assert StepTaken(cfg, ss, steps, i - 1) && TielessAt(cfg, ss, steps, i - 1);
      StepLoopFree(cfg, ss[i - 1], steps[i - 1], ss[i]);
    }
  }

  lemma StartLoopFree(cfg: Config, s: State)
    requires Init(cfg, s)
    ensures LoopFree(cfg, s)
  {
    forall p, d ensures !Loop(cfg, s, p, d) {
      if |p| >= 2 {
        assert !FollowsAt(cfg, s, p, d, 0);
      }
    }
  }

  // ---- a loop ----

  const ADDR_A: Address := [0, 0, 0, 1]
  const ADDR_B: Address := [0, 0, 0, 2]
  const ADDR_C: Address := [0, 0, 0, 3]

  /** Three nodes in a line, with balances of 1 on both sides of both channels. */
  function Line(a: Key, b: Key, c: Key): Config {
    Config(
      map[a := [Channel(b, 1)], b := [Channel(a, 1), Channel(c, 1)], c := [Channel(b, 1)]],
      map[a := ADDR_A, b := ADDR_B, c := ADDR_C],
      map[ADDR_A := a, ADDR_B := b, ADDR_C := c])
  }

  function Via(dest: Address, hop: Address): Entry { Entry(dest, hop, 1, 0) }

  /** The tables of the middle node, of the first node, and of the middle node again. */
  const DIRECT := [Via(ADDR_C, ADDR_C), Via(ADDR_A, ADDR_A)]
  const THROUGH := [Via(ADDR_C, ADDR_B)]
  const BACK := [Via(ADDR_C, ADDR_A), Via(ADDR_A, ADDR_A)]

  lemma MiddlePass(a: Key, b: Key, c: Key)
    requires a != b && b != c && a != c
    ensures SyncPass(NodeView(Line(a, b, c), b, 0), []) == DIRECT
  {
    var v := NodeView(Line(a, b, c), b, 0);
    CappedAtLeast(v.channels, a, 1, 1);
    CappedAtLeast(v.channels, c, 1, 1);
    var t := [Via(ADDR_A, ADDR_A)];
    assert SyncUpTo(v, [], 0) == [];
    assert SyncUpTo(v, [], 1) == SyncChannel(v, [], v.channels[0]) == t;
    DifferentAddresses();
    assert Lower(t, ADDR_C, 1) == t && Lookup(t, ADDR_C) == None && Without(t, ADDR_C) == t;
  }

  lemma DifferentAddresses()
    ensures ADDR_A != ADDR_B && ADDR_B != ADDR_C && ADDR_A != ADDR_C
  {
    assert ADDR_A[3] == 1 && ADDR_B[3] == 2 && ADDR_C[3] == 3;
  }

  lemma OfferedToEnd(a: Key, b: Key, c: Key)
    requires a != b && b != c && a != c
    ensures Offers(NodeView(Line(a, b, c), a, 0), [], b, [Destination(ADDR_C, 1), Destination(ADDR_A, 1)]) == THROUGH
  {
    var v := NodeView(Line(a, b, c), a, 0);
    CappedAtLeast(v.channels, b, 1, 1);
    var ds := [Destination(ADDR_C, 1), Destination(ADDR_A, 1)];
    assert ds[..1] == [Destination(ADDR_C, 1)];
    assert Offers(v, [], b, []) == [];
    assert Offers(v, [], b, ds[..1]) == Offer(v, Offers(v, [], b, []), b, Destination(ADDR_C, 1));
    assert Offers(v, [], b, ds[..1]) == [Via(ADDR_C, ADDR_B)];
  }

  lemma OfferedBack(a: Key, b: Key, c: Key)
    requires a != b && b != c && a != c
    ensures Offers(NodeView(Line(a, b, c), b, 0), DIRECT, a, [Destination(ADDR_C, 1)]) == BACK
  {
    var v, t := NodeView(Line(a, b, c), b, 0), DIRECT;
    CappedAtLeast(v.channels, a, 1, 1);
    assert Offers(v, t, a, []) == t;
    assert t[1..] == [Via(ADDR_A, ADDR_A)];
    assert Without(t, ADDR_C) == Without(t[1..], ADDR_C) == [Via(ADDR_A, ADDR_A)];
  }

  lemma LineConfig(a: Key, b: Key, c: Key)
    requires a != b && b != c && a != c
    ensures var cfg := Line(a, b, c);
      && WellFormed(cfg) && Mutual(cfg) && Peers(cfg, a, b) && Peers(cfg, b, a)
      && cfg.channels.Keys == {a, b, c}
  {
    var cfg := Line(a, b, c);
    assert cfg.channels[a][0].remote == b && cfg.channels[b][0].remote == a;
    assert cfg.channels[b][1].remote == c && cfg.channels[c][0].remote == b;
  }

  function Tables(a: Key, ta: Table, b: Key, tb: Table, c: Key): map<Key, Table> {
    map[a := ta, b := tb, c := []]
  }

  lemma LineSync(a: Key, b: Key, c: Key, s: State, s': State)
    requires a != b && b != c && a != c && WellFormed(Line(a, b, c))
    requires s.tables == Tables(a, [], b, [], c) && s' == s.(tables := Tables(a, [], b, DIRECT, c))
    ensures Next(Line(a, b, c), s, Sync(b, 0), s')
  {
    MiddlePass(a, b, c);
  }

  lemma DeliverNext(cfg: Config, s: State, m: Message, t: Table, s': State)
    requires WellFormed(cfg) && s.tables.Keys == cfg.channels.Keys && m in s.sent && m.to in cfg.channels
    requires |m.dests| <= MAX_FRAMED_ENTRIES && t == Offers(NodeView(cfg, m.to, 0), s.tables[m.to], m.from, m.dests)
    requires s' == s.(tables := s.tables[m.to := t])
    ensures Next(cfg, s, Deliver(m, 0), s')
  {
  }

  lemma RunSnoc(cfg: Config, ss: seq<State>, steps: seq<Step>, step: Step, s: State)
    requires WellFormed(cfg) && IsRun(cfg, ss, steps) && Next(cfg, ss[|ss| - 1], step, s)
    ensures IsRun(cfg, ss + [s], steps + [step])
  {
    var ss', steps' := ss + [s], steps + [step];
    forall i: nat | i < |steps'| ensures StepTaken(cfg, ss', steps', i) {
      if i < |steps| {
        assert StepTaken(cfg, ss, steps, i);
      }
    }
  }

  /** The middle node takes up its neighbours and answers the first. */
  lemma LineAnswers(a: Key, b: Key, c: Key) returns (ss: seq<State>, steps: seq<Step>, m: Message)
    requires a != b && b != c && a != c && WellFormed(Line(a, b, c))
    ensures IsRun(Line(a, b, c), ss, steps)
    ensures m == Message(b, a, [Destination(ADDR_C, 1), Destination(ADDR_A, 1)])
    ensures ss[|ss| - 1] == State(Tables(a, [], b, DIRECT, c), {m})
  {
    var cfg := Line(a, b, c);
    var s0 := State(Tables(a, [], b, [], c), {});
    var s1 := s0.(tables := Tables(a, [], b, DIRECT, c));
    m := Message(b, a, [Destination(ADDR_C, 1), Destination(ADDR_A, 1)]);
    var s2 := s1.(sent := {m});
    LineSync(a, b, c, s0, s1);
    RunSnoc(cfg, [s0], [], Sync(b, 0), s1);
    assert Destinations(DIRECT) == m.dests;
    RunSnoc(cfg, [s0] + [s1], [] + [Sync(b, 0)], Respond(b, a), s2);
    ss, steps := [s0] + [s1] + [s2], [] + [Sync(b, 0)] + [Respond(b, a)];
  }

  /** The first node takes up what the middle one answered. */
  lemma LineDeliver(a: Key, b: Key, c: Key, m: Message, s: State, s': State)
    requires a != b && b != c && a != c && WellFormed(Line(a, b, c))
    requires m == Message(b, a, [Destination(ADDR_C, 1), Destination(ADDR_A, 1)])
    requires s == State(Tables(a, [], b, DIRECT, c), {m}) && s' == s.(tables := Tables(a, THROUGH, b, DIRECT, c))
    ensures Next(Line(a, b, c), s, Deliver(m, 0), s')
  {
    LineConfig(a, b, c);
    OfferedToEnd(a, b, c);
    assert s.tables[a] == [];
    DeliverNext(Line(a, b, c), s, m, THROUGH, s');
  }

  lemma LineOut(a: Key, b: Key, c: Key) returns (ss: seq<State>, steps: seq<Step>)
    requires a != b && b != c && a != c && WellFormed(Line(a, b, c))
    ensures IsRun(Line(a, b, c), ss, steps) && ss[|ss| - 1].tables == Tables(a, THROUGH, b, DIRECT, c)
  {
    var cfg, m := Line(a, b, c), Message(b, a, []);
    ss, steps, m := LineAnswers(a, b, c);
    var s := ss[|ss| - 1];
    var s' := s.(tables := Tables(a, THROUGH, b, DIRECT, c));
    LineDeliver(a, b, c, m, s, s');
    RunSnoc(cfg, ss, steps, Deliver(m, 0), s');
    ss, steps := ss + [s'], steps + [Deliver(m, 0)];
  }

  /** Since an equal offer replaces what is known, next hops can form a loop: at the end of this run of
      the line the first node's next hop for the last is the middle one, and the other way round. So a
      probe may never arrive, however long the protocol has run. */
  lemma LoopReachable(a: Key, b: Key, c: Key) returns (ss: seq<State>, steps: seq<Step>)
    requires a != b && b != c && a != c
    ensures WellFormed(Line(a, b, c)) && Mutual(Line(a, b, c)) && IsRun(Line(a, b, c), ss, steps)
    ensures var s := ss[|ss| - 1];
      && a in s.tables && Lookup(s.tables[a], ADDR_C) == Some(Via(ADDR_C, ADDR_B))
      && b in s.tables && Lookup(s.tables[b], ADDR_C) == Some(Via(ADDR_C, ADDR_A))
  {
    var cfg := Line(a, b, c);
    LineConfig(a, b, c);
    ss, steps := LineOut(a, b, c);
    var s := ss[|ss| - 1];
    var m := Message(a, b, [Destination(ADDR_C, 1)]);
    var s' := s.(sent := s.sent + {m});
    assert Destinations(THROUGH) == m.dests;
    RunSnoc(cfg, ss, steps, Respond(a, b), s');
    ss, steps := ss + [s'], steps + [Respond(a, b)];
    var s'' := s'.(tables := Tables(a, THROUGH, b, BACK, c));
    OfferedBack(a, b, c);
    DeliverNext(cfg, s', m, BACK, s'');
    RunSnoc(cfg, ss, steps, Deliver(m, 0), s'');
    ss, steps := ss + [s''], steps + [Deliver(m, 0)];
  }
}
