/** The routing table as a value: the entries of the routing stack, newest first, and
    the three ways the node changes them (store, offer by a peer, balance pass). */
module RoutingTable {
  import opened Types

  datatype Entry = Entry(dest: Address, nextHop: Address, capacity: int64, height: uint64)

  type Table = seq<Entry>

  ghost predicate Distinct(t: Table) {
    forall i, j :: 0 <= i < j < |t| ==> t[i].dest != t[j].dest
  }

  function Lookup(t: Table, d: Address): (r: Option<Entry>)
    ensures r.Some? ==> r.value.dest == d && r.value in t
  {
    if t == [] then None
    else if t[0].dest == d then Some(t[0])
    else Lookup(t[1..], d)
  }

  lemma {:induction false} LookupUnique(t: Table, e: Entry)
    requires Distinct(t) && e in t
    ensures Lookup(t, e.dest) == Some(e)
  {
    if t[0] != e {
      var i :| 0 < i < |t| && t[i] == e;
      assert t[1..][i - 1] == e;
      LookupUnique(t[1..], e);
    }
  }

  lemma {:induction false} LookupAbsent(t: Table, d: Address)
    requires forall i :: 0 <= i < |t| ==> t[i].dest != d
    ensures Lookup(t, d) == None
  {
    if t != [] {
      LookupAbsent(t[1..], d);
    }
  }

  function Without(t: Table, d: Address): Table {
    if t == [] then []
    else if t[0].dest == d then Without(t[1..], d)
    else [t[0]] + Without(t[1..], d)
  }

  /** Put a new entry in front, dropping the one it replaces. */
  function Store(t: Table, e: Entry): Table {
    [e] + Without(t, e.dest)
  }

  lemma {:induction false} WithoutMembers(t: Table, d: Address, e: Entry)
    ensures e in Without(t, d) <==> e in t && e.dest != d
  {
    if t != [] {
      assert e in t <==> e == t[0] || e in t[1..];
      WithoutMembers(t[1..], d, e);
    }
  }

  lemma {:induction false} WithoutAbsent(t: Table, d: Address)
    requires forall i :: 0 <= i < |t| ==> t[i].dest != d
    ensures Without(t, d) == t
  {
    if t != [] {
      WithoutAbsent(t[1..], d);
    }
  }

  /** Taking one of distinct entries out is dropping its destination. */
  lemma {:induction false} WithoutOne(t: Table, i: nat)
    requires Distinct(t) && i < |t|
    ensures t[..i] + t[i + 1..] == Without(t, t[i].dest)
  {
    if i == 0 {
      WithoutAbsent(t[1..], t[0].dest);
    } else {
      WithoutOne(t[1..], i - 1);
      assert t[..i] + t[i + 1..] == [t[0]] + (t[1..][..i - 1] + t[1..][i..]);
    }
  }

  lemma {:induction false} WithoutDistinct(t: Table, d: Address)
    requires Distinct(t)
    ensures Distinct(Without(t, d))
  {
    if t != [] {
      WithoutDistinct(t[1..], d);
      if t[0].dest != d {
        var rest := Without(t[1..], d);
        forall i | 0 <= i < |rest| ensures rest[i].dest != t[0].dest {
          WithoutMembers(t[1..], d, rest[i]);
        }
      }
    }
  }

  lemma StoreDistinct(t: Table, e: Entry)
    requires Distinct(t)
    ensures Distinct(Store(t, e))
  {
    WithoutDistinct(t, e.dest);
    var rest := Without(t, e.dest);
    forall i | 0 <= i < |rest| ensures rest[i].dest != e.dest {
      WithoutMembers(t, e.dest, rest[i]);
    }
  }

  /** `cap` limited by every channel to `peer`: what the capping loop leaves. */
  function Capped(channels: seq<Channel>, peer: Key, cap: int64): (r: int64)
    ensures r <= cap
    ensures forall ch :: ch in channels && ch.remote == peer ==> r <= ch.balance
  {
    if channels == [] then cap
    else
      var n := |channels| - 1;
      var rest := Capped(channels[..n], peer, cap);
      assert channels == channels[..n] + [channels[n]];
      if channels[n].remote == peer && channels[n].balance < rest
      then channels[n].balance else rest
  }

  /** The cap is no lower than it must be. */
  lemma {:induction false} CappedAtLeast(channels: seq<Channel>, peer: Key, cap: int64, c: int)
    requires cap >= c && forall ch :: ch in channels && ch.remote == peer ==> ch.balance >= c
    ensures Capped(channels, peer, cap) >= c
  {
    if channels != [] {
      CappedAtLeast(channels[..|channels| - 1], peer, cap, c);
    }
  }

  /** What a node knows that its routing decisions depend on, other than its table. */
  datatype View = View(local: Address, addrOf: map<Key, Address>, channels: seq<Channel>, height: uint64)

  /** The routing address of a key, the zero address when it has none. */
  function HopAddress(v: View, peer: Key): Address {
    if peer in v.addrOf then v.addrOf[peer] else [0, 0, 0, 0]
  }

  /** A peer offers a destination: keep the better of it and the current entry, ties to the offer. */
  function Offer(v: View, t: Table, peer: Key, d: Destination): Table {
    if d.address == v.local then t
    else
      var e := Entry(d.address, HopAddress(v, peer), Capped(v.channels, peer, d.capacity), v.height);
      match Lookup(t, d.address)
      case None => Store(t, e)
      case Some(current) => if e.capacity < current.capacity then t else Store(t, e)
  }

  function Offers(v: View, t: Table, peer: Key, ds: seq<Destination>): Table
    decreases |ds|
  {
    if ds == [] then t
    else
      var n := |ds| - 1;
      Offer(v, Offers(v, t, peer, ds[..n]), peer, ds[n])
  }

  /** What the readings of the channels return, one after another. */
  type Readings = nat -> seq<Channel>

  /** Offers in order, each limited by the channels as they are read for it. */
  function OffersEach(v: View, t: Table, peer: Key, ds: seq<Destination>, again: Readings): Table
    decreases |ds|
  {
    if ds == [] then t
    else
      var n := |ds| - 1;
      Offer(v.(channels := again(n)), OffersEach(v, t, peer, ds[..n], again), peer, ds[n])
  }

  /** Entries are offered in order: those of a first part, and then the rest, with the readings that come after. */
  lemma {:induction false} OffersInOrder(v: View, t: Table, peer: Key, ds: seq<Destination>, es: seq<Destination>,
      again: Readings, later: Readings)
    requires forall i: nat :: later(i) == again(|ds| + i)
    ensures OffersEach(v, t, peer, ds + es, again) == OffersEach(v, OffersEach(v, t, peer, ds, again), peer, es, later)
    decreases |es|
  {
    if es == [] {
      assert ds + es == ds;
    } else {
      var n := |es| - 1;
      OffersInOrder(v, t, peer, ds, es[..n], again, later);
      assert (ds + es)[..|ds| + n] == ds + es[..n];
      assert later(n) == again(|ds| + n);
    }
  }

  /** While the channels stay as they are, it is the same as offering with one reading. */
  lemma {:induction false} OffersEachIsOffers(v: View, t: Table, peer: Key, ds: seq<Destination>, again: Readings)
    requires forall i: nat :: again(i) == v.channels
    ensures OffersEach(v, t, peer, ds, again) == Offers(v, t, peer, ds)
    decreases |ds|
  {
    if ds != [] {
      OffersEachIsOffers(v, t, peer, ds[..|ds| - 1], again);
    }
  }

  /** Lower every entry that goes through `hop` to at most `balance`. */
  function Lower(t: Table, hop: Address, balance: int64): (r: Table)
    ensures |r| == |t|
    ensures forall i :: 0 <= i < |t| ==> r[i] == LowerEntry(t[i], hop, balance)
  {
    if t == [] then [] else [LowerEntry(t[0], hop, balance)] + Lower(t[1..], hop, balance)
  }

  function LowerEntry(e: Entry, hop: Address, balance: int64): Entry {
    if e.nextHop == hop && e.capacity > balance then e.(capacity := balance) else e
  }

  /** One channel of a balance pass. */
  function SyncChannel(v: View, t: Table, ch: Channel): Table {
    if ch.remote !in v.addrOf then t
    else
      var hop := v.addrOf[ch.remote];
      Offer(v, Lower(t, hop, ch.balance), ch.remote, Destination(hop, ch.balance))
  }

  /** The first `n` channels of a balance pass. */
  function SyncUpTo(v: View, t: Table, n: nat): Table
    requires n <= |v.channels|
  {
    if n == 0 then t else SyncChannel(v, SyncUpTo(v, t, n - 1), v.channels[n - 1])
  }

  /** One pass of the balance synchronisation over every local channel. */
  function SyncPass(v: View, t: Table): Table {
    SyncUpTo(v, t, |v.channels|)
  }

  /** The table as a node shares it with its peers. */
  function Destinations(t: Table): (r: seq<Destination>)
    ensures |r| == |t|
    ensures forall i :: 0 <= i < |t| ==> r[i] == Destination(t[i].dest, t[i].capacity)
  {
    if t == [] then [] else [Destination(t[0].dest, t[0].capacity)] + Destinations(t[1..])
  }

  lemma OfferDistinct(v: View, t: Table, peer: Key, d: Destination)
    requires Distinct(t)
    ensures Distinct(Offer(v, t, peer, d))
  {
    StoreDistinct(t, Entry(d.address, HopAddress(v, peer), Capped(v.channels, peer, d.capacity), v.height));
  }

  lemma LoweredDistinct(t: Table, hop: Address, balance: int64)
    requires Distinct(t)
    ensures Distinct(Lower(t, hop, balance))
  {
  }

  lemma ChannelDistinct(v: View, t: Table, ch: Channel)
    requires Distinct(t)
    ensures Distinct(SyncChannel(v, t, ch))
  {
    if ch.remote in v.addrOf {
      var hop := v.addrOf[ch.remote];
      LoweredDistinct(t, hop, ch.balance);
      OfferDistinct(v, Lower(t, hop, ch.balance), ch.remote, Destination(hop, ch.balance));
    }
  }

  lemma {:induction false} SyncDistinct(v: View, t: Table, n: nat)
    requires n <= |v.channels| && Distinct(t)
    ensures Distinct(SyncUpTo(v, t, n))
  {
    if n > 0 {
      SyncDistinct(v, t, n - 1);
      ChannelDistinct(v, SyncUpTo(v, t, n - 1), v.channels[n - 1]);
    }
  }

  // ---- how each operation acts on a single destination ----

  lemma {:induction false} WithoutLookup(t: Table, x: Address, d: Address)
    ensures Lookup(Without(t, x), d) == if d == x then None else Lookup(t, d)
  {
    if t != [] {
      WithoutLookup(t[1..], x, d);
    }
  }

  lemma StoreLookup(t: Table, e: Entry, d: Address)
    ensures Lookup(Store(t, e), d) == if d == e.dest then Some(e) else Lookup(t, d)
  {
    WithoutLookup(t, e.dest, d);
  }

  lemma {:induction false} LowerLookup(t: Table, hop: Address, balance: int64, d: Address)
    ensures Lookup(Lower(t, hop, balance), d)
         == match Lookup(t, d) case None => None case Some(e) => Some(LowerEntry(e, hop, balance))
  {
    if t != [] {
      LowerLookup(t[1..], hop, balance, d);
    }
  }

  /** What an offer of `o` by `peer` leaves at `o.address`, given what was there. */
  function Better(v: View, was: Option<Entry>, peer: Key, o: Destination): Option<Entry> {
    var e := Entry(o.address, HopAddress(v, peer), Capped(v.channels, peer, o.capacity), v.height);
    if was.Some? && e.capacity < was.value.capacity then was else Some(e)
  }

  /** An offer touches its own destination only. */
  lemma OfferLookup(v: View, t: Table, peer: Key, o: Destination, d: Address)
    ensures Lookup(Offer(v, t, peer, o), d)
         == if d == o.address && d != v.local then Better(v, Lookup(t, d), peer, o) else Lookup(t, d)
  {
    if o.address != v.local {
      StoreLookup(t, Entry(o.address, HopAddress(v, peer), Capped(v.channels, peer, o.capacity), v.height), d);
    }
  }

  // ---- the balance pass ----

  /** Distinct keys have distinct routing addresses. */
  ghost predicate OneKeyPerAddress(addrOf: map<Key, Address>) {
    forall k, l :: k in addrOf && l in addrOf && addrOf[k] == addrOf[l] ==> k == l
  }

  /** What one channel of a pass leaves at `d`, given what was there. */
  function ChannelEffect(v: View, was: Option<Entry>, ch: Channel, d: Address): Option<Entry> {
    if ch.remote !in v.addrOf then was
    else
      var hop := v.addrOf[ch.remote];
      var low := if was.Some? then Some(LowerEntry(was.value, hop, ch.balance)) else None;
      if d == hop && d != v.local then Better(v, low, ch.remote, Destination(hop, ch.balance)) else low
  }

  function PassEffect(v: View, was: Option<Entry>, n: nat, d: Address): Option<Entry>
    requires n <= |v.channels|
  {
    if n == 0 then was else ChannelEffect(v, PassEffect(v, was, n - 1, d), v.channels[n - 1], d)
  }

  lemma SyncChannelLookup(v: View, t: Table, ch: Channel, d: Address)
    ensures Lookup(SyncChannel(v, t, ch), d) == ChannelEffect(v, Lookup(t, d), ch, d)
  {
    if ch.remote in v.addrOf {
      var hop := v.addrOf[ch.remote];
      LowerLookup(t, hop, ch.balance, d);
      OfferLookup(v, Lower(t, hop, ch.balance), ch.remote, Destination(hop, ch.balance), d);
    }
  }

  /** A pass treats each destination on its own. */
  lemma {:induction false} SyncUpToLookup(v: View, t: Table, n: nat, d: Address)
    requires n <= |v.channels|
    ensures Lookup(SyncUpTo(v, t, n), d) == PassEffect(v, Lookup(t, d), n, d)
  {
    if n > 0 {
      SyncUpToLookup(v, t, n - 1, d);
      SyncChannelLookup(v, SyncUpTo(v, t, n - 1), v.channels[n - 1], d);
    }
  }

  /** `e` is at or below the balance of `ch`, if `ch` leads to its next hop. */
  ghost predicate Within(v: View, e: Entry, ch: Channel) {
    ch.remote in v.addrOf && v.addrOf[ch.remote] == e.nextHop ==> e.capacity <= ch.balance
  }

  /** `o` is at or below each of the first `n` channels to its next hop. */
  ghost predicate WithinFirst(v: View, o: Option<Entry>, n: nat)
    requires n <= |v.channels|
  {
    forall i :: 0 <= i < n && o.Some? ==> Within(v, o.value, v.channels[i])
  }

  lemma {:induction false} PassEffectWithin(v: View, was: Option<Entry>, n: nat, d: Address)
    requires n <= |v.channels| && OneKeyPerAddress(v.addrOf)
    ensures WithinFirst(v, PassEffect(v, was, n, d), n)
  {
    if n > 0 {
      PassEffectWithin(v, was, n - 1, d);
    }
  }

  /** `ch` joins the local node to the registered node at `d`. */
  ghost predicate LeadsTo(v: View, ch: Channel, d: Address) {
    ch.remote in v.addrOf && v.addrOf[ch.remote] == d && d != v.local
  }

  /** What `o` must be once the channel `ch` to the neighbour at `d` has been served: a direct
      entry at exactly the smallest balance of the neighbour, or something strictly better. */
  ghost predicate Served(v: View, o: Option<Entry>, ch: Channel, d: Address) {
    LeadsTo(v, ch, d) ==>
      var low := Capped(v.channels, ch.remote, ch.balance);
      o.Some? && (o.value.capacity > low || (o.value.capacity == low && o.value.nextHop == d))
  }

  ghost predicate SameRoute(a: Option<Entry>, b: Option<Entry>) {
    a.Some? == b.Some? && (a.Some? ==>
      a.value.dest == b.value.dest && a.value.nextHop == b.value.nextHop && a.value.capacity == b.value.capacity)
  }

  /** The effect of channel `j` on a capped destination: still capped, served by `j`, and still
      served by every channel that served it. */
  lemma ChannelEffectServes(v: View, was: Option<Entry>, j: nat, d: Address)
    requires j < |v.channels| && OneKeyPerAddress(v.addrOf)
    requires WithinFirst(v, was, |v.channels|)
    ensures var now := ChannelEffect(v, was, v.channels[j], d);
      && WithinFirst(v, now, |v.channels|)
      && Served(v, now, v.channels[j], d)
      && forall i {:trigger v.channels[i]} :: 0 <= i < |v.channels| && Served(v, was, v.channels[i], d) ==> Served(v, now, v.channels[i], d)
  {
    var ch, now := v.channels[j], ChannelEffect(v, was, v.channels[j], d);
    if ch.remote in v.addrOf && was.Some? {
      assert Within(v, was.value, ch);
    }
  }

  lemma {:induction false} PassEffectServes(v: View, was: Option<Entry>, n: nat, d: Address)
    requires n <= |v.channels| && OneKeyPerAddress(v.addrOf)
    requires WithinFirst(v, was, |v.channels|)
    ensures WithinFirst(v, PassEffect(v, was, n, d), |v.channels|)
    ensures forall i {:trigger v.channels[i]} :: 0 <= i < n ==> Served(v, PassEffect(v, was, n, d), v.channels[i], d)
  {
    if n > 0 {
      PassEffectServes(v, was, n - 1, d);
      ChannelEffectServes(v, PassEffect(v, was, n - 1, d), n - 1, d);
    }
  }

  /** On a capped table whose neighbours are served a channel changes no next hop and no capacity. */
  lemma ChannelEffectStable(v: View, was: Option<Entry>, j: nat, d: Address)
    requires j < |v.channels| && OneKeyPerAddress(v.addrOf)
    requires WithinFirst(v, was, |v.channels|) && Served(v, was, v.channels[j], d)
    requires was.Some? ==> was.value.dest == d
    ensures SameRoute(ChannelEffect(v, was, v.channels[j], d), was)
  {
    if v.channels[j].remote in v.addrOf && was.Some? {
      assert Within(v, was.value, v.channels[j]);
    }
  }

  lemma {:induction false} PassEffectStable(v: View, was: Option<Entry>, n: nat, d: Address)
    requires n <= |v.channels| && OneKeyPerAddress(v.addrOf)
    requires WithinFirst(v, was, |v.channels|) && (was.Some? ==> was.value.dest == d)
    requires forall i {:trigger v.channels[i]} :: 0 <= i < |v.channels| ==> Served(v, was, v.channels[i], d)
    ensures SameRoute(PassEffect(v, was, n, d), was)
  {
    if n > 0 {
      PassEffectStable(v, was, n - 1, d);
      var mid := PassEffect(v, was, n - 1, d);
      assert forall i {:trigger v.channels[i]} :: 0 <= i < |v.channels| ==>
        Served(v, mid, v.channels[i], d) && (mid.Some? ==> (Within(v, mid.value, v.channels[i]) <==> Within(v, was.value, v.channels[i])));
      ChannelEffectStable(v, mid, n - 1, d);
    }
  }

  /** Consecutive passes over the same channels, the i-th at block height `hs[i]`. */
  function Passes(v: View, t: Table, hs: seq<uint64>): Table {
    if hs == [] then t
    else SyncPass(v.(height := hs[|hs| - 1]), Passes(v, t, hs[..|hs| - 1]))
  }

  /** From any table: after one pass every entry is within the balances to its next hop. */
  lemma PassesCap(v: View, t: Table, hs: seq<uint64>, d: Address)
    requires OneKeyPerAddress(v.addrOf) && hs != []
    ensures WithinFirst(v, Lookup(Passes(v, t, hs), d), |v.channels|)
  {
    var n := |hs| - 1;
    var w, was := v.(height := hs[n]), Passes(v, t, hs[..n]);
    SyncUpToLookup(w, was, |w.channels|, d);
    PassEffectWithin(w, Lookup(was, d), |w.channels|, d);
    assert WithinFirst(w, Lookup(SyncPass(w, was), d), |w.channels|);
  }

  /** From any table: after two passes every registered neighbour is reached directly at exactly its
      smallest balance, or at strictly more some other way. */
  lemma PassesServe(v: View, t: Table, hs: seq<uint64>, d: Address, i: nat)
    requires OneKeyPerAddress(v.addrOf) && |hs| >= 2 && i < |v.channels|
    ensures Served(v, Lookup(Passes(v, t, hs), d), v.channels[i], d)
  {
    var n := |hs| - 1;
    var w, was := v.(height := hs[n]), Passes(v, t, hs[..n]);
    PassesCap(v, t, hs[..n], d);
    assert WithinFirst(w, Lookup(was, d), |w.channels|);
    SyncUpToLookup(w, was, |w.channels|, d);
    PassEffectServes(w, Lookup(was, d), |w.channels|, d);
    assert Served(w, Lookup(SyncPass(w, was), d), w.channels[i], d);
  }

  /** From any table, with unchanged channels, the routing map is a fixed point from the second pass
      on: no later pass, at any height, changes a destination's next hop or capacity. (The heights
      and the order of the stack do change.) */
  lemma {:induction false} SyncStabilises(v: View, t: Table, hs: seq<uint64>, d: Address)
    requires OneKeyPerAddress(v.addrOf) && |hs| >= 2
    ensures SameRoute(Lookup(Passes(v, t, hs), d), Lookup(Passes(v, t, hs[..2]), d))
  {
    var n := |hs| - 1;
    if n == 1 {
      assert hs[..2] == hs;
    } else {
      var w, was := v.(height := hs[n]), Passes(v, t, hs[..n]);
      SyncStabilises(v, t, hs[..n], d);
      assert hs[..n][..2] == hs[..2];
      PassesCap(v, t, hs[..n], d);
      assert WithinFirst(w, Lookup(was, d), |w.channels|);
      forall i {:trigger w.channels[i]} | 0 <= i < |w.channels| ensures Served(w, Lookup(was, d), w.channels[i], d) {
        PassesServe(v, t, hs[..n], d, i);
        assert Served(v, Lookup(was, d), v.channels[i], d);
      }
      SyncUpToLookup(w, was, |w.channels|, d);
      PassEffectStable(w, Lookup(was, d), |w.channels|, d);
    }
  }

  // ---- what one pass leaves at a neighbour ----

  /** Channel `j` leads to the next hop `hop`. */
  ghost predicate JoinsHop(v: View, j: nat, hop: Address) {
    j < |v.channels| && v.channels[j].remote in v.addrOf && v.addrOf[v.channels[j].remote] == hop
  }

  /** `was` goes through another hop than `d`, has a capacity above `low`, and so has every one of the first `n`
      channels to its hop. */
  ghost predicate HoldsOut(v: View, was: Option<Entry>, d: Address, low: int64, n: nat) {
    was.Some? && was.value.nextHop != d && was.value.capacity > low && StaysAbove(v, was.value.nextHop, low, n)
  }

  ghost predicate StaysAbove(v: View, hop: Address, low: int64, n: nat) {
    forall j: nat {:trigger JoinsHop(v, j, hop)} :: j < n && JoinsHop(v, j, hop) ==> v.channels[j].balance > low
  }

  /** One of the channels from `from` to `to` exclusive leads to `hop` with a balance below `x`. */
  ghost predicate FallsBelow(v: View, hop: Address, from: nat, to: nat, x: int) {
    exists j: nat {:trigger JoinsHop(v, j, hop)} :: from <= j < to && JoinsHop(v, j, hop) && v.channels[j].balance < x
  }

  /** Channel `i` is the last one to the registered neighbour at `d`, and `low` is the smallest balance to it. */
  ghost predicate LastTo(v: View, i: nat, d: Address, low: int64) {
    && JoinsHop(v, i, d) && d != v.local && low == Capped(v.channels, v.channels[i].remote, v.channels[i].balance)
    && forall j: nat {:trigger JoinsHop(v, j, d)} :: JoinsHop(v, j, d) ==> j <= i
  }

  /** Every offer of a channel to the neighbour at `d` comes to the smallest balance. */
  lemma OfferIsLow(v: View, i: nat, j: nat, d: Address, low: int64)
    requires OneKeyPerAddress(v.addrOf) && LastTo(v, i, d, low) && JoinsHop(v, j, d)
    ensures v.channels[j].remote == v.channels[i].remote && low <= v.channels[j].balance
    ensures Capped(v.channels, v.channels[j].remote, v.channels[j].balance) == low
  {
    var k := v.channels[i].remote;
    assert v.channels[j].remote == k && v.channels[j] in v.channels && v.channels[i] in v.channels;
    CappedAtLeast(v.channels, k, v.channels[j].balance, low);
    CappedAtLeast(v.channels, k, v.channels[i].balance, Capped(v.channels, k, v.channels[j].balance));
  }

  /** Where a pass stands after the first `n` channels. */
  ghost predicate Standing(v: View, was: Option<Entry>, now: Option<Entry>, d: Address, low: int64, n: nat) {
    if HoldsOut(v, was, d, low, n)
    then now.Some? && now.value.nextHop == was.value.nextHop && now.value.capacity > low
    else now.None? || now.value.capacity <= low || now.value.nextHop == d
  }

  lemma StaysAboveStep(v: View, hop: Address, low: int64, n: nat)
    ensures StaysAbove(v, hop, low, n + 1) <==>
      StaysAbove(v, hop, low, n) && (JoinsHop(v, n, hop) ==> v.channels[n].balance > low)
  {
  }

  lemma StandingStep(v: View, was: Option<Entry>, i: nat, n: nat, d: Address, low: int64, now: Option<Entry>,
      next: Option<Entry>)
    requires OneKeyPerAddress(v.addrOf) && LastTo(v, i, d, low) && n < |v.channels| && Standing(v, was, now, d, low, n)
    requires next == ChannelEffect(v, now, v.channels[n], d)
    ensures Standing(v, was, next, d, low, n + 1)
  {
    if JoinsHop(v, n, d) {
      OfferIsLow(v, i, n, d, low);
    }
    if was.Some? {
      StaysAboveStep(v, was.value.nextHop, low, n);
    }
  }

  lemma {:induction false} StandingAfter(v: View, was: Option<Entry>, i: nat, n: nat, d: Address, low: int64)
    requires OneKeyPerAddress(v.addrOf) && LastTo(v, i, d, low) && n <= |v.channels|
    ensures Standing(v, was, PassEffect(v, was, n, d), d, low, n)
  {
    if n > 0 {
      StandingAfter(v, was, i, n - 1, d, low);
      StandingStep(v, was, i, n - 1, d, low, PassEffect(v, was, n - 1, d), PassEffect(v, was, n, d));
    }
  }

  /** A direct entry within the first channels, the last one to `d` included, is at most the smallest balance. */
  lemma DirectAtMost(v: View, e: Entry, i: nat, d: Address, low: int64)
    requires LastTo(v, i, d, low) && e.nextHop == d && WithinFirst(v, Some(e), i + 1)
    ensures e.capacity <= low
  {
    var k := v.channels[i].remote;
    assert Within(v, e, v.channels[i]);
    forall ch | ch in v.channels && ch.remote == k ensures ch.balance >= e.capacity {
      var j :| 0 <= j < |v.channels| && v.channels[j] == ch;
      assert JoinsHop(v, j, d);
      assert Within(v, e, v.channels[j]);
    }
    CappedAtLeast(v.channels, k, v.channels[i].balance, e.capacity);
  }

  /** Right after the last channel to `d`: at exactly the smallest balance, unless another hop has held out. */
  lemma AfterLast(v: View, was: Option<Entry>, i: nat, d: Address, low: int64)
    requires OneKeyPerAddress(v.addrOf) && LastTo(v, i, d, low)
    ensures var now := PassEffect(v, was, i + 1, d);
      && now.Some? && now.value.capacity >= low
      && if HoldsOut(v, was, d, low, i) then now.value.nextHop == was.value.nextHop && now.value.capacity > low
         else now.value.nextHop == d && now.value.capacity == low
  {
    StandingAfter(v, was, i, i, d, low);
    OfferIsLow(v, i, i, d, low);
    PassEffectWithin(v, was, i + 1, d);
    var now := PassEffect(v, was, i + 1, d);
    assert now == ChannelEffect(v, PassEffect(v, was, i, d), v.channels[i], d);
    if now.value.nextHop == d {
      DirectAtMost(v, now.value, i, d, low);
    }
  }

  lemma FallsBelowStep(v: View, hop: Address, from: nat, n: nat, x: int)
    requires from <= n
    ensures FallsBelow(v, hop, from, n + 1, x) <==>
      FallsBelow(v, hop, from, n, x) || (JoinsHop(v, n, hop) && v.channels[n].balance < x)
  {
  }

  /** After the last channel to `d` the entry only falls, with the channels to its own hop. */
  lemma {:induction false} FallsAfterLast(v: View, was: Option<Entry>, i: nat, n: nat, d: Address, low: int64, x: int)
    requires OneKeyPerAddress(v.addrOf) && LastTo(v, i, d, low) && i + 1 <= n <= |v.channels|
    requires PassEffect(v, was, i + 1, d).Some? && PassEffect(v, was, i + 1, d).value.capacity >= x
    ensures var first, now := PassEffect(v, was, i + 1, d), PassEffect(v, was, n, d);
      && now.Some? && now.value.nextHop == first.value.nextHop
      && (now.value.capacity < x <==> FallsBelow(v, first.value.nextHop, i + 1, n, x))
  {
    if n > i + 1 {
      FallsAfterLast(v, was, i, n - 1, d, low, x);
      FallsBelowStep(v, PassEffect(v, was, i + 1, d).value.nextHop, i + 1, n - 1, x);
      assert !JoinsHop(v, n - 1, d);
    }
  }

  /** The other hop of `was` holds out until the last channel to `d` and then falls below `x`. */
  ghost predicate Undercut(v: View, was: Option<Entry>, i: nat, d: Address, low: int64, x: int) {
    HoldsOut(v, was, d, low, i) && FallsBelow(v, was.value.nextHop, i + 1, |v.channels|, x)
  }

  lemma NoneFalls(v: View, i: nat, d: Address, low: int64, x: int)
    requires LastTo(v, i, d, low)
    ensures !FallsBelow(v, d, i + 1, |v.channels|, x)
  {
  }

  /** Exactly when one pass is not enough for a neighbour, from any table: it leaves the neighbour below its smallest
      balance if and only if the entry it started from goes through another hop, has a capacity above that balance as
      has every channel to that hop listed before the last one to the neighbour, and some channel to that hop listed
      after has a balance below; and it leaves it unserved if and only if the same holds with a balance at or below. */
  lemma OnePassIff(v: View, t: Table, i: nat, d: Address, low: int64)
    requires OneKeyPerAddress(v.addrOf) && LastTo(v, i, d, low)
    ensures var was, now := Lookup(t, d), Lookup(SyncPass(v, t), d);
      && now.Some?
      && (now.value.capacity < low <==> Undercut(v, was, i, d, low, low))
      && (!Served(v, now, v.channels[i], d) <==> Undercut(v, was, i, d, low, low + 1))
  {
    var was, n := Lookup(t, d), |v.channels|;
    SyncUpToLookup(v, t, n, d);
    AfterLast(v, was, i, d, low);
    FallsAfterLast(v, was, i, n, d, low, low);
    if HoldsOut(v, was, d, low, i) {
      FallsAfterLast(v, was, i, n, d, low, low + 1);
    } else {
      NoneFalls(v, i, d, low, low);
    }
  }

  /** One pass is not enough: lowering the entry through a later channel can undercut a neighbour
      whose own channel was already visited. */
  lemma OnePassIsNotEnough(a: Key, b: Key)
    requires a != b
    ensures var v := View([0, 0, 0, 0], map[a := [0, 0, 0, 1], b := [0, 0, 0, 2]], [Channel(a, 5), Channel(b, 3)], 0);
      !Served(v, Lookup(SyncPass(v, [Entry([0, 0, 0, 1], [0, 0, 0, 2], 10, 0)]), [0, 0, 0, 1]), v.channels[0], [0, 0, 0, 1])
  {
    var v := View([0, 0, 0, 0], map[a := [0, 0, 0, 1], b := [0, 0, 0, 2]], [Channel(a, 5), Channel(b, 3)], 0);
    var e := Entry([0, 0, 0, 1], [0, 0, 0, 2], 10, 0);
    CappedAtLeast(v.channels, a, 5, 5);
    SyncUpToLookup(v, [e], 2, e.dest);
    assert PassEffect(v, Some(e), 0, e.dest) == Some(e);
    assert PassEffect(v, Some(e), 1, e.dest) == Some(e);
    assert PassEffect(v, Some(e), 2, e.dest) == Some(e.(capacity := 3));
  }

  // ---- the pass as the node runs it ----

  /** The node lowers the entries it had when the pass began: not those stored since, whose destinations are
      `stored`. */
  datatype Pass = Pass(table: Table, stored: set<Address>)

  function LowerOld(t: Table, stored: set<Address>, hop: Address, balance: int64): (r: Table)
    ensures |r| == |t|
    ensures forall i :: 0 <= i < |t| ==> r[i] == if t[i].dest in stored then t[i] else LowerEntry(t[i], hop, balance)
  {
    if t == [] then []
    else [if t[0].dest in stored then t[0] else LowerEntry(t[0], hop, balance)] + LowerOld(t[1..], stored, hop, balance)
  }

  /** The offer is stored. */
  predicate Stores(v: View, t: Table, peer: Key, d: Destination) {
    d.address != v.local &&
      var current := Lookup(t, d.address);
      current.None? || Capped(v.channels, peer, d.capacity) >= current.value.capacity
  }

  /** Lowering what was there when the pass began. */
  function LowerPass(p: Pass, hop: Address, balance: int64): Pass {
    Pass(LowerOld(p.table, p.stored, hop, balance), p.stored)
  }

  /** Offering a neighbour in a pass. */
  function OfferPass(v: View, p: Pass, peer: Key, o: Destination): Pass {
    Pass(Offer(v, p.table, peer, o), if Stores(v, p.table, peer, o) then p.stored + {o.address} else p.stored)
  }

  /** One channel, with the channels as they are when they are read again to limit its offer. */
  function PassStep(v: View, p: Pass, ch: Channel, again: seq<Channel>): Pass {
    if ch.remote !in v.addrOf then p
    else
      var hop := v.addrOf[ch.remote];
      OfferPass(v.(channels := again), LowerPass(p, hop, ch.balance), ch.remote, Destination(hop, ch.balance))
  }

  /** The channel listed at place `i`, if there are that many. */
  function NthStep(v: View, again: Readings, p: Pass, i: nat): Pass {
    if i < |v.channels| then PassStep(v, p, v.channels[i], again(i)) else p
  }

  function StepOf(v: View, again: Readings): (Pass, nat) -> Pass {
    (p: Pass, i: nat) => NthStep(v, again, p, i)
  }

  function Iterate(step: (Pass, nat) -> Pass, p: Pass, n: nat): Pass {
    if n == 0 then p else step(Iterate(step, p, n - 1), n - 1)
  }

  /** What holds at the start and is kept by each of the first `limit` steps. */
  lemma {:induction false} IterateKeeps(step: (Pass, nat) -> Pass, good: (Pass, nat) -> bool, p: Pass, n: nat,
      limit: nat)
    requires n <= limit && good(p, 0)
    requires forall q, i: nat :: i < limit && good(q, i) ==> good(step(q, i), i + 1)
    ensures good(Iterate(step, p, n), n)
  {
    if n > 0 {
      IterateKeeps(step, good, p, n - 1, limit);
    }
  }

  /** The first `n` channels. */
  function PassUpTo(v: View, t: Table, again: Readings, n: nat): Pass {
    Iterate(StepOf(v, again), Pass(t, {}), n)
  }

  /** `ps` are what a pass goes through, channel by channel. */
  ghost predicate PassTrace(v: View, again: Readings, ps: seq<Pass>) {
    0 < |ps| <= |v.channels| + 1 && forall i: nat {:trigger PassedAt(v, again, ps, i)} :: PassedAt(v, again, ps, i)
  }

  ghost predicate PassedAt(v: View, again: Readings, ps: seq<Pass>, i: nat)
    requires |ps| <= |v.channels| + 1
  {
    i + 1 < |ps| ==> ps[i + 1] == NthStep(v, again, ps[i], i)
  }

  lemma TraceSnoc(v: View, again: Readings, ps: seq<Pass>, q: Pass)
    requires PassTrace(v, again, ps) && |ps| <= |v.channels|
    requires q == NthStep(v, again, ps[|ps| - 1], |ps| - 1)
    ensures PassTrace(v, again, ps + [q])
  {
    var qs := ps + [q];
    forall i: nat ensures PassedAt(v, again, qs, i) {
      assert PassedAt(v, again, ps, i);
    }
  }

  lemma {:induction false} TraceIsPass(v: View, t: Table, again: Readings, ps: seq<Pass>, n: nat)
    requires PassTrace(v, again, ps) && ps[0] == Pass(t, {}) && n < |ps|
    ensures ps[n] == PassUpTo(v, t, again, n)
  {
    if n > 0 {
      TraceIsPass(v, t, again, ps, n - 1);
      assert PassedAt(v, again, ps, n - 1);
    }
  }

  /** A whole pass over the listed channels, with what each later reading of them returns. */
  function RereadPass(v: View, t: Table, again: Readings): Table {
    PassUpTo(v, t, again, |v.channels|).table
  }

  /** `e` is at or below the balance of every channel to its next hop. */
  ghost predicate WithinAll(v: View, e: Entry) {
    forall i :: 0 <= i < |v.channels| ==> Within(v, e, v.channels[i])
  }

  /** An entry limited to the channels of its own next hop is within all channels. */
  lemma OwnLimits(v: View, peer: Key, e: Entry)
    requires OneKeyPerAddress(v.addrOf) && peer in v.addrOf && e.nextHop == v.addrOf[peer]
    requires forall ch :: ch in v.channels && ch.remote == peer ==> e.capacity <= ch.balance
    ensures WithinAll(v, e)
  {
  }

  /** The entries stored since the pass began are low enough already. */
  ghost predicate FreshWithin(v: View, p: Pass) {
    forall e {:trigger LowEnough(v, p, e)} :: LowEnough(v, p, e)
  }

  ghost predicate LowEnough(v: View, p: Pass, e: Entry) {
    e in p.table && e.dest in p.stored ==> WithinAll(v, e)
  }

  lemma LowerOldIsLower(v: View, p: Pass, j: nat)
    requires FreshWithin(v, p) && j < |v.channels| && v.channels[j].remote in v.addrOf
    ensures var ch := v.channels[j]; var hop := v.addrOf[ch.remote];
      LowerOld(p.table, p.stored, hop, ch.balance) == Lower(p.table, hop, ch.balance)
  {
    var ch := v.channels[j];
    var hop := v.addrOf[ch.remote];
    forall i | 0 <= i < |p.table| && p.table[i].dest in p.stored
      ensures LowerEntry(p.table[i], hop, ch.balance) == p.table[i]
    {
      assert LowEnough(v, p, p.table[i]) && Within(v, p.table[i], v.channels[j]);
    }
  }

  /** Lowering keeps what was low enough. */
  lemma LoweredFresh(v: View, p: Pass, hop: Address, balance: int64)
    requires FreshWithin(v, p)
    ensures FreshWithin(v, Pass(LowerOld(p.table, p.stored, hop, balance), p.stored))
  {
    var q := Pass(LowerOld(p.table, p.stored, hop, balance), p.stored);
    forall e ensures LowEnough(v, q, e) {
      if e in q.table && e.dest in q.stored {
        var i :| 0 <= i < |q.table| && q.table[i] == e;
        assert LowEnough(v, p, p.table[i]);
      }
    }
  }

  lemma OfferFresh(v: View, p: Pass, peer: Key, o: Destination)
    requires OneKeyPerAddress(v.addrOf) && peer in v.addrOf && FreshWithin(v, p)
    ensures FreshWithin(v, OfferPass(v, p, peer, o))
  {
    if Stores(v, p.table, peer, o) {
      var e := Entry(o.address, HopAddress(v, peer), Capped(v.channels, peer, o.capacity), v.height);
      OwnLimits(v, peer, e);
      var q := Pass(Store(p.table, e), p.stored + {o.address});
      forall f ensures LowEnough(v, q, f) {
        WithoutMembers(p.table, e.dest, f);
        assert LowEnough(v, p, f);
      }
    }
  }

  lemma RereadStep(v: View, p: Pass, again: Readings, j: nat)
    requires OneKeyPerAddress(v.addrOf) && j < |v.channels| && FreshWithin(v, p) && again(j) == v.channels
    ensures var q := NthStep(v, again, p, j);
      q.table == SyncChannel(v, p.table, v.channels[j]) && FreshWithin(v, q)
  {
    var ch := v.channels[j];
    if ch.remote in v.addrOf {
      var hop := v.addrOf[ch.remote];
      LowerOldIsLower(v, p, j);
      LoweredFresh(v, p, hop, ch.balance);
      OfferFresh(v, Pass(LowerOld(p.table, p.stored, hop, ch.balance), p.stored), ch.remote, Destination(hop, ch.balance));
    }
  }

  /** The plain pass has come as far, and what the pass has stored is within all channels. */
  ghost predicate Follows(v: View, t: Table, p: Pass, n: nat) {
    n <= |v.channels| && p.table == SyncUpTo(v, t, n) && FreshWithin(v, p)
  }

  lemma FollowsStep(v: View, t: Table, again: Readings, p: Pass, n: nat)
    requires OneKeyPerAddress(v.addrOf) && n < |v.channels| && again(n) == v.channels && Follows(v, t, p, n)
    ensures Follows(v, t, NthStep(v, again, p, n), n + 1)
  {
    RereadStep(v, p, again, n);
  }

  lemma RereadFollows(v: View, t: Table, again: Readings)
    requires OneKeyPerAddress(v.addrOf)
    requires forall i: nat :: again(i) == v.channels
    ensures Follows(v, t, PassUpTo(v, t, again, |v.channels|), |v.channels|)
  {
    var step, n := StepOf(v, again), |v.channels|;
    forall p: Pass, i: nat | i < n && Follows(v, t, p, i) ensures Follows(v, t, step(p, i), i + 1) {
      FollowsStep(v, t, again, p, i);
    }
    IterateKeeps(step, (p: Pass, i: nat) => Follows(v, t, p, i), Pass(t, {}), n, n);
  }

  /** While the channels stay as they are the pass that the node runs, which lowers only what it had when it began
      and reads the channels anew for each offer, is the plain one. */
  lemma RereadIsSync(v: View, t: Table, again: Readings)
    requires OneKeyPerAddress(v.addrOf)
    requires forall i: nat :: again(i) == v.channels
    ensures RereadPass(v, t, again) == SyncPass(v, t)
  {
    RereadFollows(v, t, again);
  }

  // ---- reading the stack from a block height ----

  /** The early-exit walk: entries from the newest until one is older than `from`. */
  function Peek(t: Table, from: uint64): Table {
    if t == [] || t[0].height < from then [] else [t[0]] + Peek(t[1..], from)
  }

  /** All entries at least as new as `from`. */
  function Since(t: Table, from: uint64): Table {
    if t == [] then []
    else (if t[0].height < from then [] else [t[0]]) + Since(t[1..], from)
  }

  ghost predicate NewestFirst(t: Table) {
    forall i, j :: 0 <= i < j < |t| ==> t[i].height >= t[j].height
  }

  lemma {:induction false} SinceNone(t: Table, from: uint64)
    requires forall e :: e in t ==> e.height < from
    ensures Since(t, from) == []
  {
    if t != [] {
      SinceNone(t[1..], from);
    }
  }

  lemma {:induction false} SinceHas(t: Table, from: uint64, e: Entry)
    requires e in t && e.height >= from
    ensures e in Since(t, from)
  {
    if t[0] != e {
      SinceHas(t[1..], from, e);
    }
  }

  lemma {:induction false} PeekIsSince(t: Table, from: uint64)
    requires NewestFirst(t)
    ensures Peek(t, from) == Since(t, from)
  {
    if t != [] {
      if t[0].height < from {
        SinceNone(t[1..], from);
      } else {
        PeekIsSince(t[1..], from);
      }
    }
  }

  /** The walk returns everything it should, for every height asked, exactly on the stacks that
      are sorted newest first. */
  lemma PeekIsSinceIffSorted(t: Table)
    ensures (forall from: uint64 :: Peek(t, from) == Since(t, from)) <==> NewestFirst(t)
  {
    if NewestFirst(t) {
      forall from: uint64 ensures Peek(t, from) == Since(t, from) {
        PeekIsSince(t, from);
      }
    } else {
      var i, j :| 0 <= i < j < |t| && t[i].height < t[j].height;
      PeekMisses(t, i, j);
    }
  }

  lemma {:induction false} PeekStops(t: Table, i: nat, from: uint64)
    requires i < |t| && t[i].height < from
    ensures |Peek(t, from)| <= i && Peek(t, from) <= t
  {
    if t[0].height >= from {
      PeekStops(t[1..], i - 1, from);
    }
  }

  lemma {:induction false} SinceSplit(t: Table, i: nat, from: uint64)
    requires i <= |t|
    ensures Since(t, from) == Since(t[..i], from) + Since(t[i..], from)
  {
    if i > 0 {
      SinceSplit(t[1..], i - 1, from);
      assert t[..i][1..] == t[1..][..i - 1] && t[1..][i - 1..] == t[i..];
    } else {
      assert t[..0] == [] && t[0..] == t;
    }
  }

  lemma PeekMisses(t: Table, i: nat, j: nat)
    requires i < j < |t| && t[i].height < t[j].height
    ensures Peek(t, t[j].height) != Since(t, t[j].height)
  {
    var from, rest := t[j].height, t[i..];
    PeekStops(t, i, from);
    PeekBelowSince(t, i, from);
    SinceSplit(t, i, from);
    assert t[j] == rest[j - i];
    SinceHas(rest, from, t[j]);
    assert |Since(rest, from)| > 0;
  }

  lemma {:induction false} PeekBelowSince(t: Table, i: nat, from: uint64)
    requires i < |t| && t[i].height < from
    ensures |Peek(t, from)| <= |Since(t[..i], from)|
  {
    if t[0].height >= from {
      PeekBelowSince(t[1..], i - 1, from);
      assert t[..i][1..] == t[1..][..i - 1];
    }
  }

  /** Asked from the genesis block, the walk returns every entry whatever the order. */
  lemma {:induction false} PeekAll(t: Table)
    ensures Peek(t, 0) == t
  {
    if t != [] {
      PeekAll(t[1..]);
    }
  }

  lemma {:induction false} WithoutSorted(t: Table, d: Address)
    requires NewestFirst(t)
    ensures NewestFirst(Without(t, d))
  {
    if t != [] {
      WithoutSorted(t[1..], d);
      if t[0].dest != d {
        var rest := Without(t[1..], d);
        forall i | 0 <= i < |rest| ensures rest[i].height <= t[0].height {
          WithoutMembers(t[1..], d, rest[i]);
        }
      }
    }
  }

  ghost predicate NoNewerThan(t: Table, height: uint64) {
    forall e :: e in t ==> e.height <= height
  }

  /** Stored entries stay sorted as long as the height they are stamped with never decreases. */
  lemma OfferSorted(v: View, t: Table, peer: Key, d: Destination)
    requires NewestFirst(t) && NoNewerThan(t, v.height)
    ensures NewestFirst(Offer(v, t, peer, d)) && NoNewerThan(Offer(v, t, peer, d), v.height)
  {
    WithoutSorted(t, d.address);
    forall e | e in Without(t, d.address) ensures e.height <= v.height {
      WithoutMembers(t, d.address, e);
    }
  }

  lemma {:induction false} OffersSorted(v: View, t: Table, peer: Key, ds: seq<Destination>, again: Readings)
    requires NewestFirst(t) && NoNewerThan(t, v.height)
    ensures NewestFirst(OffersEach(v, t, peer, ds, again)) && NoNewerThan(OffersEach(v, t, peer, ds, again), v.height)
    decreases |ds|
  {
    if ds != [] {
      var n := |ds| - 1;
      OffersSorted(v, t, peer, ds[..n], again);
      OfferSorted(v.(channels := again(n)), OffersEach(v, t, peer, ds[..n], again), peer, ds[n]);
    }
  }

  lemma LoweredNewest(t: Table, stored: set<Address>, hop: Address, balance: int64)
    requires NewestFirst(t)
    ensures NewestFirst(LowerOld(t, stored, hop, balance))
  {
  }

  lemma LoweredNoNewer(t: Table, stored: set<Address>, hop: Address, balance: int64, height: uint64)
    requires NoNewerThan(t, height)
    ensures NoNewerThan(LowerOld(t, stored, hop, balance), height)
  {
    var low := LowerOld(t, stored, hop, balance);
    forall e | e in low ensures e.height <= height {
      var i :| 0 <= i < |low| && low[i] == e;
      assert t[i] in t;
    }
  }

  /** `t` is sorted newest first, and nothing in it is newer than `height`. */
  ghost predicate SortedUpTo(t: Table, height: uint64) {
    NewestFirst(t) && NoNewerThan(t, height)
  }

  lemma NthStepSorted(v: View, p: Pass, again: Readings, i: nat)
    requires SortedUpTo(p.table, v.height)
    ensures SortedUpTo(NthStep(v, again, p, i).table, v.height)
  {
    if i < |v.channels| && v.channels[i].remote in v.addrOf {
      var ch := v.channels[i];
      var hop := v.addrOf[ch.remote];
      var lowered := LowerOld(p.table, p.stored, hop, ch.balance);
      LoweredNewest(p.table, p.stored, hop, ch.balance);
      LoweredNoNewer(p.table, p.stored, hop, ch.balance, v.height);
      OfferSorted(v.(channels := again(i)), lowered, ch.remote, Destination(hop, ch.balance));
    }
  }

  lemma PassSorted(v: View, t: Table, again: Readings, n: nat)
    requires SortedUpTo(t, v.height)
    ensures SortedUpTo(PassUpTo(v, t, again, n).table, v.height)
  {
    var step, h := StepOf(v, again), v.height;
    forall p: Pass, i: nat | SortedUpTo(p.table, h) ensures SortedUpTo(step(p, i).table, h) {
      NthStepSorted(v, p, again, i);
    }
    IterateKeeps(step, (p: Pass, i: nat) => SortedUpTo(p.table, h), Pass(t, {}), n, n);
  }

  // ---- what is never lost ----

  /** `t` has one entry per destination and no fewer than `n` in all. */
  ghost predicate Keeps(t: Table, n: nat) {
    Distinct(t) && |t| >= n
  }

  lemma {:induction false} WithoutSize(t: Table, d: Address)
    requires Distinct(t)
    ensures |Without(t, d)| >= |t| - 1
  {
    if t != [] {
      if t[0].dest == d {
        WithoutAbsent(t[1..], d);
      } else {
        WithoutSize(t[1..], d);
      }
    }
  }

  lemma OfferLosesNone(v: View, t: Table, peer: Key, d: Destination, n: nat)
    requires Keeps(t, n)
    ensures Keeps(Offer(v, t, peer, d), n)
  {
    OfferDistinct(v, t, peer, d);
    WithoutSize(t, d.address);
  }

  lemma {:induction false} OffersLoseNone(v: View, t: Table, peer: Key, ds: seq<Destination>, again: Readings, n: nat)
    requires Keeps(t, n)
    ensures Keeps(OffersEach(v, t, peer, ds, again), n)
    decreases |ds|
  {
    if ds != [] {
      var k := |ds| - 1;
      OffersLoseNone(v, t, peer, ds[..k], again, n);
      OfferLosesNone(v.(channels := again(k)), OffersEach(v, t, peer, ds[..k], again), peer, ds[k], n);
    }
  }

  lemma SameDestinations(t: Table, r: Table, n: nat)
    requires Keeps(t, n) && |r| == |t| && forall i :: 0 <= i < |t| ==> r[i].dest == t[i].dest
    ensures Keeps(r, n)
  {
  }

  lemma NthStepLosesNone(v: View, p: Pass, again: Readings, i: nat, n: nat)
    requires Keeps(p.table, n)
    ensures Keeps(NthStep(v, again, p, i).table, n)
  {
    if i < |v.channels| && v.channels[i].remote in v.addrOf {
      var ch := v.channels[i];
      var hop := v.addrOf[ch.remote];
      var lowered := LowerOld(p.table, p.stored, hop, ch.balance);
      SameDestinations(p.table, lowered, n);
      OfferLosesNone(v.(channels := again(i)), lowered, ch.remote, Destination(hop, ch.balance), n);
    }
  }

  lemma PassLosesNone(v: View, t: Table, again: Readings, k: nat, n: nat)
    requires Keeps(t, n)
    ensures Keeps(PassUpTo(v, t, again, k).table, n)
  {
    var step := StepOf(v, again);
    forall p: Pass, i: nat | Keeps(p.table, n) ensures Keeps(step(p, i).table, n) {
      NthStepLosesNone(v, p, again, i, n);
    }
    IterateKeeps(step, (p: Pass, i: nat) => Keeps(p.table, n), Pass(t, {}), k, k);
  }
}
