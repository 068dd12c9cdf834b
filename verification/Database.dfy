/** The node's database: the trie, the index by key, the routing stack, and the operations on them. */
module Database {
  import opened Types
  import opened BitAddress
  import opened RoutingTable
  import opened Codec
  import opened AddressTrie
  import opened RoutingStack
  import opened Registry
  import opened Restart
  import opened Probing

  /** The leaf at `a` holds what the index says of `a`. */
  ghost predicate Holds(leaves: map<Bits, AddressInfo>, infos: map<Address, Info>, a: Address) {
    && (a in infos <==> BitsOf(a) in leaves)
    && (a in infos ==> leaves[BitsOf(a)].info == infos[a])
  }

  ghost predicate LeavesHold(leaves: map<Bits, AddressInfo>, infos: map<Address, Info>) {
    forall a {:trigger Holds(leaves, infos, a)} :: Holds(leaves, infos, a)
  }

  /** A registered key leads to the leaf of its address. */
  ghost predicate Leads(keyToNode: map<Key, Node>, at: map<Path, Node>, addrOf: map<Key, Address>, k: Key) {
    && (k in keyToNode <==> k in addrOf)
    && (k in addrOf ==> BitsOf(addrOf[k]) in at && keyToNode[k] == at[BitsOf(addrOf[k])])
  }

  ghost predicate KeysLead(keyToNode: map<Key, Node>, at: map<Path, Node>, addrOf: map<Key, Address>) {
    forall k {:trigger Leads(keyToNode, at, addrOf, k)} :: Leads(keyToNode, at, addrOf, k)
  }

  ghost predicate HasEntry(leaves: map<Bits, AddressInfo>, entries: map<Bits, RoutingEntry?>, p: Bits)
    reads leaves.Values
  {
    && (p in leaves <==> p in entries)
    && (p in leaves ==> leaves[p].routingEntry == entries[p])
  }

  /** `entries` has the entry at each leaf. */
  ghost predicate EntriesAt(leaves: map<Bits, AddressInfo>, entries: map<Bits, RoutingEntry?>)
    reads leaves.Values
  {
    forall p {:trigger HasEntry(leaves, entries, p)} :: HasEntry(leaves, entries, p)
  }

  lemma EntriesAtAdd(leaves: map<Bits, AddressInfo>, entries: map<Bits, RoutingEntry?>, p: Bits, node: AddressInfo)
    requires EntriesAt(leaves, entries) && node.routingEntry == null
    ensures EntriesAt(leaves[p := node], entries[p := null])
  {
    var leaves', entries' := leaves[p := node], entries[p := null];
    forall q ensures HasEntry(leaves', entries', q) {
      assert HasEntry(leaves, entries, q);
    }
  }

  /** An entry of the stack is the one at the leaf of its destination. */
  ghost predicate AtLeaf(entries: map<Bits, RoutingEntry?>, e: RoutingEntry) {
    BitsOf(e.destination) in entries && entries[BitsOf(e.destination)] == e
  }

  /** An entry at a leaf is in the stack. */
  ghost predicate InStack(entries: map<Bits, RoutingEntry?>, es: seq<RoutingEntry>, p: Bits) {
    p in entries && entries[p] != null ==> entries[p] in es && BitsOf(entries[p].destination) == p
  }

  /** The entries in the stack are exactly those at the leaves, once each, with distinct registered
      destinations. */
  ghost predicate Stacked(entries: map<Bits, RoutingEntry?>, es: seq<RoutingEntry>) {
    && NoDuplicates(es)
    && (forall e {:trigger AtLeaf(entries, e)} :: e in es ==> AtLeaf(entries, e))
    && (forall p {:trigger InStack(entries, es, p)} :: InStack(entries, es, p))
  }

  lemma LeavesHoldAdd(leaves: map<Bits, AddressInfo>, infos: map<Address, Info>, node: AddressInfo)
    requires LeavesHold(leaves, infos)
    ensures LeavesHold(leaves[BitsOf(node.info.address) := node], infos[node.info.address := node.info])
  {
    var b := node.info.address;
    var leaves', infos' := leaves[BitsOf(b) := node], infos[b := node.info];
    forall a ensures Holds(leaves', infos', a) {
      SamePath(a, b);
      assert Holds(leaves, infos, a);
    }
  }

  lemma SamePath(a: Address, b: Address)
    ensures BitsOf(a) == BitsOf(b) <==> a == b
  {
    Inverses(a, BitsOf(a));
    Inverses(b, BitsOf(b));
  }

  lemma KeysLeadAdd(keyToNode: map<Key, Node>, was: map<Path, Node>, at: map<Path, Node>, addrOf: map<Key, Address>,
      k: Key, a: Address)
    requires KeysLead(keyToNode, was, addrOf) && BitsOf(a) in at
    requires forall p :: p in was ==> p in at && at[p] == was[p]
    ensures KeysLead(keyToNode[k := at[BitsOf(a)]], at, addrOf[k := a])
  {
    var keyToNode', addrOf' := keyToNode[k := at[BitsOf(a)]], addrOf[k := a];
    forall l ensures Leads(keyToNode', at, addrOf', l) {
      assert Leads(keyToNode, was, addrOf, l);
    }
  }

  /** A new leaf keeps the leaves and the stack in agreement exactly if there was no entry at its path. */
  lemma StackedAddIff(entries: map<Bits, RoutingEntry?>, es: seq<RoutingEntry>, p: Bits)
    requires Stacked(entries, es)
    ensures Stacked(entries[p := null], es) <==> p !in entries || entries[p] == null
  {
    var entries' := entries[p := null];
    assert InStack(entries, es, p);
    if p !in entries || entries[p] == null {
      forall e | e in es ensures AtLeaf(entries', e) {
        assert AtLeaf(entries, e);
      }
      forall q ensures InStack(entries', es, q) {
        assert InStack(entries, es, q);
      }
    } else {
      assert !AtLeaf(entries', entries[p]);
    }
  }

  /** The leaves and the stack agree again after the entry for a destination is replaced. */
  lemma StackedReplaced(entries: map<Bits, RoutingEntry?>, es: seq<RoutingEntry>, rest: seq<RoutingEntry>,
      entry: RoutingEntry)
    requires Stacked(entries, es) && BitsOf(entry.destination) in entries
    requires Dropped(es, rest, entry.destination)
    ensures Stacked(entries[BitsOf(entry.destination) := entry], [entry] + rest)
  {
    var entries', es' := entries[BitsOf(entry.destination) := entry], [entry] + rest;
    forall f | f in es' ensures AtLeaf(entries', f) {
      if f != entry {
        assert AtLeaf(entries, f);
        SamePath(f.destination, entry.destination);
      }
    }
    forall q ensures InStack(entries', es', q) {
      assert InStack(entries, es, q);
    }
  }

  /** Nothing strictly better is known of the entry's destination. */
  ghost predicate NoWorse(t: Table, e: Entry) {
    Lookup(t, e.dest).None? || e.capacity >= Lookup(t, e.dest).value.capacity
  }

  lemma OfferIsStore(v: View, t: Table, peer: Key, d: Destination, e: Entry)
    requires d.address != v.local
    requires e == Entry(d.address, HopAddress(v, peer), Capped(v.channels, peer, d.capacity), v.height)
    ensures Stores(v, t, peer, d) <==> NoWorse(t, e)
    ensures Offer(v, t, peer, d) == if NoWorse(t, e) then Store(t, e) else t
  {
  }

  /** `es` is left of `was` without the entry for `d`. */
  ghost predicate Dropped(was: seq<RoutingEntry>, es: seq<RoutingEntry>, d: Address) {
    && NoDuplicates(es)
    && (forall f :: f in es ==> f in was && f.destination != d)
    && (forall f :: f in was && f.destination != d ==> f in es)
  }

  /** The stack has `entry` on top of what is left of `was`. */
  ghost predicate OnTop(was: seq<RoutingEntry>, es: seq<RoutingEntry>, entry: RoutingEntry) {
    es != [] && es[0] == entry && forall f :: f in es ==> f == entry || f in was
  }

  /** How processing a table response ends. */
  datatype Outcome = Ignored | Processed | Overran

  /** Entry `n` of the body of a table response. */
  function EntryOf(body: Bytes, n: nat): Destination
    requires DESTINATION_SIZE * (n + 1) <= |body|
  {
    DeserializeDestination(body[DESTINATION_SIZE * n..DESTINATION_SIZE * (n + 1)])
  }

  lemma {:induction false} EntryRead(body: Bytes, count: nat, n: nat)
    requires n < count && DESTINATION_SIZE * count <= |body|
    ensures ReadEntries(body, count)[n] == EntryOf(body, n)
  {
    if n < count - 1 {
      EntryRead(body, count - 1, n);
    }
  }

  /** Entry `n` of a body is `ds[n]`. */
  ghost predicate IsEntry(body: Bytes, ds: seq<Destination>, n: nat) {
    n < |ds| ==> DESTINATION_SIZE * (n + 1) <= |body| && EntryOf(body, n) == ds[n]
  }

  /** The entries of a body start with `ds`. */
  ghost predicate Lists(body: Bytes, ds: seq<Destination>) {
    DESTINATION_SIZE * |ds| <= |body| && forall n: nat {:trigger IsEntry(body, ds, n)} :: IsEntry(body, ds, n)
  }

  /** Reading a body ends with its count, or where the next entry runs off. */
  lemma BodyLists(body: Bytes, count: nat)
    ensures var ds := ReadBody(body, count).dests;
      && Lists(body, ds) && |ds| <= count && (|ds| < count ==> DESTINATION_SIZE * (|ds| + 1) > |body|)
      && ReadBody(body, count).complete == (|ds| == count)
  {
    var ds := ReadBody(body, count).dests;
    forall n: nat ensures IsEntry(body, ds, n) {
      if n < |ds| {
        EntryRead(body, |ds|, n);
      }
    }
  }

  /** A destination is registered, or is the local node. */
  ghost predicate KnownDestination(x: Index, local: Address, d: Destination) {
    d.address == local || d.address in x.infos
  }

  ghost predicate Known(x: Index, local: Address, ds: seq<Destination>) {
    forall d :: d in ds ==> KnownDestination(x, local, d)
  }

  /** Once a registered neighbour has no suggestion, consulting more of them is of no use. */
  lemma {:induction false} ConsultFails(x: Index, ns: seq<Key>, i: nat, a: Address)
    requires i <= |ns| && Consult(x, ns[..i], a).None?
    ensures Consult(x, ns, a).None?
    decreases |ns|
  {
    if i == |ns| {
      assert ns[..i] == ns;
    } else {
      assert ns[..|ns| - 1][..i] == ns[..i];
      ConsultFails(x, ns[..|ns| - 1], i, a);
    }
  }

  /** Having handled the first `i` of `rs` with `y` as the indexes and `written` on the file, the rest will
      complete what `rs` does to `x` and `log`. */
  ghost predicate Handled(o: Oracle, x: Index, rs: seq<Registration>, log: seq<Info>, y: Index, i: nat,
      written: seq<Info>) {
    && i <= |rs| && Process(o, y, rs[i..]) == Process(o, x, rs)
    && written + Log(o, y, rs[i..]) == log + Log(o, x, rs)
  }

  lemma HandledStep(o: Oracle, x: Index, rs: seq<Registration>, log: seq<Info>, y: Index, i: nat, written: seq<Info>)
    requires Handled(o, x, rs, log, y, i, written) && i < |rs|
    ensures match Verify(o, y, rs[i])
      case Fatal => Process(o, x, rs).None? && written == log + Log(o, x, rs)
      case Rejected => Handled(o, x, rs, log, y, i + 1, written)
      case Accepted(info) => Handled(o, x, rs, log, Add(y, info), i + 1, written + [info])
  {
    assert rs[i..][1..] == rs[i + 1..];
    assert written + [] == written;
  }

  lemma HandledAll(o: Oracle, x: Index, rs: seq<Registration>, log: seq<Info>, y: Index, written: seq<Info>)
    requires Handled(o, x, rs, log, y, |rs|, written)
    ensures Process(o, x, rs) == Some(y) && written == log + Log(o, x, rs)
  {
    assert written + [] == written;
  }

  /** Of the entries in the stack, the snapshot has those whose destinations have not been stored since. */
  ghost predicate Marked(snapshot: seq<RoutingEntry>, stored: set<Address>, f: RoutingEntry) {
    f in snapshot <==> f.destination !in stored
  }

  ghost predicate AllMarked(snapshot: seq<RoutingEntry>, stored: set<Address>, es: seq<RoutingEntry>) {
    forall f {:trigger Marked(snapshot, stored, f)} :: f in es ==> Marked(snapshot, stored, f)
  }

  ghost predicate RegisteredIn(t: Table, x: Index, e: Entry) {
    e in t ==> e.dest in x.infos
  }

  /** Every destination of the table is registered. */
  ghost predicate AllRegistered(t: Table, x: Index) {
    forall e {:trigger RegisteredIn(t, x, e)} :: RegisteredIn(t, x, e)
  }

  lemma SameRegistered(t: Table, x: Index, y: Index)
    requires AllRegistered(t, x) && SameIndex(y, x)
    ensures AllRegistered(t, y)
  {
    forall e ensures RegisteredIn(t, y, e) {
      assert RegisteredIn(t, x, e);
    }
  }

  /** The stack after an entry was offered to it. */
  ghost predicate Settled(was: seq<RoutingEntry>, es: seq<RoutingEntry>, entry: RoutingEntry, stored: bool) {
    if stored then OnTop(was, es, entry) else es == was
  }

  class DB {
    var height: uint64
    const trie: AddressTrie
    var keyToNode: map<Key, Node>
    const stack: RoutingStack
    var localAddress: Address
    /** The contents of the address file. */
    var addressFile: Bytes

    /** The two address indexes as values. */
    ghost var index: Index
    /** The entries at the leaves as a value. */
    ghost var entries: map<Bits, RoutingEntry?>

    ghost predicate Valid()
      reads this, trie, trie.at.Values, trie.leaves.Values, stack
    {
      Indexed() && Routed()
    }

    /** The trie and the index by key say what the indexes say. */
    ghost predicate Indexed()
      reads this, trie, trie.at.Values
    {
      && trie.Valid() && LeavesHold(trie.leaves, index.infos)
      && KeysLead(keyToNode, trie.at, index.addrOf) && Placed(index)
    }

    /** The leaves and the stack agree on the routing entries. */
    ghost predicate Routed()
      reads this, trie, trie.leaves.Values, stack
    {
      EntriesAt(trie.leaves, entries) && Stacked(entries, stack.elems)
    }

    ghost function Table(): Table
      reads stack, stack.elems
    {
      Views(stack.elems)
    }

    /** What routing decisions depend on, with the given channels. */
    ghost function ViewOf(channels: seq<Channel>): View
      reads this
    {
      View(localAddress, index.addrOf, channels, height)
    }

    constructor ()
      ensures Valid() && fresh(trie) && fresh(trie.at.Values) && trie.leaves == map[] && fresh(stack)
      ensures index == EMPTY && Table() == [] && height == 0 && localAddress == [0, 0, 0, 0]
      ensures addressFile == AddressFile(0, []) && addressFile == WriteHeight([], 0)
    {
      height, keyToNode, localAddress := 0, map[], [0, 0, 0, 0];
      trie := new AddressTrie();
      stack := new RoutingStack();
      addressFile := WriteHeight([], 0);
      index, entries := EMPTY, map[];
    }

    lemma DistinctTable()
      requires NoDuplicates(stack.elems)
      ensures Distinct(Table())
    {
    }

    lemma SameKeySet()
      requires LeavesHold(trie.leaves, index.infos)
      ensures Keys(index) == trie.leaves.Keys
    {
      forall p: Bits ensures p in Keys(index) <==> p in trie.leaves {
        Inverses(AddressOf(p), p);
        assert Holds(trie.leaves, index.infos, AddressOf(p));
      }
    }

    /** The node has learnt its own address. */
    method SaveLocalAddress(address: Address)
      requires Valid()
      modifies this`localAddress
      ensures Valid() && localAddress == address
    {
      localAddress := address;
    }

    // ---- the address indexes ----

    /** The routing address of a key, if it is registered. */
    method GetNodeAddress(pubkey: Key) returns (address: Address, found: bool)
      requires Valid()
      ensures found <==> pubkey in index.addrOf
      ensures address == if pubkey in index.addrOf then index.addrOf[pubkey] else [0, 0, 0, 0]
    {
      assert Leads(keyToNode, trie.at, index.addrOf, pubkey);
      if pubkey !in keyToNode {
        return [0, 0, 0, 0], false;
      }
      assert KeyPlaced(index, pubkey) && InfoPlaced(index, index.addrOf[pubkey]);
      assert Holds(trie.leaves, index.infos, index.addrOf[pubkey]);
      trie.LeafIff(BitsOf(index.addrOf[pubkey]));
      return keyToNode[pubkey].data.info.address, true;
    }

    /** The key registered at an address, the zero key when there is none. */
    method GetAddressNode(address: Address) returns (key: Key)
      requires Valid()
      ensures key == if address in index.infos then index.infos[address].nodePubKey else seq(33, _ => 0)
    {
      var n := trie.Descend(address);
      assert Holds(trie.leaves, index.infos, address);
      if n == null {
        return seq(33, _ => 0);
      }
      return n.data.info.nodePubKey;
    }

    /** Put a leaf for an address. */
    method PutLeaf(i: Info) returns (leaf: Node)
      requires Indexed() && EntriesAt(trie.leaves, entries)
      modifies trie, trie.at.Values
      ensures trie.Valid() && LeavesHold(trie.leaves, index.infos[i.address := i])
      ensures KeysLead(keyToNode[i.nodePubKey := leaf], trie.at, index.addrOf[i.nodePubKey := i.address])
      ensures EntriesAt(trie.leaves, entries[BitsOf(i.address) := null])
      ensures fresh(trie.at.Values - old(trie.at.Values)) && fresh(trie.leaves.Values - old(trie.leaves.Values))
    {
      var info := new AddressInfo(i);
      ghost var leaves, at := trie.leaves, trie.at;
      leaf := trie.Add(info);
      LeavesHoldAdd(leaves, index.infos, info);
      KeysLeadAdd(keyToNode, at, trie.at, index.addrOf, i.nodePubKey, i.address);
      EntriesAtAdd(leaves, entries, BitsOf(i.address), info);
    }

    /** Put a leaf for an address and bring the indexes up to it. */
    method IndexLeaf(i: Info)
      requires Indexed() && EntriesAt(trie.leaves, entries)
      modifies this`keyToNode, this`index, trie, trie.at.Values
      ensures Indexed() && index == Add(old(index), i)
      ensures EntriesAt(trie.leaves, entries[BitsOf(i.address) := null])
      ensures fresh(trie.at.Values - old(trie.at.Values)) && fresh(trie.leaves.Values - old(trie.leaves.Values))
    {
      var leaf := PutLeaf(i);
      AddPlaced(index, i);
      keyToNode := keyToNode[i.nodePubKey := leaf];
      index := Add(index, i);
    }

    /** Load an address. What is there for it is replaced, its routing entry included: the leaves and the stack still
        agree exactly if it had none. */
    method AddAddressToDB(i: Info)
      requires Valid()
      modifies this`keyToNode, this`index, this`entries, trie, trie.at.Values
      ensures Indexed() && index == Add(old(index), i)
      ensures i.nodePubKey in index.addrOf && index.addrOf[i.nodePubKey] == i.address
      ensures i.address in index.infos && index.infos[i.address] == i
      ensures Valid() <==> Lookup(old(Table()), i.address).None?
      ensures fresh(trie.at.Values - old(trie.at.Values)) && fresh(trie.leaves.Values - old(trie.leaves.Values))
    {
      NoEntryIff(i.address);
      IndexLeaf(i);
      StackedAddIff(entries, stack.elems, BitsOf(i.address));
      entries := entries[BitsOf(i.address) := null];
    }

    /** The stack has an entry for `d` exactly if the leaf of `d` has one. */
    lemma NoEntryIff(d: Address)
      requires Routed()
      ensures Lookup(Table(), d).None? <==> BitsOf(d) !in entries || entries[BitsOf(d)] == null
    {
      assert HasEntry(trie.leaves, entries, BitsOf(d));
      if BitsOf(d) in trie.leaves {
        EntryAt(d);
      } else {
        forall f | f in stack.elems ensures f.destination != d {
          assert AtLeaf(entries, f);
        }
        LookupAbsent(Table(), d);
      }
    }

    // ---- routing entries ----

    /** The entry for a registered destination, if there is one. */
    method GetRoutingEntry(destination: Address) returns (e: RoutingEntry?)
      requires Valid() && destination in index.infos
      ensures e == null <==> Lookup(Table(), destination).None?
      ensures e != null ==> e in stack.elems && e.destination == destination && Lookup(Table(), destination) == Some(e.View())
    {
      assert Holds(trie.leaves, index.infos, destination);
      var n := trie.Descend(destination);
      e := n.data.routingEntry;
      EntryAt(destination);
    }

    lemma EntryAt(d: Address)
      requires Routed() && BitsOf(d) in trie.leaves
      ensures var e := trie.leaves[BitsOf(d)].routingEntry;
        && (e == null ==> (forall f :: f in stack.elems ==> f.destination != d) && Lookup(Table(), d) == None)
        && (e != null ==> e in stack.elems && e.destination == d && Lookup(Table(), d) == Some(e.View()))
    {
      var e := trie.leaves[BitsOf(d)].routingEntry;
      assert HasEntry(trie.leaves, entries, BitsOf(d));
      assert InStack(entries, stack.elems, BitsOf(d));
      if e != null {
        SamePath(e.destination, d);
        var i :| 0 <= i < |stack.elems| && stack.elems[i] == e;
        DistinctTable();
        assert Table()[i] == e.View();
        LookupUnique(Table(), e.View());
      } else {
        forall f | f in stack.elems ensures f.destination != d {
          assert AtLeaf(entries, f);
        }
        LookupAbsent(Table(), d);
      }
    }

    /** Take the entry for `d` out of the stack, if its leaf has one. */
    method TakeOut(info: AddressInfo, ghost d: Address)
      requires Routed() && BitsOf(d) in trie.leaves && info == trie.leaves[BitsOf(d)]
      modifies stack
      ensures Table() == Without(old(Table()), d) && Dropped(old(stack.elems), stack.elems, d)
    {
      EntryAt(d);
      if info.routingEntry != null {
        ghost var es := stack.elems;
        ghost var i := stack.Remove(info.routingEntry);
        RemovedDrops(es, stack.elems, i);
        RemovedViews(es, stack.elems, i);
      } else {
        WithoutAbsent(Table(), d);
      }
    }

    static lemma RemovedDrops(es: seq<RoutingEntry>, rest: seq<RoutingEntry>, i: nat)
      requires NoDuplicates(es) && i < |es| && rest == es[..i] + es[i + 1..]
      ensures Dropped(es, rest, es[i].destination)
    {
      forall f | f in es && f.destination != es[i].destination ensures f in rest {
        var j :| 0 <= j < |es| && es[j] == f;
        assert rest[if j < i then j else j - 1] == f;
      }
    }

    static lemma RemovedViews(es: seq<RoutingEntry>, rest: seq<RoutingEntry>, i: nat)
      requires NoDuplicates(es) && i < |es| && rest == es[..i] + es[i + 1..]
      ensures Views(rest) == Without(Views(es), es[i].destination)
    {
      assert Views(rest) == Views(es)[..i] + Views(es)[i + 1..];
      WithoutOne(Views(es), i);
    }

    /** Replace the entry at a leaf and in the stack. */
    method ReplaceEntry(info: AddressInfo, entry: RoutingEntry, ghost bits: Bits)
      requires trie.Valid() && Routed()
      requires bits == BitsOf(entry.destination) && bits in trie.leaves && info == trie.leaves[bits]
      modifies stack, this`entries, info
      ensures Routed()
      ensures Table() == Store(old(Table()), entry.View()) && OnTop(old(stack.elems), stack.elems, entry)
    {
      ghost var es := stack.elems;
      assert HasEntry(trie.leaves, entries, bits);
      TakeOut(info, entry.destination);
      StackedReplaced(entries, es, stack.elems, entry);
      ghost var rest := Table();
      SetEntry(info, entry, bits);
      assert Table() == rest;
      stack.Put(entry);
    }

    /** Load an entry, replacing the one for its destination if there is one. */
    method AddRoutingEntryToDB(entry: RoutingEntry)
      requires Valid() && entry.destination in index.infos
      modifies stack, this`entries, trie.leaves.Values
      ensures Valid() && Table() == Store(old(Table()), entry.View()) && OnTop(old(stack.elems), stack.elems, entry)
    {
      assert Holds(trie.leaves, index.infos, entry.destination);
      var n := trie.Descend(entry.destination);
      ReplaceEntry(n.data, entry, BitsOf(entry.destination));
    }

    /** Set the entry at the leaf at `bits`, and at no other leaf. */
    method SetEntry(info: AddressInfo, entry: RoutingEntry, ghost bits: Bits)
      requires trie.Valid() && EntriesAt(trie.leaves, entries) && bits in trie.leaves && info == trie.leaves[bits]
      modifies info, this`entries
      ensures EntriesAt(trie.leaves, entries) && entries == old(entries)[bits := entry]
    {
      info.routingEntry := entry;
      entries := entries[bits := entry];
      forall q ensures HasEntry(trie.leaves, entries, q) {
        assert old(HasEntry(trie.leaves, entries, q));
        assert q in trie.leaves ==> trie.AtOwnPath(q) && trie.AtOwnPath(bits);
      }
    }

    /** Store an entry unless what is known of its destination is strictly better. */
    method StoreUnlessWorse(entry: RoutingEntry)
      requires Valid() && entry.destination in index.infos
      modifies stack, this`entries, trie.leaves.Values
      ensures Valid()
      ensures Table() == if NoWorse(old(Table()), entry.View()) then Store(old(Table()), entry.View()) else old(Table())
      ensures Settled(old(stack.elems), stack.elems, entry, NoWorse(old(Table()), entry.View()))
    {
      var current := GetRoutingEntry(entry.destination);
      if current != null && entry.capacity < current.capacity {
        return;
      }
      AddRoutingEntryToDB(entry);
    }

    /** The entry for `d` through a peer, limited by the channels to the peer. */
    method NewEntry(d: Destination, neighbour: Key, channels: seq<Channel>) returns (entry: RoutingEntry)
      requires Valid()
      ensures fresh(entry)
      ensures entry.View() == Entry(d.address, HopAddress(ViewOf(channels), neighbour), Capped(channels, neighbour, d.capacity), height)
    {
      var peerAddress, _ := GetNodeAddress(neighbour);
      var capacity := LimitToChannels(channels, neighbour, d.capacity);
      entry := new RoutingEntry(Entry(d.address, peerAddress, capacity, height));
    }

    /** A peer says it can reach `d`: store the offer, limited by the channels to the peer, unless what
        is known is strictly better or the destination is the local node. */
    method AddNewDestinationToDB(d: Destination, neighbour: Key,
        channels: seq<Channel>) returns (ghost entry: RoutingEntry?)
      requires Valid() && (d.address != localAddress ==> d.address in index.infos)
      modifies stack, this`entries, trie.leaves.Values
      ensures Valid() && Table() == Offer(ViewOf(channels), old(Table()), neighbour, d)
      ensures d.address == localAddress ==> stack.elems == old(stack.elems)
      ensures d.address != localAddress ==>
        && entry != null && fresh(entry) && entry.destination == d.address
        && Settled(old(stack.elems), stack.elems, entry, Stores(ViewOf(channels), old(Table()), neighbour, d))
      ensures d.address != localAddress ==>
        && entry.capacity == Capped(channels, neighbour, d.capacity) && entry.height == height
        && entry.nextHop == (if neighbour in index.addrOf then index.addrOf[neighbour] else [0, 0, 0, 0])
    {
      if d.address == localAddress {
        return null;
      }
      var newEntry := NewEntry(d, neighbour, channels);
      OfferIsStore(ViewOf(channels), Table(), neighbour, d, newEntry.View());
      StoreUnlessWorse(newEntry);
      entry := newEntry;
    }

    /** Limit a capacity by every channel to a peer. */
    static method LimitToChannels(channels: seq<Channel>, peer: Key, cap: int64) returns (r: int64)
      ensures r == Capped(channels, peer, cap)
    {
      r := cap;
      for i := 0 to |channels|
        invariant r == Capped(channels[..i], peer, cap)
      {
        assert channels[..i + 1][..i] == channels[..i];
        if channels[i].remote == peer && channels[i].balance < r {
          r := channels[i].balance;
        }
      }
      assert channels[..|channels|] == channels;
    }

    // ---- the balance pass ----

    /** Lower the given entries that go through `hop`. */
    static method LowerEntries(es: seq<RoutingEntry>, hop: Address, balance: int64)
      modifies es
      ensures forall e :: e in es ==> e.View() == LowerEntry(old(e.View()), hop, balance)
    {
      for i := 0 to |es|
        invariant forall e :: e in es[..i] ==> e.View() == LowerEntry(old(e.View()), hop, balance)
        invariant forall e :: e in es && e !in es[..i] ==> e.capacity == old(e.capacity)
      {
        var e := es[i];
        assert es[..i + 1] == es[..i] + [e];
        if e.nextHop == hop && e.capacity > balance {
          e.capacity := balance;
        }
      }
    }

    /** Lowering the snapshot lowers the entries that have not been stored since. */
    method LowerTable(snapshot: seq<RoutingEntry>, hop: Address, balance: int64, ghost stored: set<Address>)
      requires AllMarked(snapshot, stored, stack.elems)
      modifies snapshot
      ensures Table() == LowerOld(old(Table()), stored, hop, balance)
    {
      LowerEntries(snapshot, hop, balance);
      forall i | 0 <= i < |stack.elems|
        ensures Table()[i] == if old(Table())[i].dest in stored then old(Table())[i] else LowerEntry(old(Table())[i], hop, balance)
      {
        assert Marked(snapshot, stored, stack.elems[i]);
      }
    }

    /** Offer the neighbour itself at the balance of a channel, limited by the channels as they are read again. */
    method OfferOwn(hop: Address, ch: Channel, again: seq<Channel>, ghost snapshot: seq<RoutingEntry>,
        ghost stored: set<Address>)
        returns (ghost storedNow: set<Address>)
      requires Valid() && hop in index.infos && AllMarked(snapshot, stored, stack.elems)
      modifies stack, this`entries, trie.leaves.Values
      ensures Valid() && Table() == Offer(ViewOf(again), old(Table()), ch.remote, Destination(hop, ch.balance))
      ensures storedNow == if Stores(ViewOf(again), old(Table()), ch.remote, Destination(hop, ch.balance)) then stored + {hop} else stored
      ensures AllMarked(snapshot, storedNow, stack.elems)
    {
      ghost var t, es := Table(), stack.elems;
      ghost var entry := AddNewDestinationToDB(Destination(hop, ch.balance), ch.remote, again);
      storedNow := if Stores(ViewOf(again), t, ch.remote, Destination(hop, ch.balance)) then stored + {hop} else stored;
      if Stores(ViewOf(again), t, ch.remote, Destination(hop, ch.balance)) {
        MarkedOnTop(snapshot, stored, hop, es, stack.elems, entry);
      }
    }

    static lemma MarkedOnTop(snapshot: seq<RoutingEntry>, stored: set<Address>, hop: Address, was: seq<RoutingEntry>,
        es: seq<RoutingEntry>, entry: RoutingEntry)
      requires AllMarked(snapshot, stored, was) && NoDuplicates(es)
      requires entry !in snapshot && entry.destination == hop && OnTop(was, es, entry)
      ensures AllMarked(snapshot, stored + {hop}, es)
    {
      forall f | f in es ensures Marked(snapshot, stored + {hop}, f) {
        var i :| 0 <= i < |es| && es[i] == f;
        assert i > 0 ==> f.destination != hop && Marked(snapshot, stored, f);
      }
    }

    /** In the middle of a pass: the table so far, and which entries of the snapshot are still in it. */
    ghost predicate Passing(snapshot: seq<RoutingEntry>, v: View, p: Pass)
      reads this, trie, trie.at.Values, trie.leaves.Values, stack, stack.elems
    {
      Valid() && v == ViewOf(v.channels) && Table() == p.table && AllMarked(snapshot, p.stored, stack.elems)
    }

    method LowerPassing(snapshot: seq<RoutingEntry>, hop: Address, balance: int64, ghost v: View, ghost p: Pass)
      requires Passing(snapshot, v, p)
      modifies snapshot
      ensures Passing(snapshot, v, LowerPass(p, hop, balance))
    {
      LowerTable(snapshot, hop, balance, p.stored);
    }

    method OfferPassing(hop: Address, ch: Channel, again: seq<Channel>, ghost snapshot: seq<RoutingEntry>,
        ghost v: View, ghost p: Pass)
      requires Passing(snapshot, v, p) && hop in index.infos
      modifies stack, this`entries, trie.leaves.Values
      ensures Passing(snapshot, v, OfferPass(v.(channels := again), p, ch.remote, Destination(hop, ch.balance)))
    {
      ghost var stored := OfferOwn(hop, ch, again, snapshot, p.stored);
    }

    /** One channel of the pass. */
    method SyncChannelEntries(snapshot: seq<RoutingEntry>, ch: Channel, again: seq<Channel>, ghost v: View,
        ghost p: Pass)
      requires Passing(snapshot, v, p)
      modifies snapshot, stack, this`entries, trie.leaves.Values
      ensures Passing(snapshot, v, PassStep(v, p, ch, again))
    {
      var neighbourAddress, registered := GetNodeAddress(ch.remote);
      if registered {
        assert KeyPlaced(index, ch.remote);
        LowerPassing(snapshot, neighbourAddress, ch.balance, v, p);
        OfferPassing(neighbourAddress, ch, again, snapshot, v, LowerPass(p, neighbourAddress, ch.balance));
      }
    }

    /** One pass of the balance synchronisation. The channels are listed once, and read again for each offer. */
    method SynchronizeRoutingDB(channels: seq<Channel>, again: Readings)
      requires Valid()
      modifies stack, stack.elems, this`entries, trie.leaves.Values
      ensures Valid() && Table() == RereadPass(ViewOf(channels), old(Table()), again)
    {
      var routingEntries := stack.PeekFromBlock(0);
      PeekAll(Table());
      assert routingEntries == stack.elems;
      ghost var ps := SyncChannels(routingEntries, channels, again, ViewOf(channels), Table());
      TraceIsPass(ViewOf(channels), old(Table()), again, ps, |channels|);
    }

    method SyncChannels(snapshot: seq<RoutingEntry>, channels: seq<Channel>, again: Readings, ghost v: View,
        ghost t: Table)
        returns (ghost ps: seq<Pass>)
      requires v.channels == channels && Passing(snapshot, v, Pass(t, {}))
      modifies snapshot, stack, this`entries, trie.leaves.Values
      ensures |ps| == |channels| + 1 && ps[0] == Pass(t, {}) && PassTrace(v, again, ps)
      ensures Passing(snapshot, v, ps[|channels|])
    {
      ps := [Pass(t, {})];
      for n := 0 to |channels|
        invariant |ps| == n + 1 && ps[0] == Pass(t, {}) && PassTrace(v, again, ps)
        invariant Passing(snapshot, v, ps[n])
      {
        SyncChannelEntries(snapshot, channels[n], again(n), v, ps[n]);
        ghost var q := NthStep(v, again, ps[n], n);
        TraceSnoc(v, again, ps, q);
        ps := ps + [q];
      }
    }

    /** While the channels stay as they are, and the indexes agree, it is the plain pass. */
    lemma UnchangedPass(channels: seq<Channel>, again: Readings)
      requires Agree(index) && forall i: nat :: again(i) == channels
      ensures RereadPass(ViewOf(channels), Table(), again) == SyncPass(ViewOf(channels), Table())
    {
      var v := ViewOf(channels);
      forall k, l | k in v.addrOf && l in v.addrOf && v.addrOf[k] == v.addrOf[l] ensures k == l {
        AgreeInjective(index, k, l);
      }
      RereadIsSync(v, Table(), again);
    }

    // ---- messages ----

    /** Answer a table request; none when it is malformed. */
    method ProcessTableRequest(request: Bytes) returns (response: Option<Bytes>)
      ensures response == match ParseTableRequest(request)
                          case None => None
                          case Some(from) => Some(TableResponse(Peek(Table(), from)))
    {
      match ParseTableRequest(request)
      case None => response := None;
      case Some(from) =>
        var es := stack.PeekFromBlock(from);
        var bs := AppendDestinations(Header(TABLE_RESPONSE, |es|), es);
        response := Some(bs);
    }

    static method AppendDestinations(header: Bytes, es: seq<RoutingEntry>) returns (response: Bytes)
      ensures response == header + Concat(Destinations(Views(es)))
    {
      response := header;
      ghost var ds := Destinations(Views(es));
      for n := 0 to |es|
        invariant response == header + Concat(ds[..n])
      {
        response := response + SerializeDestination(Destination(es[n].destination, es[n].capacity));
        assert ds[..n + 1][..n] == ds[..n];
      }
      assert ds[..|es|] == ds;
    }

    /** Offer the entries of a response one by one, up to the first that runs off its end. The channels are read
        again for each. */
    method ProcessTableResponse(response: Bytes, peer: Key, again: Readings) returns (outcome: Outcome)
      requires Valid() && (ReadTableResponse(response).Entries? ==> Known(index, localAddress, ReadTableResponse(response).dests))
      modifies stack, this`entries, trie.leaves.Values
      ensures Valid()
      ensures match ReadTableResponse(response)
        case Malformed => outcome == Ignored && Table() == old(Table())
        case Entries(ds, complete) =>
          && outcome == (if complete then Processed else Overran)
          && Table() == OffersEach(ViewOf([]), old(Table()), peer, ds, again)
    {
      if |response| < 4 || GetBE16(response[..2]) != TABLE_RESPONSE {
        return Ignored;
      }
      var body, count: nat := response[4..], GetBE16(response[2..4]);
      ghost var ds := ReadBody(body, count).dests;
      BodyLists(body, count);
      var complete := OfferEntries(body, count, peer, again, ds);
      outcome := if complete then Processed else Overran;
    }

    /** Offer the entries of a body in order, which are `ds`. */
    method OfferEntries(body: Bytes, count: nat, peer: Key, again: Readings,
        ghost ds: seq<Destination>) returns (complete: bool)
      requires Valid() && Known(index, localAddress, ds) && Lists(body, ds)
      requires |ds| <= count && (|ds| < count ==> DESTINATION_SIZE * (|ds| + 1) > |body|)
      modifies stack, this`entries, trie.leaves.Values
      ensures Valid() && complete == (|ds| == count)
      ensures Table() == OffersEach(ViewOf([]), old(Table()), peer, ds, again)
    {
      ghost var v, t := ViewOf([]), Table();
      for n := 0 to count
        invariant Valid() && n <= |ds| && Table() == OffersEach(v, t, peer, ds[..n], again)
      {
        if DESTINATION_SIZE * (n + 1) > |body| {
          assert ds[..|ds|] == ds;
          return false;
        }
        OfferNext(body, n, peer, again, ds, v, t);
      }
      assert ds[..|ds|] == ds;
      return true;
    }

    /** Offer entry `n`, those before having been offered to `t`. */
    method OfferNext(body: Bytes, n: nat, peer: Key, again: Readings, ghost ds: seq<Destination>,
        ghost v: View, ghost t: Table)
      requires Valid() && Known(index, localAddress, ds) && Lists(body, ds) && n < |ds|
      requires v == ViewOf([]) && Table() == OffersEach(v, t, peer, ds[..n], again)
      modifies stack, this`entries, trie.leaves.Values
      ensures Valid() && Table() == OffersEach(v, t, peer, ds[..n + 1], again)
    {
      var d := ReadEntryOf(body, n, ds);
      assert ds[..n + 1][..n] == ds[..n] && d in ds;
      ghost var _ := AddNewDestinationToDB(d, peer, again(n));
    }

    static method ReadEntryOf(body: Bytes, n: nat, ghost ds: seq<Destination>) returns (d: Destination)
      requires Lists(body, ds) && n < |ds|
      ensures d == ds[n]
    {
      assert IsEntry(body, ds, n);
      d := EntryOf(body, n);
    }

    // ---- probes ----

    /** The key at each registered address. */
    ghost function KeyAt(): map<Address, Key>
      reads this
    {
      map a | a in index.infos :: index.infos[a].nodePubKey
    }

    /** The key of the next hop to `d`, the zero key without an entry or a key. */
    ghost function NextKey(d: Address): Key
      reads this, stack, stack.elems
    {
      match Lookup(Table(), d)
      case None => seq(33, _ => 0)
      case Some(e) => KeyOf(KeyAt(), e.nextHop)
    }

    /** Add the next hop to a probe; none when there is no entry for its destination. */
    method AddHopToRoute(route: Route, channels: seq<Channel>) returns (r: Option<Route>)
      requires Valid() && route.destination in index.infos
      ensures r == AddHop(Table(), KeyAt(), channels, route)
      ensures r.None? <==> Lookup(Table(), route.destination).None?
      ensures forall i: nat :: r.Some? && route.hops == [] && LastListed(channels, NextKey(route.destination), i) ==>
        r.value.capacity == channels[i].balance
    {
      var entry := GetRoutingEntry(route.destination);
      if entry == null {
        return None;
      }
      var hopPubKey := GetAddressNode(entry.nextHop);
      var capacity := CollectChannels(channels, hopPubKey, route.hops == [], route.capacity);
      r := Some(route.(capacity := capacity, hops := route.hops + [entry.nextHop]));
    }

    static lemma CollectedIs(channels: seq<Channel>, hop: Key, first: bool, cap: int64)
      ensures forall i: nat :: first && LastListed(channels, hop, i) ==> Collected(channels, hop, first, cap) == channels[i].balance
      ensures (forall i :: 0 <= i < |channels| ==> channels[i].remote != hop) ==> Collected(channels, hop, first, cap) == cap
      ensures !first ==> Collected(channels, hop, first, cap) == Capped(channels, hop, cap)
    {
      forall i: nat | first && LastListed(channels, hop, i) ensures Collected(channels, hop, first, cap) == channels[i].balance {
        CollectedFirst(channels, hop, cap, i);
      }
      if forall i :: 0 <= i < |channels| ==> channels[i].remote != hop {
        CollectedNone(channels, hop, first, cap);
      }
      if !first {
        CollectedIsCapped(channels, hop, cap);
      }
    }

    static method CollectChannels(channels: seq<Channel>, hop: Key, first: bool, cap: int64) returns (r: int64)
      ensures r == Collected(channels, hop, first, cap)
      ensures forall i: nat :: first && LastListed(channels, hop, i) ==> r == channels[i].balance
      ensures (forall i :: 0 <= i < |channels| ==> channels[i].remote != hop) ==> r == cap
      ensures !first ==> r == Capped(channels, hop, cap)
    {
      r := cap;
      for i := 0 to |channels|
        invariant r == Collected(channels[..i], hop, first, cap)
      {
        assert channels[..i + 1][..i] == channels[..i];
        if channels[i].remote == hop && (first || channels[i].balance < r) {
          r := channels[i].balance;
        }
      }
      assert channels[..|channels|] == channels;
      CollectedIs(channels, hop, first, cap);
    }

    // ---- registrations ----

    /** Decide about a registration. */
    method VerifyAddressRegistration(o: Oracle, r: Registration) returns (v: Verdict)
      requires Valid()
      ensures v == Verify(o, index, r)
      ensures v.Fatal? <==> Unanswered(o, index, r)
    {
      FatalIff(o, index, r);
      var signer := o.signer(r.address, r.sig);
      if signer.None? {
        return Rejected;
      }
      assert Holds(trie.leaves, index.infos, r.address);
      var registered := trie.IsAddressRegistered(r.address);
      if registered {
        return Rejected;
      }
      var consulted := ConsultNeighbours(o.neighbours(signer.value), r.address);
      match consulted
      case None => v := Fatal;
      case Some((any, suggested)) =>
        v := if any && !suggested then Rejected else Accepted(Info(r.address, signer.value, r.height, r.txID, r.version));
    }

    method ConsultNeighbours(ns: seq<Key>, a: Address) returns (r: Option<(bool, bool)>)
      requires Valid()
      ensures r == Consult(index, ns, a)
    {
      var any, suggested := false, false;
      for i := 0 to |ns|
        invariant Consult(index, ns[..i], a) == Some((any, suggested))
      {
        assert ns[..i + 1][..i] == ns[..i];
        var neighbourAddress, registered := GetNodeAddress(ns[i]);
        if registered {
          var s := SuggestTo(ns[i], neighbourAddress);
          if s.None? {
            ConsultFails(index, ns, i + 1, a);
            return None;
          }
          any, suggested := true, suggested || s.value == a;
        }
      }
      assert ns[..|ns|] == ns;
      r := Some((any, suggested));
    }

    /** The suggestion for a new neighbour of the node with a registered key. */
    method SuggestTo(key: Key, address: Address) returns (r: Option<Address>)
      requires Valid() && key in index.addrOf && index.addrOf[key] == address
      ensures r == Suggested(index, address)
    {
      assert KeyPlaced(index, key) && Holds(trie.leaves, index.infos, address);
      SameKeySet();
      r := trie.SuggestAddress(address);
    }

    /** Handle registrations in order; false once one of them stops the program. */
    method ProcessRegistrations(o: Oracle, rs: seq<Registration>, ghost log: seq<Info>) returns (ok: bool)
      requires Valid() && addressFile == AddressFile(height, log)
      modifies this`keyToNode, this`index, this`entries, this`addressFile, trie, trie.at.Values
      ensures Valid() && fresh(trie.at.Values - old(trie.at.Values))
      ensures ok <==> Process(o, old(index), rs).Some?
      ensures ok ==> index == Process(o, old(index), rs).value
      ensures addressFile == AddressFile(height, log + Log(o, old(index), rs))
    {
      ghost var x, written := index, log;
      assert rs[0..] == rs;
      for i := 0 to |rs|
        invariant Valid() && fresh(trie.at.Values - old(trie.at.Values))
        invariant Handled(o, x, rs, log, index, i, written) && addressFile == AddressFile(height, written)
      {
        ok, written := ProcessNext(o, rs, i, x, log, written);
        if !ok {
          return;
        }
      }
      HandledAll(o, x, rs, log, index, written);
      ok := true;
    }

    /** Handle registration `i`, those before having been handled starting from `x`. */
    method ProcessNext(o: Oracle, rs: seq<Registration>, i: nat, ghost x: Index, ghost log: seq<Info>,
        ghost written: seq<Info>)
        returns (ok: bool, ghost now: seq<Info>)
      requires Valid() && i < |rs| && Handled(o, x, rs, log, index, i, written) && addressFile == AddressFile(height, written)
      modifies this`keyToNode, this`index, this`entries, this`addressFile, trie, trie.at.Values
      ensures Valid() && fresh(trie.at.Values - old(trie.at.Values)) && addressFile == AddressFile(height, now)
      ensures ok ==> Handled(o, x, rs, log, index, i + 1, now)
      ensures !ok ==> Process(o, x, rs).None? && now == log + Log(o, x, rs)
    {
      HandledStep(o, x, rs, log, index, i, written);
      var v := ProcessRegistration(o, rs[i], written);
      ok, now := !v.Fatal?, if v.Accepted? then written + [v.info] else written;
    }

    /** Handle one registration: an accepted one goes into the indexes and onto the file. */
    method ProcessRegistration(o: Oracle, r: Registration, ghost log: seq<Info>) returns (v: Verdict)
      requires Valid() && addressFile == AddressFile(height, log)
      modifies this`keyToNode, this`index, this`entries, this`addressFile, trie, trie.at.Values
      ensures Valid() && fresh(trie.at.Values - old(trie.at.Values))
      ensures v == Verify(o, old(index), r)
      ensures index == if v.Accepted? then Add(old(index), v.info) else old(index)
      ensures addressFile == AddressFile(height, if v.Accepted? then log + [v.info] else log)
    {
      v := VerifyAddressRegistration(o, r);
      if v.Accepted? {
        Register(v.info, log);
      }
    }

    /** An accepted registration goes into the indexes and onto the file. */
    method Register(info: Info, ghost log: seq<Info>)
      requires Valid() && addressFile == AddressFile(height, log) && info.address !in index.infos
      modifies this`keyToNode, this`index, this`entries, this`addressFile, trie, trie.at.Values
      ensures Valid() && fresh(trie.at.Values - old(trie.at.Values))
      ensures index == Add(old(index), info) && addressFile == AddressFile(height, log + [info])
    {
      AppendRecord(height, log, info);
      FreeHasNoEntry(info.address);
      AddAddressToDB(info);
      addressFile := addressFile + SerializeInfo(info);
    }

    lemma FreeHasNoEntry(d: Address)
      requires Valid() && d !in index.infos
      ensures Lookup(Table(), d).None?
    {
      assert Holds(trie.leaves, index.infos, d) && HasEntry(trie.leaves, entries, BitsOf(d));
      NoEntryIff(d);
    }

    /** The file holds `log`, no address twice, and replays to the indexes up to transaction ids and versions. */
    ghost predicate OnDisk(log: seq<Info>)
      reads this
    {
      addressFile == AddressFile(height, log) && OncePerAddress(log) && SameIndex(index, AddAll(EMPTY, log))
    }

    /** Bring the database up to the tip of the chain. When it succeeds, memory is what the specification
        says, and the file still replays to it. */
    method UpdateAddressDB(o: Oracle, c: Chain, ghost log: seq<Info>) returns (ok: bool)
      requires Valid() && OnDisk(log)
      modifies this`height, this`keyToNode, this`index, this`entries, this`addressFile, trie, trie.at.Values
      ensures Valid() && fresh(trie.at.Values - old(trie.at.Values))
      ensures Update(o, Synced(old(index), old(height)), c) == if ok then Some(Synced(index, height)) else None
      ensures var all := log + Accepts(o, Synced(old(index), old(height)), c);
        addressFile == AddressFile(height, all) && (ok ==> OnDisk(all))
      ensures !ok <==> exists n: nat :: StopsAt(o, old(index), NewRegistrations(c, old(height)), n)
      ensures !ok ==> height == old(height)
    {
      ProcessStopsIff(o, index, NewRegistrations(c, height));
      UpdateReplays(o, Synced(index, height), c, height, log);
      var rs := FindNew(c);
      ok := HandleNew(o, rs, Tip(c), log);
    }

    /** The registrations in the blocks above the current height. */
    method FindNew(c: Chain) returns (rs: seq<Registration>)
      ensures rs == NewRegistrations(c, height)
    {
      rs := [];
      if Tip(c) > height {
        rs := GetNewAddressRegistrations(c, height + 1, Tip(c));
      }
    }

    /** Handle registrations, and if none stops the program set the height. */
    method HandleNew(o: Oracle, rs: seq<Registration>, tip: uint64, ghost log: seq<Info>) returns (ok: bool)
      requires Valid() && addressFile == AddressFile(height, log)
      modifies this`height, this`keyToNode, this`index, this`entries, this`addressFile, trie, trie.at.Values
      ensures Valid() && fresh(trie.at.Values - old(trie.at.Values))
      ensures Process(o, old(index), rs) == if ok then Some(index) else None
      ensures height == if ok then tip else old(height)
      ensures addressFile == AddressFile(height, log + Log(o, old(index), rs))
    {
      ghost var all := log + Log(o, index, rs);
      ok := ProcessRegistrations(o, rs, log);
      if ok {
        UpdateBlockHeight(tip, all);
      }
    }

    /** Set the height in memory and at the start of the file. */
    method UpdateBlockHeight(blockHeight: uint64, ghost log: seq<Info>)
      requires Valid() && addressFile == AddressFile(height, log)
      modifies this`height, this`addressFile
      ensures Valid() && height == blockHeight && addressFile == AddressFile(height, log)
    {
      WriteHeightKeepsRecords(height, blockHeight, log);
      height := blockHeight;
      addressFile := WriteHeight(addressFile, blockHeight);
    }

    // ---- stopping and starting ----

    /** Write the table over the routing file. */
    method SaveRoutingDBToFile(file: Bytes) returns (r: Bytes)
      ensures r == Overwrite(file, EntryRecords(Table()))
    {
      var es := stack.PeekFromBlock(0);
      PeekAll(Table());
      r := WriteEntries(es, file);
    }

    static method WriteEntries(es: seq<RoutingEntry>, file: Bytes) returns (r: Bytes)
      ensures r == Overwrite(file, EntryRecords(Views(es)))
    {
      r := file;
      ghost var t := Views(es);
      assert t[..0] == [];
      for i := 0 to |es|
        invariant r == Overwrite(file, EntryRecords(t[..i]))
      {
        var record := SerializeEntry(es[i].View());
        EntryRecordsSnoc(t, i);
        EntryRecordsSize(t, i);
        r := OverwriteNext(r, record, ENTRY_SIZE * i, file, EntryRecords(t[..i]));
      }
      assert t[..|es|] == t;
    }

    /** Write a record at the current position. */
    static method OverwriteNext(r: Bytes, record: Bytes, position: nat, ghost file: Bytes,
        ghost done: Bytes) returns (next: Bytes)
      requires r == Overwrite(file, done) && |done| == position
      ensures next == Overwrite(file, done + record)
    {
      var end := position + |record|;
      next := r[..position] + record + if |r| <= end then [] else r[end..];
    }

    /** Load the next registration. */
    method LoadInfo(i: Info, ghost done: seq<Info>)
      requires Valid() && Table() == [] && index == AddAll(EMPTY, done)
      modifies this`keyToNode, this`index, this`entries, trie, trie.at.Values
      ensures Valid() && index == AddAll(EMPTY, done + [i])
      ensures fresh(trie.at.Values - old(trie.at.Values)) && fresh(trie.leaves.Values - old(trie.leaves.Values))
    {
      assert (done + [i])[..|done|] == done;
      AddAddressToDB(i);
    }

    /** Load the registrations in the body of an address file. */
    method ReadAddresses(body: Bytes)
      requires Valid() && index == EMPTY && Table() == []
      modifies this`keyToNode, this`index, this`entries, trie, trie.at.Values
      ensures Valid() && index == AddAll(EMPTY, Recorded(body))
      ensures fresh(trie.at.Values - old(trie.at.Values)) && fresh(trie.leaves.Values - old(trie.leaves.Values))
    {
      var rest, buffer := body, Zeros(INFO_SIZE);
      ghost var done: seq<Info> := [];
      while rest != []
        invariant Valid() && index == AddAll(EMPTY, done) && InfosLeft(body, done, rest, buffer)
        invariant fresh(trie.at.Values - old(trie.at.Values)) && fresh(trie.leaves.Values - old(trie.leaves.Values))
        decreases |rest|
      {
        var i;
        i, rest, buffer := ReadInfo(rest, buffer, body, done);
        LoadInfo(i, done);
        done := done + [i];
      }
      NoInfosLeft(body, done, buffer);
    }

    /** Start up from an address file. */
    method ReadAddressFile(file: Bytes)
      requires Valid() && index == EMPTY && height == 0 && Table() == []
      modifies this`height, this`keyToNode, this`index, this`entries, this`addressFile, trie, trie.at.Values
      ensures Valid() && fresh(trie.at.Values - old(trie.at.Values)) && fresh(trie.leaves.Values - old(trie.leaves.Values))
      ensures Synced(index, height) == Load(file) && addressFile == WriteHeight(file, height)
    {
      if file == [] {
        addressFile := WriteHeight(file, 0);
        height := 0;
        return;
      }
      height := HeightIn(file);
      addressFile := WriteHeight(file, height);
      ReadAddresses(BodyOf(file));
    }

    /** Load the next entry. */
    method LoadEntry(e: Entry, ghost done: Table)
      requires Valid() && e.dest in index.infos && Table() == StoreAll(done)
      modifies stack, this`entries, trie.leaves.Values
      ensures Valid() && Table() == StoreAll(done + [e])
    {
      assert (done + [e])[..|done|] == done;
      var entry := new RoutingEntry(e);
      AddRoutingEntryToDB(entry);
    }

    /** Load a routing file, all of whose destinations are registered. */
    method ReadRoutingFile(file: Bytes)
      requires Valid() && Table() == [] && AllRegistered(RecordedEntries(file), index)
      modifies stack, this`entries, trie.leaves.Values
      ensures Valid() && Table() == LoadTable(file)
    {
      var rest, buffer := file, Zeros(ENTRY_SIZE);
      ghost var done: Table := [];
      while rest != []
        invariant Valid() && Table() == StoreAll(done) && EntriesLeft(file, done, rest, buffer)
        decreases |rest|
      {
        var e;
        e, rest, buffer := ReadEntry(rest, buffer, file, done);
        assert RegisteredIn(RecordedEntries(file), index, e);
        LoadEntry(e, done);
        done := done + [e];
      }
      NoEntriesLeft(file, done, buffer);
    }

    /** Start from the files. */
    static method ReadDBFromDisk(addressFile: Bytes, routingFile: Bytes) returns (db: DB)
      requires AllRegistered(RecordedEntries(routingFile), Load(addressFile).index)
      ensures fresh(db) && db.Valid() && Synced(db.index, db.height) == Load(addressFile)
      ensures db.Table() == LoadTable(routingFile) && db.addressFile == WriteHeight(addressFile, db.height)
    {
      db := ReadRegistryFromDisk(addressFile);
      db.ReadRoutingFile(routingFile);
    }

    static method ReadRegistryFromDisk(addressFile: Bytes) returns (db: DB)
      ensures fresh(db) && fresh(db.stack) && fresh(db.trie.leaves.Values) && db.Valid() && db.Table() == []
      ensures Synced(db.index, db.height) == Load(addressFile) && db.addressFile == WriteHeight(addressFile, db.height)
    {
      db := new DB();
      db.ReadAddressFile(addressFile);
    }

    /** The destinations of all entries are registered. */
    lemma TableRegistered()
      requires Valid()
      ensures AllRegistered(Table(), index)
    {
      forall e ensures RegisteredIn(Table(), index, e) {
        if e in Table() {
          var i :| 0 <= i < |Table()| && Table()[i] == e;
          var f := stack.elems[i];
          assert AtLeaf(entries, f);
          assert HasEntry(trie.leaves, entries, BitsOf(f.destination)) && Holds(trie.leaves, index.infos, f.destination);
        }
      }
    }

    /** Stop, saving the table, and start again: the files of a valid database can always be read, the registry comes
        back up to transaction ids and versions, the table comes back reversed, and the file can be replayed again. */
    method Restart(routingFile: Bytes, ghost log: seq<Info>) returns (db: DB, saved: Bytes)
      requires Valid() && OnDisk(log) && |routingFile| <= ENTRY_SIZE * |Table()|
      ensures fresh(db) && db.Valid() && SameSynced(Synced(db.index, db.height), Synced(index, height))
      ensures db.Table() == Reversed(Table()) && saved == EntryRecords(Table())
      ensures db.OnDisk(log)
    {
      saved := SaveRoutingDBToFile(routingFile);
      WholeSize(Table());
      EntriesReadBack(Table());
      DistinctTable();
      LoadTableReverses(Table());
      LoadReplays(height, log);
      TableRegistered();
      SameRegistered(Table(), index, Load(addressFile).index);
      WriteHeightKeepsRecords(height, height, log);
      db := ReadDBFromDisk(addressFile, saved);
    }
  }
}
