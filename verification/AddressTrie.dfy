/** The mutable address trie: nodes linked by pointers, one level per address bit, with the
    registration info of an address at the leaf its bits lead to. */
module AddressTrie {
  import opened Types
  import opened BitAddress
  import opened Keyspace
  import opened RoutingTable
  import opened Codec

  /** A routing entry as it lives in memory; a balance pass changes its capacity in place. */
  class RoutingEntry {
    const destination: Address
    const nextHop: Address
    const height: uint64
    var capacity: int64

    constructor (e: Entry)
      ensures destination == e.dest && nextHop == e.nextHop && height == e.height && capacity == e.capacity
    {
      destination, nextHop, height, capacity := e.dest, e.nextHop, e.height, e.capacity;
    }

    function View(): Entry
      reads this
    {
      Entry(destination, nextHop, capacity, height)
    }
  }

  /** What is known about a registered address. */
  class AddressInfo {
    const info: Info
    var routingEntry: RoutingEntry?

    constructor (info: Info)
      ensures this.info == info && routingEntry == null
    {
      this.info, routingEntry := info, null;
    }
  }

  class Node {
    var data: AddressInfo?
    var left: Node?
    var right: Node?

    constructor ()
      ensures data == null && left == null && right == null
    {
      data, left, right := null, null, null;
    }

    function Child(b: bool): Node?
      reads this
    {
      if b then right else left
    }

    method CreateLeftChild() returns (child: Node)
      modifies this`left
      ensures fresh(child) && left == child
      ensures child.data == null && child.left == null && child.right == null
    {
      child := new Node();
      left := child;
    }

    method CreateRightChild() returns (child: Node)
      modifies this`right
      ensures fresh(child) && right == child
      ensures child.data == null && child.left == null && child.right == null
    {
      child := new Node();
      right := child;
    }

    method SaveData(info: AddressInfo)
      modifies this`data
      ensures data == info
    {
      data := info;
    }
  }

  class AddressTrie {
    const head: Node
    /** The node at each path from the root. */
    ghost var at: map<Path, Node>
    /** The registered addresses. */
    ghost var leaves: map<Bits, AddressInfo>

    ghost function NodeAt(p: Path): Node?
      reads this`at
    {
      if p in at then at[p] else null
    }

    /** Different paths lead to different nodes. */
    ghost predicate Apart(p: Path, q: Path)
      reads this`at
    {
      p in at && q in at && at[p] == at[q] ==> p == q
    }

    /** The child pointers of the node at `p` are the nodes one branch further. */
    ghost predicate LinkAt(p: Path, b: bool)
      reads this`at, at.Values
    {
      NodeAt(p + [b]) == if p in at then at[p].Child(b) else null
    }

    /** The pointers are exactly the paths, without sharing. */
    ghost predicate Linked()
      reads this`at, at.Values
    {
      && [] in at && at[[]] == head
      && (forall p, b {:trigger LinkAt(p, b)} :: LinkAt(p, b))
      && (forall p, q {:trigger Apart(p, q)} :: Apart(p, q))
    }

    ghost function InfoAt(p: Path): AddressInfo?
      reads this`leaves
    {
      if p in leaves then leaves[p] else null
    }

    /** The node at `p` holds the info for `p`, which exists at the last level only. */
    ghost predicate DataAt(p: Path)
      reads this`at, this`leaves, at.Values
    {
      && (p in leaves ==> p in at)
      && (p in at ==> |p| <= BITS && at[p].data == InfoAt(p))
    }

    /** Info sits at the leaves and nowhere else, and there is no level below them. */
    ghost predicate Loaded()
      reads this`at, this`leaves, at.Values
    {
      forall p {:trigger DataAt(p)} :: DataAt(p)
    }

    ghost predicate AtOwnPath(k: Bits)
      requires k in leaves
      reads this`leaves
    {
      BitsOf(leaves[k].info.address) == k
    }

    /** Each info is at the path of its own address. */
    ghost predicate Addressed()
      reads this`leaves
    {
      forall k {:trigger AtOwnPath(k)} :: k in leaves ==> AtOwnPath(k)
    }

    static ghost predicate OnTheWay(paths: set<Path>, keys: set<Bits>, p: Path) {
      p in paths && p != [] ==> Occupied(keys, p)
    }

    static ghost predicate Reached(paths: set<Path>, keys: set<Bits>, k: Bits, i: nat) {
      k in keys && i <= BITS ==> k[..i] in paths
    }

    /** Other than the root, a node exists exactly where a registered address passes. */
    static ghost predicate Minimal(paths: set<Path>, keys: set<Bits>) {
      && (forall p {:trigger OnTheWay(paths, keys, p)} :: OnTheWay(paths, keys, p))
      && (forall k, i {:trigger Reached(paths, keys, k, i)} :: Reached(paths, keys, k, i))
    }

    ghost predicate Valid()
      reads this, at.Values
    {
      Linked() && Loaded() && Addressed() && Minimal(at.Keys, leaves.Keys)
    }

    constructor ()
      ensures Valid() && leaves == map[] && fresh(at.Values)
    {
      head := new Node();
      new;
      at, leaves := map[[] := head], map[];
    }

    lemma LeafIff(k: Bits)
      requires Valid()
      ensures k in at <==> k in leaves
      ensures k in leaves ==> at[k].data == leaves[k]
    {
      assert DataAt(k);
      assert OnTheWay(at.Keys, leaves.Keys, k);
      if k in at {
        var l :| l in leaves.Keys && k <= l;
        OnlyItself(k, l);
      }
    }

    lemma NodeIff(p: Path)
      requires Valid() && |p| <= BITS && p != []
      ensures p in at <==> Occupied(leaves.Keys, p)
    {
      assert OnTheWay(at.Keys, leaves.Keys, p);
      if Occupied(leaves.Keys, p) {
        var k :| k in leaves.Keys && p <= k;
        assert Reached(at.Keys, leaves.Keys, k, |p|);
        assert k[..|p|] == p;
      }
    }

    lemma ChildrenAt(p: Path)
      requires Linked() && p in at
      ensures at[p].left == NodeAt(p + [false]) && at[p].right == NodeAt(p + [true])
    {
      assert LinkAt(p, false) && LinkAt(p, true);
    }

    /** A node has no child exactly when it is a leaf, or the root of the empty trie. */
    lemma ChildlessIff(p: Path)
      requires Valid() && p in at
      ensures |p| <= BITS
      ensures at[p].left == null && at[p].right == null <==> |p| == BITS || leaves == map[]
    {
      assert DataAt(p) && DataAt(p + [false]) && DataAt(p + [true]);
      ChildrenAt(p);
      if |p| < BITS {
        NodeIff(p + [false]);
        NodeIff(p + [true]);
        assert OnTheWay(at.Keys, leaves.Keys, p);
        if leaves != map[] {
          var k :| k in leaves.Keys && p <= k;
          Below(p, k);
        }
      }
    }

    /** The node reached from the root by the bits of an address, if there is one. */
    method Descend(address: Address) returns (n: Node?)
      requires Valid()
      ensures var k := BitsOf(address);
        && (k in leaves ==> k in at && n == at[k] && n.data == leaves[k])
        && (k !in leaves ==> n == null)
    {
      var bits := ByteToBit(address);
      LeafIff(bits);
      n := head;
      for i := 0 to BITS
        invariant bits[..i] in at && n == at[bits[..i]]
      {
        ChildrenAt(bits[..i]);
        assert bits[..i + 1] == bits[..i] + [bits[i]];
        if bits[i] {
          n := n.right;
        } else {
          n := n.left;
        }
        if n == null {
          MissingOnTheWay(bits, i + 1);
          return;
        }
      }
      assert bits[..BITS] == bits;
    }

    lemma MissingOnTheWay(k: Bits, i: nat)
      requires Valid() && i <= BITS && k[..i] !in at
      ensures k !in leaves
    {
      assert Reached(at.Keys, leaves.Keys, k, i);
    }

    method IsAddressRegistered(address: Address) returns (r: bool)
      requires Valid()
      ensures r <==> BitsOf(address) in leaves
    {
      var n := Descend(address);
      r := n != null;
    }

    /** Create the missing child of the node at `p` on side `b`. */
    method CreateChild(n: Node, b: bool, ghost p: Path) returns (child: Node)
      requires Linked() && Loaded() && |p| < BITS && p in at && n == at[p] && p + [b] !in at
      modifies n, this`at
      ensures Linked() && Loaded() && fresh(child) && at == old(at)[p + [b] := child]
    {
      ghost var was, q := at, p + [b];
      assert LinkAt(p, b) && DataAt(p) && DataAt(q);
      if b {
        child := n.CreateRightChild();
      } else {
        child := n.CreateLeftChild();
      }
      at := at[q := child];
      forall r, c ensures LinkAt(r, c) {
        SnocInjective(p, b, r, c);
        assert old(Apart(p, r) && LinkAt(r, c) && LinkAt(q, c));
      }
      forall r, c ensures Apart(r, c) {
        assert old(Apart(r, c));
      }
      forall r ensures DataAt(r) {
        assert old(DataAt(r) && Apart(p, r));
      }
    }

    static lemma SnocInjective(p: Path, b: bool, q: Path, c: bool)
      ensures p + [b] == q + [c] <==> p == q && b == c
    {
      if p + [b] == q + [c] {
        assert (p + [b])[|p|] == b && (q + [c])[|q|] == c;
        assert p == (p + [b])[..|p|] && q == (q + [c])[..|q|];
      }
    }

    /** One level of adding: step to the next node on the way, creating it if it is missing. */
    method StepOrCreate(n: Node, b: bool, ghost p: Path) returns (next: Node)
      requires Linked() && Loaded() && |p| < BITS && p in at && n == at[p]
      modifies n, this`at
      ensures Linked() && Loaded()
      ensures p + [b] in at && next == at[p + [b]]
      ensures if p + [b] in old(at) then at == old(at) else fresh(next) && at == old(at)[p + [b] := next]
    {
      ChildrenAt(p);
      var descendent := if b then n.right else n.left;
      if descendent != null {
        next := descendent;
      } else {
        next := CreateChild(n, b, p);
      }
    }

    /** All of `was` is still there, anything else is on the way to `bits`, which exists to level `i`. */
    ghost predicate GrownFrom(was: map<Path, Node>, bits: Bits, i: nat)
      requires i <= BITS
      reads this`at
    {
      && (forall p :: p in was ==> p in at && at[p] == was[p])
      && (forall p :: p in at && p !in was ==> p <= bits)
      && (forall j :: 0 <= j <= i ==> bits[..j] in at)
    }

    /** Walk down to the leaf of `bits`, creating the missing nodes. */
    method DescendCreating(bits: Bits) returns (leaf: Node)
      requires Linked() && Loaded()
      modifies at.Values, this`at
      ensures Linked() && Loaded() && GrownFrom(old(at), bits, BITS)
      ensures bits in at && leaf == at[bits]
      ensures forall p :: p in at && p !in old(at) ==> fresh(at[p])
    {
      ghost var was := at;
      leaf := head;
      for i := 0 to BITS
        invariant Linked() && Loaded() && GrownFrom(was, bits, i)
        invariant bits[..i] in at && leaf == at[bits[..i]]
        invariant forall p :: p in at && p !in was ==> fresh(at[p])
      {
        assert bits[..i + 1] == bits[..i] + [bits[i]];
        assert fresh(leaf) || leaf in was.Values;
        leaf := StepOrCreate(leaf, bits[i], bits[..i]);
      }
      assert bits[..BITS] == bits;
    }

    /** Once the way down is complete, the trie with the new address in it is minimal again. */
    lemma MinimalWith(bits: Bits, was: map<Path, Node>, keys: set<Bits>)
      requires Minimal(was.Keys, keys) && GrownFrom(was, bits, BITS)
      ensures Minimal(at.Keys, keys + {bits})
    {
      var keys' := keys + {bits};
      forall p ensures OnTheWay(at.Keys, keys', p) {
        assert OnTheWay(was.Keys, keys, p);
        if p in was && p != [] {
          var k :| k in keys && p <= k;
          assert k in keys';
        } else {
          assert bits in keys';
        }
      }
      forall k, i: nat ensures Reached(at.Keys, keys', k, i) {
        assert Reached(was.Keys, keys, k, i);
      }
    }

    method SetLeaf(leaf: Node, info: AddressInfo, ghost bits: Bits)
      requires Linked() && Loaded() && bits in at && leaf == at[bits] && bits == BitsOf(info.info.address)
      modifies leaf`data, this`leaves
      ensures Linked() && Loaded() && leaves == old(leaves)[bits := info]
    {
      leaf.SaveData(info);
      leaves := leaves[bits := info];
      forall p, b ensures LinkAt(p, b) {
        assert old(LinkAt(p, b));
      }
      forall p ensures DataAt(p) {
        assert old(DataAt(p)) && Apart(bits, p);
      }
    }

    method AddAt(bits: Bits, info: AddressInfo) returns (leaf: Node)
      requires Linked() && Loaded() && bits == BitsOf(info.info.address)
      modifies at.Values, this`at, this`leaves
      ensures Linked() && Loaded() && GrownFrom(old(at), bits, BITS)
      ensures leaves == old(leaves)[bits := info] && leaves.Keys == old(leaves.Keys) + {bits}
      ensures bits in at && leaf == at[bits]
      ensures forall p :: p in at && p !in old(at) ==> fresh(at[p])
    {
      leaf := DescendCreating(bits);
      assert fresh(leaf) || leaf in old(at).Values;
      SetLeaf(leaf, info, bits);
    }

    /** Register `info` at the leaf of its address, replacing what was there. */
    method Add(info: AddressInfo) returns (leaf: Node)
      requires Valid()
      modifies at.Values, this`at, this`leaves
      ensures Valid() && leaves == old(leaves)[BitsOf(info.info.address) := info]
      ensures BitsOf(info.info.address) in at && leaf == at[BitsOf(info.info.address)]
      ensures forall p :: p in old(at) ==> p in at && at[p] == old(at[p])
      ensures fresh(at.Values - old(at.Values))
    {
      var bits := ByteToBit(info.info.address);
      leaf := AddAt(bits, info);
      MinimalWith(bits, old(at), old(leaves.Keys));
      forall k | k in leaves ensures AtOwnPath(k) {
        assert k in old(leaves) ==> old(AtOwnPath(k));
      }
    }

    // ---- suggesting a free address ----

    /** What the search needs to know about the node at `p` of a non-empty trie. */
    lemma AtNode(p: Path)
      requires Valid() && leaves != map[] && |p| <= BITS
      ensures NodeAt(p) != null <==> p in at
      ensures p in at <==> p == [] || Occupied(leaves.Keys, p)
      ensures p in at ==>
        && at[p].left == NodeAt(p + [false]) && at[p].right == NodeAt(p + [true])
        && (at[p].left == null && at[p].right == null <==> |p| == BITS)
    {
      if p != [] {
        NodeIff(p);
      }
      if p in at {
        ChildrenAt(p);
        ChildlessIff(p);
      }
    }

    /** Depth-first from the left, stopping at the first missing node. The position says where to pad
        the seed's bits; the branches taken are not recorded. */
    function LeftToRightDFS(head: Node?, seed: Bits, position: nat, ghost p: Path): (r: Option<Bits>)
      requires Valid() && leaves != map[]
      requires 0 < |p| <= BITS && position == |p| - 1 && head == NodeAt(p)
      reads this, at.Values
      ensures r == Answer(leaves.Keys, seed, p, false)
      decreases BITS - |p|
    {
      AtNode(p);
      AnswerStep(leaves.Keys, seed, p, false);
      if head == null then Some(Padded(seed, position, false))
      else if head.left == null && head.right == null then None
      else
        var found := LeftToRightDFS(head.left, seed, position + 1, p + [false]);
        if found.Some? then found else LeftToRightDFS(head.right, seed, position + 1, p + [true])
    }

    /** The same from the right; it pads with zeros too. */
    function RightToLeftDFS(head: Node?, seed: Bits, position: nat, ghost p: Path): (r: Option<Bits>)
      requires Valid() && leaves != map[]
      requires 0 < |p| <= BITS && position == |p| - 1 && head == NodeAt(p)
      reads this, at.Values
      ensures r == Answer(leaves.Keys, seed, p, true)
      decreases BITS - |p|
    {
      AtNode(p);
      AnswerStep(leaves.Keys, seed, p, true);
      if head == null then Some(Padded(seed, position, false))
      else if head.left == null && head.right == null then None
      else
        var found := RightToLeftDFS(head.right, seed, position + 1, p + [true]);
        if found.Some? then found else RightToLeftDFS(head.left, seed, position + 1, p + [false])
    }

    /** What the search needs to know about the other side of the seed below `head`. */
    lemma Beside(head: Node, seed: Bits, j: nat)
      requires Valid() && seed in leaves && 0 < j <= BITS && head == NodeAt(seed[..j])
      ensures head.left == null && head.right == null <==> j == BITS
      ensures j < BITS ==>
        && head.Child(!seed[j]) == NodeAt(Sibling(seed, j))
        && (head.Child(!seed[j]) == null <==> !Occupied(leaves.Keys, Sibling(seed, j)))
    {
      AtNode(seed[..j]);
      if j < BITS {
        AtNode(Sibling(seed, j));
      }
    }

    static lemma FlippedSeed(seed: Bits, j: nat, b: bool)
      requires j < BITS
      ensures Padded(seed[j := !seed[j]], j + 1, b) == Padded(Sibling(seed, j), j + 1, b)
    {
      assert seed[j := !seed[j]][..j + 1] == Sibling(seed, j) == Sibling(seed, j)[..j + 1];
    }

    /** Search the subtree on the other side of the seed below `head`, which is on the seed's path. */
    function BottomSearch(head: Node, seed: Bits, position: nat): (r: Option<Bits>)
      requires Valid() && seed in leaves && 0 < position <= BITS && head == NodeAt(seed[..position])
      reads this, at.Values
      ensures r == Keyspace.BottomSearch(leaves.Keys, seed, position)
    {
      Beside(head, seed, position);
      if head.left == null && head.right == null then None
      else
        FlippedSeed(seed, position, seed[position]);
        if seed[position] then
          if head.left == null then Some(Padded(seed[position := false], position + 1, true))
          else RightToLeftDFS(head.left, seed, position, Sibling(seed, position))
        else
          if head.right == null then Some(Padded(seed[position := true], position + 1, false))
          else LeftToRightDFS(head.right, seed, position, Sibling(seed, position))
    }

    /** What the search needs to know about the seed's own side below `head`. */
    lemma Onward(head: Node, seed: Bits, j: nat)
      requires Valid() && seed in leaves && j <= BITS && head == NodeAt(seed[..j])
      ensures head.left == null && head.right == null <==> j == BITS
      ensures j < BITS ==> head.Child(seed[j]) != null && head.Child(seed[j]) == NodeAt(seed[..j + 1])
    {
      AtNode(seed[..j]);
      if j < BITS {
        assert Reached(at.Keys, leaves.Keys, seed, j + 1);
        assert seed[..j + 1] == seed[..j] + [seed[j]];
      }
    }

    /** Follow the seed to its leaf, then look for a free address beside each node on the way back,
        except beside the root's children. */
    function ClosestFreeAddress(head: Node, seed: Bits, position: nat): (r: Option<Bits>)
      requires Valid() && seed in leaves && position <= BITS && head == NodeAt(seed[..position])
      reads this, at.Values
      ensures r == Search(leaves.Keys, seed, position)
      decreases BITS - position
    {
      Onward(head, seed, position);
      if head.left == null && head.right == null then None
      else
        var next := if seed[position] then head.right else head.left;
        var found := ClosestFreeAddress(next, seed, position + 1);
        if found.Some? then found else BottomSearch(next, seed, position + 1)
    }

    /** Suggest an address for a new neighbour of the node registered at `seedAddress`. */
    method SuggestAddress(seedAddress: Address) returns (r: Option<Address>)
      requires Valid() && BitsOf(seedAddress) in leaves
      ensures r == match Suggest(leaves.Keys, BitsOf(seedAddress))
                   case None => None
                   case Some(p) => Some(AddressOf(p))
    {
      var seed := ByteToBit(seedAddress);
      assert seed[..0] == [] && NodeAt([]) == head;
      match ClosestFreeAddress(head, seed, 0)
      case None => r := None;
      case Some(p) =>
        var a := BitToByte(p);
        r := Some(a);
    }
  }
}
