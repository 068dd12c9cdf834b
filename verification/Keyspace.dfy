/** The address suggestion as a search over the set of registered addresses.

    A trie node exists at a non-empty path exactly when some registered address extends the path,
    so the walk over nodes is a walk over paths. */
module Keyspace {
  import opened Types
  import opened Numerals

  /** Some registered address lies below `p`. */
  ghost predicate Occupied(keys: set<Bits>, p: Path) {
    exists k :: k in keys && p <= k
  }

  /** Every address below `p` is registered. */
  ghost predicate Full(keys: set<Bits>, p: Path) {
    forall k: Bits :: p <= k ==> k in keys
  }

  /** `p` with its last branch chosen by `b`. */
  function Child(p: Path, b: bool): Path { p + [b] }

  /** The other side of the seed at level `j`. */
  function Sibling(seed: Bits, j: nat): Path
    requires j < BITS
  {
    seed[..j] + [!seed[j]]
  }

  function Fill(n: nat, b: bool): (r: Path)
    ensures |r| == n && forall i :: 0 <= i < n ==> r[i] == b
  {
    if n == 0 then [] else Fill(n - 1, b) + [b]
  }

  /** `p[..n]` filled up to a full address with `b`. */
  function Padded(p: Path, n: nat, b: bool): Bits
    requires n <= |p| && n <= BITS
  {
    p[..n] + Fill(BITS - n, b)
  }

  /** The depth of the first missing node met by a depth-first walk below `p` that tries branch
      `first` before the other; none when the walk meets only leaves. */
  ghost function Gap(keys: set<Bits>, p: Path, first: bool): (r: Option<nat>)
    requires |p| <= BITS
    ensures r.Some? ==> |p| <= r.value <= BITS
    decreases BITS - |p|
  {
    if !Occupied(keys, p) then Some(|p|)
    else if |p| == BITS then None
    else
      var left := Gap(keys, Child(p, first), first);
      if left.Some? then left else Gap(keys, Child(p, !first), first)
  }

  /** What the walk below `p` returns for a gap at depth `g`: it counts its position from one level
      too high and never writes down the branches it takes, so it pads the seed's own bits. */
  ghost function Answer(keys: set<Bits>, seed: Bits, p: Path, first: bool): Option<Bits>
    requires 0 < |p| <= BITS
  {
    match Gap(keys, p, first)
    case None => None
    case Some(g) => Some(Padded(seed, g - 1, false))
  }

  lemma AnswerStep(keys: set<Bits>, seed: Bits, p: Path, first: bool)
    requires 0 < |p| <= BITS
    ensures !Occupied(keys, p) ==> Answer(keys, seed, p, first) == Some(Padded(seed, |p| - 1, false))
    ensures Occupied(keys, p) && |p| == BITS ==> Answer(keys, seed, p, first) == None
    ensures Occupied(keys, p) && |p| < BITS ==>
      Answer(keys, seed, p, first)
        == if Answer(keys, seed, p + [first], first).Some? then Answer(keys, seed, p + [first], first)
           else Answer(keys, seed, p + [!first], first)
  {
  }

  /** Searching the sibling of the seed at level `j`. */
  ghost function BottomSearch(keys: set<Bits>, seed: Bits, j: nat): Option<Bits>
    requires 0 < j <= BITS
  {
    if j == BITS then None
    else if !Occupied(keys, Sibling(seed, j)) then Some(Padded(Sibling(seed, j), j + 1, seed[j]))
    else Answer(keys, seed, Sibling(seed, j), seed[j])
  }

  /** The search from the seed's node at level `j`: deepest sibling first. */
  ghost function Search(keys: set<Bits>, seed: Bits, j: nat): Option<Bits>
    requires j <= BITS
    decreases BITS - j, seed
  {
    if j == BITS then None
    else
      var deeper := Search(keys, seed, j + 1);
      if deeper.Some? then deeper else BottomSearch(keys, seed, j + 1)
  }

  ghost function Suggest(keys: set<Bits>, seed: Bits): Option<Bits> {
    Search(keys, seed, 0)
  }

  // ---- what the walk below a sibling finds ----

  lemma Below(p: Path, k: Bits)
    requires |p| < BITS
    ensures p <= k <==> Child(p, true) <= k || Child(p, false) <= k
  {
    if p <= k {
      assert Child(p, k[|p|]) <= k;
    }
  }

  lemma FullSplits(keys: set<Bits>, p: Path)
    requires |p| < BITS
    ensures Full(keys, p) <==> Full(keys, Child(p, true)) && Full(keys, Child(p, false))
  {
    if Full(keys, p) {
      forall k: Bits | Child(p, true) <= k || Child(p, false) <= k ensures k in keys {
        Below(p, k);
      }
    }
    if Full(keys, Child(p, true)) && Full(keys, Child(p, false)) {
      forall k: Bits | p <= k ensures k in keys {
        Below(p, k);
      }
    }
  }

  lemma OnlyItself(p: Bits, k: Bits)
    requires p <= k
    ensures p == k
  {
    assert k[..BITS] == k;
  }

  lemma FullOccupied(keys: set<Bits>, p: Path)
    requires |p| <= BITS && Full(keys, p)
    ensures Occupied(keys, p)
  {
    var k: Bits := Padded(p, |p|, false);
    assert p[..|p|] == p && p <= k;
    assert k in keys;
  }

  /** The walk fails to find a gap exactly below a full path. */
  lemma {:induction false} GapNoneIffFull(keys: set<Bits>, p: Path, first: bool)
    requires |p| <= BITS
    ensures Gap(keys, p, first).None? <==> Full(keys, p)
    decreases BITS - |p|
  {
    if Full(keys, p) {
      FullOccupied(keys, p);
    }
    if |p| < BITS {
      GapNoneIffFull(keys, Child(p, first), first);
      GapNoneIffFull(keys, Child(p, !first), first);
      FullSplits(keys, p);
    } else if Occupied(keys, p) {
      var l :| l in keys && p <= l;
      OnlyItself(p, l);
      forall k: Bits | p <= k ensures k in keys {
        OnlyItself(p, k);
      }
    }
  }

  /** Every sibling subtree of the seed from level `j` on is full. */
  ghost predicate SiblingsFull(keys: set<Bits>, seed: Bits, j: nat) {
    forall i :: j <= i < BITS ==> Full(keys, Sibling(seed, i))
  }

  /** The level at which the search stops: the deepest one, other than level 0, whose sibling
      subtree still has a free address. */
  ghost predicate Pivot(keys: set<Bits>, seed: Bits, j: nat) {
    0 < j < BITS && !Full(keys, Sibling(seed, j)) && SiblingsFull(keys, seed, j + 1)
  }

  lemma BottomSearchStops(keys: set<Bits>, seed: Bits, j: nat)
    requires 0 < j < BITS
    ensures BottomSearch(keys, seed, j).None? <==> Full(keys, Sibling(seed, j))
  {
    GapNoneIffFull(keys, Sibling(seed, j), seed[j]);
    if Full(keys, Sibling(seed, j)) {
      FullOccupied(keys, Sibling(seed, j));
    }
  }

  /** From level `j` down, the search fails exactly when all siblings below are full, and otherwise
      returns what it finds at the pivot. */
  lemma {:induction false} SearchStops(keys: set<Bits>, seed: Bits, j: nat) returns (pivot: nat)
    requires j <= BITS
    ensures Search(keys, seed, j).None? <==> SiblingsFull(keys, seed, j + 1)
    ensures Search(keys, seed, j).Some? ==>
      j < pivot && Pivot(keys, seed, pivot) && Search(keys, seed, j) == BottomSearch(keys, seed, pivot)
    decreases BITS - j
  {
    if j == BITS {
      pivot := 0;
    } else {
      pivot := SearchStops(keys, seed, j + 1);
      if Search(keys, seed, j + 1).None? && j + 1 < BITS {
        BottomSearchStops(keys, seed, j + 1);
        pivot := j + 1;
      }
    }
  }
}
