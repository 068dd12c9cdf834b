/** What the address suggestion is worth: when it fails, and when what it suggests is free. */
module Suggestion {
  import opened Types
  import opened Numerals
  import opened Keyspace

  /** Around a registered seed, the seed's own subtree at level `j` is full exactly when every
      sibling below is. */
  lemma {:induction false} OwnSideFull(keys: set<Bits>, seed: Bits, j: nat)
    requires j <= BITS && seed in keys
    ensures Full(keys, seed[..j]) <==> SiblingsFull(keys, seed, j)
    decreases BITS - j
  {
    if j == BITS {
      assert seed[..j] == seed;
      forall k: Bits | seed <= k ensures k in keys {
        OnlyItself(seed, k);
      }
    } else {
      OwnSideFull(keys, seed, j + 1);
      FullSplits(keys, seed[..j]);
      assert Child(seed[..j], seed[j]) == seed[..j + 1];
      assert Child(seed[..j], !seed[j]) == Sibling(seed, j);
    }
  }

  /** Completeness: the suggestion fails exactly when every address that shares the seed's top bit
      is registered. The other half of the address space is never looked at. */
  lemma SuggestFailsIffHalfFull(keys: set<Bits>, seed: Bits)
    requires seed in keys
    ensures Suggest(keys, seed).None? <==> Full(keys, seed[..1])
  {
    var pivot := SearchStops(keys, seed, 0);
    OwnSideFull(keys, seed, 1);
  }

  /** All paths as long as `p`. */
  ghost function AsLong(p: Path): set<Path> {
    if p == [] then {[]}
    else
      var shorter := AsLong(p[..|p| - 1]);
      (set q | q in shorter :: Child(q, false)) + (set q | q in shorter :: Child(q, true))
  }

  lemma {:induction false} AsLongIff(p: Path, q: Path)
    ensures q in AsLong(p) <==> |q| == |p|
  {
    if p != [] {
      var shorter := AsLong(p[..|p| - 1]);
      if |q| == |p| {
        AsLongIff(p[..|p| - 1], q[..|q| - 1]);
        assert q == Child(q[..|q| - 1], q[|q| - 1]);
        assert q[..|q| - 1] in shorter;
      } else if q in AsLong(p) {
        var r :| r in shorter && (q == Child(r, false) || q == Child(r, true));
        AsLongIff(p[..|p| - 1], r);
      }
    }
  }

  /** Failure with half of the addresses free: whatever the seed, nothing is suggested once the addresses with its top
      bit are registered, although no other one is. */
  lemma FailsWithHalfFree(seed: Bits) returns (keys: set<Bits>)
    ensures forall k: Bits :: k in keys <==> k[0] == seed[0]
    ensures seed in keys && Suggest(keys, seed).None?
  {
    keys := set k: Bits | k in AsLong(seed) && k[0] == seed[0];
    forall k: Bits ensures k in keys <==> k[0] == seed[0] {
      AsLongIff(seed, k);
    }
    forall k: Bits | seed[..1] <= k ensures k in keys {
      assert k[0] == seed[0];
    }
    SuggestFailsIffHalfFull(keys, seed);
  }

  // ---- whether the suggestion is free ----

  /** A gap below an occupied path lies strictly deeper than the path. */
  lemma GapDeeper(keys: set<Bits>, p: Path, first: bool)
    requires |p| <= BITS && Occupied(keys, p)
    ensures Gap(keys, p, first).Some? ==> |p| < Gap(keys, p, first).value <= BITS
  {
  }

  /** With a non-empty sibling at the pivot the answer falls back into the seed's own full subtree,
      so it is an address already registered. */
  lemma OccupiedPivotGivesRegistered(keys: set<Bits>, seed: Bits, j: nat)
    requires seed in keys && Pivot(keys, seed, j) && Occupied(keys, Sibling(seed, j))
    ensures BottomSearch(keys, seed, j).Some?
    ensures seed[..j + 1] <= BottomSearch(keys, seed, j).value && BottomSearch(keys, seed, j).value in keys
  {
    BottomSearchStops(keys, seed, j);
    GapDeeper(keys, Sibling(seed, j), seed[j]);
    var g := Gap(keys, Sibling(seed, j), seed[j]).value;
    var r := BottomSearch(keys, seed, j).value;
    assert r == seed[..g - 1] + Fill(BITS - (g - 1), false);
    assert r[..j + 1] == seed[..j + 1];
    OwnSideFull(keys, seed, j + 1);
  }

  /** The free addresses that share the seed's first `j` bits, at the pivot, all lie in the sibling. */
  lemma FreeInSibling(keys: set<Bits>, seed: Bits, j: nat, k: Bits)
    requires seed in keys && Pivot(keys, seed, j) && k !in keys && seed[..j] <= k
    ensures Sibling(seed, j) <= k && !(seed[..j + 1] <= k)
  {
    OwnSideFull(keys, seed, j + 1);
    Below(seed[..j], k);
    assert Child(seed[..j], seed[j]) == seed[..j + 1];
  }

  function Distance(p: Bits, q: Bits): nat {
    if Num(p) < Num(q) then Num(q) - Num(p) else Num(p) - Num(q)
  }

  lemma {:induction false} FillNum(n: nat, b: bool)
    ensures Num(Fill(n, b)) == if b then Scale(1, n) - 1 else 0
  {
    if n > 0 {
      FillNum(n - 1, b);
      NumSnoc(Fill(n - 1, b), b);
    }
  }

  lemma NumSuffix(p: Path, q: Path, r: Path)
    requires |q| == |r|
    ensures Num(p + q) - Num(q) == Num(p + r) - Num(r)
  {
    NumConcat(p, q);
    NumConcat(p, r);
  }

  lemma FillExtreme(q: Path, b: bool)
    ensures b ==> Num(q) <= Num(Fill(|q|, b))
    ensures !b ==> Num(q) >= Num(Fill(|q|, b))
  {
    NumBound(q);
    FillNum(|q|, b);
  }

  /** Filling with ones gives the largest number below a path, filling with zeros the smallest. */
  lemma PaddedExtreme(p: Path, k: Path, b: bool)
    requires p <= k
    ensures b ==> Num(k) <= Num(p + Fill(|k| - |p|, b))
    ensures !b ==> Num(k) >= Num(p + Fill(|k| - |p|, b))
  {
    var rest := k[|p|..];
    NumSuffix(p, rest, Fill(|rest|, b));
    FillExtreme(rest, b);
    assert p + rest == k;
  }

  /** With an empty sibling at the pivot the answer is free, and no address of that sibling is
      numerically closer to the seed. */
  lemma EmptyPivotGivesClosest(keys: set<Bits>, seed: Bits, j: nat, k: Bits)
    requires Pivot(keys, seed, j) && !Occupied(keys, Sibling(seed, j)) && Sibling(seed, j) <= k
    ensures BottomSearch(keys, seed, j).Some?
    ensures var r := BottomSearch(keys, seed, j).value;
      Sibling(seed, j) <= r && r !in keys && Distance(r, seed) <= Distance(k, seed)
  {
    var sib := Sibling(seed, j);
    var r := BottomSearch(keys, seed, j).value;
    assert r == sib + Fill(BITS - |sib|, seed[j]) && sib <= r;
    PaddedExtreme(sib, k, seed[j]);
    assert k[..j] == sib[..j] == seed[..j] && r[..j] == seed[..j];
    assert k[j] == sib[j] == r[j];
    if seed[j] {
      BranchOrder(k, seed, j);
      BranchOrder(r, seed, j);
    } else {
      BranchOrder(seed, k, j);
      BranchOrder(seed, r, j);
    }
  }

  /** Exact freshness of a suggestion `r` for a registered seed. The search stops at the pivot level:
      above it nothing is examined, and every address agreeing with the seed on one more bit is taken.
      The suggestion is free if and only if the sibling there is empty; then it is, among the free
      addresses that share the seed's bits above the pivot, the numerically closest to the seed.
      Otherwise it is an address of the seed's own side, already registered. */
  lemma SuggestionFreshIff(keys: set<Bits>, seed: Bits) returns (j: nat)
    requires seed in keys && Suggest(keys, seed).Some?
    ensures Pivot(keys, seed, j)
    ensures forall k: Bits :: k !in keys ==> !(seed[..j + 1] <= k)
    ensures var r := Suggest(keys, seed).value;
      && (r !in keys <==> !Occupied(keys, Sibling(seed, j)))
      && (r !in keys ==> seed[..j] <= r)
      && (r !in keys ==> forall k: Bits :: k !in keys && seed[..j] <= k ==> Distance(r, seed) <= Distance(k, seed))
      && (r in keys ==> seed[..j + 1] <= r)
  {
    j := SearchStops(keys, seed, 0);
    var r := Suggest(keys, seed).value;
    OwnSideFull(keys, seed, j + 1);
    if Occupied(keys, Sibling(seed, j)) {
      OccupiedPivotGivesRegistered(keys, seed, j);
    } else {
      EmptyPivotGivesClosest(keys, seed, j, Padded(Sibling(seed, j), j + 1, true));
      assert seed[..j] <= Sibling(seed, j) <= r;
      forall k: Bits | k !in keys && seed[..j] <= k ensures Distance(r, seed) <= Distance(k, seed) {
        FreeInSibling(keys, seed, j, k);
        EmptyPivotGivesClosest(keys, seed, j, k);
      }
    }
  }

  // ---- exactly what is suggested ----

  /** The free address below `p` with the largest number, or the smallest. */
  ghost predicate Outermost(keys: set<Bits>, p: Path, largest: bool, k: Bits) {
    && p <= k && k !in keys
    && forall l: Bits :: p <= l && l !in keys ==> if largest then Num(l) <= Num(k) else Num(k) <= Num(l)
  }

  /** Nothing is registered below the first `g` bits of `k`, while something is below any fewer from `from` on. */
  ghost predicate EmptyFrom(keys: set<Bits>, k: Bits, from: nat, g: nat) {
    && from <= g <= BITS && !Occupied(keys, k[..g])
    && forall n: nat {:trigger OccupiedAt(keys, k, n)} :: from <= n < g ==> OccupiedAt(keys, k, n)
  }

  ghost predicate OccupiedAt(keys: set<Bits>, k: Bits, n: nat) {
    n <= BITS && Occupied(keys, k[..n])
  }

  /** Addresses on different sides of `p` are in the order of the sides. */
  lemma SidesOrdered(p: Path, k: Bits, l: Bits, b: bool)
    requires |p| < BITS && Child(p, b) <= k && Child(p, !b) <= l
    ensures if b then Num(l) < Num(k) else Num(k) < Num(l)
  {
    var n := |p|;
    assert k[..n] == Child(p, b)[..n] == p == Child(p, !b)[..n] == l[..n];
    assert k[n] == Child(p, b)[n] && l[n] == Child(p, !b)[n];
    if b {
      BranchOrder(l, k, n);
    } else {
      BranchOrder(k, l, n);
    }
  }

  /** The outermost free address on the side tried first is outermost below `p` itself. */
  lemma OutermostFirst(keys: set<Bits>, p: Path, largest: bool, k: Bits)
    requires |p| < BITS && Outermost(keys, Child(p, largest), largest, k)
    ensures Outermost(keys, p, largest, k)
  {
    Below(p, k);
    forall l: Bits | p <= l && l !in keys ensures if largest then Num(l) <= Num(k) else Num(k) <= Num(l) {
      Below(p, l);
      if Child(p, !largest) <= l {
        SidesOrdered(p, k, l, largest);
      }
    }
  }

  /** So is that on the other side, when the side tried first is full. */
  lemma OutermostSecond(keys: set<Bits>, p: Path, largest: bool, k: Bits)
    requires |p| < BITS && Outermost(keys, Child(p, !largest), largest, k) && Full(keys, Child(p, largest))
    ensures Outermost(keys, p, largest, k)
  {
    Below(p, k);
    forall l: Bits | p <= l && l !in keys ensures if largest then Num(l) <= Num(k) else Num(k) <= Num(l) {
      Below(p, l);
    }
  }

  lemma EmptyFromHigher(keys: set<Bits>, k: Bits, n: nat, g: nat)
    requires EmptyFrom(keys, k, n + 1, g) && Occupied(keys, k[..n])
    ensures EmptyFrom(keys, k, n, g)
  {
    assert OccupiedAt(keys, k, n);
  }

  /** Below an empty path the first or the last address is outermost. */
  lemma OutermostEmpty(keys: set<Bits>, p: Path, largest: bool) returns (k: Bits)
    requires |p| <= BITS && !Occupied(keys, p)
    ensures Outermost(keys, p, largest, k) && EmptyFrom(keys, k, |p|, |p|)
  {
    k := Padded(p, |p|, largest);
    assert p[..|p|] == p && k[..|p|] == p;
    forall l: Bits | p <= l ensures if largest then Num(l) <= Num(k) else Num(k) <= Num(l) {
      PaddedExtreme(p, l, largest);
    }
  }

  /** The depth at which the walk stops: that of the shortest empty path to the outermost free address. */
  lemma {:induction false} GapIs(keys: set<Bits>, p: Path, largest: bool) returns (k: Bits, g: nat)
    requires |p| <= BITS && Gap(keys, p, largest).Some?
    ensures Outermost(keys, p, largest, k) && EmptyFrom(keys, k, |p|, g) && Gap(keys, p, largest) == Some(g)
    decreases BITS - |p|
  {
    if !Occupied(keys, p) {
      k := OutermostEmpty(keys, p, largest);
      g := |p|;
    } else {
      var near, far := Child(p, largest), Child(p, !largest);
      if Gap(keys, near, largest).Some? {
        k, g := GapIs(keys, near, largest);
        OutermostFirst(keys, p, largest, k);
      } else {
        k, g := GapIs(keys, far, largest);
        GapNoneIffFull(keys, near, largest);
        OutermostSecond(keys, p, largest, k);
      }
      assert k[..|p|] == p;
      EmptyFromHigher(keys, k, |p|, g);
    }
  }

  /** `k` is a free address that shares the seed's first `j` bits, and no such address is closer to the seed. */
  ghost predicate Closest(keys: set<Bits>, seed: Bits, j: nat, k: Bits)
    requires j <= BITS
  {
    seed[..j] <= k && k !in keys && forall l: Bits :: seed[..j] <= l && l !in keys ==> Distance(k, seed) <= Distance(l, seed)
  }

  /** At the pivot the closest free address is the outermost one of the sibling, on the side of the seed. */
  lemma ClosestIsOutermost(keys: set<Bits>, seed: Bits, j: nat, k: Bits)
    requires seed in keys && Pivot(keys, seed, j) && Outermost(keys, Sibling(seed, j), seed[j], k)
    ensures Closest(keys, seed, j, k)
  {
    assert seed[..j] <= Sibling(seed, j) <= k;
    SeedSide(seed, j, k);
    forall l: Bits | seed[..j] <= l && l !in keys ensures Distance(k, seed) <= Distance(l, seed) {
      FreeInSibling(keys, seed, j, l);
      SeedSide(seed, j, l);
    }
  }

  lemma SeedSide(seed: Bits, j: nat, k: Bits)
    requires j < BITS && Sibling(seed, j) <= k
    ensures if seed[j] then Num(k) < Num(seed) else Num(seed) < Num(k)
  {
    assert Child(seed[..j], seed[j]) == seed[..j + 1] <= seed;
    SidesOrdered(seed[..j], seed, k, seed[j]);
  }

  lemma SameNumber(p: Bits, q: Bits)
    requires Num(p) == Num(q)
    ensures p == q
  {
    DigitsOfNum(p);
    DigitsOfNum(q);
  }

  /** There is one closest free address at the pivot. */
  lemma ClosestUnique(keys: set<Bits>, seed: Bits, j: nat, k: Bits, l: Bits)
    requires seed in keys && Pivot(keys, seed, j) && Closest(keys, seed, j, k) && Closest(keys, seed, j, l)
    ensures k == l
  {
    FreeInSibling(keys, seed, j, k);
    FreeInSibling(keys, seed, j, l);
    SeedSide(seed, j, k);
    SeedSide(seed, j, l);
    assert Distance(k, seed) == Distance(l, seed);
    SameNumber(k, l);
  }

  lemma EmptyFromLeast(keys: set<Bits>, k: Bits, g: nat, h: nat)
    requires EmptyFrom(keys, k, 0, g) && EmptyFrom(keys, k, 0, h)
    ensures g <= h
  {
    assert h < g ==> OccupiedAt(keys, k, h);
  }

  /** Every path to an address that shares the seed's first `j` bits is occupied that far, by the seed itself. */
  lemma OccupiedToPivot(keys: set<Bits>, seed: Bits, j: nat, k: Bits, g: nat)
    requires seed in keys && j < BITS && seed[..j] <= k && EmptyFrom(keys, k, j + 1, g)
    ensures EmptyFrom(keys, k, 0, g)
  {
    forall n: nat | n < g ensures OccupiedAt(keys, k, n) {
      if n <= j {
        assert k[..n] == seed[..j][..n] == seed[..n] <= seed;
      }
    }
  }

  /** `r` has the first `n` bits of the seed, and zeros from there on. */
  ghost predicate CutTo(r: Bits, seed: Bits, n: nat) {
    n <= BITS && r[..n] == seed[..n] && forall i :: n <= i < BITS ==> !r[i]
  }

  /** What the search answers at the pivot. */
  lemma BottomSearchIs(keys: set<Bits>, seed: Bits, j: nat) returns (k: Bits, g: nat)
    requires seed in keys && Pivot(keys, seed, j)
    ensures Closest(keys, seed, j, k) && EmptyFrom(keys, k, 0, g) && j < g && BottomSearch(keys, seed, j).Some?
    ensures var r := BottomSearch(keys, seed, j).value; if g == j + 1 then r == k else CutTo(r, seed, g - 1)
  {
    var sib := Sibling(seed, j);
    GapNoneIffFull(keys, sib, seed[j]);
    k, g := GapIs(keys, sib, seed[j]);
    ClosestIsOutermost(keys, seed, j, k);
    OccupiedToPivot(keys, seed, j, k, g);
    if !Occupied(keys, sib) {
      var l := Padded(sib, j + 1, seed[j]);
      EmptyPivotGivesClosest(keys, seed, j, k);
      FreshClosest(keys, seed, j, l);
      ClosestUnique(keys, seed, j, k, l);
    } else {
      GapDeeper(keys, sib, seed[j]);
      assert Padded(seed, g - 1, false)[..g - 1] == seed[..g - 1];
    }
  }

  /** With an empty sibling at the pivot, the address of it next to the seed is the closest. */
  lemma FreshClosest(keys: set<Bits>, seed: Bits, j: nat, r: Bits)
    requires seed in keys && Pivot(keys, seed, j) && !Occupied(keys, Sibling(seed, j))
    requires BottomSearch(keys, seed, j) == Some(r)
    ensures Closest(keys, seed, j, r)
  {
    EmptyPivotGivesClosest(keys, seed, j, Padded(Sibling(seed, j), j + 1, true));
    assert seed[..j] <= Sibling(seed, j) <= r;
    forall l: Bits | seed[..j] <= l && l !in keys ensures Distance(r, seed) <= Distance(l, seed) {
      FreeInSibling(keys, seed, j, l);
      EmptyPivotGivesClosest(keys, seed, j, l);
    }
  }

  /** Exactly what is suggested for a registered seed. Let `j` be the level at which the search stops, `k` the free
      address closest to the seed among those that share its first `j` bits, and `g` the least number of bits of `k`
      below which nothing is registered. The suggestion is `k` if that is all of the sibling at `j`; otherwise it is the
      seed cut to `g - 1` bits and filled with zeros. */
  lemma SuggestionIs(keys: set<Bits>, seed: Bits, j: nat, k: Bits, g: nat)
    requires seed in keys && Pivot(keys, seed, j) && Closest(keys, seed, j, k) && EmptyFrom(keys, k, 0, g)
    ensures Suggest(keys, seed).Some? && g > j
    ensures var r := Suggest(keys, seed).value; if g == j + 1 then r == k else CutTo(r, seed, g - 1)
  {
    var pivot := SearchStops(keys, seed, 0);
    assert !Full(keys, Sibling(seed, j));
    assert pivot == j;
    var l, h := BottomSearchIs(keys, seed, j);
    ClosestUnique(keys, seed, j, k, l);
    EmptyFromLeast(keys, k, g, h);
    EmptyFromLeast(keys, k, h, g);
  }

  /** There always are such a level, such an address and such a number, unless nothing is suggested. */
  lemma SuggestionFrom(keys: set<Bits>, seed: Bits) returns (j: nat, k: Bits, g: nat)
    requires seed in keys && Suggest(keys, seed).Some?
    ensures Pivot(keys, seed, j) && Closest(keys, seed, j, k) && EmptyFrom(keys, k, 0, g)
  {
    j := SearchStops(keys, seed, 0);
    k, g := BottomSearchIs(keys, seed, j);
  }

  /** `p` is zero in all bits but the last two, which are `b` and `c`. */
  ghost predicate EndsIn(p: Bits, b: bool, c: bool) {
    p == Fill(BITS - 2, false) + [b, c]
  }

  /** With 0.0.0.0, 0.0.0.2 and 0.0.0.3 registered, the suggestion for 0.0.0.2 is one of those
      three, so it cannot be registered, although 0.0.0.1 is free. */
  lemma SuggestionMayBeTaken(keys: set<Bits>, zero: Bits, one: Bits, two: Bits, three: Bits)
    requires EndsIn(zero, false, false) && EndsIn(one, false, true)
    requires EndsIn(two, true, false) && EndsIn(three, true, true)
    requires keys == {zero, two, three}
    ensures one !in keys && Suggest(keys, two).Some? && Suggest(keys, two).value in keys
  {
    var n := BITS - 2;
    assert !one[n] && one[n + 1] && !zero[n] && !zero[n + 1] && two[n] && three[n];
    assert one !in keys && Sibling(two, n) <= one && Sibling(two, n) <= zero && Sibling(two, n + 1) == three;
    assert Pivot(keys, two, n) by {
      forall i | n + 1 <= i < BITS ensures Full(keys, Sibling(two, i)) {
        forall k: Bits | Sibling(two, i) <= k ensures k in keys {
          OnlyItself(three, k);
        }
      }
    }
    var j := SearchStops(keys, two, 0);
    assert j == n;
    OccupiedPivotGivesRegistered(keys, two, j);
  }
}
