/** Being killed in the middle of an update: the next one handles the same registrations again. */
module Rescan {
  import opened Types
  import opened BitAddress
  import opened Keyspace
  import opened Codec
  import opened Registry
  import opened Restart

  // ---- handling registrations again ----

  /** Handling `rs` changes nothing. */
  ghost predicate Settled(o: Oracle, x: Index, rs: seq<Registration>) {
    Process(o, x, rs) == Some(x)
  }

  lemma {:induction false} NothingAccepted(o: Oracle, x: Index, rs: seq<Registration>)
    requires Process(o, x, rs).Some? && Log(o, x, rs) == []
    ensures Settled(o, x, rs)
    decreases |rs|
  {
    if rs != [] {
      NothingAccepted(o, x, rs[1..]);
    }
  }

  /** What was registered stays, and so does what is accepted. */
  lemma {:induction false} AcceptedStay(o: Oracle, x: Index, rs: seq<Registration>)
    requires Process(o, x, rs).Some?
    ensures var y := Process(o, x, rs).value;
      && (forall a :: a in x.infos ==> a in y.infos && y.infos[a] == x.infos[a])
      && (forall i :: i in Log(o, x, rs) ==> i.address in y.infos && y.infos[i.address] == i)
    decreases |rs|
  {
    if rs != [] {
      match Verify(o, x, rs[0])
      case Rejected => AcceptedStay(o, x, rs[1..]);
      case Accepted(i) => AcceptedStay(o, Add(x, i), rs[1..]);
    }
  }

  lemma AcceptedChanges(o: Oracle, x: Index, rs: seq<Registration>)
    requires Process(o, x, rs).Some? && Log(o, x, rs) != []
    ensures Process(o, x, rs).value != x
  {
    LogIsNew(o, x, rs);
    AcceptedStay(o, x, rs);
    assert Log(o, x, rs)[0] in Log(o, x, rs);
  }

  /** Handling registrations changes nothing if and only if it stops nowhere and accepts nothing. */
  lemma SettledIff(o: Oracle, x: Index, rs: seq<Registration>)
    ensures Settled(o, x, rs) <==> Process(o, x, rs).Some? && Log(o, x, rs) == []
  {
    if Process(o, x, rs).Some? {
      if Log(o, x, rs) == [] {
        NothingAccepted(o, x, rs);
      } else {
        AcceptedChanges(o, x, rs);
      }
    }
  }

  lemma {:induction false} SettledPrefix(o: Oracle, x: Index, part: seq<Registration>, rs: seq<Registration>)
    requires Settled(o, x, rs) && part <= rs
    ensures Settled(o, x, part)
    decreases |part|
  {
    SettledIff(o, x, rs);
    if part != [] {
      assert part[0] == rs[0] && part[1..] <= rs[1..];
      NothingAccepted(o, x, rs[1..]);
      SettledPrefix(o, x, part[1..], rs[1..]);
    }
  }

  /** Handling all of `rs` after its first part was handled before, if handling that part again changes nothing, is
      handling `rs` once. */
  lemma RescanIsBatch(o: Oracle, x: Index, y: Index, part: seq<Registration>, rs: seq<Registration>)
    requires Process(o, x, part) == Some(y) && Settled(o, y, part) && part <= rs
    ensures Process(o, y, rs) == Process(o, x, rs)
  {
    assert rs == part + rs[|part|..];
    ProcessConcat(o, x, part, rs[|part|..]);
    ProcessConcat(o, y, part, rs[|part|..]);
  }

  /** What is registered in the end was there before or is accepted. */
  lemma {:induction false} AcceptedOrBefore(o: Oracle, x: Index, rs: seq<Registration>, a: Address)
    requires Process(o, x, rs).Some? && a in Process(o, x, rs).value.infos
    ensures a in x.infos || Process(o, x, rs).value.infos[a] in Log(o, x, rs)
    decreases |rs|
  {
    if rs != [] {
      match Verify(o, x, rs[0])
      case Rejected => AcceptedOrBefore(o, x, rs[1..], a);
      case Accepted(i) =>
        AcceptedOrBefore(o, Add(x, i), rs[1..], a);
        AcceptedStay(o, Add(x, i), rs[1..]);
    }
  }

  /** Some registration of `rs` is made by the transaction `id`. */
  ghost predicate MadeBy(rs: seq<Registration>, id: TxID) {
    exists r :: r in rs && r.txID == id
  }

  lemma {:induction false} LogMade(o: Oracle, x: Index, rs: seq<Registration>, i: Info)
    requires i in Log(o, x, rs)
    ensures MadeBy(rs, i.txID)
    decreases |rs|
  {
    var v := Verify(o, x, rs[0]);
    assert rs[0] in rs;
    if !(v.Accepted? && v.info == i) {
      LogMade(o, if v.Accepted? then Add(x, v.info) else x, rs[1..], i);
      var r :| r in rs[1..] && r.txID == i.txID;
      assert r in rs;
    }
  }

  /** No transaction makes a registration of both. */
  ghost predicate OtherTransactions(part: seq<Registration>, rest: seq<Registration>) {
    forall id :: !(MadeBy(part, id) && MadeBy(rest, id))
  }

  /** With something accepted again the rest cannot make up for it. */
  lemma RescanDiffers(o: Oracle, y: Index, part: seq<Registration>, rest: seq<Registration>)
    requires OtherTransactions(part, rest) && Process(o, y, rest).Some? && Process(o, y, part).Some? && !Settled(o, y, part)
    ensures Process(o, Process(o, y, part).value, rest) != Process(o, y, rest)
  {
    SettledIff(o, y, part);
    var i := Log(o, y, part)[0];
    LogIsNew(o, y, part);
    LogMade(o, y, part, i);
    AcceptedStay(o, y, part);
    var z := Process(o, y, part).value;
    if Process(o, z, rest) == Process(o, y, rest) {
      AcceptedStay(o, z, rest);
      AcceptedOrBefore(o, y, rest, i.address);
      LogMade(o, y, rest, i);
      assert false;
    }
  }

  /** When one scan succeeds, handling everything after a first part was handled before leads to the same indexes if
      and only if handling that part again stops nowhere and accepts nothing. */
  lemma RescanIsBatchIff(o: Oracle, x: Index, y: Index, part: seq<Registration>, rest: seq<Registration>)
    requires Process(o, x, part) == Some(y) && Process(o, x, part + rest).Some? && OtherTransactions(part, rest)
    ensures Process(o, y, part + rest) == Process(o, x, part + rest)
        <==> Process(o, y, part).Some? && Log(o, y, part) == []
  {
    SettledIff(o, y, part);
    ProcessConcat(o, x, part, rest);
    ProcessConcat(o, y, part, rest);
    if Process(o, y, part).Some? && !Settled(o, y, part) {
      RescanDiffers(o, y, part, rest);
    }
  }

  // ---- lives with kills ----

  /** What a kill finds handled, handled again, would change nothing. */
  ghost predicate Harmless(o: Oracle, s: Synced, c: Chain, handled: nat) {
    var part := First(NewRegistrations(c, s.height), handled);
    Process(o, s.index, part).Some? && Settled(o, Process(o, s.index, part).value, part)
  }

  /** The last chain an update began with, whether or not it was completed. */
  function Seen(evs: seq<LifeEvent>): Option<Chain> {
    if evs == [] then None
    else match evs[|evs| - 1]
      case Scan(c) => Some(c)
      case Kill(c, _) => Some(c)
      case Reopen => Seen(evs[..|evs| - 1])
  }

  /** The chain of each update extends that of the one before. */
  ghost predicate SeenGrows(evs: seq<LifeEvent>) {
    evs == [] ||
      (SeenGrows(evs[..|evs| - 1]) && (Seen(evs[..|evs| - 1]).Some? ==> Seen(evs[..|evs| - 1]).value <= Seen(evs).value))
  }

  /** After a kill the program is started again before anything else. */
  ghost predicate Restarted(evs: seq<LifeEvent>) {
    evs == [] ||
      (Restarted(evs[..|evs| - 1]) &&
        (|evs| >= 2 && evs[|evs| - 2].Kill? ==> evs[|evs| - 1].Reopen?))
  }

  /** Every kill of the running program is harmless. */
  ghost predicate AllHarmless(o: Oracle, evs: seq<LifeEvent>) {
    evs == [] ||
      var pre, ev := evs[..|evs| - 1], evs[|evs| - 1];
      && AllHarmless(o, pre)
      && (ev.Kill? && Live(o, pre).memory.Some? ==> Harmless(o, Live(o, pre).memory.value, ev.chain, ev.handled))
  }

  /** No completed update has stopped the program. */
  ghost predicate NeverFailed(o: Oracle, evs: seq<LifeEvent>) {
    evs == [] || (NeverFailed(o, evs[..|evs| - 1]) && (evs[|evs| - 1].Scan? ==> Live(o, evs).memory.Some?))
  }

  /** No update has been killed since the last completed one. */
  ghost predicate Completed(evs: seq<LifeEvent>) {
    evs == [] || evs[|evs| - 1].Scan? || (evs[|evs| - 1].Reopen? && Completed(evs[..|evs| - 1]))
  }

  /** The registry on file is `base` with the registrations `part` handled, which would change nothing more. */
  ghost predicate Partly(o: Oracle, l: Life, base: Synced, part: seq<Registration>) {
    && Process(o, base.index, part).Some?
    && var y := Process(o, base.index, part).value;
    && Settled(o, y, part)
    && SameSynced(Load(l.file), Synced(y, base.height))
    && (l.memory.Some? ==> SameSynced(l.memory.value, Synced(y, base.height)))
  }

  /** `part` is the beginning of what is new in `c` above `height`. */
  ghost predicate Begins(part: seq<Registration>, c: Option<Chain>, height: uint64) {
    if c.None? then part == [] else height <= Tip(c.value) && part <= NewRegistrations(c.value, height)
  }

  lemma PrefixExtends<T>(p: seq<T>, q: seq<T>, r: seq<T>)
    requires p <= q
    ensures p <= q + r
  {
  }

  lemma BeginsStill(part: seq<Registration>, c: Option<Chain>, height: uint64, e: Chain)
    requires Begins(part, c, height) && (c.None? ==> height == 0) && (c.Some? ==> c.value <= e)
    ensures height <= Tip(e) && part <= NewRegistrations(e, height)
  {
    if c.Some? {
      assert Tip(c.value) <= Tip(e);
      NewSplits(c.value, e, height);
      PrefixExtends(part, NewRegistrations(c.value, height), NewRegistrations(e, Tip(c.value)));
    }
  }

  lemma SameSyncedTransitive(r: Synced, s: Synced, t: Synced)
    requires SameSynced(r, s) && SameSynced(s, t)
    ensures SameSynced(r, t)
  {
  }

  /** A kill leaves the registry on file with what it found handled. */
  lemma KillLoads(o: Oracle, l: Life, c: Chain, handled: nat, height: uint64, log: seq<Info>)
    requires OnFile(l, height, log) && l.memory.Some?
    requires Process(o, l.memory.value.index, First(NewRegistrations(c, l.memory.value.height), handled)).Some?
    ensures var s := l.memory.value;
      SameSynced(Load(Happen(o, l, Kill(c, handled)).file),
        Synced(Process(o, s.index, First(NewRegistrations(c, s.height), handled)).value, s.height))
  {
    var s := l.memory.value;
    var part := First(NewRegistrations(c, s.height), handled);
    KillOnFile(o, l, c, handled, height, log);
    AcceptedReplays(o, s.index, part, log);
    LoadReplays(height, log + AcceptsFirst(o, s, c, handled));
  }

  /** More of the same registrations handled. */
  lemma PartGrows(o: Oracle, x: Index, y: Index, part: seq<Registration>, more: seq<Registration>)
    requires Process(o, x, part) == Some(y) && Settled(o, y, part) && (more <= part || part <= more)
    ensures more <= part ==> Process(o, y, more) == Some(y)
    ensures part <= more ==> Process(o, y, more) == Process(o, x, more)
  {
    if more <= part {
      SettledPrefix(o, y, more, part);
    }
    if part <= more {
      RescanIsBatch(o, x, y, part, more);
    }
  }

  /** A settled part is settled for a registry that is the same up to ids and versions. */
  lemma SameSettled(o: Oracle, x: Index, y: Index, rs: seq<Registration>)
    requires SameIndex(x, y) && Process(o, x, rs).Some?
    requires Settled(o, Process(o, x, rs).value, rs)
    ensures Process(o, y, rs).Some? && SameIndex(Process(o, x, rs).value, Process(o, y, rs).value)
    ensures Settled(o, Process(o, y, rs).value, rs)
  {
    RestartTransparent(o, x, y, rs);
    var x', y' := Process(o, x, rs).value, Process(o, y, rs).value;
    RestartTransparent(o, x', y', rs);
    SettledIff(o, x', rs);
    SettledIff(o, y', rs);
  }

  lemma KillPartly(o: Oracle, l: Life, base: Synced, part: seq<Registration>, c: Chain, handled: nat, height: uint64,
      log: seq<Info>)
      returns (now: seq<Registration>)
    requires Partly(o, l, base, part) && l.memory.Some? && OnFile(l, height, log)
    requires part <= NewRegistrations(c, base.height) && Harmless(o, l.memory.value, c, handled)
    ensures now <= NewRegistrations(c, base.height) && Partly(o, Happen(o, l, Kill(c, handled)), base, now)
  {
    var s, y := l.memory.value, Process(o, base.index, part).value;
    var more := First(NewRegistrations(c, s.height), handled);
    SameSettled(o, s.index, y, more);
    KillLoads(o, l, c, handled, height, log);
    assert more <= part || part <= more;
    PartGrows(o, base.index, y, part, more);
    now := if more <= part then part else more;
    var z := Process(o, s.index, more).value;
    SameSyncedTransitive(Load(Happen(o, l, Kill(c, handled)).file), Synced(z, s.height),
      Synced(Process(o, base.index, now).value, base.height));
  }

  lemma ScanPartly(o: Oracle, l: Life, base: Synced, part: seq<Registration>, c: Chain)
    requires Partly(o, l, base, part) && l.memory.Some? && part <= NewRegistrations(c, base.height)
    ensures var r := Update(o, l.memory.value, c);
      && (r.Some? <==> Update(o, base, c).Some?)
      && (r.Some? ==> SameSynced(r.value, Update(o, base, c).value))
  {
    var y := Process(o, base.index, part).value;
    RescanIsBatch(o, base.index, y, part, NewRegistrations(c, base.height));
    SameUpdate(o, l.memory.value, Synced(y, base.height), c);
  }

  lemma {:induction false} LastIsSeen(evs: seq<LifeEvent>)
    requires SeenGrows(evs)
    ensures LastChain(evs).Some? ==> Seen(evs).Some? && LastChain(evs).value <= Seen(evs).value
  {
    if evs != [] {
      LastIsSeen(evs[..|evs| - 1]);
    }
  }

  lemma BatchHeight(o: Oracle, c: Option<Chain>)
    requires Batch(o, c).Some?
    ensures Batch(o, c).value.height == if c.None? then 0 else Tip(c.value)
  {
  }

  /** Every completed update before the last event went well, and the last one too if it was one. */
  lemma FailedSnoc(o: Oracle, pre: seq<LifeEvent>, ev: LifeEvent)
    ensures NeverFailed(o, pre + [ev]) <==> NeverFailed(o, pre) && (ev.Scan? ==> Live(o, pre + [ev]).memory.Some?)
  {
    Last(pre, ev);
  }

  lemma ChainSnoc(pre: seq<LifeEvent>, ev: LifeEvent)
    ensures LastChain(pre + [ev]) == if ev.Scan? then Some(ev.chain) else LastChain(pre)
  {
    Last(pre, ev);
  }

  lemma RulesSnoc(o: Oracle, pre: seq<LifeEvent>, ev: LifeEvent)
    requires Allowed(o, pre + [ev])
    ensures Allowed(o, pre)
  {
    Last(pre, ev);
  }

  /** What the lemma below shows of a life that no update has stopped: on file is the registry of one scan of the
      last chain completed, with some of what is new in the last chain seen. */
  ghost predicate Underway(o: Oracle, evs: seq<LifeEvent>, part: seq<Registration>) {
    var batch, l := Batch(o, LastChain(evs)), Live(o, evs);
    batch.Some? ==>
      && Partly(o, l, batch.value, part) && Begins(part, Seen(evs), batch.value.height)
      && (l.memory.None? ==> evs != [] && evs[|evs| - 1].Kill?)
      && (Completed(evs) ==> part == [])
  }

  /** The parts of `Underway` before and after one more event. */
  lemma KillUnderway(o: Oracle, pre: seq<LifeEvent>, evs: seq<LifeEvent>, c: Chain, handled: nat,
      part: seq<Registration>)
      returns (now: seq<Registration>)
    requires evs == pre + [Kill(c, handled)] && SeenGrows(evs) && Restarted(evs) && AllHarmless(o, evs)
    requires Underway(o, pre, part)
    ensures Underway(o, evs, now)
  {
    Last(pre, Kill(c, handled));
    var base := Batch(o, LastChain(pre));
    now := part;
    if base.Some? {
      BatchHeight(o, LastChain(pre));
      LastIsSeen(pre);
      BeginsStill(part, Seen(pre), base.value.height, c);
      var height, log := LifeOnFile(o, pre);
      now := KillPartly(o, Live(o, pre), base.value, part, c, handled, height, log);
    }
  }

  lemma Last(pre: seq<LifeEvent>, ev: LifeEvent)
    ensures var evs := pre + [ev]; evs[..|evs| - 1] == pre && evs[|evs| - 1] == ev
  {
  }

  lemma ReopenUnderway(o: Oracle, pre: seq<LifeEvent>, evs: seq<LifeEvent>, part: seq<Registration>)
    requires evs == pre + [Reopen] && Underway(o, pre, part)
    ensures Underway(o, evs, part)
  {
    Last(pre, Reopen);
    var base := Batch(o, LastChain(pre));
    if base.Some? {
      ReopenPartly(o, pre, base.value, part);
    }
  }

  /** A completed update after a kill ends where the update from before it would have. */
  lemma ScanCompletes(o: Oracle, l: Life, base: Synced, part: seq<Registration>, c: Chain)
    requires Partly(o, l, base, part) && l.memory.Some? && part <= NewRegistrations(c, base.height)
    requires var m := Happen(o, l, Scan(c)); m.memory.Some? ==> SameSynced(Load(m.file), m.memory.value)
    ensures var m := Happen(o, l, Scan(c));
      && (m.memory.Some? <==> Update(o, base, c).Some?)
      && (m.memory.Some? ==> Partly(o, m, Update(o, base, c).value, []))
  {
    ScanPartly(o, l, base, part, c);
  }

  lemma ScanUnderway(o: Oracle, pre: seq<LifeEvent>, evs: seq<LifeEvent>, c: Chain, part: seq<Registration>)
    requires evs == pre + [Scan(c)] && SeenGrows(evs) && Restarted(evs) && Underway(o, pre, part)
    ensures Underway(o, evs, [])
    ensures Batch(o, LastChain(evs)).Some? <==> Batch(o, LastChain(pre)).Some? && Live(o, evs).memory.Some?
  {
    Last(pre, Scan(c));
    LastIsSeen(pre);
    BatchSnoc(o, LastChain(pre), c);
    var base := Batch(o, LastChain(pre));
    if base.Some? {
      BatchHeight(o, LastChain(pre));
      BeginsStill(part, Seen(pre), base.value.height, c);
      FileReplays(o, evs);
      ScanCompletes(o, Live(o, pre), base.value, part, c);
    }
  }

  lemma ReopenPartly(o: Oracle, pre: seq<LifeEvent>, base: Synced, part: seq<Registration>)
    requires Partly(o, Live(o, pre), base, part)
    ensures Partly(o, Happen(o, Live(o, pre), Reopen), base, part)
  {
    var height, log := LifeOnFile(o, pre);
    ReopenOnFile(o, Live(o, pre), height, log);
    LoadReplays(height, log);
  }

  /** What is asked of a life with kills. */
  ghost predicate Allowed(o: Oracle, evs: seq<LifeEvent>) {
    SeenGrows(evs) && Restarted(evs) && AllHarmless(o, evs)
  }

  ghost predicate Whole(o: Oracle, evs: seq<LifeEvent>, part: seq<Registration>) {
    Underway(o, evs, part) && (NeverFailed(o, evs) <==> Batch(o, LastChain(evs)).Some?)
  }

  lemma NextWhole(o: Oracle, pre: seq<LifeEvent>, ev: LifeEvent,
      part: seq<Registration>) returns (now: seq<Registration>)
    requires Allowed(o, pre + [ev]) && Whole(o, pre, part)
    ensures Whole(o, pre + [ev], now)
  {
    var evs := pre + [ev];
    FailedSnoc(o, pre, ev);
    ChainSnoc(pre, ev);
    match ev
    case Reopen =>
      ReopenUnderway(o, pre, evs, part);
      now := part;
    case Kill(c, handled) => now := KillUnderway(o, pre, evs, c, handled, part);
    case Scan(c) =>
      ScanUnderway(o, pre, evs, c, part);
      now := [];
  }

  lemma NothingWhole(o: Oracle)
    ensures Whole(o, [], [])
  {
    FileReplays(o, []);
  }

  ghost predicate Sound(o: Oracle, evs: seq<LifeEvent>) {
    Allowed(o, evs) ==> exists part :: Whole(o, evs, part)
  }

  lemma NextSound(o: Oracle, pre: seq<LifeEvent>, ev: LifeEvent)
    requires Sound(o, pre)
    ensures Sound(o, pre + [ev])
  {
    if Allowed(o, pre + [ev]) {
      RulesSnoc(o, pre, ev);
      var part :| Whole(o, pre, part);
      var now := NextWhole(o, pre, ev, part);
    }
  }

  /** What holds at the start and is kept by every event always holds. */
  lemma {:induction false} AlwaysHolds(good: seq<LifeEvent> -> bool, evs: seq<LifeEvent>)
    requires good([]) && forall pre, ev :: good(pre) ==> good(pre + [ev])
    ensures good(evs)
  {
    if evs != [] {
      var n := |evs| - 1;
      AlwaysHolds(good, evs[..n]);
      assert evs == evs[..n] + [evs[n]];
    }
  }

  lemma AlwaysSound(o: Oracle, evs: seq<LifeEvent>)
    ensures Sound(o, evs)
  {
    NothingWhole(o);
    forall pre, ev | Sound(o, pre) ensures Sound(o, pre + [ev]) {
      NextSound(o, pre, ev);
    }
    AlwaysHolds((es: seq<LifeEvent>) => Sound(o, es), evs);
  }

  /** Lives with kills in the middle of updates: if none of the kills would have a registration accepted that the
      killed update did not, no completed update ever stops the program if and only if one scan of the last chain
      succeeds; and after a completed update the registry is that of this one scan, up to ids and versions. */
  lemma KilledLifeIsBatch(o: Oracle, evs: seq<LifeEvent>)
    requires SeenGrows(evs) && Restarted(evs) && AllHarmless(o, evs)
    ensures var batch := Batch(o, LastChain(evs));
      && (NeverFailed(o, evs) <==> batch.Some?)
      && (batch.Some? && Completed(evs) ==>
        Live(o, evs).memory.Some? && SameSynced(Live(o, evs).memory.value, batch.value))
  {
    AlwaysSound(o, evs);
    var part :| Whole(o, evs, part);
  }

  // ---- a kill that does harm ----

  const LEAF: nat := BITS - 1

  /** The other address below the seed's last branching. */
  function Twin(p: Bits): Bits {
    Sibling(p, LEAF)
  }

  /** The address suggested next to a seed and its twin. */
  function Next(p: Bits): Bits {
    Padded(Sibling(p, LEAF - 1), LEAF, p[LEAF - 1])
  }

  lemma ThreeDiffer(p: Bits)
    ensures p != Twin(p) && p != Next(p) && Twin(p) != Next(p)
    ensures Sibling(p, LEAF - 1) <= Next(p)
  {
    assert Twin(p)[LEAF] != p[LEAF];
    assert Twin(p)[LEAF - 1] == p[LEAF - 1] != Next(p)[LEAF - 1];
  }

  /** Alone, an address is suggested its twin. */
  lemma SuggestsTwin(p: Bits)
    ensures Suggest({p}, p) == Some(Twin(p))
  {
    var keys := {p};
    assert Padded(Twin(p), BITS, p[LEAF]) == Twin(p);
    ThreeDiffer(p);
    assert Twin(p) !in keys && Sibling(p, LEAF) <= Twin(p);
    assert !Full(keys, Sibling(p, LEAF));
    var pivot := SearchStops(keys, p, 0);
    assert pivot == LEAF;
    assert !Occupied(keys, Sibling(p, LEAF)) by {
      if Sibling(p, LEAF) <= p {
        OnlyItself(Twin(p), p);
      }
    }
  }

  /** With its twin registered too, it is suggested the next one. */
  lemma SuggestsNext(p: Bits)
    ensures Suggest({p, Twin(p)}, p) == Some(Next(p))
  {
    var keys := {p, Twin(p)};
    ThreeDiffer(p);
    assert Next(p) !in keys;
    assert !Full(keys, Sibling(p, LEAF - 1));
    assert Full(keys, Sibling(p, LEAF)) by {
      forall k: Bits | Sibling(p, LEAF) <= k ensures k in keys {
        OnlyItself(Twin(p), k);
      }
    }
    var pivot := SearchStops(keys, p, 0);
    assert pivot == LEAF - 1;
    assert !Occupied(keys, Sibling(p, LEAF - 1)) by {
      assert Sibling(p, LEAF - 1)[LEAF - 1] != p[LEAF - 1] == Twin(p)[LEAF - 1];
    }
  }

  /** Three registrations, of a node at `a`, of a channel neighbour of it at the address suggested once the twin of
      `a` is taken, and of a stranger at that twin. */
  datatype Trio = Trio(a: Address, host: Key, guest: Key, stranger: Key)

  predicate Different(t: Trio) {
    t.host != t.guest && t.guest != t.stranger && t.stranger != t.host
  }

  function TwinOf(a: Address): Address {
    AddressOf(Twin(BitsOf(a)))
  }

  function NextOf(a: Address): Address {
    AddressOf(Next(BitsOf(a)))
  }

  function TrioOracle(t: Trio): Oracle {
    Oracle((a: Address, sig: Signature) =>
        if a == t.a then Some(t.host) else if a == NextOf(t.a) then Some(t.guest)
        else if a == TwinOf(t.a) then Some(t.stranger) else None,
      k => if k == t.guest then [t.host] else [])
  }

  /** What a registration at `a` in block 1 looks like. */
  function At(a: Address, id: TxID, sig: Signature): Registration {
    Registration(a, 1, id, sig, 0)
  }

  function Asked(t: Trio, id: TxID, sig: Signature): seq<Registration> {
    [At(t.a, id, sig), At(NextOf(t.a), id, sig), At(TwinOf(t.a), id, sig)]
  }

  lemma AddressesDiffer(a: Address)
    ensures a != TwinOf(a) && a != NextOf(a) && TwinOf(a) != NextOf(a)
    ensures BitsOf(TwinOf(a)) == Twin(BitsOf(a)) && BitsOf(NextOf(a)) == Next(BitsOf(a))
  {
    var p := BitsOf(a);
    ThreeDiffer(p);
    Inverses(a, Twin(p));
    Inverses(a, Next(p));
  }

  /** What is suggested to the node at `a` while it is alone, and then. */
  lemma SuggestedAlone(x: Index, a: Address)
    requires x.infos.Keys == {a}
    ensures Suggested(x, a) == Some(TwinOf(a))
  {
    assert Keys(x) == {BitsOf(a)};
    SuggestsTwin(BitsOf(a));
  }

  lemma SuggestedThen(x: Index, a: Address)
    requires x.infos.Keys == {a, TwinOf(a)}
    ensures Suggested(x, a) == Some(NextOf(a))
  {
    AddressesDiffer(a);
    assert Keys(x) == {BitsOf(a), Twin(BitsOf(a))};
    SuggestsNext(BitsOf(a));
  }

  function InfoAt(a: Address, k: Key, id: TxID): Info {
    Info(a, k, 1, id, 0)
  }

  /** Consulting one registered neighbour. */
  lemma ConsultOne(x: Index, n: Key, a: Address)
    requires n in x.addrOf && Suggested(x, x.addrOf[n]).Some?
    ensures Consult(x, [n], a) == Some((true, Suggested(x, x.addrOf[n]).value == a))
  {
    assert [n][..0] == [];
  }

  /** The verdict on the guest once the host is registered, by what is suggested to the host. */
  lemma GuestVerdict(t: Trio, x: Index, id: TxID, sig: Signature)
    requires Different(t) && t.host in x.addrOf && NextOf(t.a) !in x.infos && Suggested(x, x.addrOf[t.host]).Some?
    ensures Verify(TrioOracle(t), x, At(NextOf(t.a), id, sig))
         == if Suggested(x, x.addrOf[t.host]).value == NextOf(t.a) then Accepted(InfoAt(NextOf(t.a), t.guest, id)) else Rejected
  {
    AddressesDiffer(t.a);
    ConsultOne(x, t.host, NextOf(t.a));
  }

  /** With only the host registered, the guest is refused. */
  lemma GuestRefused(t: Trio, x: Index, id: TxID, sig: Signature)
    requires Different(t) && t.host in x.addrOf && x.addrOf[t.host] == t.a && x.infos.Keys == {t.a}
    ensures Verify(TrioOracle(t), x, At(NextOf(t.a), id, sig)) == Rejected
  {
    AddressesDiffer(t.a);
    SuggestedAlone(x, t.a);
    GuestVerdict(t, x, id, sig);
  }

  /** With the stranger registered too, it is accepted. */
  lemma GuestLetIn(t: Trio, x: Index, id: TxID, sig: Signature)
    requires Different(t) && t.host in x.addrOf && x.addrOf[t.host] == t.a && x.infos.Keys == {t.a, TwinOf(t.a)}
    ensures Verify(TrioOracle(t), x, At(NextOf(t.a), id, sig)) == Accepted(InfoAt(NextOf(t.a), t.guest, id))
  {
    AddressesDiffer(t.a);
    SuggestedThen(x, t.a);
    GuestVerdict(t, x, id, sig);
  }

  /** Host and stranger are accepted exactly if their addresses are free. */
  lemma OtherVerdicts(t: Trio, x: Index, id: TxID, sig: Signature)
    requires Different(t)
    ensures Verify(TrioOracle(t), x, At(t.a, id, sig))
         == if t.a in x.infos then Rejected else Accepted(InfoAt(t.a, t.host, id))
    ensures Verify(TrioOracle(t), x, At(TwinOf(t.a), id, sig))
         == if TwinOf(t.a) in x.infos then Rejected else Accepted(InfoAt(TwinOf(t.a), t.stranger, id))
  {
    AddressesDiffer(t.a);
  }

  /** Three registrations handled. */
  lemma ProcessThree(o: Oracle, x: Index, r: Registration, s: Registration, t: Registration)
    ensures Process(o, x, [r, s, t])
         == var y := Process(o, x, [r]);
            if y.None? then None
            else
              var z := Process(o, y.value, [s]);
              if z.None? then None else Process(o, z.value, [t])
  {
    assert [r, s, t] == [r] + ([s] + [t]);
    ProcessConcat(o, x, [r], [s] + [t]);
    var y := Process(o, x, [r]);
    if y.Some? {
      ProcessConcat(o, y.value, [s], [t]);
    }
  }

  /** Handling the three once leaves the guest out; handling them again lets it in. */
  lemma GuestComesLater(t: Trio, id: TxID, sig: Signature) returns (y: Index, z: Index)
    requires Different(t)
    ensures Process(TrioOracle(t), EMPTY, Asked(t, id, sig)) == Some(y) && NextOf(t.a) !in y.infos
    ensures Process(TrioOracle(t), y, Asked(t, id, sig)) == Some(z) && NextOf(t.a) in z.infos
  {
    var o := TrioOracle(t);
    var host, guest, stranger := At(t.a, id, sig), At(NextOf(t.a), id, sig), At(TwinOf(t.a), id, sig);
    AddressesDiffer(t.a);
    var x := Add(EMPTY, InfoAt(t.a, t.host, id));
    y := Add(x, InfoAt(TwinOf(t.a), t.stranger, id));
    z := Add(y, InfoAt(NextOf(t.a), t.guest, id));
    OtherVerdicts(t, EMPTY, id, sig);
    GuestRefused(t, x, id, sig);
    OtherVerdicts(t, x, id, sig);
    OtherVerdicts(t, y, id, sig);
    GuestLetIn(t, y, id, sig);
    OtherVerdicts(t, z, id, sig);
    ProcessThree(o, EMPTY, host, guest, stranger);
    ProcessThree(o, y, host, guest, stranger);
    ProcessOne(o, EMPTY, host);
    ProcessOne(o, x, guest);
    ProcessOne(o, x, stranger);
    ProcessOne(o, y, host);
    ProcessOne(o, y, guest);
    ProcessOne(o, z, stranger);
  }

  /** The transaction of a registration. */
  function TxAt(a: Address, id: TxID, sig: Signature): Tx {
    Tx(id, [RegistrationScript(0, a, sig), []])
  }

  /** A genesis block, and a block with the three registrations. */
  function TrioChain(t: Trio, id: TxID, sig: Signature): Chain {
    [[], [TxAt(t.a, id, sig), TxAt(NextOf(t.a), id, sig), TxAt(TwinOf(t.a), id, sig)]]
  }

  lemma InBlockSnoc(b: Block, tx: Tx, r: Registration, height: uint64)
    requires ParseTx(tx, height) == Some(r)
    ensures InBlock(b + [tx], height) == InBlock(b, height) + [r]
  {
    assert (b + [tx])[..|b|] == b;
  }

  lemma TrioIsNew(t: Trio, id: TxID, sig: Signature)
    ensures NewRegistrations(TrioChain(t, id, sig), 0) == Asked(t, id, sig)
  {
    var c := TrioChain(t, id, sig);
    ScriptRoundTrip(id, [], 1, 0, t.a, sig);
    ScriptRoundTrip(id, [], 1, 0, NextOf(t.a), sig);
    ScriptRoundTrip(id, [], 1, 0, TwinOf(t.a), sig);
    var host, guest, stranger := TxAt(t.a, id, sig), TxAt(NextOf(t.a), id, sig), TxAt(TwinOf(t.a), id, sig);
    InBlockSnoc([], host, At(t.a, id, sig), 1);
    InBlockSnoc([host], guest, At(NextOf(t.a), id, sig), 1);
    InBlockSnoc([host, guest], stranger, At(TwinOf(t.a), id, sig), 1);
    assert [] + [host] == [host] && [host] + [guest] == [host, guest];
    assert c[1] == [host, guest] + [stranger];
    assert InRange(c, 1, 1) == [];
  }

  lemma LiveSnoc(o: Oracle, pre: seq<LifeEvent>, ev: LifeEvent)
    ensures Live(o, pre + [ev]) == Happen(o, Live(o, pre), ev)
  {
    Last(pre, ev);
  }

  lemma LiveThree(o: Oracle, e: LifeEvent, f: LifeEvent, g: LifeEvent)
    ensures Live(o, [e] + [f] + [g]) == Happen(o, Happen(o, Happen(o, Live(o, []), e), f), g)
  {
    assert [] + [e] == [e];
    LiveSnoc(o, [], e);
    LiveSnoc(o, [e], f);
    LiveSnoc(o, [e] + [f], g);
  }

  /** A program killed when it had handled all that is new, started again, and brought up to the same chain. */
  lemma HandledTwice(o: Oracle, l: Life, c: Chain, n: nat, y: Index, height: uint64, log: seq<Info>) returns (m: Life)
    requires OnFile(l, height, log) && l.memory.Some?
    requires First(NewRegistrations(c, l.memory.value.height), n) == NewRegistrations(c, l.memory.value.height)
    requires Process(o, l.memory.value.index, NewRegistrations(c, l.memory.value.height)) == Some(y)
    requires Process(o, y, NewRegistrations(c, l.memory.value.height)).Some?
    ensures m == Happen(o, Happen(o, Happen(o, l, Kill(c, n)), Reopen), Scan(c)) && m.memory.Some?
    ensures SameIndex(m.memory.value.index, Process(o, y, NewRegistrations(c, l.memory.value.height)).value)
  {
    KillLoads(o, l, c, n, height, log);
    m := Happen(o, Happen(o, Happen(o, l, Kill(c, n)), Reopen), Scan(c));
    SameUpdate(o, Load(Happen(o, l, Kill(c, n)).file), Synced(y, l.memory.value.height), c);
  }

  /** A kill may do harm: the program is killed with the three registrations handled, is started again, and scans the
      same chain to its end. The guest is registered, which it is not in any life without the kill. */
  lemma RescanMayAccept(t: Trio, id: TxID, sig: Signature)
    requires Different(t)
    ensures var o, c := TrioOracle(t), TrioChain(t, id, sig);
      var l := Live(o, [Kill(c, 3)] + [Reopen] + [Scan(c)]);
      && l.memory.Some? && NextOf(t.a) in l.memory.value.index.infos
      && Batch(o, Some(c)).Some? && NextOf(t.a) !in Batch(o, Some(c)).value.index.infos
  {
    var o, c := TrioOracle(t), TrioChain(t, id, sig);
    TrioIsNew(t, id, sig);
    var y, z := GuestComesLater(t, id, sig);
    assert Live(o, []).memory == Some(Synced(EMPTY, 0));
    var height, log := LifeOnFile(o, []);
    var l := HandledTwice(o, Live(o, []), c, 3, y, height, log);
    LiveThree(o, Kill(c, 3), Reopen, Scan(c));
  }
}
