/** What survives on disk: the address file, appended to as registrations are accepted, and the routing
    file, written over on exit. */
module Restart {
  import opened Types
  import opened Numerals
  import opened BitAddress
  import opened RoutingTable
  import opened Codec
  import opened Registry

  // ---- reading a file record by record ----

  function Zeros(n: nat): (r: Bytes)
    ensures |r| == n
  {
    seq(n, _ => 0)
  }

  /** How many bytes one read of at most `size` takes from the rest of a file. */
  function Taken(rest: Bytes, size: nat): (r: nat)
    ensures r <= |rest| && r <= size
  {
    if |rest| < size then |rest| else size
  }

  /** What such a read leaves in the buffer: at the end of the file it fills only part of it. */
  function Filled(rest: Bytes, buffer: Bytes): (r: Bytes)
    ensures |r| == |buffer|
  {
    rest[..Taken(rest, |buffer|)] + buffer[Taken(rest, |buffer|)..]
  }

  /** The contents of the buffer after each read, to the end of the file. */
  function Chunks(rest: Bytes, buffer: Bytes): (r: seq<Bytes>)
    requires buffer != []
    ensures forall i :: 0 <= i < |r| ==> |r[i]| == |buffer|
    decreases |rest|
  {
    if rest == [] then []
    else
      var filled := Filled(rest, buffer);
      [filled] + Chunks(rest[Taken(rest, |buffer|)..], filled)
  }

  function Join(records: seq<Bytes>): Bytes {
    if records == [] then [] else records[0] + Join(records[1..])
  }

  lemma {:induction false} JoinSnoc(records: seq<Bytes>, record: Bytes)
    ensures Join(records + [record]) == Join(records) + record
  {
    if records == [] {
      assert [record][1..] == [];
    } else {
      assert (records + [record])[1..] == records[1..] + [record];
      JoinSnoc(records[1..], record);
    }
  }

  lemma FilledWhole(record: Bytes, more: Bytes, buffer: Bytes)
    requires |record| == |buffer|
    ensures Filled(record + more, buffer) == record && (record + more)[Taken(record + more, |buffer|)..] == more
  {
    assert (record + more)[..|buffer|] == record;
  }

  /** Whole records come back as they were written. */
  lemma {:induction false} ChunksOfJoin(records: seq<Bytes>, buffer: Bytes)
    requires buffer != [] && forall i :: 0 <= i < |records| ==> |records[i]| == |buffer|
    ensures Chunks(Join(records), buffer) == records
    decreases |records|
  {
    if records != [] {
      FilledWhole(records[0], Join(records[1..]), buffer);
      ChunksOfJoin(records[1..], records[0]);
    }
  }

  /** The buffer as the last of some reads left it. */
  function Left(records: seq<Bytes>, buffer: Bytes): Bytes {
    if records == [] then buffer else records[|records| - 1]
  }

  /** After whole records a part of one is read over the record before it, or over the empty buffer. */
  lemma {:induction false} ChunksOfCut(records: seq<Bytes>, part: Bytes, buffer: Bytes)
    requires 0 < |part| < |buffer| && forall i :: 0 <= i < |records| ==> |records[i]| == |buffer|
    ensures Chunks(Join(records) + part, buffer) == records + [part + Left(records, buffer)[|part|..]]
    decreases |records|
  {
    if records == [] {
      assert [] + part == part;
      CutChunk(part, buffer);
    } else {
      var more := Join(records[1..]) + part;
      assert Join(records) + part == records[0] + more;
      FilledWhole(records[0], more, buffer);
      ChunksOfCut(records[1..], part, records[0]);
      assert records == [records[0]] + records[1..];
    }
  }

  lemma CutChunk(part: Bytes, buffer: Bytes)
    requires 0 < |part| < |buffer|
    ensures Chunks(part, buffer) == [part + buffer[|part|..]]
  {
    assert part[..|part|] == part && part[|part|..] == [];
  }

  // ---- the address file ----

  function InfoRecords(infos: seq<Info>): (r: seq<Bytes>)
    ensures |r| == |infos| && forall i :: 0 <= i < |r| ==> |r[i]| == INFO_SIZE && r[i] == SerializeInfo(infos[i])
  {
    seq(|infos|, i requires 0 <= i < |infos| => SerializeInfo(infos[i]))
  }

  /** The file after the infos `log` were appended and the height last written in place. */
  function AddressFile(height: uint64, log: seq<Info>): Bytes {
    LE(height, 8) + Join(InfoRecords(log))
  }

  /** Writing the height at the start of the file leaves the rest. */
  function WriteHeight(file: Bytes, height: uint64): Bytes {
    if |file| <= HEIGHT_SIZE then LE(height, 8) else LE(height, 8) + file[HEIGHT_SIZE..]
  }

  lemma WriteHeightKeepsRecords(h: uint64, height: uint64, log: seq<Info>)
    ensures WriteHeight(AddressFile(h, log), height) == AddressFile(height, log)
    ensures WriteHeight([], height) == AddressFile(height, [])
  {
    assert AddressFile(h, log)[HEIGHT_SIZE..] == Join(InfoRecords(log));
  }

  lemma AppendRecord(height: uint64, log: seq<Info>, i: Info)
    ensures AddressFile(height, log) + SerializeInfo(i) == AddressFile(height, log + [i])
  {
    assert InfoRecords(log + [i]) == InfoRecords(log) + [SerializeInfo(i)];
    JoinSnoc(InfoRecords(log), SerializeInfo(i));
  }

  /** The address file: the height, low byte first, and then the records one after the other. */
  lemma {:induction false} AddressFileLayout(height: uint64, log: seq<Info>, i: nat)
    requires i < |log|
    ensures var file := AddressFile(height, log);
      && |file| == HEIGHT_SIZE + INFO_SIZE * |log| && LittleAt(file, 0, height, HEIGHT_SIZE)
      && file[HEIGHT_SIZE + INFO_SIZE * i..HEIGHT_SIZE + INFO_SIZE * (i + 1)] == SerializeInfo(log[i])
  {
    var file, n := AddressFile(height, log), |log| - 1;
    var front := AddressFile(height, log[..n]);
    assert log == log[..n] + [log[n]];
    AppendRecord(height, log[..n], log[n]);
    AddressFileSize(height, log[..n]);
    if i < n {
      AddressFileLayout(height, log[..n], i);
      FrontSlice(front, SerializeInfo(log[n]), HEIGHT_SIZE + INFO_SIZE * i, HEIGHT_SIZE + INFO_SIZE * (i + 1));
    } else {
      BackSlice(front, SerializeInfo(log[n]));
    }
    assert file[0..HEIGHT_SIZE] == LE(height, HEIGHT_SIZE);
    IsLittleAt(file, 0, height, HEIGHT_SIZE);
  }

  lemma {:induction false} AddressFileSize(height: uint64, log: seq<Info>)
    ensures |AddressFile(height, log)| == HEIGHT_SIZE + INFO_SIZE * |log|
  {
    if log != [] {
      var n := |log| - 1;
      AddressFileSize(height, log[..n]);
      assert log == log[..n] + [log[n]];
      AppendRecord(height, log[..n], log[n]);
    }
  }

  function ReadInfos(records: seq<Bytes>): (r: seq<Info>)
    requires forall i :: 0 <= i < |records| ==> |records[i]| == INFO_SIZE
    ensures |r| == |records| && forall i :: 0 <= i < |r| ==> r[i] == DeserializeInfo(records[i])
  {
    seq(|records|, i requires 0 <= i < |records| => DeserializeInfo(records[i]))
  }

  /** All registrations in a file body. */
  function Recorded(body: Bytes): seq<Info> {
    ReadInfos(Chunks(body, Zeros(INFO_SIZE)))
  }

  /** After loading `done` of the body of an address file, the rest is still to be read. */
  ghost predicate InfosLeft(body: Bytes, done: seq<Info>, rest: Bytes, buffer: Bytes) {
    |buffer| == INFO_SIZE && Recorded(body) == done + ReadInfos(Chunks(rest, buffer))
  }

  lemma NextInfo(rest: Bytes, buffer: Bytes)
    requires rest != [] && |buffer| == INFO_SIZE
    ensures var filled := Filled(rest, buffer);
      ReadInfos(Chunks(rest, buffer)) == [DeserializeInfo(filled)] + ReadInfos(Chunks(rest[Taken(rest, INFO_SIZE)..], filled))
  {
  }

  lemma AppendRest<T>(done: seq<T>, next: T, rest: seq<T>)
    ensures done + ([next] + rest) == (done + [next]) + rest
  {
  }

  /** Read the next record of an address file into the buffer. */
  method ReadInfo(rest: Bytes, buffer: Bytes, ghost body: Bytes, ghost done: seq<Info>)
      returns (i: Info, more: Bytes, filled: Bytes)
    requires rest != [] && InfosLeft(body, done, rest, buffer)
    ensures InfosLeft(body, done + [i], more, filled) && |more| < |rest|
  {
    filled := Filled(rest, buffer);
    more := rest[Taken(rest, INFO_SIZE)..];
    i := DeserializeInfo(filled);
    NextInfo(rest, buffer);
    AppendRest(done, i, ReadInfos(Chunks(more, filled)));
  }

  lemma NoInfosLeft(body: Bytes, done: seq<Info>, buffer: Bytes)
    requires InfosLeft(body, done, [], buffer)
    ensures Recorded(body) == done
  {
    assert done + [] == done;
  }

  function AddAll(x: Index, infos: seq<Info>): Index
    decreases |infos|
  {
    if infos == [] then x else Add(AddAll(x, infos[..|infos| - 1]), infos[|infos| - 1])
  }

  /** The height at the start of a file that is not empty. */
  function HeightIn(file: Bytes): uint64 {
    GetLE64(Filled(file, Zeros(HEIGHT_SIZE)))
  }

  lemma {:induction false} ZerosAbove(bs: Bytes, n: nat)
    ensures FromLE(bs + Zeros(n)) == FromLE(bs)
  {
    if bs != [] {
      ZerosAbove(bs[1..], n);
      assert (bs + Zeros(n))[1..] == bs[1..] + Zeros(n);
    } else if n > 0 {
      assert (bs + Zeros(n))[1..] == bs + Zeros(n - 1);
      ZerosAbove(bs, n - 1);
      ZeroByte();
    }
  }

  /** The height of a file that is cut in its height. */
  lemma CutHeight(file: Bytes)
    requires 0 < |file| <= HEIGHT_SIZE
    ensures HeightIn(file) == FromLE(file)
  {
    var n := HEIGHT_SIZE - |file|;
    assert Filled(file, Zeros(HEIGHT_SIZE)) == file + Zeros(n);
    ZerosAbove(file, n);
  }

  /** What is read after the height, which is written back first. */
  function BodyOf(file: Bytes): Bytes {
    WriteHeight(file, HeightIn(file))[Taken(file, HEIGHT_SIZE)..]
  }

  /** Starting up: the height and the index that a file is read into. */
  function Load(file: Bytes): Synced {
    if file == [] then Synced(EMPTY, 0) else Synced(AddAll(EMPTY, Recorded(BodyOf(file))), HeightIn(file))
  }

  /** The same registration, but for the transaction id and the version. */
  predicate SameCore(i: Info, j: Info) {
    i.address == j.address && i.nodePubKey == j.nodePubKey && i.height == j.height
  }

  /** Indexes that differ in transaction ids and versions at most. */
  ghost predicate SameIndex(x: Index, y: Index) {
    x.addrOf == y.addrOf && x.infos.Keys == y.infos.Keys && forall a :: a in x.infos ==> SameCore(x.infos[a], y.infos[a])
  }

  /** The same registry up to transaction ids and versions. */
  ghost predicate SameSynced(s: Synced, t: Synced) {
    s.height == t.height && SameIndex(s.index, t.index)
  }

  lemma SameAdd(x: Index, y: Index, i: Info, j: Info)
    requires SameIndex(x, y) && SameCore(i, j)
    ensures SameIndex(Add(x, i), Add(y, j))
  {
  }

  lemma {:induction false} SameAddAll(infos: seq<Info>, read: seq<Info>)
    requires |read| == |infos| && forall i :: 0 <= i < |infos| ==> SameCore(read[i], infos[i])
    ensures SameIndex(AddAll(EMPTY, read), AddAll(EMPTY, infos))
    decreases |infos|
  {
    if infos != [] {
      var n := |infos| - 1;
      SameAddAll(infos[..n], read[..n]);
      SameAdd(AddAll(EMPTY, read[..n]), AddAll(EMPTY, infos[..n]), read[n], infos[n]);
    }
  }

  /** The parts of a file as it is read. */
  lemma FileParts(height: uint64, log: seq<Info>)
    ensures var file := AddressFile(height, log);
      file != [] && HeightIn(file) == height && BodyOf(file) == Join(InfoRecords(log))
  {
    var file := AddressFile(height, log);
    FilledWhole(LE(height, 8), Join(InfoRecords(log)), Zeros(HEIGHT_SIZE));
    Fixed64(height);
    WriteHeightKeepsRecords(height, height, log);
  }

  /** What is read from a file is what was written to it, up to transaction ids and versions. */
  lemma RecordedAgain(height: uint64, log: seq<Info>)
    ensures var read := Recorded(BodyOf(AddressFile(height, log)));
      |read| == |log| && forall i :: 0 <= i < |log| ==> SameCore(read[i], log[i])
  {
    FileParts(height, log);
    ChunksOfJoin(InfoRecords(log), Zeros(INFO_SIZE));
    var read := Recorded(BodyOf(AddressFile(height, log)));
    forall i | 0 <= i < |log| ensures SameCore(read[i], log[i]) {
      InfoRoundTrip(log[i]);
    }
  }

  /** A file reads back as the height and the index it was written from, up to transaction ids and
      versions. */
  lemma LoadReplays(height: uint64, log: seq<Info>)
    ensures SameSynced(Load(AddressFile(height, log)), Synced(AddAll(EMPTY, log), height))
  {
    FileParts(height, log);
    RecordedAgain(height, log);
    SameAddAll(log, Recorded(BodyOf(AddressFile(height, log))));
  }

  // ---- what handling registrations leaves on the file ----

  /** Bringing the file up to date while the registry is: one record per accepted registration. */
  lemma {:induction false} LogReplays(o: Oracle, x: Index, rs: seq<Registration>, before: seq<Info>)
    requires x == AddAll(EMPTY, before) && Process(o, x, rs).Some?
    ensures Process(o, x, rs).value == AddAll(EMPTY, before + Log(o, x, rs))
    decreases |rs|
  {
    if rs == [] {
      assert before + [] == before;
    } else {
      match Verify(o, x, rs[0])
      case Rejected => LogReplays(o, x, rs[1..], before);
      case Accepted(i) =>
        assert (before + [i])[..|before|] == before;
        LogReplays(o, Add(x, i), rs[1..], before + [i]);
        assert before + [i] + Log(o, Add(x, i), rs[1..]) == before + Log(o, x, rs);
    }
  }

  /** No two registrations are for the same address. */
  ghost predicate OncePerAddress(infos: seq<Info>) {
    forall i, j :: 0 <= i < j < |infos| ==> infos[i].address != infos[j].address
  }

  lemma {:induction false} LogIsNew(o: Oracle, x: Index, rs: seq<Registration>)
    ensures OncePerAddress(Log(o, x, rs)) && forall i :: i in Log(o, x, rs) ==> i.address !in x.infos
    decreases |rs|
  {
    if rs != [] {
      match Verify(o, x, rs[0])
      case Fatal =>
      case Rejected => LogIsNew(o, x, rs[1..]);
      case Accepted(i) =>
        LogIsNew(o, Add(x, i), rs[1..]);
        forall j | j in Log(o, Add(x, i), rs[1..]) ensures j.address != i.address && j.address !in x.infos {
          assert i.address in Add(x, i).infos;
        }
    }
  }

  /** The addresses in the indexes are those added. */
  lemma {:induction false} AddAllHas(infos: seq<Info>, a: Address)
    ensures a in AddAll(EMPTY, infos).infos <==> exists i :: 0 <= i < |infos| && infos[i].address == a
    decreases |infos|
  {
    if infos != [] {
      AddAllHas(infos[..|infos| - 1], a);
    }
  }

  /** Adding registrations, none for the address of another, keeps the indexes in agreement. */
  lemma {:induction false} AddAllAgrees(infos: seq<Info>)
    requires OncePerAddress(infos)
    ensures Agree(AddAll(EMPTY, infos))
    decreases |infos|
  {
    if infos != [] {
      var n := |infos| - 1;
      AddAllAgrees(infos[..n]);
      AddAllHas(infos[..n], infos[n].address);
      AddKeeps(AddAll(EMPTY, infos[..n]), infos[n]);
    }
  }

  lemma SameAgrees(x: Index, y: Index)
    requires SameIndex(x, y) && Agree(y)
    ensures Agree(x)
  {
    forall k ensures KeyAgrees(x, k) {
      assert KeyAgrees(y, k);
    }
    forall a ensures InfoAgrees(x, a) {
      assert InfoAgrees(y, a);
    }
  }

  lemma SameKeys(x: Index, y: Index)
    requires SameIndex(x, y)
    ensures Keys(x) == Keys(y)
  {
    forall p: Bits ensures p in Keys(x) <==> p in Keys(y) {
      Inverses(AddressOf(p), p);
      assert AddressOf(p) in x.infos <==> AddressOf(p) in y.infos;
    }
  }

  lemma {:induction false} SameConsult(x: Index, y: Index, ns: seq<Key>, a: Address)
    requires SameIndex(x, y)
    ensures Consult(x, ns, a) == Consult(y, ns, a)
  {
    SameKeys(x, y);
    if ns != [] {
      SameConsult(x, y, ns[..|ns| - 1], a);
    }
  }

  lemma SameVerify(o: Oracle, x: Index, y: Index, r: Registration)
    requires SameIndex(x, y)
    ensures Verify(o, x, r) == Verify(o, y, r)
  {
    match o.signer(r.address, r.sig)
    case None =>
    case Some(key) => SameConsult(x, y, o.neighbours(key), r.address);
  }

  /** A restart is not noticed later: registrations handled after it lead to the same verdicts and to
      the same indexes, up to transaction ids and versions. */
  lemma {:induction false} RestartTransparent(o: Oracle, x: Index, y: Index, rs: seq<Registration>)
    requires SameIndex(x, y)
    ensures Process(o, x, rs).Some? <==> Process(o, y, rs).Some?
    ensures Log(o, x, rs) == Log(o, y, rs)
    ensures Process(o, x, rs).Some? ==> SameIndex(Process(o, x, rs).value, Process(o, y, rs).value)
    decreases |rs|
  {
    if rs != [] {
      SameVerify(o, x, y, rs[0]);
      match Verify(o, x, rs[0])
      case Fatal =>
      case Rejected => RestartTransparent(o, x, y, rs[1..]);
      case Accepted(i) =>
        SameAdd(x, y, i, i);
        RestartTransparent(o, Add(x, i), Add(y, i), rs[1..]);
    }
  }

  lemma SameUpdate(o: Oracle, s: Synced, t: Synced, c: Chain)
    requires SameSynced(s, t)
    ensures Update(o, s, c).Some? <==> Update(o, t, c).Some?
    ensures Update(o, s, c).Some? ==> SameSynced(Update(o, s, c).value, Update(o, t, c).value)
  {
    RestartTransparent(o, s.index, t.index, NewRegistrations(c, s.height));
  }

  // ---- any number of scans and restarts ----

  /** The program brings its registry up to a chain, or is killed while doing so with some registrations handled, or
      is started again. */
  datatype LifeEvent = Scan(chain: Chain) | Kill(chain: Chain, handled: nat) | Reopen

  /** The registry in memory, none once the program has stopped, and the address file. */
  datatype Life = Life(memory: Option<Synced>, file: Bytes)

  /** What one update accepts. */
  ghost function Accepts(o: Oracle, s: Synced, c: Chain): seq<Info> {
    Log(o, s.index, NewRegistrations(c, s.height))
  }

  function First(rs: seq<Registration>, n: nat): (r: seq<Registration>)
    ensures r <= rs
  {
    if n < |rs| then rs[..n] else rs
  }

  /** What the first part of an update accepts. */
  ghost function AcceptsFirst(o: Oracle, s: Synced, c: Chain, handled: nat): seq<Info> {
    Log(o, s.index, First(NewRegistrations(c, s.height), handled))
  }

  /** An update appends what it accepts to the file, and writes the height unless it stops the program. */
  ghost function Happen(o: Oracle, l: Life, ev: LifeEvent): Life {
    match ev
    case Reopen => Life(Some(Load(l.file)), WriteHeight(l.file, Load(l.file).height))
    case Scan(c) =>
      if l.memory.None? then l
      else
        var appended := l.file + Join(InfoRecords(Accepts(o, l.memory.value, c)));
        var s := Update(o, l.memory.value, c);
        Life(s, if s.Some? then WriteHeight(appended, s.value.height) else appended)
    case Kill(c, handled) =>
      if l.memory.None? then l
      else Life(None, l.file + Join(InfoRecords(AcceptsFirst(o, l.memory.value, c, handled))))
  }

  /** A life of the program, from its first start without a file. */
  ghost function Live(o: Oracle, evs: seq<LifeEvent>): Life {
    if evs == [] then Life(Some(Synced(EMPTY, 0)), WriteHeight([], 0))
    else Happen(o, Live(o, evs[..|evs| - 1]), evs[|evs| - 1])
  }

  /** The file holds `height` and `log`, no address twice, and what is in memory is what they replay to, up to
      transaction ids and versions. */
  ghost predicate OnFile(l: Life, height: uint64, log: seq<Info>) {
    && l.file == AddressFile(height, log) && OncePerAddress(log)
    && (l.memory.Some? ==> SameSynced(l.memory.value, Synced(AddAll(EMPTY, log), height)))
  }

  lemma AppendRecords(height: uint64, log: seq<Info>, more: seq<Info>)
    ensures AddressFile(height, log) + Join(InfoRecords(more)) == AddressFile(height, log + more)
  {
    assert InfoRecords(log + more) == InfoRecords(log) + InfoRecords(more);
    JoinConcat(InfoRecords(log), InfoRecords(more));
  }

  lemma {:induction false} JoinConcat(a: seq<Bytes>, b: seq<Bytes>)
    ensures Join(a + b) == Join(a) + Join(b)
  {
    if a == [] {
      assert a + b == b;
    } else {
      assert (a + b)[1..] == a[1..] + b;
      JoinConcat(a[1..], b);
    }
  }

  /** What an update accepts is new, and replays with what was there before. */
  lemma AcceptedReplays(o: Oracle, x: Index, rs: seq<Registration>, log: seq<Info>)
    requires SameIndex(x, AddAll(EMPTY, log)) && OncePerAddress(log)
    ensures OncePerAddress(log + Log(o, x, rs))
    ensures Process(o, x, rs).Some? ==> SameIndex(Process(o, x, rs).value, AddAll(EMPTY, log + Log(o, x, rs)))
  {
    var y, more := AddAll(EMPTY, log), Log(o, x, rs);
    LogIsNew(o, x, rs);
    forall i, j | 0 <= i < j < |log + more| ensures (log + more)[i].address != (log + more)[j].address {
      if i < |log| <= j {
        AddAllHas(log, log[i].address);
        assert more[j - |log|] in more;
      }
    }
    RestartTransparent(o, x, y, rs);
    if Process(o, x, rs).Some? {
      LogReplays(o, y, rs, log);
    }
  }

  lemma UpdateReplays(o: Oracle, s: Synced, c: Chain, height: uint64, log: seq<Info>)
    requires SameSynced(s, Synced(AddAll(EMPTY, log), height)) && OncePerAddress(log)
    ensures var all := log + Accepts(o, s, c);
      && OncePerAddress(all)
      && (Update(o, s, c).Some? ==> SameSynced(Update(o, s, c).value, Synced(AddAll(EMPTY, all), Tip(c))))
  {
    AcceptedReplays(o, s.index, NewRegistrations(c, s.height), log);
  }

  lemma UpdateWrites(o: Oracle, l: Life, c: Chain, height: uint64, log: seq<Info>)
    requires l.file == AddressFile(height, log) && l.memory.Some?
    ensures var s, m := l.memory.value, Happen(o, l, Scan(c));
      m.file == AddressFile(if m.memory.Some? then Tip(c) else height, log + Accepts(o, s, c))
  {
    var more := Accepts(o, l.memory.value, c);
    AppendRecords(height, log, more);
    WriteHeightKeepsRecords(height, Tip(c), log + more);
  }

  lemma ScanOnFile(o: Oracle, l: Life, c: Chain, height: uint64, log: seq<Info>)
    requires OnFile(l, height, log) && l.memory.Some?
    ensures var s, m := l.memory.value, Happen(o, l, Scan(c));
      OnFile(m, if m.memory.Some? then Tip(c) else height, log + Accepts(o, s, c))
  {
    UpdateWrites(o, l, c, height, log);
    UpdateReplays(o, l.memory.value, c, height, log);
  }

  lemma KilledIsNew(o: Oracle, s: Synced, c: Chain, handled: nat, height: uint64, log: seq<Info>)
    requires SameSynced(s, Synced(AddAll(EMPTY, log), height)) && OncePerAddress(log)
    ensures OncePerAddress(log + AcceptsFirst(o, s, c, handled))
  {
    AcceptedReplays(o, s.index, First(NewRegistrations(c, s.height), handled), log);
  }

  lemma KillOnFile(o: Oracle, l: Life, c: Chain, handled: nat, height: uint64, log: seq<Info>)
    requires OnFile(l, height, log) && l.memory.Some?
    ensures OnFile(Happen(o, l, Kill(c, handled)), height, log + AcceptsFirst(o, l.memory.value, c, handled))
  {
    AppendRecords(height, log, AcceptsFirst(o, l.memory.value, c, handled));
    KilledIsNew(o, l.memory.value, c, handled, height, log);
  }

  lemma ReopenOnFile(o: Oracle, l: Life, height: uint64, log: seq<Info>)
    requires OnFile(l, height, log)
    ensures OnFile(Happen(o, l, Reopen), height, log)
  {
    LoadReplays(height, log);
    WriteHeightKeepsRecords(height, height, log);
  }

  lemma {:induction false} LifeOnFile(o: Oracle, evs: seq<LifeEvent>) returns (height: uint64, log: seq<Info>)
    ensures OnFile(Live(o, evs), height, log)
  {
    if evs == [] {
      height, log := 0, [];
      WriteHeightKeepsRecords(0, 0, []);
    } else {
      var l, ev := Live(o, evs[..|evs| - 1]), evs[|evs| - 1];
      height, log := LifeOnFile(o, evs[..|evs| - 1]);
      match ev
      case Reopen => ReopenOnFile(o, l, height, log);
      case Scan(c) =>
        if l.memory.Some? {
          ScanOnFile(o, l, c, height, log);
          height, log := if Live(o, evs).memory.Some? then Tip(c) else height, log + Accepts(o, l.memory.value, c);
        }
      case Kill(c, handled) =>
        if l.memory.Some? {
          KillOnFile(o, l, c, handled, height, log);
          log := log + AcceptsFirst(o, l.memory.value, c, handled);
        }
    }
  }

  /** In every life, after any number of updates and restarts and whatever stops the program, the address file reads
      back as the registry in memory, up to transaction ids and versions; the indexes agree; and no address is read
      twice, so that every record finds its address free. */
  lemma FileReplays(o: Oracle, evs: seq<LifeEvent>)
    ensures var l := Live(o, evs);
      && OncePerAddress(Recorded(BodyOf(l.file))) && Agree(Load(l.file).index)
      && (l.memory.Some? ==> SameSynced(Load(l.file), l.memory.value) && Agree(l.memory.value.index))
  {
    var l := Live(o, evs);
    var height, log := LifeOnFile(o, evs);
    LoadReplays(height, log);
    RecordedAgain(height, log);
    AddAllAgrees(log);
    SameAgrees(Load(l.file).index, AddAll(EMPTY, log));
    if l.memory.Some? {
      SameAgrees(l.memory.value.index, AddAll(EMPTY, log));
    }
  }

  /** An update that stops the program leaves the height on file as it was, and with it what had been accepted before:
      the next start scans the same blocks again. */
  lemma StoppedUpdate(o: Oracle, evs: seq<LifeEvent>, c: Chain, a: Address)
    requires Live(o, evs).memory.Some? && Update(o, Live(o, evs).memory.value, c).None?
    ensures var s, m := Live(o, evs).memory.value, Happen(o, Live(o, evs), Scan(c));
      && m.memory.None? && Load(m.file).height == s.height
      && (a in Load(m.file).index.infos <==> a in s.index.infos || exists i :: i in Accepts(o, s, c) && i.address == a)
  {
    var height, log := LifeOnFile(o, evs);
    var l := Live(o, evs);
    var more := Accepts(o, l.memory.value, c);
    UpdateWrites(o, l, c, height, log);
    LoadReplays(height, log + more);
    AddAllHas(log, a);
    AddAllHas(log + more, a);
    InEither(log, more, a);
  }

  lemma InEither(log: seq<Info>, more: seq<Info>, a: Address)
    ensures (exists i :: 0 <= i < |log + more| && (log + more)[i].address == a) <==>
      (exists i :: 0 <= i < |log| && log[i].address == a) || exists i :: i in more && i.address == a
  {
    if i :| 0 <= i < |log| && log[i].address == a {
      assert (log + more)[i].address == a;
    }
    if i :| i in more && i.address == a {
      var j :| 0 <= j < |more| && more[j] == i;
      assert (log + more)[|log| + j].address == a;
    }
  }

  /** The last chain scanned. */
  function LastChain(evs: seq<LifeEvent>): Option<Chain> {
    if evs == [] then None
    else match evs[|evs| - 1]
      case Scan(c) => Some(c)
      case _ => LastChain(evs[..|evs| - 1])
  }

  /** Each chain scanned extends the one scanned before. */
  ghost predicate ChainGrows(evs: seq<LifeEvent>) {
    evs == [] ||
      (ChainGrows(evs[..|evs| - 1]) &&
        (evs[|evs| - 1].Scan? && LastChain(evs[..|evs| - 1]).Some? ==>
          LastChain(evs[..|evs| - 1]).value <= evs[|evs| - 1].chain))
  }

  /** The program is never killed in the middle of an update. */
  ghost predicate NeverKilled(evs: seq<LifeEvent>) {
    forall i :: 0 <= i < |evs| ==> !evs[i].Kill?
  }

  /** The program has never stopped by itself. */
  ghost predicate NeverStopped(o: Oracle, evs: seq<LifeEvent>) {
    Live(o, evs).memory.Some? && (evs != [] ==> NeverStopped(o, evs[..|evs| - 1]))
  }

  /** One scan of all blocks of a chain from the first. */
  ghost function Batch(o: Oracle, c: Option<Chain>): Option<Synced> {
    match c
    case None => Some(Synced(EMPTY, 0))
    case Some(chain) => Update(o, Synced(EMPTY, 0), chain)
  }

  lemma BatchSnoc(o: Oracle, before: Option<Chain>, c: Chain)
    requires before.Some? ==> before.value <= c
    ensures Batch(o, Some(c)) == match Batch(o, before) case None => None case Some(s) => Update(o, s, c)
  {
    if before.Some? {
      UpdateTwice(o, Synced(EMPTY, 0), before.value, c);
    }
  }

  /** Any schedule of updates and restarts over a growing chain is one batch scan: the program never stops by itself
      if and only if the batch scan succeeds, and then its registry is that of the batch scan, up to the transaction
      ids and versions that restarts lose. */
  lemma {:induction false} LifeIsBatch(o: Oracle, evs: seq<LifeEvent>)
    requires ChainGrows(evs) && NeverKilled(evs)
    ensures var batch := Batch(o, LastChain(evs));
      && (NeverStopped(o, evs) <==> batch.Some?)
      && (batch.Some? ==> Live(o, evs).memory.Some? && SameSynced(Live(o, evs).memory.value, batch.value))
  {
    if evs != [] {
      var pre, ev := evs[..|evs| - 1], evs[|evs| - 1];
      LifeIsBatch(o, pre);
      match ev
      case Reopen => FileReplays(o, pre);
      case Scan(c) =>
        BatchSnoc(o, LastChain(pre), c);
        if Batch(o, LastChain(pre)).Some? {
          SameUpdate(o, Live(o, pre).memory.value, Batch(o, LastChain(pre)).value, c);
        }
    }
  }

  // ---- the routing file ----

  function TableRecords(t: Table): (r: seq<Bytes>)
    ensures |r| == |t| && forall i :: 0 <= i < |r| ==> |r[i]| == ENTRY_SIZE && r[i] == SerializeEntry(t[i])
  {
    seq(|t|, i requires 0 <= i < |t| => SerializeEntry(t[i]))
  }

  function EntryRecords(t: Table): Bytes {
    Join(TableRecords(t))
  }

  lemma EntryRecordsSnoc(t: Table, n: nat)
    requires n < |t|
    ensures EntryRecords(t[..n + 1]) == EntryRecords(t[..n]) + SerializeEntry(t[n])
  {
    assert TableRecords(t[..n + 1]) == TableRecords(t[..n]) + [SerializeEntry(t[n])];
    JoinSnoc(TableRecords(t[..n]), SerializeEntry(t[n]));
  }

  lemma {:induction false} EntryRecordsSize(t: Table, n: nat)
    requires n <= |t|
    ensures |EntryRecords(t[..n])| == ENTRY_SIZE * n
  {
    if n > 0 {
      EntryRecordsSize(t, n - 1);
      EntryRecordsSnoc(t, n - 1);
    }
  }

  lemma WholeSize(t: Table)
    ensures |EntryRecords(t)| == ENTRY_SIZE * |t|
  {
    EntryRecordsSize(t, |t|);
    assert t[..|t|] == t;
  }

  /** The routing file: the records one after the other, in the order of the stack. */
  lemma {:induction false} RoutingFileLayout(t: Table, i: nat)
    requires i < |t|
    ensures |EntryRecords(t)| == ENTRY_SIZE * |t|
    ensures EntryRecords(t)[ENTRY_SIZE * i..ENTRY_SIZE * (i + 1)] == SerializeEntry(t[i])
  {
    var n := |t| - 1;
    WholeSize(t);
    WholeSize(t[..n]);
    EntryRecordsSnoc(t, n);
    assert t[..n + 1] == t;
    var front := EntryRecords(t[..n]);
    if i < n {
      RoutingFileLayout(t[..n], i);
      FrontSlice(front, SerializeEntry(t[n]), ENTRY_SIZE * i, ENTRY_SIZE * (i + 1));
    } else {
      BackSlice(front, SerializeEntry(t[n]));
    }
  }

  /** Writing from the start of a file that is not truncated first. */
  function Overwrite(file: Bytes, data: Bytes): Bytes {
    if |file| <= |data| then data else data + file[|data|..]
  }

  function ReadTable(records: seq<Bytes>): (r: Table)
    requires forall i :: 0 <= i < |records| ==> |records[i]| == ENTRY_SIZE
    ensures |r| == |records| && forall i :: 0 <= i < |r| ==> r[i] == DeserializeEntry(records[i])
  {
    seq(|records|, i requires 0 <= i < |records| => DeserializeEntry(records[i]))
  }

  /** All entries in a routing file. */
  function RecordedEntries(file: Bytes): Table {
    ReadTable(Chunks(file, Zeros(ENTRY_SIZE)))
  }

  /** After loading `done` of a routing file, the rest is still to be read. */
  ghost predicate EntriesLeft(file: Bytes, done: Table, rest: Bytes, buffer: Bytes) {
    |buffer| == ENTRY_SIZE && RecordedEntries(file) == done + ReadTable(Chunks(rest, buffer))
  }

  lemma NextEntry(rest: Bytes, buffer: Bytes)
    requires rest != [] && |buffer| == ENTRY_SIZE
    ensures var filled := Filled(rest, buffer);
      ReadTable(Chunks(rest, buffer)) == [DeserializeEntry(filled)] + ReadTable(Chunks(rest[Taken(rest, ENTRY_SIZE)..], filled))
  {
  }

  /** Read the next record of a routing file into the buffer. */
  method ReadEntry(rest: Bytes, buffer: Bytes, ghost file: Bytes, ghost done: Table)
      returns (e: Entry, more: Bytes, filled: Bytes)
    requires rest != [] && EntriesLeft(file, done, rest, buffer)
    ensures EntriesLeft(file, done + [e], more, filled) && |more| < |rest| && e in RecordedEntries(file)
  {
    filled := Filled(rest, buffer);
    more := rest[Taken(rest, ENTRY_SIZE)..];
    e := DeserializeEntry(filled);
    NextEntry(rest, buffer);
    AppendRest(done, e, ReadTable(Chunks(more, filled)));
    assert RecordedEntries(file)[|done|] == e;
  }

  lemma NoEntriesLeft(file: Bytes, done: Table, buffer: Bytes)
    requires EntriesLeft(file, done, [], buffer)
    ensures RecordedEntries(file) == done
  {
    assert done + [] == done;
  }

  /** Entries loaded in order, each stored in front of those before. */
  function StoreAll(es: seq<Entry>): Table {
    if es == [] then [] else Store(StoreAll(es[..|es| - 1]), es[|es| - 1])
  }

  function LoadTable(file: Bytes): Table {
    StoreAll(RecordedEntries(file))
  }

  /** The entries written to a file are those read from it. */
  lemma EntriesReadBack(t: Table)
    ensures RecordedEntries(EntryRecords(t)) == t
  {
    ChunksOfJoin(TableRecords(t), Zeros(ENTRY_SIZE));
    forall i | 0 <= i < |t| ensures RecordedEntries(EntryRecords(t))[i] == t[i] {
      EntryRoundTrip(t[i]);
    }
  }

  function Reversed(t: Table): (r: Table)
    ensures |r| == |t|
  {
    if t == [] then [] else [t[|t| - 1]] + Reversed(t[..|t| - 1])
  }

  lemma {:induction false} ReversedAt(t: Table, i: nat)
    requires i < |t|
    ensures Reversed(t)[i] == t[|t| - 1 - i]
  {
    if i > 0 {
      ReversedAt(t[..|t| - 1], i - 1);
    }
  }

  lemma ReversedTwice(t: Table)
    ensures Reversed(Reversed(t)) == t
  {
    forall i | 0 <= i < |t| ensures Reversed(Reversed(t))[i] == t[i] {
      ReversedAt(Reversed(t), i);
      ReversedAt(t, |t| - 1 - i);
    }
  }

  lemma ReversedMembers(t: Table, e: Entry)
    ensures e in Reversed(t) <==> e in t
  {
    if e in t {
      var i :| 0 <= i < |t| && t[i] == e;
      ReversedAt(t, |t| - 1 - i);
    }
    if e in Reversed(t) {
      var i :| 0 <= i < |t| && Reversed(t)[i] == e;
      ReversedAt(t, i);
    }
  }

  lemma ReversedDistinct(t: Table)
    requires Distinct(t)
    ensures Distinct(Reversed(t))
  {
    forall i, j | 0 <= i < j < |t| ensures Reversed(t)[i].dest != Reversed(t)[j].dest {
      ReversedAt(t, i);
      ReversedAt(t, j);
    }
  }

  /** Reversing a table changes nothing about what it says of a destination. */
  lemma ReversedLookup(t: Table, d: Address)
    requires Distinct(t)
    ensures Lookup(Reversed(t), d) == Lookup(t, d)
  {
    ReversedDistinct(t);
    if Lookup(t, d).Some? {
      ReversedMembers(t, Lookup(t, d).value);
      LookupUnique(Reversed(t), Lookup(t, d).value);
    } else if Lookup(Reversed(t), d).Some? {
      var e := Lookup(Reversed(t), d).value;
      ReversedMembers(t, e);
      LookupUnique(t, e);
    }
  }

  lemma {:induction false} StoreAllReverses(t: Table)
    requires Distinct(t)
    ensures StoreAll(t) == Reversed(t)
  {
    if t != [] {
      var n := |t| - 1;
      StoreAllReverses(t[..n]);
      forall i | 0 <= i < n ensures Reversed(t[..n])[i].dest != t[n].dest {
        ReversedAt(t[..n], i);
      }
      WithoutAbsent(Reversed(t[..n]), t[n].dest);
    }
  }

  /** A file written from a table loads into the reversed table. */
  lemma LoadTableReverses(t: Table)
    requires Distinct(t)
    ensures LoadTable(EntryRecords(t)) == Reversed(t)
  {
    EntriesReadBack(t);
    StoreAllReverses(t);
  }

  // ---- whole runs of a node ----

  /** What happens to a node's table: it processes a peer's entries or runs a balance pass, reading the channels anew
      for each offer, or it is stopped, saving its table, and started again. */
  datatype TableEvent =
    | Exchange(v: View, peer: Key, ds: seq<Destination>, again: Readings)
    | Balance(v: View, again: Readings)
    | Restart

  /** The table in memory and the routing file. */
  datatype Local = Local(table: Table, file: Bytes)

  function TableStep(s: Local, ev: TableEvent): Local {
    match ev
    case Exchange(v, peer, ds, again) => s.(table := OffersEach(v, s.table, peer, ds, again))
    case Balance(v, again) => s.(table := RereadPass(v, s.table, again))
    case Restart =>
      var file := Overwrite(s.file, EntryRecords(s.table));
      Local(LoadTable(file), file)
  }

  function TableRun(evs: seq<TableEvent>): Local {
    if evs == [] then Local([], []) else TableStep(TableRun(evs[..|evs| - 1]), evs[|evs| - 1])
  }

  /** One entry per destination, no fewer than `n`, and no shorter than the file. */
  ghost predicate Kept(s: Local, n: nat) {
    Keeps(s.table, n) && |s.file| <= ENTRY_SIZE * |s.table|
  }

  lemma TableStepKeeps(s: Local, ev: TableEvent)
    requires Kept(s, |s.table|)
    ensures Kept(TableStep(s, ev), |s.table|)
  {
    match ev
    case Exchange(v, peer, ds, again) => OffersLoseNone(v, s.table, peer, ds, again, |s.table|);
    case Balance(v, again) => PassLosesNone(v, s.table, again, |v.channels|, |s.table|);
    case Restart => RestartStepKeeps(s);
  }

  lemma RestartStepKeeps(s: Local)
    requires Kept(s, |s.table|)
    ensures Kept(TableStep(s, Restart), |s.table|)
  {
    LoadTableReverses(s.table);
    ReversedDistinct(s.table);
    WholeSize(s.table);
  }

  /** In every run a node's table has one entry per destination, never loses entries, and is never
      shorter than its file. */
  lemma {:induction false} RunKeeps(evs: seq<TableEvent>)
    ensures Distinct(TableRun(evs).table) && |TableRun(evs).file| <= ENTRY_SIZE * |TableRun(evs).table|
    ensures evs != [] ==> |TableRun(evs[..|evs| - 1]).table| <= |TableRun(evs).table|
  {
    if evs != [] {
      RunKeeps(evs[..|evs| - 1]);
      TableStepKeeps(TableRun(evs[..|evs| - 1]), evs[|evs| - 1]);
    }
  }

  /** A restart, at any point of any run, leaves no stale tail in the file, gives back every entry, and
      reverses the order of the stack. */
  lemma RestartKeepsTable(evs: seq<TableEvent>, d: Address)
    ensures var s := TableRun(evs); var r := TableRun(evs + [Restart]);
      && r.file == EntryRecords(s.table)
      && r.table == Reversed(s.table)
      && Lookup(r.table, d) == Lookup(s.table, d)
  {
    RunKeeps(evs);
    assert (evs + [Restart])[..|evs|] == evs;
    LoadTableReverses(TableRun(evs).table);
    WholeSize(TableRun(evs).table);
    ReversedLookup(TableRun(evs).table, d);
  }

  // ---- the order of the stack ----

  /** Views in the order they are used never go back in height. */
  ghost predicate HeightsRise(evs: seq<TableEvent>, height: uint64) {
    forall i :: 0 <= i < |evs| ==>
      !evs[i].Restart? && evs[i].v.height <= height && forall j :: 0 <= j < i && !evs[j].Restart? ==> evs[j].v.height <= evs[i].v.height
  }

  /** Without restarts, and while the height never decreases, the stack is sorted newest first, so that
      walking it down to a height finds exactly the entries that recent. */
  lemma {:induction false} RunSorted(evs: seq<TableEvent>, height: uint64, from: uint64)
    requires HeightsRise(evs, height)
    ensures NewestFirst(TableRun(evs).table) && NoNewerThan(TableRun(evs).table, height)
    ensures Peek(TableRun(evs).table, from) == Since(TableRun(evs).table, from)
  {
    if evs != [] {
      var n := |evs| - 1;
      var v := evs[n].v;
      RunSorted(evs[..n], v.height, from);
      var s := TableRun(evs[..n]);
      match evs[n]
      case Exchange(w, peer, ds, again) => OffersSorted(v, s.table, peer, ds, again);
      case Balance(w, again) => PassSorted(v, s.table, again, |v.channels|);
    }
    PeekIsSince(TableRun(evs).table, from);
  }

  ghost predicate OneHeight(t: Table) {
    forall i :: 0 <= i < |t| ==> t[i].height == t[0].height
  }

  lemma ReversedSorted(t: Table)
    requires OneHeight(t)
    ensures NewestFirst(Reversed(t))
  {
    forall i, j | 0 <= i < j < |t| ensures Reversed(t)[i].height >= Reversed(t)[j].height {
      ReversedAt(t, i);
      ReversedAt(t, j);
    }
  }

  /** A sorted stack is still sorted after a restart if and only if all its entries have one height. */
  lemma ReversedSortedIff(t: Table)
    requires NewestFirst(t)
    ensures NewestFirst(Reversed(t)) <==> OneHeight(t)
  {
    if OneHeight(t) {
      ReversedSorted(t);
    } else {
      var i :| 0 <= i < |t| && t[i].height != t[0].height;
      ReversedAt(t, |t| - 1 - i);
      ReversedAt(t, |t| - 1);
      assert Reversed(t)[|t| - 1 - i].height < Reversed(t)[|t| - 1].height;
    }
  }
}
