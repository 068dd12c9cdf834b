/** The address registry: verifying registrations, scanning the chain for them, and the two indexes
    (by address and by key) that accepted registrations build. */
module Registry {
  import opened Types
  import opened Numerals
  import opened BitAddress
  import opened Keyspace
  import opened Suggestion
  import opened Codec

  /** A signature over an address: sixty-five bytes. */
  type Signature = b: Bytes | |b| == 65 witness seq(65, _ => 0)

  datatype Registration = Registration(address: Address, height: uint64, txID: TxID, sig: Signature, version: uint32)

  /** The lightning client, as far as registrations go: the key that signed an address, if the signature
      is valid, and the keys a node shares channels with. */
  datatype Oracle = Oracle(signer: (Address, Signature) -> Option<Key>, neighbours: Key -> seq<Key>)

  /** The two indexes. */
  datatype Index = Index(infos: map<Address, Info>, addrOf: map<Key, Address>)

  const EMPTY := Index(map[], map[])

  ghost predicate KeyAgrees(x: Index, k: Key) {
    k in x.addrOf ==> x.addrOf[k] in x.infos && x.infos[x.addrOf[k]].nodePubKey == k
  }

  ghost predicate InfoAgrees(x: Index, a: Address) {
    a in x.infos ==> x.infos[a].address == a && x.infos[a].nodePubKey in x.addrOf
  }

  /** Each key leads to an address that leads back to it, each info sits at its own address, and the
      key of every registered address is known. */
  ghost predicate Agree(x: Index) {
    && (forall k {:trigger KeyAgrees(x, k)} :: KeyAgrees(x, k))
    && (forall a {:trigger InfoAgrees(x, a)} :: InfoAgrees(x, a))
  }

  ghost function Keys(x: Index): (r: set<Bits>)
    ensures forall a :: a in x.infos <==> BitsOf(a) in r
  {
    var r: set<Bits> := set a | a in x.infos :: BitsOf(a);
    forall a | BitsOf(a) in r ensures a in x.infos {
      var b :| b in x.infos && BitsOf(b) == BitsOf(a);
      Inverses(a, BitsOf(a));
      Inverses(b, BitsOf(a));
    }
    r
  }

  /** The suggestion for a new neighbour of the node registered at `a`. */
  ghost function Suggested(x: Index, a: Address): Option<Address> {
    match Suggest(Keys(x), BitsOf(a))
    case None => None
    case Some(p) => Some(AddressOf(p))
  }

  // ---- verifying a registration ----

  datatype Verdict = Accepted(info: Info) | Rejected | Fatal

  /** What the loop over the neighbours finds: whether one is registered, and whether the suggestion of
      a registered one is the address asked for; none when a registered one has no suggestion. */
  ghost function Consult(x: Index, ns: seq<Key>, a: Address): Option<(bool, bool)> {
    if ns == [] then Some((false, false))
    else
      var n := |ns| - 1;
      match Consult(x, ns[..n], a)
      case None => None
      case Some((any, matched)) =>
        if ns[n] !in x.addrOf then Some((any, matched))
        else
          match Suggested(x, x.addrOf[ns[n]])
          case None => None
          case Some(s) => Some((true, matched || s == a))
  }

  ghost function Verify(o: Oracle, x: Index, r: Registration): Verdict {
    match o.signer(r.address, r.sig)
    case None => Rejected
    case Some(key) =>
      if r.address in x.infos then Rejected
      else
        match Consult(x, o.neighbours(key), r.address)
        case None => Fatal
        case Some((any, matched)) =>
          if any && !matched then Rejected
          else Accepted(Info(r.address, key, r.height, r.txID, r.version))
  }

  /** Key `n` is among `ns` and registered. */
  ghost predicate Registered(x: Index, ns: seq<Key>, n: Key) {
    n in ns && n in x.addrOf
  }

  lemma RegisteredSnoc(x: Index, ns: seq<Key>, n: Key)
    requires ns != []
    ensures var i := |ns| - 1;
      Registered(x, ns, n) <==> Registered(x, ns[..i], n) || (n == ns[i] && n in x.addrOf)
  {
    assert ns == ns[..|ns| - 1] + [ns[|ns| - 1]];
  }

  /** Some registered one of `ns` has no suggestion. */
  ghost predicate Stuck(x: Index, ns: seq<Key>) {
    exists n :: Registered(x, ns, n) && Suggested(x, x.addrOf[n]).None?
  }

  ghost predicate AnyRegistered(x: Index, ns: seq<Key>) {
    exists n :: Registered(x, ns, n)
  }

  /** `a` is suggested to some registered one of `ns`. */
  ghost predicate SuggestedBy(x: Index, ns: seq<Key>, a: Address) {
    exists n :: Registered(x, ns, n) && Suggested(x, x.addrOf[n]) == Some(a)
  }

  /** What one more neighbour changes. */
  lemma NeighbourSnoc(x: Index, ns: seq<Key>, a: Address)
    requires ns != []
    ensures var i := |ns| - 1; var known := ns[i] in x.addrOf;
      && (AnyRegistered(x, ns) <==> AnyRegistered(x, ns[..i]) || known)
      && (Stuck(x, ns) <==> Stuck(x, ns[..i]) || (known && Suggested(x, x.addrOf[ns[i]]).None?))
      && (SuggestedBy(x, ns, a) <==> SuggestedBy(x, ns[..i], a) || (known && Suggested(x, x.addrOf[ns[i]]) == Some(a)))
  {
    forall n ensures Registered(x, ns, n) <==> Registered(x, ns[..|ns| - 1], n) || (n == ns[|ns| - 1] && n in x.addrOf) {
      RegisteredSnoc(x, ns, n);
    }
    assert ns[|ns| - 1] in x.addrOf ==> Registered(x, ns, ns[|ns| - 1]);
  }

  lemma {:induction false} ConsultMeans(x: Index, ns: seq<Key>, a: Address)
    ensures Consult(x, ns, a) == if Stuck(x, ns) then None else Some((AnyRegistered(x, ns), SuggestedBy(x, ns, a)))
  {
    if ns != [] {
      NeighbourSnoc(x, ns, a);
      ConsultMeans(x, ns[..|ns| - 1], a);
    }
  }

  /** A registration is accepted exactly when its signer is known, its address is free, every
      registered channel neighbour of the signer has a suggestion, and the address is one of those
      suggestions unless no neighbour is registered. */
  lemma AcceptedIff(o: Oracle, x: Index, r: Registration)
    ensures Verify(o, x, r).Accepted? <==>
      && o.signer(r.address, r.sig).Some?
      && r.address !in x.infos
      && var ns := o.neighbours(o.signer(r.address, r.sig).value);
      && (forall n :: Registered(x, ns, n) ==> Suggested(x, x.addrOf[n]).Some?)
      && ((exists n :: Registered(x, ns, n)) ==> exists n :: Registered(x, ns, n) && Suggested(x, x.addrOf[n]) == Some(r.address))
    ensures Verify(o, x, r).Accepted? ==>
      Verify(o, x, r).info == Info(r.address, o.signer(r.address, r.sig).value, r.height, r.txID, r.version)
  {
    if o.signer(r.address, r.sig).Some? {
      ConsultMeans(x, o.neighbours(o.signer(r.address, r.sig).value), r.address);
    }
  }

  /** The signer of `r` is known, the address is free, and some registered channel neighbour of the signer has no
      suggestion. */
  ghost predicate Unanswered(o: Oracle, x: Index, r: Registration) {
    && o.signer(r.address, r.sig).Some? && r.address !in x.infos
    && exists n :: Registered(x, o.neighbours(o.signer(r.address, r.sig).value), n) && Suggested(x, x.addrOf[n]).None?
  }

  /** A registration stops the program exactly when nothing can be suggested to a registered neighbour of a signer that
      asks for a free address. Any other one is accepted or refused: a bad signature and a taken address are refused. */
  lemma FatalIff(o: Oracle, x: Index, r: Registration)
    ensures Verify(o, x, r).Fatal? <==> Unanswered(o, x, r)
  {
    if o.signer(r.address, r.sig).Some? {
      ConsultMeans(x, o.neighbours(o.signer(r.address, r.sig).value), r.address);
    }
  }

  /** Nothing can be suggested to a registered node exactly when all addresses with its top bit are taken. */
  lemma NoneSuggestedIff(x: Index, n: Key)
    requires Placed(x) && n in x.addrOf
    ensures Suggested(x, x.addrOf[n]).None? <==> Full(Keys(x), BitsOf(x.addrOf[n])[..1])
  {
    assert KeyPlaced(x, n);
    SuggestFailsIffHalfFull(Keys(x), BitsOf(x.addrOf[n]));
  }

  /** Each key leads to a registered address, and each info sits at its own address. */
  ghost predicate KeyPlaced(x: Index, k: Key) {
    k in x.addrOf ==> x.addrOf[k] in x.infos
  }

  ghost predicate InfoPlaced(x: Index, a: Address) {
    a in x.infos ==> x.infos[a].address == a
  }

  ghost predicate Placed(x: Index) {
    && (forall k {:trigger KeyPlaced(x, k)} :: KeyPlaced(x, k))
    && (forall a {:trigger InfoPlaced(x, a)} :: InfoPlaced(x, a))
  }

  /** Adding keeps addresses in place, whether or not the address is free. */
  lemma AddPlaced(x: Index, i: Info)
    requires Placed(x)
    ensures Placed(Add(x, i))
  {
    var y := Add(x, i);
    forall k ensures KeyPlaced(y, k) {
      assert KeyPlaced(x, k);
    }
    forall a ensures InfoPlaced(y, a) {
      assert InfoPlaced(x, a);
    }
  }

  function Add(x: Index, i: Info): Index {
    Index(x.infos[i.address := i], x.addrOf[i.nodePubKey := i.address])
  }

  /** Handle registrations in order; none once the program has stopped. */
  ghost function Process(o: Oracle, x: Index, rs: seq<Registration>): Option<Index>
    decreases |rs|
  {
    if rs == [] then Some(x)
    else match Verify(o, x, rs[0])
      case Fatal => None
      case Rejected => Process(o, x, rs[1..])
      case Accepted(i) => Process(o, Add(x, i), rs[1..])
  }

  /** The registrations that `Process` accepts, in order. */
  ghost function Log(o: Oracle, x: Index, rs: seq<Registration>): seq<Info>
    decreases |rs|
  {
    if rs == [] then []
    else match Verify(o, x, rs[0])
      case Fatal => []
      case Rejected => Log(o, x, rs[1..])
      case Accepted(i) => [i] + Log(o, Add(x, i), rs[1..])
  }

  /** Accepting keeps the indexes in agreement and overwrites no registered address; the key that registers is moved to
      the new address, whether or not it had one, and no other key is. */
  lemma AddKeeps(x: Index, i: Info)
    requires Agree(x) && i.address !in x.infos
    ensures Agree(Add(x, i))
    ensures forall a :: a in x.infos ==> a in Add(x, i).infos && Add(x, i).infos[a] == x.infos[a]
    ensures forall k :: k in x.addrOf && k != i.nodePubKey ==> k in Add(x, i).addrOf && Add(x, i).addrOf[k] == x.addrOf[k]
    ensures i.nodePubKey in Add(x, i).addrOf && Add(x, i).addrOf[i.nodePubKey] == i.address
    ensures i.address in Add(x, i).infos && Add(x, i).infos[i.address] == i
  {
    var y := Add(x, i);
    forall k ensures KeyAgrees(y, k) {
      assert KeyAgrees(x, k);
    }
    forall a ensures InfoAgrees(y, a) {
      assert InfoAgrees(x, a);
    }
  }

  /** Over any run of registrations the indexes agree and no registered address is ever overwritten. */
  lemma {:induction false} ProcessKeeps(o: Oracle, x: Index, rs: seq<Registration>)
    requires Agree(x)
    ensures Process(o, x, rs).Some? ==>
      var y := Process(o, x, rs).value;
      Agree(y) && forall a :: a in x.infos ==> a in y.infos && y.infos[a] == x.infos[a]
    decreases |rs|
  {
    if rs != [] {
      match Verify(o, x, rs[0])
      case Fatal =>
      case Rejected => ProcessKeeps(o, x, rs[1..]);
      case Accepted(i) =>
        AddKeeps(x, i);
        ProcessKeeps(o, Add(x, i), rs[1..]);
    }
  }

  /** In agreeing indexes distinct keys have distinct addresses, and an address found for a key leads
      back to the key. */
  lemma AgreeInjective(x: Index, k: Key, l: Key)
    requires Agree(x) && k in x.addrOf && l in x.addrOf && x.addrOf[k] == x.addrOf[l]
    ensures k == l && x.addrOf[k] in x.infos && x.infos[x.addrOf[k]].nodePubKey == k
  {
    assert KeyAgrees(x, k) && KeyAgrees(x, l);
  }

  lemma {:induction false} ProcessConcat(o: Oracle, x: Index, rs: seq<Registration>, qs: seq<Registration>)
    ensures Process(o, x, rs + qs)
         == match Process(o, x, rs) case None => None case Some(y) => Process(o, y, qs)
    decreases |rs|
  {
    if rs == [] {
      assert rs + qs == qs;
    } else {
      assert (rs + qs)[1..] == rs[1..] + qs;
      match Verify(o, x, rs[0])
      case Fatal =>
      case Rejected => ProcessConcat(o, x, rs[1..], qs);
      case Accepted(i) => ProcessConcat(o, Add(x, i), rs[1..], qs);
    }
  }

  lemma ProcessOne(o: Oracle, x: Index, r: Registration)
    ensures Process(o, x, [r])
         == match Verify(o, x, r) case Fatal => None case Rejected => Some(x) case Accepted(i) => Some(Add(x, i))
  {
    assert [r][1..] == [];
  }

  lemma ProcessLast(o: Oracle, x: Index, rs: seq<Registration>, m: nat)
    requires |rs| == m + 1
    ensures Process(o, x, rs)
         == match Process(o, x, rs[..m]) case None => None case Some(y) => Process(o, y, [rs[m]])
  {
    assert rs == rs[..m] + [rs[m]];
    ProcessConcat(o, x, rs[..m], [rs[m]]);
  }

  // ---- what a run of registrations comes to ----

  /** When its turn comes, registration `n` is one that stops the program. */
  ghost predicate StopsAt(o: Oracle, x: Index, rs: seq<Registration>, n: nat) {
    n < |rs| && Process(o, x, rs[..n]).Some? && Unanswered(o, Process(o, x, rs[..n]).value, rs[n])
  }

  /** When its turn comes, registration `n` is accepted as `i`. */
  ghost predicate AcceptsAt(o: Oracle, x: Index, rs: seq<Registration>, n: nat, i: Info) {
    n < |rs| && Process(o, x, rs[..n]).Some? && Verify(o, Process(o, x, rs[..n]).value, rs[n]) == Accepted(i)
  }

  /** Handling registrations stops the program exactly when one of them does so in its turn. */
  lemma {:induction false} ProcessStopsIff(o: Oracle, x: Index, rs: seq<Registration>)
    ensures Process(o, x, rs).None? <==> exists n: nat :: StopsAt(o, x, rs, n)
    decreases |rs|
  {
    if rs != [] {
      var m := |rs| - 1;
      ProcessStopsIff(o, x, rs[..m]);
      ProcessLast(o, x, rs, m);
      forall n: nat | n < m ensures StopsAt(o, x, rs, n) <==> StopsAt(o, x, rs[..m], n) {
        assert rs[..m][..n] == rs[..n];
      }
      if n: nat :| StopsAt(o, x, rs[..m], n) {
        assert StopsAt(o, x, rs, n);
      }
      if Process(o, x, rs[..m]).Some? {
        var y := Process(o, x, rs[..m]).value;
        FatalIff(o, y, rs[m]);
        ProcessOne(o, y, rs[m]);
        assert StopsAt(o, x, rs, m) <==> Unanswered(o, y, rs[m]);
      }
    }
  }

  lemma AcceptsBefore(o: Oracle, x: Index, rs: seq<Registration>, m: nat, n: nat, i: Info)
    requires n < m <= |rs|
    ensures AcceptsAt(o, x, rs, n, i) <==> AcceptsAt(o, x, rs[..m], n, i)
  {
    assert rs[..m][..n] == rs[..n];
  }

  /** Registration `n` is the last one accepted for the key `k`. */
  ghost predicate LatestFor(o: Oracle, x: Index, rs: seq<Registration>, k: Key, n: nat, i: Info) {
    && AcceptsAt(o, x, rs, n, i) && i.nodePubKey == k
    && forall m: nat, j :: n < m && AcceptsAt(o, x, rs, m, j) ==> j.nodePubKey != k
  }

  /** The key `k` has the same address in both. */
  ghost predicate SameAddress(x: Index, y: Index, k: Key) {
    (k in x.addrOf <==> k in y.addrOf) && (k in x.addrOf ==> x.addrOf[k] == y.addrOf[k])
  }

  /** After any run of registrations a key has the address of the last one accepted for it, and the address that it had
      before, if any, when none was. */
  lemma {:induction false} AddressAfter(o: Oracle, x: Index, rs: seq<Registration>, k: Key)
    requires Process(o, x, rs).Some?
    ensures forall n: nat, i :: LatestFor(o, x, rs, k, n, i) ==>
      k in Process(o, x, rs).value.addrOf && Process(o, x, rs).value.addrOf[k] == i.address
    ensures (forall n: nat, i :: AcceptsAt(o, x, rs, n, i) ==> i.nodePubKey != k) ==> SameAddress(x, Process(o, x, rs).value, k)
    decreases |rs|
  {
    if rs != [] {
      var m := |rs| - 1;
      ProcessLast(o, x, rs, m);
      var y := Process(o, x, rs[..m]).value;
      ProcessOne(o, y, rs[m]);
      AddressAfter(o, x, rs[..m], k);
      forall n: nat, i | n < m ensures AcceptsAt(o, x, rs, n, i) <==> AcceptsAt(o, x, rs[..m], n, i) {
        AcceptsBefore(o, x, rs, m, n, i);
      }
      forall n: nat, i | LatestFor(o, x, rs, k, n, i)
        ensures k in Process(o, x, rs).value.addrOf && Process(o, x, rs).value.addrOf[k] == i.address
      {
        if n < m {
          assert LatestFor(o, x, rs[..m], k, n, i);
          assert Verify(o, y, rs[m]).Accepted? ==> AcceptsAt(o, x, rs, m, Verify(o, y, rs[m]).info);
        }
      }
      if forall n: nat, i :: AcceptsAt(o, x, rs, n, i) ==> i.nodePubKey != k {
        assert Verify(o, y, rs[m]).Accepted? ==> AcceptsAt(o, x, rs, m, Verify(o, y, rs[m]).info);
      }
    }
  }

  /** After any run of registrations the registered addresses are those that were, with what they had, and those
      accepted, with what they were accepted as. */
  lemma {:induction false} InfoAfter(o: Oracle, x: Index, rs: seq<Registration>, a: Address)
    requires Process(o, x, rs).Some?
    ensures var y := Process(o, x, rs).value;
      && (a in y.infos <==> a in x.infos || exists n: nat, i :: AcceptsAt(o, x, rs, n, i) && i.address == a)
      && (a in x.infos ==> y.infos[a] == x.infos[a])
      && (forall n: nat, i :: AcceptsAt(o, x, rs, n, i) && i.address == a ==> y.infos[a] == i)
    decreases |rs|
  {
    if rs != [] {
      var m := |rs| - 1;
      ProcessLast(o, x, rs, m);
      var y := Process(o, x, rs[..m]).value;
      ProcessOne(o, y, rs[m]);
      InfoAfter(o, x, rs[..m], a);
      forall n: nat, i | n < m ensures AcceptsAt(o, x, rs, n, i) <==> AcceptsAt(o, x, rs[..m], n, i) {
        AcceptsBefore(o, x, rs, m, n, i);
      }
      var v := Verify(o, y, rs[m]);
      assert v.Accepted? ==> v.info.address !in y.infos && AcceptsAt(o, x, rs, m, v.info);
      if n: nat, i :| AcceptsAt(o, x, rs[..m], n, i) && i.address == a {
        assert AcceptsAt(o, x, rs, n, i);
      }
    }
  }

  // ---- the chain ----

  /** A transaction: its id and the scripts of its outputs. */
  datatype Tx = Tx(id: TxID, outs: seq<Bytes>)

  type Block = seq<Tx>

  /** The blocks from the genesis block, at height 0, to the tip. */
  type Chain = c: seq<Block> | 0 < |c| < 0x1_0000_0000_0000_0000 witness [[]]

  function Tip(c: Chain): uint64 { |c| - 1 }

  /** OP_RETURN, a push of 76 bytes, and the protocol name. */
  const SCRIPT_PREFIX: Bytes := [0x6a, 0x4c, 0x4c, 0x6c, 0x61, 0x72]

  const SCRIPT_SIZE := 79

  /** The first output of a registration transaction. */
  function RegistrationScript(version: uint32, address: Address, sig: Signature): (r: Bytes)
    ensures |r| == SCRIPT_SIZE
  {
    SCRIPT_PREFIX + BE(version, 4) + address + sig
  }

  function GetBE32(bs: Bytes): uint32
    requires |bs| == 4
  {
    BEofFromBE(bs);
    Powers();
    FromBE(bs)
  }

  /** The registration a transaction makes: two outputs, the first of the right size and prefix. */
  function ParseTx(tx: Tx, height: uint64): Option<Registration> {
    if |tx.outs| == 2 && |tx.outs[0]| == SCRIPT_SIZE && tx.outs[0][..6] == SCRIPT_PREFIX then
      var s := tx.outs[0];
      Some(Registration(s[10..14], height, tx.id, s[14..79], GetBE32(s[6..10])))
    else None
  }

  /** A registration is found in a transaction exactly when its first output of two is the script of that registration. */
  lemma ParseTxIff(tx: Tx, height: uint64, r: Registration)
    ensures ParseTx(tx, height) == Some(r) <==>
      && |tx.outs| == 2 && tx.outs[0] == RegistrationScript(r.version, r.address, r.sig)
      && r.height == height && r.txID == tx.id
  {
    if |tx.outs| == 2 && |tx.outs[0]| == SCRIPT_SIZE {
      ScriptParts(tx.outs[0], r);
    }
  }

  lemma ScriptParts(s: Bytes, r: Registration)
    requires |s| == SCRIPT_SIZE
    ensures s == RegistrationScript(r.version, r.address, r.sig) <==>
      s[..6] == SCRIPT_PREFIX && GetBE32(s[6..10]) == r.version && s[10..14] == r.address && s[14..79] == r.sig
  {
    Powers();
    FromBEofBE(r.version, 4);
    BEofFromBE(s[6..10]);
    assert s == s[..6] + s[6..10] + s[10..14] + s[14..79];
    var t := RegistrationScript(r.version, r.address, r.sig);
    assert t[..6] == SCRIPT_PREFIX && t[6..10] == BE(r.version, 4) && t[10..14] == r.address && t[14..79] == r.sig;
  }

  /** The bytes of the script: OP_RETURN and a push of 76 bytes, `lar`, the version high byte first, the address and the
      signature. */
  lemma ScriptLayout(version: uint32, address: Address, sig: Signature)
    ensures var s := RegistrationScript(version, address, sig);
      && s[..6] == [0x6a, 0x4c, 0x4c, 0x6c, 0x61, 0x72] && s[10..14] == address && s[14..79] == sig
      && forall k: nat :: k < 4 ==> Val(s[9 - k]) == ByteAt(version, k)
  {
    var s := RegistrationScript(version, address, sig);
    assert s[6..10] == BE(version, 4) && s[10..14] == address && s[14..79] == sig;
    forall k: nat | k < 4 ensures Val(s[9 - k]) == ByteAt(version, k) {
      BEAt(version, 4, k);
      assert s[9 - k] == s[6..10][3 - k];
    }
  }

  /** A broadcast registration is found again with the same version, address and signature. */
  lemma ScriptRoundTrip(id: TxID, change: Bytes, height: uint64, version: uint32, address: Address, sig: Signature)
    ensures ParseTx(Tx(id, [RegistrationScript(version, address, sig), change]), height)
         == Some(Registration(address, height, id, sig, version))
  {
    var s := RegistrationScript(version, address, sig);
    assert s[..6] == SCRIPT_PREFIX && s[6..10] == BE(version, 4) && s[10..14] == address && s[14..79] == sig;
    Powers();
    FromBEofBE(version, 4);
  }

  function InBlock(b: Block, height: uint64): seq<Registration> {
    if b == [] then []
    else
      var n := |b| - 1;
      match ParseTx(b[n], height)
      case None => InBlock(b[..n], height)
      case Some(r) => InBlock(b[..n], height) + [r]
  }

  /** The registrations in the blocks at heights `from` to `to` exclusive, in chain order. */
  function InRange(c: Chain, from: nat, to: nat): seq<Registration>
    requires from <= to <= |c|
  {
    if from == to then [] else InRange(c, from, to - 1) + InBlock(c[to - 1], to - 1)
  }

  /** Transaction `i` of the block at height `h` makes the registration `r`. */
  ghost predicate Makes(b: Block, h: uint64, i: nat, r: Registration) {
    i < |b| && ParseTx(b[i], h) == Some(r)
  }

  ghost predicate MadeAt(c: Chain, h: nat, r: Registration) {
    h < |c| && exists i: nat :: Makes(c[h], h, i, r)
  }

  lemma {:induction false} InBlockIff(b: Block, h: uint64, r: Registration)
    ensures r in InBlock(b, h) <==> exists i: nat :: Makes(b, h, i, r)
  {
    if b != [] {
      var n := |b| - 1;
      InBlockIff(b[..n], h, r);
      if r in InBlock(b, h) {
        if r in InBlock(b[..n], h) {
          var i: nat :| Makes(b[..n], h, i, r);
          assert Makes(b, h, i, r);
        } else {
          assert Makes(b, h, n, r);
        }
      }
      if i: nat :| Makes(b, h, i, r) {
        assert i < n ==> Makes(b[..n], h, i, r);
      }
    }
  }

  /** The registrations of a range are exactly those that some transaction of one of its blocks makes. */
  lemma {:induction false} InRangeIff(c: Chain, from: nat, to: nat, r: Registration)
    requires from <= to <= |c|
    ensures r in InRange(c, from, to) <==> exists h: nat :: from <= h < to && MadeAt(c, h, r)
  {
    if from < to {
      InRangeIff(c, from, to - 1, r);
      InBlockIff(c[to - 1], to - 1, r);
      assert MadeAt(c, to - 1, r) <==> r in InBlock(c[to - 1], to - 1);
    }
  }

  /** A place in the chain: the height of a block and the index of a transaction in it. */
  datatype Place = Place(height: nat, index: nat)

  predicate Earlier(p: Place, q: Place) {
    p.height < q.height || (p.height == q.height && p.index < q.index)
  }

  ghost predicate MadeThere(c: Chain, p: Place, r: Registration) {
    p.height < |c| && Makes(c[p.height], p.height, p.index, r)
  }

  /** `ps` are places, in chain order, from height `from` to before the place `end`. */
  ghost predicate InOrder(ps: seq<Place>, from: nat, end: Place) {
    && (forall i, j :: 0 <= i < j < |ps| ==> Earlier(ps[i], ps[j]))
    && (forall i :: 0 <= i < |ps| ==> from <= ps[i].height && Earlier(ps[i], end))
  }

  /** The registrations of `rs` are made at the places `ps`, one by one. */
  ghost predicate MadeAlong(c: Chain, ps: seq<Place>, rs: seq<Registration>) {
    |ps| == |rs| && forall i :: 0 <= i < |ps| ==> MadeThere(c, ps[i], rs[i])
  }

  /** The places of the first registrations of a block, after those in `before`. */
  lemma {:induction false} InBlockPlaces(c: Chain, h: nat, n: nat, from: nat, before: seq<Place>, rs: seq<Registration>)
      returns (ps: seq<Place>)
    requires from <= h < |c| && n <= |c[h]| && InOrder(before, from, Place(h, 0)) && MadeAlong(c, before, rs)
    ensures InOrder(ps, from, Place(h, n)) && MadeAlong(c, ps, rs + InBlock(c[h][..n], h))
  {
    if n == 0 {
      ps := before;
      assert c[h][..0] == [] && rs + [] == rs;
    } else {
      ps := InBlockPlaces(c, h, n - 1, from, before, rs);
      var b := c[h];
      assert b[..n][..n - 1] == b[..n - 1];
      match ParseTx(b[n - 1], h)
      case None =>
      case Some(r) =>
        assert Makes(b, h, n - 1, r);
        assert rs + InBlock(b[..n], h) == (rs + InBlock(b[..n - 1], h)) + [r];
        ps := ps + [Place(h, n - 1)];
    }
  }

  /** The registrations of a range come in chain order, by block and by transaction within a block: they are made at
      strictly rising places. */
  lemma {:induction false} InRangeOrdered(c: Chain, from: nat, to: nat) returns (ps: seq<Place>)
    requires from <= to <= |c|
    ensures InOrder(ps, from, Place(to, 0)) && MadeAlong(c, ps, InRange(c, from, to))
  {
    if from == to {
      ps := [];
    } else {
      ps := InRangeOrdered(c, from, to - 1);
      var b := c[to - 1];
      ps := InBlockPlaces(c, to - 1, |b|, from, ps, InRange(c, from, to - 1));
      assert b[..|b|] == b;
    }
  }

  method GetNewAddressRegistrations(c: Chain, fromBlock: uint64, toBlock: uint64) returns (r: seq<Registration>)
    requires fromBlock <= toBlock + 1 && toBlock < |c|
    ensures r == InRange(c, fromBlock, toBlock + 1)
  {
    r := [];
    var blockIndex: nat := fromBlock;
    while blockIndex <= toBlock
      invariant fromBlock <= blockIndex <= toBlock + 1
      invariant r == InRange(c, fromBlock, blockIndex)
    {
      var block := c[blockIndex];
      ghost var before := r;
      for i := 0 to |block|
        invariant r == before + InBlock(block[..i], blockIndex)
      {
        assert block[..i + 1][..i] == block[..i];
        match ParseTx(block[i], blockIndex)
        case None =>
        case Some(found) => r := r + [found];
      }
      assert block[..|block|] == block;
      blockIndex := blockIndex + 1;
    }
  }

  // ---- following the chain ----

  /** The registry with the height it has been brought up to. */
  datatype Synced = Synced(index: Index, height: uint64)

  /** The registrations above a height. */
  function NewRegistrations(c: Chain, height: uint64): seq<Registration> {
    if Tip(c) > height then InRange(c, height + 1, |c|) else []
  }

  /** Bring the registry up to the tip of `c`. The height is set to the tip in any case. */
  ghost function Update(o: Oracle, s: Synced, c: Chain): Option<Synced> {
    match Process(o, s.index, NewRegistrations(c, s.height))
    case None => None
    case Some(y) => Some(Synced(y, Tip(c)))
  }

  /** Updates against successive states of the chain. */
  ghost function Updates(o: Oracle, s: Synced, cs: seq<Chain>): Option<Synced>
    decreases |cs|
  {
    if cs == [] then Some(s)
    else match Update(o, s, cs[0])
      case None => None
      case Some(t) => Updates(o, t, cs[1..])
  }

  /** Each chain extends the one before. */
  ghost predicate Growing(cs: seq<Chain>) {
    forall i :: 0 < i < |cs| ==> cs[i - 1] <= cs[i]
  }

  lemma {:induction false} RangeSplits(c: Chain, a: nat, b: nat, d: nat)
    requires a <= b <= d <= |c|
    ensures InRange(c, a, d) == InRange(c, a, b) + InRange(c, b, d)
    decreases d
  {
    if b < d {
      RangeSplits(c, a, b, d - 1);
    }
  }

  lemma {:induction false} RangeOfPrefix(c: Chain, e: Chain, a: nat, b: nat)
    requires c <= e && a <= b <= |c|
    ensures InRange(c, a, b) == InRange(e, a, b)
  {
    if a < b {
      RangeOfPrefix(c, e, a, b - 1);
      assert c[b - 1] == e[b - 1];
    }
  }

  lemma NewIs(c: Chain, height: uint64)
    requires height <= Tip(c)
    ensures NewRegistrations(c, height) == InRange(c, height + 1, |c|)
  {
  }

  /** What is new in an extension of a chain is what is new in the chain and then what the extension adds. */
  lemma NewSplits(c: Chain, e: Chain, height: uint64)
    requires c <= e && height <= Tip(c)
    ensures NewRegistrations(e, height) == NewRegistrations(c, height) + NewRegistrations(e, Tip(c))
  {
    NewIs(c, height);
    NewIs(e, height);
    NewIs(e, Tip(c));
    RangeExtends(c, e, height + 1);
  }

  lemma RangeExtends(c: Chain, e: Chain, from: nat)
    requires c <= e && from <= |c|
    ensures InRange(e, from, |e|) == InRange(c, from, |c|) + InRange(e, |c|, |e|)
  {
    RangeSplits(e, from, |c|, |e|);
    RangeOfPrefix(c, e, from, |c|);
  }

  /** Updating against a chain and then against an extension of it is updating against the extension. */
  lemma UpdateTwice(o: Oracle, s: Synced, c: Chain, e: Chain)
    requires c <= e && s.height <= Tip(c)
    ensures Update(o, s, e) == match Update(o, s, c) case None => None case Some(t) => Update(o, t, e)
  {
    NewSplits(c, e, s.height);
    ProcessConcat(o, s.index, NewRegistrations(c, s.height), NewRegistrations(e, Tip(c)));
  }

  lemma {:induction false} UpdatesCollapse(o: Oracle, s: Synced, cs: seq<Chain>)
    requires cs != [] && Growing(cs) && s.height <= Tip(cs[0])
    ensures Updates(o, s, cs) == Update(o, s, cs[|cs| - 1])
    decreases |cs|
  {
    if |cs| > 1 {
      var t := Update(o, s, cs[0]);
      PrefixLast(cs, 0);
      if t.Some? {
        assert cs[0] <= cs[1];
        UpdatesCollapse(o, t.value, cs[1..]);
      }
      UpdateTwice(o, s, cs[0], cs[|cs| - 1]);
    } else {
      assert cs[1..] == [];
    }
  }

  lemma {:induction false} PrefixLast(cs: seq<Chain>, i: nat)
    requires Growing(cs) && i < |cs|
    ensures cs[i] <= cs[|cs| - 1]
    decreases |cs| - i
  {
    if i < |cs| - 1 {
      PrefixLast(cs, i + 1);
      assert cs[i] <= cs[i + 1];
    }
  }

  /** Incremental scanning is batch scanning: over a growing chain, and with the same answers from the
      lightning client, any schedule of updates ends in the registry that handles the registrations of
      the blocks from 1 to the last tip once each, in order. */
  lemma IncrementalIsBatch(o: Oracle, cs: seq<Chain>)
    requires cs != [] && Growing(cs)
    ensures var last := cs[|cs| - 1];
      Updates(o, Synced(EMPTY, 0), cs)
        == match Process(o, EMPTY, InRange(last, 1, |last|))
           case None => None
           case Some(y) => Some(Synced(y, Tip(last)))
  {
    UpdatesCollapse(o, Synced(EMPTY, 0), cs);
    UpdateFromGenesis(o, cs[|cs| - 1]);
  }

  lemma UpdateFromGenesis(o: Oracle, c: Chain)
    ensures Update(o, Synced(EMPTY, 0), c)
         == match Process(o, EMPTY, InRange(c, 1, |c|))
            case None => None
            case Some(y) => Some(Synced(y, Tip(c)))
  {
    if Tip(c) == 0 {
      assert InRange(c, 1, |c|) == [];
    }
  }
}
