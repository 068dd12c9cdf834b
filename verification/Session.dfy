/** The sequence number and nonce of a peer connection, and the session they make: both ends share one
    starting number and advance their own copy on every message, sent or received. */
module Session {
  import opened Types
  import opened Numerals
  import opened BitAddress

  // ---- the sequence number ----

  /** One more, carrying from the last byte. */
  function Successor(s: Bytes): (r: Bytes)
    ensures |r| == |s|
  {
    if s == [] then []
    else
      var n := |s| - 1;
      if s[n] < 255 then s[..n] + [s[n] + 1] else Successor(s[..n]) + [0]
  }

  /** The sequence number counts modulo 256 to the number of its bytes. */
  lemma {:induction false} SuccessorCounts(s: Bytes)
    ensures FromBE(s) < Pow256(|s|)
    ensures FromBE(Successor(s)) == if FromBE(s) + 1 == Pow256(|s|) then 0 else FromBE(s) + 1
  {
    if s != [] {
      var n := |s| - 1;
      SuccessorCounts(s[..n]);
      assert Pow256(|s|) == 256 * Pow256(n);
      if s[n] < 255 {
        NextByte(s[n]);
        assert Successor(s)[..n] == s[..n];
      } else {
        LastByte(s[n]);
        assert Successor(s)[..n] == Successor(s[..n]);
      }
    }
  }

  method IncrementSeqNumber(seqNumber: array<Byte>)
    modifies seqNumber
    ensures seqNumber[..] == Successor(old(seqNumber[..]))
  {
    ghost var was := seqNumber[..];
    var index := seqNumber.Length - 1;
    assert was[..index + 1] == was && seqNumber[index + 1..] == [];
    while index >= 0
      invariant -1 <= index < seqNumber.Length
      invariant seqNumber[..index + 1] == was[..index + 1]
      invariant Successor(was[..index + 1]) + seqNumber[index + 1..] == Successor(was)
    {
      assert was[..index + 1][..index] == was[..index];
      if seqNumber[index] < 255 {
        seqNumber[index] := seqNumber[index] + 1;
        assert seqNumber[..] == Successor(was[..index + 1]) + seqNumber[index + 1..];
        return;
      } else {
        seqNumber[index] := 0;
        assert seqNumber[index..] == [0] + seqNumber[index + 1..];
        index := index - 1;
      }
    }
    assert seqNumber[..] == seqNumber[0..];
  }

  /** The number after `k` messages. */
  function After(s: Bytes, k: nat): (r: Bytes)
    ensures |r| == |s|
  {
    if k == 0 then s else Successor(After(s, k - 1))
  }

  /** `x` reduced modulo `m`. */
  function Wrap(x: nat, m: nat): (r: nat)
    requires m > 0
    ensures r < m
  {
    if x < m then x else Wrap(x - m, m)
  }

  lemma {:induction false} WrapSuccessor(x: nat, m: nat)
    requires m > 0 && x > 0
    ensures Wrap(x, m) == if Wrap(x - 1, m) + 1 == m then 0 else Wrap(x - 1, m) + 1
  {
    if x > m {
      WrapSuccessor(x - m, m);
    }
  }

  lemma {:induction false} WrapDistinct(x: nat, d: nat, m: nat)
    requires 0 < d < m
    ensures Wrap(x, m) != Wrap(x + d, m)
  {
    if x >= m {
      WrapDistinct(x - m, d, m);
    }
  }

  lemma AfterStep(s: Bytes, k: nat, m: nat, n: nat)
    requires m == Pow256(|s|) && k > 0 && n > 0 && FromBE(After(s, k - 1)) == Wrap(n - 1, m)
    ensures FromBE(After(s, k)) == Wrap(n, m)
  {
    SuccessorCounts(After(s, k - 1));
    WrapSuccessor(n, m);
  }

  /** Starting from a number of value `v`, the number after `k` messages is `n`, which is `v + k`, wrapped. */
  lemma {:induction false} CountsFrom(s: Bytes, k: nat, m: nat, v: nat, n: nat)
    requires m == Pow256(|s|) && FromBE(s) == Wrap(v, m) && n == v + k
    ensures FromBE(After(s, k)) == Wrap(n, m)
  {
    if k == 0 {
      assert n == v;
    } else {
      CountsFrom(s, k - 1, m, v, n - 1);
      AfterStep(s, k, m, n);
    }
  }

  lemma AfterCounts(s: Bytes, k: nat, m: nat)
    requires m == Pow256(|s|)
    ensures FromBE(After(s, k)) == Wrap(FromBE(s) + k, m)
  {
    SuccessorCounts(s);
    CountsFrom(s, k, m, FromBE(s), FromBE(s) + k);
  }

  // ---- the nonce ----

  function Nonce(baseIV: Bytes, s: Bytes): (r: Bytes)
    requires |baseIV| <= |s|
    ensures |r| == |baseIV|
  {
    seq(|baseIV|, i requires 0 <= i < |baseIV| => baseIV[i] ^ s[i])
  }

  method GetNonce(baseIV: Bytes, s: Bytes) returns (r: Bytes)
    requires |baseIV| <= |s|
    ensures r == Nonce(baseIV, s)
    ensures |r| == |baseIV| && forall i, k: nat :: 0 <= i < |r| && k < 8 ==> BitDiffers(r, baseIV, s, i, k)
  {
    var nonce := new Byte[|baseIV|](_ => 0);
    for i := 0 to |baseIV|
      invariant forall j :: 0 <= j < i ==> nonce[j] == baseIV[j] ^ s[j]
    {
      nonce[i] := baseIV[i] ^ s[i];
    }
    r := nonce[..];
    NonceBits(baseIV, s);
  }

  lemma NonceBits(baseIV: Bytes, s: Bytes)
    requires |baseIV| <= |s|
    ensures forall i, k: nat :: 0 <= i < |baseIV| && k < 8 ==> BitDiffers(Nonce(baseIV, s), baseIV, s, i, k)
  {
    var r := Nonce(baseIV, s);
    forall i, k: nat | 0 <= i < |baseIV| && k < 8 ensures BitDiffers(r, baseIV, s, i, k) {
      TopXor(baseIV[i], s[i], r[i], 8, k);
    }
  }

  /** Bit `k` of byte `i`, from the top, is one in `r` exactly where `p` and `q` differ. */
  predicate BitDiffers(r: Bytes, p: Bytes, q: Bytes, i: nat, k: nat)
    requires i < |r| && i < |p| && i < |q| && k < 8
  {
    Top(r[i], 8)[k] <==> Top(p[i], 8)[k] != Top(q[i], 8)[k]
  }

  lemma XorShifts(x: Byte, y: Byte, z: Byte)
    requires z == x ^ y
    ensures z << 1 == (x << 1) ^ (y << 1)
  {
  }

  lemma XorTops(x: Byte, y: Byte)
    ensures (x ^ y) & 0x80 == 0x80 <==> (x & 0x80 == 0x80) != (y & 0x80 == 0x80)
  {
  }

  lemma {:induction false} ShiftedXor(x: Byte, y: Byte, z: Byte, k: nat)
    requires z == x ^ y
    ensures Shifted(z, k) == Shifted(x, k) ^ Shifted(y, k)
    decreases k
  {
    if k > 0 {
      XorShifts(x, y, z);
      var a, b, c := x << 1, y << 1, z << 1;
      ShiftedXor(a, b, c, k - 1);
    }
  }

  lemma {:induction false} TopShifted(x: Byte, n: nat, k: nat)
    requires k < n
    ensures Top(x, n)[k] <==> Shifted(x, k) & 0x80 == 0x80
    decreases n
  {
    if k > 0 {
      TopShifted(x << 1, n - 1, k - 1);
    }
  }

  lemma TopXor(x: Byte, y: Byte, z: Byte, n: nat, k: nat)
    requires k < n && z == x ^ y
    ensures Top(z, n)[k] <==> Top(x, n)[k] != Top(y, n)[k]
  {
    TopShifted(x, n, k);
    TopShifted(y, n, k);
    TopShifted(z, n, k);
    ShiftedXor(x, y, z, k);
    XorTops(Shifted(x, k), Shifted(y, k));
  }

  /** Combining with the base vector twice gives the number back. */
  lemma NonceTwice(baseIV: Bytes, s: Bytes)
    requires |baseIV| == |s|
    ensures Nonce(baseIV, Nonce(baseIV, s)) == s
  {
    forall i | 0 <= i < |s| ensures Nonce(baseIV, Nonce(baseIV, s))[i] == s[i] {
      var a, b := baseIV[i], s[i];
      assert a ^ (a ^ b) == b;
    }
  }

  lemma NonceInjective(baseIV: Bytes, s: Bytes, t: Bytes)
    requires |baseIV| == |s| == |t| && Nonce(baseIV, s) == Nonce(baseIV, t)
    ensures s == t
  {
    NonceTwice(baseIV, s);
    NonceTwice(baseIV, t);
  }

  /** Different base vectors give different nonces for one number. */
  lemma NonceInjectiveInBase(iv: Bytes, jv: Bytes, s: Bytes)
    requires |iv| == |jv| == |s| && Nonce(iv, s) == Nonce(jv, s)
    ensures iv == jv
  {
    forall i | 0 <= i < |s| ensures iv[i] == jv[i] {
      assert Nonce(iv, s)[i] == Nonce(jv, s)[i];
      XorCancels(iv[i], jv[i], s[i]);
    }
  }

  lemma XorCancels(a: Byte, b: Byte, c: Byte)
    ensures a ^ c == b ^ c ==> a == b
  {
  }

  lemma WrappedDiffer(s: Bytes, t: Bytes, x: nat, y: nat, m: nat)
    requires x < y < x + m && FromBE(s) == Wrap(x, m) && FromBE(t) == Wrap(y, m)
    ensures s != t
  {
    WrapDistinct(x, y - x, m);
  }

  lemma NumbersDiffer(start: Bytes, i: nat, j: nat, m: nat, v: nat, x: nat, y: nat)
    requires m == Pow256(|start|) && FromBE(start) == Wrap(v, m) && x == v + i && y == v + j && x < y < x + m
    ensures After(start, i) != After(start, j)
  {
    CountsFrom(start, i, m, v, x);
    CountsFrom(start, j, m, v, y);
    WrappedDiffer(After(start, i), After(start, j), x, y, m);
  }

  /** Two numbers fewer than 256^n messages apart, n being their length, give different nonces: with
      the twelve-byte numbers in use no nonce repeats within 2^96 messages, the uniqueness that
      section 8 of NIST SP 800-38D asks for. */
  lemma NoncesDiffer(baseIV: Bytes, start: Bytes, i: nat, j: nat)
    requires |baseIV| == |start| && i < j < i + Pow256(|start|)
    ensures Nonce(baseIV, After(start, i)) != Nonce(baseIV, After(start, j))
  {
    var s, t := After(start, i), After(start, j);
    SuccessorCounts(start);
    var v := FromBE(start);
    NumbersDiffer(start, i, j, Pow256(|start|), v, v + i, v + j);
    if Nonce(baseIV, s) == Nonce(baseIV, t) {
      NonceInjective(baseIV, s, t);
    }
  }

  // ---- the session ----

  datatype End = A | B

  /** Each end's number, the messages in flight to each end as the nonces they are sealed under, and
      the nonces of all messages sent so far. */
  datatype Connection = Connection(numberA: Bytes, numberB: Bytes, toA: seq<Bytes>, toB: seq<Bytes>, log: seq<Bytes>)

  datatype Event = Send(sender: End) | Receive(at: End)

  function Number(c: Connection, e: End): Bytes {
    if e.A? then c.numberA else c.numberB
  }

  function Incoming(c: Connection, e: End): seq<Bytes> {
    if e.A? then c.toA else c.toB
  }

  /** Sealing and writing, or reading and opening, one message. Opening under another nonce than the one
      used for sealing ends the program. A read waits while there is nothing to read. */
  function Step(iv: Bytes, c: Connection, ev: Event): (r: Option<Connection>)
    requires |iv| == |c.numberA| == |c.numberB|
    ensures r.Some? ==> |iv| == |r.value.numberA| == |r.value.numberB|
  {
    match ev
    case Send(A) =>
      var nonce := Nonce(iv, c.numberA);
      Some(c.(numberA := Successor(c.numberA), toB := c.toB + [nonce], log := c.log + [nonce]))
    case Send(B) =>
      var nonce := Nonce(iv, c.numberB);
      Some(c.(numberB := Successor(c.numberB), toA := c.toA + [nonce], log := c.log + [nonce]))
    case Receive(A) =>
      if c.toA == [] then Some(c)
      else if c.toA[0] != Nonce(iv, c.numberA) then None
      else Some(c.(numberA := Successor(c.numberA), toA := c.toA[1..]))
    case Receive(B) =>
      if c.toB == [] then Some(c)
      else if c.toB[0] != Nonce(iv, c.numberB) then None
      else Some(c.(numberB := Successor(c.numberB), toB := c.toB[1..]))
  }

  function Opened(start: Bytes): Connection {
    Connection(start, start, [], [], [])
  }

  /** The nonce of the message at position `k` of the session. */
  function NonceOf(iv: Bytes, start: Bytes, k: nat): Bytes
    requires |iv| == |start|
  {
    Nonce(iv, After(start, k))
  }

  /** `q` are the last of the first `n` messages, each sealed under the nonce of its own position. */
  ghost predicate LastOf(iv: Bytes, start: Bytes, q: seq<Bytes>, n: nat)
    requires |iv| == |start|
  {
    |q| <= n && forall i: nat {:trigger SealedAt(iv, start, q, n, i)} :: SealedAt(iv, start, q, n, i)
  }

  ghost predicate SealedAt(iv: Bytes, start: Bytes, q: seq<Bytes>, n: nat, i: nat)
    requires |iv| == |start| && |q| <= n
  {
    i < |q| ==> q[i] == NonceOf(iv, start, n - |q| + i)
  }

  /** An end with `q` still to read lags the `n` messages sent by those. */
  ghost predicate EndInStep(iv: Bytes, start: Bytes, number: Bytes, q: seq<Bytes>, n: nat)
    requires |iv| == |start|
  {
    LastOf(iv, start, q, n) && number == After(start, n - |q|)
  }

  /** Messages are in flight one way at most; each end's number lags the messages sent by those it has
      not read; every message sent was sealed under the nonce of its own position. */
  ghost predicate InStep(iv: Bytes, start: Bytes, c: Connection)
    requires |iv| == |start|
  {
    && (c.toA == [] || c.toB == [])
    && LastOf(iv, start, c.log, |c.log|)
    && EndInStep(iv, start, c.numberA, c.toA, |c.log|)
    && EndInStep(iv, start, c.numberB, c.toB, |c.log|)
  }

  lemma QueueSend(iv: Bytes, start: Bytes, q: seq<Bytes>, n: nat)
    requires |iv| == |start| && LastOf(iv, start, q, n)
    ensures LastOf(iv, start, q + [NonceOf(iv, start, n)], n + 1)
  {
    var q', m := q + [NonceOf(iv, start, n)], n + 1;
    forall i: nat ensures SealedAt(iv, start, q', m, i) {
      assert SealedAt(iv, start, q, n, i);
    }
  }

  lemma QueueReceive(iv: Bytes, start: Bytes, q: seq<Bytes>, n: nat)
    requires |iv| == |start| && LastOf(iv, start, q, n) && q != []
    ensures q[0] == NonceOf(iv, start, n - |q|) && LastOf(iv, start, q[1..], n)
  {
    assert SealedAt(iv, start, q, n, 0);
    var rest := q[1..];
    forall i: nat ensures SealedAt(iv, start, rest, n, i) {
      assert SealedAt(iv, start, q, n, i + 1);
    }
  }

  /** Nothing is sent towards an end that has something in flight the other way. */
  predicate Courteous(c: Connection, ev: Event) {
    ev.Send? ==> Incoming(c, ev.sender) == []
  }

  lemma AfterNext(start: Bytes, k: nat)
    ensures Successor(After(start, k)) == After(start, k + 1)
  {
  }

  /** An end that has read one more of the messages, with `rest` still to read. */
  lemma ReaderNext(iv: Bytes, start: Bytes, number: Bytes, rest: seq<Bytes>, n: nat, k: nat)
    requires |iv| == |start| && LastOf(iv, start, rest, n) && n - |rest| == k + 1 && number == After(start, k)
    ensures EndInStep(iv, start, Successor(number), rest, n)
  {
    AfterNext(start, k);
  }

  lemma SenderStep(iv: Bytes, start: Bytes, number: Bytes, n: nat)
    requires |iv| == |start| && EndInStep(iv, start, number, [], n)
    ensures Nonce(iv, number) == NonceOf(iv, start, n) && EndInStep(iv, start, Successor(number), [], n + 1)
  {
    AfterNext(start, n);
  }

  lemma PeerStep(iv: Bytes, start: Bytes, number: Bytes, q: seq<Bytes>, n: nat)
    requires |iv| == |start| && EndInStep(iv, start, number, q, n)
    ensures EndInStep(iv, start, number, q + [NonceOf(iv, start, n)], n + 1)
  {
    QueueSend(iv, start, q, n);
  }

  lemma ReaderStep(iv: Bytes, start: Bytes, number: Bytes, q: seq<Bytes>, n: nat)
    requires |iv| == |start| && EndInStep(iv, start, number, q, n) && q != []
    ensures |number| == |iv| && q[0] == Nonce(iv, number) && EndInStep(iv, start, Successor(number), q[1..], n)
  {
    QueueReceive(iv, start, q, n);
    ReaderNext(iv, start, number, q[1..], n, n - |q|);
  }

  lemma SendStep(iv: Bytes, start: Bytes, c: Connection, e: End)
    requires |iv| == |start| && InStep(iv, start, c) && Incoming(c, e) == []
    ensures Step(iv, c, Send(e)).Some? && InStep(iv, start, Step(iv, c, Send(e)).value)
  {
    var n := |c.log|;
    QueueSend(iv, start, c.log, n);
    SenderStep(iv, start, Number(c, e), n);
    if e.A? {
      PeerStep(iv, start, c.numberB, c.toB, n);
    } else {
      PeerStep(iv, start, c.numberA, c.toA, n);
    }
  }

  lemma ReceiveStep(iv: Bytes, start: Bytes, c: Connection, e: End)
    requires |iv| == |start| && InStep(iv, start, c)
    ensures Step(iv, c, Receive(e)).Some? && InStep(iv, start, Step(iv, c, Receive(e)).value)
  {
    if Incoming(c, e) != [] {
      ReaderStep(iv, start, Number(c, e), Incoming(c, e), |c.log|);
    }
  }

  /** A courteous step always succeeds and stays in step. */
  lemma CourteousStep(iv: Bytes, start: Bytes, c: Connection, ev: Event)
    requires |iv| == |start| && InStep(iv, start, c) && Courteous(c, ev)
    ensures Step(iv, c, ev).Some? && InStep(iv, start, Step(iv, c, ev).value)
  {
    match ev
    case Send(e) => SendStep(iv, start, c, e);
    case Receive(e) => ReceiveStep(iv, start, c, e);
  }

  /** A message that crosses one in flight the other way breaks the session: the next read at the end
      that sent it opens under the wrong nonce. */
  lemma CrossingFails(iv: Bytes, start: Bytes, c: Connection, e: End)
    requires |iv| == |start| > 0 && InStep(iv, start, c) && !Courteous(c, Send(e))
    ensures var crossed := Step(iv, c, Send(e));
      && crossed.Some? && |crossed.value.numberA| == |crossed.value.numberB| == |iv|
      && Step(iv, crossed.value, Receive(e)) == None
  {
    var k := |c.log| - |Incoming(c, e)|;
    QueueReceive(iv, start, Incoming(c, e), |c.log|);
    assert Number(c, e) == After(start, k) && Successor(Number(c, e)) == After(start, k + 1);
    ManyNumbers(start);
    NoncesDiffer(iv, start, k, k + 1);
  }

  lemma ManyNumbers(start: Bytes)
    requires |start| > 0
    ensures Pow256(|start|) > 1
  {
  }

  function Run(iv: Bytes, c: Connection, evs: seq<Event>): (r: Option<Connection>)
    requires |iv| == |c.numberA| == |c.numberB|
    ensures r.Some? ==> |iv| == |r.value.numberA| == |r.value.numberB|
    decreases |evs|
  {
    if evs == [] then Some(c)
    else match Step(iv, c, evs[0])
      case None => None
      case Some(d) => Run(iv, d, evs[1..])
  }

  /** No step of the run is discourteous. */
  predicate AllCourteous(iv: Bytes, c: Connection, evs: seq<Event>)
    requires |iv| == |c.numberA| == |c.numberB|
    decreases |evs|
  {
    evs == [] ||
    (Courteous(c, evs[0]) && match Step(iv, c, evs[0])
      case None => true
      case Some(d) => AllCourteous(iv, d, evs[1..]))
  }

  lemma {:induction false} RunInStep(iv: Bytes, start: Bytes, c: Connection, evs: seq<Event>)
    requires |iv| == |start| && InStep(iv, start, c) && AllCourteous(iv, c, evs)
    ensures Run(iv, c, evs).Some? && InStep(iv, start, Run(iv, c, evs).value)
    decreases |evs|
  {
    if evs != [] {
      CourteousStep(iv, start, c, evs[0]);
      RunInStep(iv, start, Step(iv, c, evs[0]).value, evs[1..]);
    }
  }

  // ---- exactly which schedules fail ----

  /** How many messages are in flight to `e` after `evs`, as long as none is sent against another. */
  function InFlight(evs: seq<Event>, e: End): nat {
    if evs == [] then 0
    else
      var n := |evs| - 1;
      var before := InFlight(evs[..n], e);
      match evs[n]
      case Send(sender) => if sender == e then before else before + 1
      case Receive(at) => if at == e && before > 0 then before - 1 else before
  }

  /** Event `k` sends a message while one is in flight the other way. */
  predicate Crosses(evs: seq<Event>, k: nat) {
    k < |evs| && evs[k].Send? && InFlight(evs[..k], evs[k].sender) > 0
  }

  /** Event `j` reads, after messages have crossed. */
  predicate ReadsLate(evs: seq<Event>, k: nat, j: nat) {
    k < j < |evs| && Crosses(evs, k) && evs[j].Receive?
  }

  ghost predicate HasCrossing(evs: seq<Event>) {
    exists k: nat :: Crosses(evs, k)
  }

  ghost predicate HasLateRead(evs: seq<Event>) {
    exists k: nat, j: nat :: ReadsLate(evs, k, j)
  }

  lemma CrossesSnoc(evs: seq<Event>, k: nat)
    requires evs != [] && k < |evs| - 1
    ensures Crosses(evs, k) <==> Crosses(evs[..|evs| - 1], k)
  {
    assert evs[..|evs| - 1][..k] == evs[..k];
  }

  /** Messages have crossed if they had before, or the last one does. */
  lemma CrossingSnoc(evs: seq<Event>)
    requires evs != []
    ensures HasCrossing(evs) <==> HasCrossing(evs[..|evs| - 1]) || Crosses(evs, |evs| - 1)
  {
    var pre := evs[..|evs| - 1];
    if k: nat :| Crosses(evs, k) {
      if k < |evs| - 1 {
        CrossesSnoc(evs, k);
      }
    }
    if k: nat :| Crosses(pre, k) {
      CrossesSnoc(evs, k);
    }
  }

  /** There is a late read if there was one before, or the last event reads after a crossing. */
  lemma LateReadSnoc(evs: seq<Event>)
    requires evs != []
    ensures HasLateRead(evs) <==> HasLateRead(evs[..|evs| - 1]) || (HasCrossing(evs[..|evs| - 1]) && evs[|evs| - 1].Receive?)
  {
    var n := |evs| - 1;
    var pre := evs[..n];
    if k: nat, j: nat :| ReadsLate(evs, k, j) {
      CrossesSnoc(evs, k);
      assert j < n ==> ReadsLate(pre, k, j);
    }
    if k: nat, j: nat :| ReadsLate(pre, k, j) {
      CrossesSnoc(evs, k);
      assert ReadsLate(evs, k, j);
    }
    if HasCrossing(pre) && evs[n].Receive? {
      var k: nat :| Crosses(pre, k);
      CrossesSnoc(evs, k);
      assert ReadsLate(evs, k, n);
    }
  }

  /** An end whose next message to read is the one at position `a`, while its own number is past that. */
  ghost predicate Past(iv: Bytes, start: Bytes, number: Bytes, q: seq<Bytes>, a: nat, n: nat)
    requires |iv| == |start|
  {
    q != [] && q[0] == NonceOf(iv, start, a) && exists x: nat :: a < x <= n && number == After(start, x)
  }

  /** Messages have crossed, and both ends are past what they will read next. */
  ghost predicate Crossed(iv: Bytes, start: Bytes, c: Connection, n: nat)
    requires |iv| == |start|
  {
    exists a: nat :: Past(iv, start, c.numberA, c.toA, a, n) && Past(iv, start, c.numberB, c.toB, a, n)
  }

  lemma PastFails(iv: Bytes, start: Bytes, number: Bytes, q: seq<Bytes>, a: nat, n: nat)
    requires |iv| == |start| && Past(iv, start, number, q, a, n) && n < Pow256(|start|)
    ensures |number| == |iv| && q != [] && q[0] != Nonce(iv, number)
  {
    var x: nat :| a < x <= n && number == After(start, x);
    NoncesDiffer(iv, start, a, x);
  }

  lemma SenderStaysPast(iv: Bytes, start: Bytes, number: Bytes, q: seq<Bytes>, a: nat, n: nat)
    requires |iv| == |start| && Past(iv, start, number, q, a, n)
    ensures Past(iv, start, Successor(number), q, a, n + 1)
  {
    var x: nat :| a < x <= n && number == After(start, x);
    AfterNext(start, x);
  }

  lemma ReceiverStaysPast(iv: Bytes, start: Bytes, number: Bytes, q: seq<Bytes>, a: nat, n: nat, nonce: Bytes)
    requires |iv| == |start| && Past(iv, start, number, q, a, n)
    ensures Past(iv, start, number, q + [nonce], a, n + 1)
  {
    var x: nat :| a < x <= n && number == After(start, x);
  }

  /** Sending keeps both ends past what they will read next. */
  lemma CrossedSend(iv: Bytes, start: Bytes, c: Connection, n: nat, a: nat, e: End)
    requires |iv| == |start| == |c.numberA| == |c.numberB|
    requires Past(iv, start, c.numberA, c.toA, a, n) && Past(iv, start, c.numberB, c.toB, a, n)
    ensures var d := Step(iv, c, Send(e));
      d.Some? && Past(iv, start, d.value.numberA, d.value.toA, a, n + 1) && Past(iv, start, d.value.numberB, d.value.toB, a, n + 1)
  {
    if e.A? {
      SenderStaysPast(iv, start, c.numberA, c.toA, a, n);
      ReceiverStaysPast(iv, start, c.numberB, c.toB, a, n, Nonce(iv, c.numberA));
    } else {
      SenderStaysPast(iv, start, c.numberB, c.toB, a, n);
      ReceiverStaysPast(iv, start, c.numberA, c.toA, a, n, Nonce(iv, c.numberB));
    }
  }

  /** Once messages have crossed, every read fails, and sending does not help. */
  lemma CrossedStep(iv: Bytes, start: Bytes, c: Connection, n: nat, ev: Event)
    requires |iv| == |start| && Crossed(iv, start, c, n) && n < Pow256(|start|)
    ensures |iv| == |c.numberA| == |c.numberB|
    ensures ev.Receive? ==> Step(iv, c, ev) == None
    ensures ev.Send? ==> Step(iv, c, ev).Some? && Crossed(iv, start, Step(iv, c, ev).value, n + 1)
  {
    var a: nat :| Past(iv, start, c.numberA, c.toA, a, n) && Past(iv, start, c.numberB, c.toB, a, n);
    PastFails(iv, start, c.numberA, c.toA, a, n);
    PastFails(iv, start, c.numberB, c.toB, a, n);
    if ev.Send? {
      CrossedSend(iv, start, c, n, a, ev.sender);
    }
  }

  lemma IsPast(iv: Bytes, start: Bytes, number: Bytes, q: seq<Bytes>, a: nat, x: nat, n: nat)
    requires |iv| == |start| && q != [] && q[0] == NonceOf(iv, start, a) && a < x <= n && number == After(start, x)
    ensures Past(iv, start, number, q, a, n)
  {
  }

  /** The end that sends against messages in flight to it, with the number `a` that it seals under. */
  lemma SenderPast(iv: Bytes, start: Bytes, number: Bytes, q: seq<Bytes>, a: nat, m: nat, n: nat)
    requires |iv| == |start| && EndInStep(iv, start, number, q, m) && q != [] && m <= n && a == m - |q|
    ensures Past(iv, start, Successor(number), q, a, n + 1) && Nonce(iv, number) == NonceOf(iv, start, a) && a < m
  {
    QueueReceive(iv, start, q, m);
    AfterNext(start, a);
    IsPast(iv, start, Successor(number), q, a, a + 1, n + 1);
  }

  /** The end that it sends to. */
  lemma ReceiverPast(iv: Bytes, start: Bytes, number: Bytes, nonce: Bytes, a: nat, m: nat, n: nat)
    requires |iv| == |start| && EndInStep(iv, start, number, [], m) && nonce == NonceOf(iv, start, a) && a < m <= n
    ensures Past(iv, start, number, [] + [nonce], a, n + 1)
  {
    IsPast(iv, start, number, [] + [nonce], a, m, n + 1);
  }

  /** A message sent against one in flight crosses it for good. */
  lemma CrossingStep(iv: Bytes, start: Bytes, c: Connection, n: nat, e: End)
    requires |iv| == |start| && InStep(iv, start, c) && |c.log| <= n && Incoming(c, e) != []
    ensures Step(iv, c, Send(e)).Some? && Crossed(iv, start, Step(iv, c, Send(e)).value, n + 1)
  {
    var m := |c.log|;
    var a := m - |Incoming(c, e)|;
    SenderPast(iv, start, Number(c, e), Incoming(c, e), a, m, n);
    ReceiverPast(iv, start, if e.A? then c.numberB else c.numberA, Nonce(iv, Number(c, e)), a, m, n);
  }

  lemma RunSnoc(iv: Bytes, c: Connection, evs: seq<Event>, ev: Event)
    requires |iv| == |c.numberA| == |c.numberB|
    ensures Run(iv, c, evs + [ev]) == match Run(iv, c, evs) case None => None case Some(d) => Step(iv, d, ev)
    decreases |evs|
  {
    assert (evs + [ev])[0] == if evs == [] then ev else evs[0];
    if evs == [] {
      assert (evs + [ev])[1..] == [];
    } else {
      assert (evs + [ev])[1..] == evs[1..] + [ev];
      match Step(iv, c, evs[0])
      case None =>
      case Some(d) => RunSnoc(iv, d, evs[1..], ev);
    }
  }

  /** What a run with no crossing has come to. */
  ghost predicate Orderly(iv: Bytes, start: Bytes, r: Option<Connection>, evs: seq<Event>)
    requires |iv| == |start|
  {
    && r.Some? && InStep(iv, start, r.value) && |r.value.log| <= |evs|
    && |r.value.toA| == InFlight(evs, A) && |r.value.toB| == InFlight(evs, B)
  }

  lemma OrderlyStep(iv: Bytes, start: Bytes, c: Connection, evs: seq<Event>)
    requires |iv| == |start| && evs != [] && Orderly(iv, start, Some(c), evs[..|evs| - 1])
    ensures var n := |evs| - 1;
      if Crosses(evs, n) then Step(iv, c, evs[n]).Some? && Crossed(iv, start, Step(iv, c, evs[n]).value, n + 1)
      else Orderly(iv, start, Step(iv, c, evs[n]), evs)
  {
    var n := |evs| - 1;
    if Crosses(evs, n) {
      CrossingStep(iv, start, c, n, evs[n].sender);
    } else {
      CourteousStep(iv, start, c, evs[n]);
    }
  }

  /** Every run from the opening of a connection: in step while no messages cross, crossed until the next read, and
      failed from then on. */
  lemma {:induction false} RunComesTo(iv: Bytes, start: Bytes, evs: seq<Event>)
    requires |iv| == |start| && |evs| < Pow256(|start|)
    ensures var r := Run(iv, Opened(start), evs);
      if HasLateRead(evs) then r.None?
      else if HasCrossing(evs) then r.Some? && Crossed(iv, start, r.value, |evs|)
      else Orderly(iv, start, r, evs)
    decreases |evs|
  {
    if evs != [] {
      var n := |evs| - 1;
      var pre := evs[..n];
      assert evs == pre + [evs[n]];
      RunComesTo(iv, start, pre);
      RunSnoc(iv, Opened(start), pre, evs[n]);
      CrossingSnoc(evs);
      LateReadSnoc(evs);
      var r := Run(iv, Opened(start), pre);
      if r.Some? {
        if HasCrossing(pre) {
          CrossedStep(iv, start, r.value, n, evs[n]);
        } else {
          OrderlyStep(iv, start, r.value, evs);
        }
      }
    }
  }

  /** Exactly which schedules break a session of fewer than 256^n events: those in which a message is sent while one
      is in flight the other way and anything is read, at either end, afterwards. */
  lemma SessionFailsIff(iv: Bytes, start: Bytes, evs: seq<Event>)
    requires |iv| == |start| && |evs| < Pow256(|start|)
    ensures Run(iv, Opened(start), evs).None? <==> HasLateRead(evs)
  {
    RunComesTo(iv, start, evs);
  }

  // ---- exactly which schedules reuse a nonce ----

  ghost predicate SealedAlike(log: seq<Bytes>, i: nat, j: nat) {
    i < j < |log| && log[i] == log[j]
  }

  /** Two messages were sealed under one nonce. */
  ghost predicate Reuses(log: seq<Bytes>) {
    exists i: nat, j: nat :: SealedAlike(log, i, j)
  }

  lemma ReusesStay(log: seq<Bytes>, more: seq<Bytes>)
    requires Reuses(log)
    ensures Reuses(log + more)
  {
    var i: nat, j: nat :| SealedAlike(log, i, j);
    assert SealedAlike(log + more, i, j);
  }

  /** What a step adds to the messages sent. */
  lemma LogGrows(iv: Bytes, c: Connection, ev: Event) returns (more: seq<Bytes>)
    requires |iv| == |c.numberA| == |c.numberB|
    ensures Step(iv, c, ev).Some? ==> Step(iv, c, ev).value.log == c.log + more
  {
    more := if ev.Send? then [Nonce(iv, Number(c, ev.sender))] else [];
    assert c.log + [] == c.log;
  }

  /** A message sent against one in flight is sealed under the nonce of the oldest one its sender has not read. */
  lemma CrossingReuses(iv: Bytes, start: Bytes, c: Connection, e: End)
    requires |iv| == |start| && InStep(iv, start, c) && Incoming(c, e) != []
    ensures Step(iv, c, Send(e)).Some? && Reuses(Step(iv, c, Send(e)).value.log)
  {
    var n := |c.log|;
    var a := n - |Incoming(c, e)|;
    QueueReceive(iv, start, Incoming(c, e), n);
    LogAt(iv, start, c.log, a);
    assert SealedAlike(c.log + [Nonce(iv, Number(c, e))], a, n);
  }

  lemma {:induction false} CrossedReuses(iv: Bytes, start: Bytes, evs: seq<Event>)
    requires |iv| == |start| && |evs| < Pow256(|start|) && HasCrossing(evs) && !HasLateRead(evs)
    ensures Run(iv, Opened(start), evs).Some? && Reuses(Run(iv, Opened(start), evs).value.log)
    decreases |evs|
  {
    var n := |evs| - 1;
    var pre := evs[..n];
    assert evs == pre + [evs[n]];
    RunComesTo(iv, start, evs);
    RunComesTo(iv, start, pre);
    RunSnoc(iv, Opened(start), pre, evs[n]);
    CrossingSnoc(evs);
    LateReadSnoc(evs);
    var c := Run(iv, Opened(start), pre).value;
    if HasCrossing(pre) {
      CrossedReuses(iv, start, pre);
      var more := LogGrows(iv, c, evs[n]);
      ReusesStay(c.log, more);
    } else {
      CrossingReuses(iv, start, c, evs[n].sender);
    }
  }

  lemma LogAt(iv: Bytes, start: Bytes, log: seq<Bytes>, i: nat)
    requires |iv| == |start| && LastOf(iv, start, log, |log|) && i < |log|
    ensures log[i] == NonceOf(iv, start, i)
  {
    assert SealedAt(iv, start, log, |log|, i);
  }

  /** In step no two messages so far were sealed under one nonce. */
  lemma OrderlyFresh(iv: Bytes, start: Bytes, log: seq<Bytes>)
    requires |iv| == |start| && LastOf(iv, start, log, |log|) && |log| <= Pow256(|start|)
    ensures !Reuses(log)
  {
    if i: nat, j: nat :| SealedAlike(log, i, j) {
      LogAt(iv, start, log, i);
      LogAt(iv, start, log, j);
      NoncesDiffer(iv, start, i, j);
    }
  }

  /** In every run in which messages never cross, every message is opened under its sealing nonce, and
      no two of fewer than 256^n messages are sealed under the same one. */
  lemma SessionSound(iv: Bytes, start: Bytes, evs: seq<Event>)
    requires |iv| == |start| && AllCourteous(iv, Opened(start), evs)
    ensures var r := Run(iv, Opened(start), evs);
      && r.Some?
      && (|r.value.log| <= Pow256(|start|) ==> !Reuses(r.value.log))
  {
    RunInStep(iv, start, Opened(start), evs);
    var c := Run(iv, Opened(start), evs).value;
    if |c.log| <= Pow256(|start|) {
      OrderlyFresh(iv, start, c.log);
    }
  }

  /** Exactly which schedules reuse a nonce: over a session of fewer than 256^n events that has not failed, two messages
      have been sealed under one nonce if and only if a message was sent while one was in flight the other way. */
  lemma NonceReuseIff(iv: Bytes, start: Bytes, evs: seq<Event>)
    requires |iv| == |start| && |evs| < Pow256(|start|) && Run(iv, Opened(start), evs).Some?
    ensures Reuses(Run(iv, Opened(start), evs).value.log) <==> HasCrossing(evs)
  {
    RunComesTo(iv, start, evs);
    if HasCrossing(evs) {
      CrossedReuses(iv, start, evs);
    } else {
      OrderlyFresh(iv, start, Run(iv, Opened(start), evs).value.log);
    }
  }
}
