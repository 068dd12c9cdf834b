/** The byte layouts of the database files and of the messages between peers. */
module Codec {
  import opened Types
  import opened Numerals
  import opened RoutingTable

  /** A transaction id: thirty-two bytes. */
  type TxID = b: Bytes | |b| == 32 witness seq(32, _ => 0)

  /** An address registration as the address file stores it. */
  datatype Info = Info(address: Address, nodePubKey: Key, height: uint64, txID: TxID, version: uint32)

  /** A routing probe, or the route it has collected. */
  datatype Route = Route(destination: Address, token: Bytes, capacity: int64, hops: seq<Address>)

  // ---- fixed-width integers ----

  /** Two's complement in sixty-four bits. */
  function Unsigned(c: int64): uint64 {
    if c < 0 then c + 0x1_0000_0000_0000_0000 else c
  }

  function Signed(n: uint64): int64 {
    if n >= 0x8000_0000_0000_0000 then n - 0x1_0000_0000_0000_0000 else n
  }

  /** The only number of sixty-four bits that differs from `c` by a multiple of 2^64. */
  lemma TwosComplement(c: int64, n: uint64)
    ensures n == Unsigned(c) <==> (n - c) % 0x1_0000_0000_0000_0000 == 0
  {
  }

  function GetLE64(bs: Bytes): uint64
    requires |bs| == 8
  {
    LEofFromLE(bs);
    Powers();
    FromLE(bs)
  }

  function GetLE32(bs: Bytes): uint32
    requires |bs| == 4
  {
    LEofFromLE(bs);
    Powers();
    FromLE(bs)
  }

  function PutBE16(n: uint16): (r: Bytes)
    ensures |r| == 2
  {
    [Low(n / 256), Low(n)]
  }

  function GetBE16(bs: Bytes): uint16
    requires |bs| == 2
  {
    256 * Val(bs[0]) + Val(bs[1])
  }

  function PutLE16(n: uint16): (r: Bytes)
    ensures |r| == 2
  {
    [Low(n), Low(n / 256)]
  }

  function GetLE16(bs: Bytes): uint16
    requires |bs| == 2
  {
    Val(bs[0]) + 256 * Val(bs[1])
  }

  function GetBE64(bs: Bytes): uint64
    requires |bs| == 8
  {
    BEofFromBE(bs);
    Powers();
    FromBE(bs)
  }

  lemma Fixed64(n: uint64)
    ensures GetLE64(LE(n, 8)) == n && GetBE64(BE(n, 8)) == n
  {
    Powers();
    FromLEofLE(n, 8);
    FromBEofBE(n, 8);
  }

  lemma TwoBytes(n: uint16, high: nat, low: nat)
    requires high == (n / 256) % 256 && low == n % 256
    ensures 256 * high + low == n
  {
  }

  lemma Fixed16(n: uint16)
    ensures GetLE16(PutLE16(n)) == n && GetBE16(PutBE16(n)) == n
  {
    TwoBytes(n, Val(Low(n / 256)), Val(Low(n)));
  }

  lemma HighByte(n: uint16)
    ensures n / 256 % 256 == n / 256
  {
  }

  /** Big-endian puts the high byte first, little-endian the low byte. */
  lemma Layout16(n: uint16)
    ensures Val(PutBE16(n)[0]) == n / 256 && Val(PutBE16(n)[1]) == n % 256
    ensures Val(PutLE16(n)[0]) == n % 256 && Val(PutLE16(n)[1]) == n / 256
  {
    HighByte(n);
    var high, low := Low(n / 256), Low(n);
    assert PutBE16(n) == [high, low] && PutLE16(n) == [low, high];
  }

  lemma PutBack(a: Byte, b: Byte, n: uint16)
    requires n == 256 * Val(a) + Val(b)
    ensures PutBE16(n) == [a, b] && PutLE16(n) == [b, a]
  {
    LowOf(n, Val(a), b);
    LowOf(Val(a), 0, a);
  }

  lemma Fixed16Back(bs: Bytes)
    requires |bs| == 2
    ensures PutBE16(GetBE16(bs)) == bs && PutLE16(GetLE16(bs)) == bs
  {
    PutBack(bs[0], bs[1], GetBE16(bs));
    PutBack(bs[1], bs[0], GetLE16(bs));
  }

  lemma Fixed64Back(bs: Bytes)
    requires |bs| == 8
    ensures LE(GetLE64(bs), 8) == bs && BE(GetBE64(bs), 8) == bs
  {
    LEofFromLE(bs);
    BEofFromBE(bs);
  }

  /** `n` is written to `bs` from place `at` on, in `len` bytes, the least significant one first. */
  ghost predicate LittleAt(bs: Bytes, at: nat, n: nat, len: nat) {
    at + len <= |bs| && forall k: nat :: k < len ==> Val(bs[at + k]) == ByteAt(n, k)
  }

  /** The most significant byte first. */
  ghost predicate BigAt(bs: Bytes, at: nat, n: nat, len: nat) {
    at + len <= |bs| && forall k: nat :: k < len ==> Val(bs[at + len - 1 - k]) == ByteAt(n, k)
  }

  lemma IsLittleAt(bs: Bytes, at: nat, n: nat, len: nat)
    requires at + len <= |bs| && bs[at..at + len] == LE(n, len)
    ensures LittleAt(bs, at, n, len)
  {
    forall k: nat | k < len ensures Val(bs[at + k]) == ByteAt(n, k) {
      LEAt(n, len, k);
      assert bs[at + k] == bs[at..at + len][k];
    }
  }

  lemma IsBigAt(bs: Bytes, at: nat, n: nat, len: nat)
    requires at + len <= |bs| && bs[at..at + len] == BE(n, len)
    ensures BigAt(bs, at, n, len)
  {
    forall k: nat | k < len ensures Val(bs[at + len - 1 - k]) == ByteAt(n, k) {
      BEAt(n, len, k);
      assert bs[at + len - 1 - k] == bs[at..at + len][len - 1 - k];
    }
  }

  // ---- database records ----

  const ENTRY_SIZE := 24
  const INFO_SIZE := 81
  const HEIGHT_SIZE := 8

  function SerializeEntry(e: Entry): (r: Bytes)
    ensures |r| == ENTRY_SIZE
  {
    e.dest + e.nextHop + LE(Unsigned(e.capacity), 8) + LE(e.height, 8)
  }

  function DeserializeEntry(bs: Bytes): Entry
    requires |bs| == ENTRY_SIZE
  {
    Entry(bs[0..4], bs[4..8], Signed(GetLE64(bs[8..16])), GetLE64(bs[16..24]))
  }

  lemma EntryRoundTrip(e: Entry)
    ensures DeserializeEntry(SerializeEntry(e)) == e
  {
    Fixed64(Unsigned(e.capacity));
    Fixed64(e.height);
    EntryFields(e.dest, e.nextHop, LE(Unsigned(e.capacity), 8), LE(e.height, 8));
  }

  lemma EntryFields(dest: Address, hop: Address, capacity: Bytes, height: Bytes)
    requires |capacity| == |height| == 8
    ensures var bs := dest + hop + capacity + height;
      bs[0..4] == dest && bs[4..8] == hop && bs[8..16] == capacity && bs[16..24] == height
  {
  }

  /** The bytes of a routing record. */
  lemma EntryLayout(e: Entry)
    ensures var r := SerializeEntry(e);
      r[0..4] == e.dest && r[4..8] == e.nextHop && LittleAt(r, 8, Unsigned(e.capacity), 8) && LittleAt(r, 16, e.height, 8)
  {
    var r := SerializeEntry(e);
    EntryFields(e.dest, e.nextHop, LE(Unsigned(e.capacity), 8), LE(e.height, 8));
    IsLittleAt(r, 8, Unsigned(e.capacity), 8);
    IsLittleAt(r, 16, e.height, 8);
  }

  function SerializeInfo(i: Info): (r: Bytes)
    ensures |r| == INFO_SIZE
  {
    i.address + i.nodePubKey + LE(i.height, 8) + i.txID + LE(i.version, 4)
  }

  /** The transaction id and the version are read at the wrong offsets. */
  function DeserializeInfo(bs: Bytes): Info
    requires |bs| == INFO_SIZE
  {
    Info(bs[0..4], bs[4..37], GetLE64(bs[37..45]), bs[36..68], GetLE32(bs[45..49]))
  }

  /** The bytes of a registration record. */
  lemma InfoLayout(i: Info)
    ensures var r := SerializeInfo(i);
      && r[0..4] == i.address && r[4..37] == i.nodePubKey && LittleAt(r, 37, i.height, 8)
      && r[45..77] == i.txID && LittleAt(r, 77, i.version, 4)
  {
    var r := SerializeInfo(i);
    InfoFields(i.address, i.nodePubKey, LE(i.height, 8), i.txID, LE(i.version, 4));
    assert r[45..77] == i.txID && r[77..81] == LE(i.version, 4);
    IsLittleAt(r, 37, i.height, 8);
    IsLittleAt(r, 77, i.version, 4);
  }

  /** A stored registration keeps its address, key and height. What comes back as the transaction id
      is the last key byte, the height and the first twenty-three bytes of the id; what comes back as
      the version is the first four bytes of the id. So a record survives if and only if its own id
      and version happen to be those. */
  lemma InfoRoundTrip(i: Info)
    ensures var j := DeserializeInfo(SerializeInfo(i));
      && j.address == i.address && j.nodePubKey == i.nodePubKey && j.height == i.height
      && (j == i <==> i.txID == i.nodePubKey[32..] + LE(i.height, 8) + i.txID[..23] && LE(i.version, 4) == i.txID[..4])
  {
    Fixed64(i.height);
    InfoFields(i.address, i.nodePubKey, LE(i.height, 8), i.txID, LE(i.version, 4));
    LEofFromLE(i.txID[..4]);
    Powers();
    FromLEofLE(i.version, 4);
  }

  /** A registration whose transaction id does not start with its version does not survive: this one comes back with
      another id. */
  lemma InfoIsLost()
    ensures var i := Info([0, 0, 0, 0], seq(33, _ => 0), 0, seq(32, _ => 1), 0);
      DeserializeInfo(SerializeInfo(i)) != i
  {
    var i := Info([0, 0, 0, 0], seq(33, _ => 0), 0, seq(32, _ => 1), 0);
    InfoRoundTrip(i);
    assert LE(0, 4)[0] == Low(0) && i.txID[..4][0] == 1;
    LowIsZero();
  }

  lemma LowIsZero()
    ensures Low(0) != 1
  {
    assert Val(Low(0)) == 0;
    NextByte(0);
  }

  lemma InfoFields(address: Address, key: Key, height: Bytes, txID: TxID, version: Bytes)
    requires |height| == 8 && |version| == 4
    ensures var bs := address + key + height + txID + version;
      && bs[0..4] == address && bs[4..37] == key && bs[37..45] == height
      && bs[36..68] == key[32..] + height + txID[..23] && bs[45..49] == txID[..4]
  {
  }

  // ---- destinations and tables ----

  const DESTINATION_SIZE := 12

  function SerializeDestination(d: Destination): (r: Bytes)
    ensures |r| == DESTINATION_SIZE
  {
    d.address + LE(Unsigned(d.capacity), 8)
  }

  function DeserializeDestination(bs: Bytes): Destination
    requires |bs| == DESTINATION_SIZE
  {
    Destination(bs[0..4], Signed(GetLE64(bs[4..12])))
  }

  lemma DestinationRoundTrip(d: Destination)
    ensures DeserializeDestination(SerializeDestination(d)) == d
  {
    Fixed64(Unsigned(d.capacity));
    assert SerializeDestination(d)[4..12] == LE(Unsigned(d.capacity), 8);
  }

  lemma DestinationLayout(d: Destination)
    ensures var r := SerializeDestination(d); r[0..4] == d.address && LittleAt(r, 4, Unsigned(d.capacity), 8)
  {
    var r := SerializeDestination(d);
    assert r[4..12] == LE(Unsigned(d.capacity), 8);
    IsLittleAt(r, 4, Unsigned(d.capacity), 8);
  }

  lemma DestinationBack(bs: Bytes)
    requires |bs| == DESTINATION_SIZE
    ensures SerializeDestination(DeserializeDestination(bs)) == bs
  {
    Fixed64Back(bs[4..12]);
    assert bs == bs[0..4] + bs[4..12];
  }

  const TABLE_REQUEST: uint16 := 0
  const TABLE_RESPONSE: uint16 := 1
  const FORWARD_ROUTE: uint16 := 2

  function TableRequest(startingBlock: uint64): (r: Bytes)
    ensures |r| == 10
  {
    PutBE16(TABLE_REQUEST) + BE(startingBlock, 8)
  }

  /** The starting block a request asks for; none when the request is malformed. */
  function ParseTableRequest(bs: Bytes): Option<uint64> {
    if |bs| != 10 || GetBE16(bs[..2]) != TABLE_REQUEST then None else Some(GetBE64(bs[2..10]))
  }

  lemma TableRequestRoundTrip(startingBlock: uint64)
    ensures ParseTableRequest(TableRequest(startingBlock)) == Some(startingBlock)
  {
    var bs := TableRequest(startingBlock);
    assert bs[..2] == PutBE16(TABLE_REQUEST) && bs[2..10] == BE(startingBlock, 8);
    Fixed16(TABLE_REQUEST);
    Fixed64(startingBlock);
  }

  /** A request is accepted exactly if it is the one created for a starting block. */
  lemma TableRequestIff(bs: Bytes, startingBlock: uint64)
    ensures ParseTableRequest(bs) == Some(startingBlock) <==> bs == TableRequest(startingBlock)
  {
    TableRequestRoundTrip(startingBlock);
    if ParseTableRequest(bs) == Some(startingBlock) {
      Fixed16Back(bs[..2]);
      Fixed64Back(bs[2..10]);
      assert bs == bs[..2] + bs[2..10];
    }
  }

  /** The bytes of a request: its kind, 0, and the starting block. */
  lemma TableRequestLayout(startingBlock: uint64)
    ensures var r := TableRequest(startingBlock); BigAt(r, 2, startingBlock, 8) && Val(r[0]) == 0 && Val(r[1]) == 0
  {
    var r := TableRequest(startingBlock);
    assert r[2..10] == BE(startingBlock, 8);
    IsBigAt(r, 2, startingBlock, 8);
    Layout16(TABLE_REQUEST);
  }

  function Concat(ds: seq<Destination>): (r: Bytes)
    ensures |r| == DESTINATION_SIZE * |ds|
  {
    if ds == [] then [] else Concat(ds[..|ds| - 1]) + SerializeDestination(ds[|ds| - 1])
  }

  /** A message type and a count, each in sixteen bits. */
  function Header(kind: uint16, count: nat): (r: Bytes)
    ensures |r| == 4
  {
    PutBE16(kind) + PutBE16(count % 0x1_0000)
  }

  lemma HeaderReads(kind: uint16, count: nat)
    ensures var r := Header(kind, count); GetBE16(r[..2]) == kind && GetBE16(r[2..4]) == count % 0x1_0000
  {
    var r := Header(kind, count);
    assert r[..2] == PutBE16(kind) && r[2..4] == PutBE16(count % 0x1_0000);
    Fixed16(kind);
    Fixed16(count % 0x1_0000);
  }

  function TableResponse(t: Table): (r: Bytes)
    ensures |r| == 4 + DESTINATION_SIZE * |t|
  {
    Header(TABLE_RESPONSE, |t|) + Concat(Destinations(t))
  }

  lemma HeaderLayout(kind: uint16, count: nat, body: Bytes)
    ensures var r := Header(kind, count) + body;
      && Val(r[0]) == kind / 256 && Val(r[1]) == kind % 256
      && Val(r[2]) == count % 0x1_0000 / 256 && Val(r[3]) == count % 0x1_0000 % 256
  {
    Layout16(kind);
    Layout16(count % 0x1_0000);
  }

  /** The first bytes of a response: its kind, 1, and the number of its entries, high byte first. */
  lemma TableResponseLayout(t: Table)
    ensures var r, n := TableResponse(t), |t| % 0x1_0000;
      Val(r[0]) == 0 && Val(r[1]) == 1 && Val(r[2]) == n / 256 && Val(r[3]) == n % 256
  {
    HeaderLayout(TABLE_RESPONSE, |t|, Concat(Destinations(t)));
  }

  /** What a received table response leads to: nothing, or the entries that can be read, in order;
      `complete` is false when the message is shorter than its count says and reading runs off it. */
  datatype ResponseContent = Malformed | Entries(dests: seq<Destination>, complete: bool)

  function ReadEntries(body: Bytes, count: nat): (r: seq<Destination>)
    requires DESTINATION_SIZE * count <= |body|
    ensures |r| == count
  {
    if count == 0 then []
    else ReadEntries(body, count - 1) + [DeserializeDestination(body[DESTINATION_SIZE * (count - 1)..DESTINATION_SIZE * count])]
  }

  function ReadBody(body: Bytes, count: nat): ResponseContent {
    if DESTINATION_SIZE * count <= |body| then Entries(ReadEntries(body, count), true)
    else Entries(ReadEntries(body, |body| / DESTINATION_SIZE), false)
  }

  function ReadTableResponse(bs: Bytes): ResponseContent {
    if |bs| < 4 || GetBE16(bs[..2]) != TABLE_RESPONSE then Malformed
    else ReadBody(bs[4..], GetBE16(bs[2..4]))
  }

  lemma {:induction false} ReadBack(ds: seq<Destination>, count: nat)
    requires count <= |ds|
    ensures ReadEntries(Concat(ds), count) == ds[..count]
  {
    if count > 0 {
      ReadBack(ds, count - 1);
      ConcatAt(ds, count - 1);
      DestinationRoundTrip(ds[count - 1]);
      assert ds[..count] == ds[..count - 1] + [ds[count - 1]];
    }
  }

  lemma FrontSlice(a: Bytes, b: Bytes, i: nat, j: nat)
    requires i <= j <= |a|
    ensures (a + b)[i..j] == a[i..j]
  {
  }

  lemma BackSlice(a: Bytes, b: Bytes)
    ensures (a + b)[|a|..|a| + |b|] == b
  {
  }

  lemma {:induction false} ConcatAt(ds: seq<Destination>, i: nat)
    requires i < |ds|
    ensures Concat(ds)[DESTINATION_SIZE * i..DESTINATION_SIZE * (i + 1)] == SerializeDestination(ds[i])
  {
    var n := |ds| - 1;
    if i < n {
      ConcatAt(ds[..n], i);
      FrontSlice(Concat(ds[..n]), SerializeDestination(ds[n]), DESTINATION_SIZE * i, DESTINATION_SIZE * (i + 1));
    } else {
      BackSlice(Concat(ds[..n]), SerializeDestination(ds[n]));
    }
  }

  lemma ReadBodyBack(ds: seq<Destination>, n: nat)
    requires n <= |ds|
    ensures ReadBody(Concat(ds), n) == Entries(ds[..n], true)
  {
    ReadBack(ds, n);
  }

  lemma ReadAfterHeader(h: Bytes, body: Bytes)
    requires |h| == 4 && GetBE16(h[..2]) == TABLE_RESPONSE
    ensures ReadTableResponse(h + body) == ReadBody(body, GetBE16(h[2..4]))
  {
    var bs := h + body;
    assert bs[..2] == h[..2] && bs[2..4] == h[2..4] && bs[4..] == body;
  }

  lemma MessageReads(h: Bytes, ds: seq<Destination>, n: nat)
    requires |h| == 4 && GetBE16(h[..2]) == TABLE_RESPONSE && GetBE16(h[2..4]) == n && n <= |ds|
    ensures ReadTableResponse(h + Concat(ds)) == Entries(ds[..n], true)
  {
    ReadAfterHeader(h, Concat(ds));
    ReadBodyBack(ds, n);
  }

  /** The header in front of a message body, as it is read. */
  lemma HeaderRead(kind: uint16, count: nat, body: Bytes, bs: Bytes) returns (h: Bytes)
    requires bs == Header(kind, count) + body
    ensures |h| == 4 && bs == h + body && GetBE16(h[..2]) == kind && GetBE16(h[2..4]) == count % 0x1_0000
  {
    h := Header(kind, count);
    HeaderReads(kind, count);
  }

  lemma ResponseReadsBack(ds: seq<Destination>, count: nat, n: nat, bs: Bytes)
    requires bs == Header(TABLE_RESPONSE, count) + Concat(ds) && n == count % 0x1_0000 && n <= |ds|
    ensures ReadTableResponse(bs) == Entries(ds[..n], true)
  {
    var h := HeaderRead(TABLE_RESPONSE, count, Concat(ds), bs);
    MessageReads(h, ds, n);
  }

  lemma CutIff(ds: seq<Destination>, n: nat, c: ResponseContent)
    requires n <= |ds| && c == Entries(ds[..n], true)
    ensures c == Entries(ds, true) <==> n == |ds|
  {
    assert n == |ds| ==> ds[..n] == ds;
  }

  lemma Counted(count: nat, n: nat)
    requires n == count % 0x1_0000
    ensures n <= count && (n == count <==> count < 0x1_0000)
  {
  }

  /** A peer reads back the sender's destinations in order, up to the count modulo 65536; so all of
      them if and only if there are fewer than 65536. */
  lemma {:induction false} TableResponseRoundTrip(t: Table, bs: Bytes)
    requires bs == TableResponse(t)
    ensures ReadTableResponse(bs) == Entries(Destinations(t)[..|t| % 0x1_0000], true)
    ensures ReadTableResponse(bs) == Entries(Destinations(t), true) <==> |t| < 0x1_0000
  {
    var ds, n := Destinations(t), |t| % 0x1_0000;
    Counted(|t|, n);
    ResponseReadsBack(ds, |t|, n, bs);
    CutIff(ds, n, ReadTableResponse(bs));
  }

  /** What is read from the front of a body is what was written there. */
  lemma {:induction false} ReadIsWritten(body: Bytes, count: nat)
    requires DESTINATION_SIZE * count <= |body|
    ensures Concat(ReadEntries(body, count)) == body[..DESTINATION_SIZE * count]
  {
    if count > 0 {
      var here, next := DESTINATION_SIZE * (count - 1), DESTINATION_SIZE * count;
      ReadIsWritten(body, count - 1);
      DestinationBack(body[here..next]);
      assert ReadEntries(body, count)[..count - 1] == ReadEntries(body, count - 1);
      assert body[..next] == body[..here] + body[here..next];
    }
  }

  lemma {:induction false} ReadFront(front: Bytes, more: Bytes, count: nat)
    requires DESTINATION_SIZE * count <= |front|
    ensures ReadEntries(front + more, count) == ReadEntries(front, count)
  {
    if count > 0 {
      ReadFront(front, more, count - 1);
      FrontSlice(front, more, DESTINATION_SIZE * (count - 1), DESTINATION_SIZE * count);
    }
  }

  /** `body` begins with the entries `ds`: all of the `count` announced, or all that it holds whole. */
  predicate Carries(body: Bytes, count: nat, ds: seq<Destination>, complete: bool) {
    && Concat(ds) <= body
    && if complete then |ds| == count else |ds| < count && |body| < DESTINATION_SIZE * (|ds| + 1)
  }

  lemma {:induction false} CarriedIsRead(body: Bytes, ds: seq<Destination>)
    requires Concat(ds) <= body
    ensures DESTINATION_SIZE * |ds| <= |body| && ReadEntries(body, |ds|) == ds
  {
    var more := body[|Concat(ds)|..];
    assert body == Concat(ds) + more;
    ReadFront(Concat(ds), more, |ds|);
    ReadBack(ds, |ds|);
    assert ds[..|ds|] == ds;
  }

  lemma ReadIsCarried(body: Bytes, ds: seq<Destination>)
    requires DESTINATION_SIZE * |ds| <= |body| && ReadEntries(body, |ds|) == ds
    ensures Concat(ds) <= body
  {
    ReadIsWritten(body, |ds|);
  }

  lemma WholeEntries(size: nat, n: nat)
    ensures n == size / DESTINATION_SIZE <==> DESTINATION_SIZE * n <= size < DESTINATION_SIZE * (n + 1)
  {
  }

  lemma {:induction false} BodyIff(body: Bytes, count: nat, ds: seq<Destination>, complete: bool)
    ensures ReadBody(body, count) == Entries(ds, complete) <==> Carries(body, count, ds, complete)
  {
    WholeEntries(|body|, |ds|);
    WholeEntries(|body|, |body| / DESTINATION_SIZE);
    if Carries(body, count, ds, complete) {
      CarriedIsRead(body, ds);
    }
    if ReadBody(body, count) == Entries(ds, complete) {
      ReadIsCarried(body, ds);
    }
  }

  lemma HeaderOf(bs: Bytes, kind: uint16, count: uint16)
    requires Header(kind, count) <= bs
    ensures |bs| >= 4 && GetBE16(bs[..2]) == kind && GetBE16(bs[2..4]) == count
  {
    HeaderReads(kind, count);
    Counted(count, count % 0x1_0000);
    var h := Header(kind, count);
    assert bs[..2] == h[..2] && bs[2..4] == h[2..4];
  }

  /** A response that announces `count` entries and carries `ds`. */
  predicate Responds(bs: Bytes, count: uint16, ds: seq<Destination>, complete: bool) {
    Header(TABLE_RESPONSE, count) <= bs && Carries(bs[4..], count, ds, complete)
  }

  /** Exactly what is read from any message: `ds`, complete or not, if and only if it has the kind of a response, the
      announced number of entries, and a body that begins with `ds` and is cut off there unless that is all. */
  lemma {:induction false} ResponseIff(bs: Bytes, ds: seq<Destination>, complete: bool)
    ensures ReadTableResponse(bs) == Entries(ds, complete) <==> exists count: uint16 :: Responds(bs, count, ds, complete)
  {
    if ReadTableResponse(bs) == Entries(ds, complete) {
      ReadResponds(bs, ds, complete);
    }
    if count: uint16 :| Responds(bs, count, ds, complete) {
      RespondsRead(bs, count, ds, complete);
    }
  }

  lemma {:induction false} ReadResponds(bs: Bytes, ds: seq<Destination>, complete: bool)
    requires ReadTableResponse(bs) == Entries(ds, complete)
    ensures Responds(bs, GetBE16(bs[2..4]), ds, complete)
  {
    HeaderIs(bs, TABLE_RESPONSE, GetBE16(bs[2..4]));
    BodyIff(bs[4..], GetBE16(bs[2..4]), ds, complete);
  }

  lemma {:induction false} RespondsRead(bs: Bytes, count: uint16, ds: seq<Destination>, complete: bool)
    requires Responds(bs, count, ds, complete)
    ensures ReadTableResponse(bs) == Entries(ds, complete)
  {
    HeaderOf(bs, TABLE_RESPONSE, count);
    BodyIff(bs[4..], count, ds, complete);
  }

  lemma HeaderIs(bs: Bytes, kind: uint16, count: uint16)
    requires |bs| >= 4 && GetBE16(bs[..2]) == kind && GetBE16(bs[2..4]) == count
    ensures Header(kind, count) <= bs
  {
    Fixed16Back(bs[..2]);
    Fixed16Back(bs[2..4]);
    Counted(count, count % 0x1_0000);
    assert bs[..4] == bs[..2] + bs[2..4] == Header(kind, count);
  }

  // ---- routes ----

  function Flatten(hops: seq<Address>): (r: Bytes)
    ensures |r| == 4 * |hops|
  {
    if hops == [] then [] else Flatten(hops[..|hops| - 1]) + hops[|hops| - 1]
  }

  const ROUTE_HEADER := 24
  const TOKEN_SIZE := 10

  /** Destination, token, capacity and the hop count in sixteen bits. */
  function RouteHeader(r: Route): Bytes {
    r.destination + r.token + LE(Unsigned(r.capacity), 8) + PutLE16(|r.hops| % 0x1_0000)
  }

  lemma RouteHeaderReads(r: Route)
    requires |r.token| == TOKEN_SIZE
    ensures var h := RouteHeader(r);
      && |h| == ROUTE_HEADER && h[0..4] == r.destination && h[4..14] == r.token
      && Signed(GetLE64(h[14..22])) == r.capacity && GetLE16(h[22..24]) == |r.hops| % 0x1_0000
  {
    var h, c, n := RouteHeader(r), LE(Unsigned(r.capacity), 8), PutLE16(|r.hops| % 0x1_0000);
    Fixed64(Unsigned(r.capacity));
    Fixed16(|r.hops| % 0x1_0000);
    assert h[14..22] == c && h[22..24] == n;
  }

  function SerializedRoute(r: Route): Bytes {
    RouteHeader(r) + Flatten(r.hops)
  }

  method SerializeRoute(route: Route) returns (bs: Bytes)
    ensures bs == SerializedRoute(route)
  {
    bs := AppendHops(RouteHeader(route), route.hops);
  }

  method AppendHops(header: Bytes, hops: seq<Address>) returns (bs: Bytes)
    ensures bs == header + Flatten(hops)
  {
    bs := header;
    for i := 0 to |hops|
      invariant bs == header + Flatten(hops[..i])
    {
      bs := bs + hops[i];
      assert hops[..i + 1][..i] == hops[..i];
    }
    assert hops[..|hops|] == hops;
  }

  function ReadHops(body: Bytes, count: nat): (r: seq<Address>)
    requires 4 * count <= |body|
    ensures |r| == count
  {
    if count == 0 then [] else ReadHops(body, count - 1) + [body[4 * (count - 1)..4 * count]]
  }

  /** The route in `bs`; none when the hops its header announces run past the end. */
  function DeserializedRoute(bs: Bytes): Option<Route>
    requires |bs| >= ROUTE_HEADER
  {
    var count: nat := GetLE16(bs[22..24]);
    if ROUTE_HEADER + 4 * count > |bs| then None
    else Some(Route(bs[0..4], bs[4..14], Signed(GetLE64(bs[14..22])), ReadHops(bs[24..], count)))
  }

  lemma SubSlice(bs: Bytes, from: nat, i: nat, j: nat)
    requires i <= j && from + j <= |bs|
    ensures bs[from..][i..j] == bs[from + i..from + j]
  {
  }

  method DeserializeRoute(bs: Bytes) returns (r: Option<Route>)
    requires |bs| >= ROUTE_HEADER
    ensures r == DeserializedRoute(bs)
  {
    var count: nat := GetLE16(bs[22..24]);
    var hops := [];
    for i := 0 to count
      invariant 4 * i <= |bs| - 24 && hops == ReadHops(bs[24..], i)
    {
      if 24 + 4 * (i + 1) > |bs| {
        return None;
      }
      var hop := bs[24 + 4 * i..24 + 4 * (i + 1)];
      SubSlice(bs, 24, 4 * i, 4 * (i + 1));
      hops := hops + [hop];
    }
    r := Some(Route(bs[0..4], bs[4..14], Signed(GetLE64(bs[14..22])), hops));
  }

  function ForwardRouteMessage(r: Route): Bytes {
    PutBE16(FORWARD_ROUTE) + SerializedRoute(r)
  }

  datatype RouteContent = Refused | Overrun | Parsed(route: Route)

  function ReadForwardRoute(bs: Bytes): RouteContent {
    if |bs| < 2 + ROUTE_HEADER || GetBE16(bs[..2]) != FORWARD_ROUTE then Refused
    else match DeserializedRoute(bs[2..])
      case None => Overrun
      case Some(r) => Parsed(r)
  }

  lemma {:induction false} ReadHopsBack(hops: seq<Address>, count: nat)
    requires count <= |hops|
    ensures ReadHops(Flatten(hops), count) == hops[..count]
  {
    if count > 0 {
      ReadHopsBack(hops, count - 1);
      FlattenAt(hops, count - 1);
      assert hops[..count] == hops[..count - 1] + [hops[count - 1]];
    }
  }

  lemma {:induction false} FlattenAt(hops: seq<Address>, i: nat)
    requires i < |hops|
    ensures Flatten(hops)[4 * i..4 * (i + 1)] == hops[i]
  {
    var n := |hops| - 1;
    if i < n {
      FlattenAt(hops[..n], i);
      FrontSlice(Flatten(hops[..n]), hops[n], 4 * i, 4 * (i + 1));
    } else {
      BackSlice(Flatten(hops[..n]), hops[n]);
    }
  }

  lemma RouteReadsBack(h: Bytes, r: Route, n: nat)
    requires |h| == ROUTE_HEADER && h[0..4] == r.destination && h[4..14] == r.token
    requires Signed(GetLE64(h[14..22])) == r.capacity && GetLE16(h[22..24]) == n && n <= |r.hops|
    ensures DeserializedRoute(h + Flatten(r.hops)) == Some(r.(hops := r.hops[..n]))
  {
    var bs := h + Flatten(r.hops);
    assert bs[0..4] == h[0..4] && bs[4..14] == h[4..14] && bs[14..22] == h[14..22];
    assert bs[22..24] == h[22..24] && bs[24..] == Flatten(r.hops);
    ReadHopsBack(r.hops, n);
  }

  lemma KindReads(kind: uint16, body: Bytes)
    ensures var bs := PutBE16(kind) + body; GetBE16(bs[..2]) == kind && bs[2..] == body
  {
    assert (PutBE16(kind) + body)[..2] == PutBE16(kind);
    Fixed16(kind);
  }

  lemma MessageReadsBack(r: Route, bs: Bytes)
    requires |r.token| == TOKEN_SIZE && bs == ForwardRouteMessage(r)
    ensures ReadForwardRoute(bs) == Parsed(r.(hops := r.hops[..|r.hops| % 0x1_0000]))
  {
    RouteHeaderReads(r);
    RouteReadsBack(RouteHeader(r), r, |r.hops| % 0x1_0000);
    KindReads(FORWARD_ROUTE, SerializedRoute(r));
  }

  lemma HopsCutIff(r: Route, n: nat, c: RouteContent)
    requires n <= |r.hops| && c == Parsed(r.(hops := r.hops[..n]))
    ensures c == Parsed(r) <==> n == |r.hops|
  {
    assert n == |r.hops| ==> r.hops[..n] == r.hops;
  }

  /** A forwarded route reads back with its hops cut to their count modulo 65536; so as the same
      route if and only if it has fewer than 65536 hops. */
  lemma RouteRoundTrip(r: Route, bs: Bytes)
    requires |r.token| == TOKEN_SIZE && bs == ForwardRouteMessage(r)
    ensures ReadForwardRoute(bs) == Parsed(r.(hops := r.hops[..|r.hops| % 0x1_0000]))
    ensures ReadForwardRoute(bs) == Parsed(r) <==> |r.hops| < 0x1_0000
  {
    MessageReadsBack(r, bs);
    HopsCutIff(r, |r.hops| % 0x1_0000, ReadForwardRoute(bs));
  }

  lemma SignBack(n: uint64)
    ensures Unsigned(Signed(n)) == n
  {
  }

  lemma {:induction false} HopsAreWritten(body: Bytes, count: nat)
    requires 4 * count <= |body|
    ensures Flatten(ReadHops(body, count)) == body[..4 * count]
  {
    if count > 0 {
      var here, next := 4 * (count - 1), 4 * count;
      HopsAreWritten(body, count - 1);
      assert ReadHops(body, count)[..count - 1] == ReadHops(body, count - 1);
      assert body[..next] == body[..here] + body[here..next];
    }
  }

  lemma {:induction false} HopsFront(front: Bytes, more: Bytes, count: nat)
    requires 4 * count <= |front|
    ensures ReadHops(front + more, count) == ReadHops(front, count)
  {
    if count > 0 {
      HopsFront(front, more, count - 1);
      FrontSlice(front, more, 4 * (count - 1), 4 * count);
    }
  }

  /** The header of a route that was read is the one it was read from. */
  lemma RouteHeaderBack(h: Bytes, r: Route)
    requires |h| == ROUTE_HEADER && r.destination == h[0..4] && r.token == h[4..14]
    requires r.capacity == Signed(GetLE64(h[14..22])) && |r.hops| == GetLE16(h[22..24])
    ensures RouteHeader(r) == h
  {
    SignBack(GetLE64(h[14..22]));
    Fixed64Back(h[14..22]);
    Fixed16Back(h[22..24]);
    Counted(|r.hops|, |r.hops| % 0x1_0000);
    assert h == h[0..4] + h[4..14] + h[14..22] + h[22..24];
  }

  lemma FrontParts(bs: Bytes)
    requires |bs| >= ROUTE_HEADER
    ensures var h := bs[..24];
      h[0..4] == bs[0..4] && h[4..14] == bs[4..14] && h[14..22] == bs[14..22] && h[22..24] == bs[22..24]
  {
  }

  lemma RouteParts(bs: Bytes, r: Route)
    requires |bs| >= ROUTE_HEADER && DeserializedRoute(bs) == Some(r)
    ensures |r.hops| < 0x1_0000 && RouteHeader(r) == bs[..24]
    ensures 24 + 4 * |r.hops| <= |bs| && r.hops == ReadHops(bs[24..], |r.hops|)
  {
    FrontParts(bs);
    RouteHeaderBack(bs[..24], r);
  }

  lemma FrontOf(bs: Bytes, h: Bytes, body: Bytes)
    requires |h| <= |bs| && h == bs[..|h|] && body <= bs[|h|..]
    ensures h + body <= bs
  {
    assert bs == h + bs[|h|..];
  }

  lemma {:induction false} RouteRead(bs: Bytes, r: Route)
    requires |bs| >= ROUTE_HEADER && DeserializedRoute(bs) == Some(r)
    ensures |r.token| == TOKEN_SIZE && |r.hops| < 0x1_0000 && SerializedRoute(r) <= bs
  {
    RouteParts(bs, r);
    HopsAreWritten(bs[24..], |r.hops|);
    FrontOf(bs, RouteHeader(r), Flatten(r.hops));
  }

  lemma RouteWritten(bs: Bytes, r: Route)
    requires |bs| >= ROUTE_HEADER && |r.token| == TOKEN_SIZE && |r.hops| < 0x1_0000 && SerializedRoute(r) <= bs
    ensures DeserializedRoute(bs) == Some(r)
  {
    var h, body, n := RouteHeader(r), Flatten(r.hops), |r.hops|;
    var more := bs[|SerializedRoute(r)|..];
    Counted(n, n % 0x1_0000);
    RouteHeaderReads(r);
    assert bs == h + body + more;
    assert bs[0..4] == h[0..4] && bs[4..14] == h[4..14] && bs[14..22] == h[14..22] && bs[22..24] == h[22..24];
    assert bs[24..] == body + more;
    HopsFront(body, more, n);
    ReadHopsBack(r.hops, n);
    assert r.hops[..n] == r.hops;
  }

  /** Exactly which messages a route is read from: those that begin with the message made of it, if it has fewer than
      65536 hops. */
  lemma ForwardRouteIff(bs: Bytes, r: Route)
    ensures ReadForwardRoute(bs) == Parsed(r) <==>
      |r.token| == TOKEN_SIZE && |r.hops| < 0x1_0000 && ForwardRouteMessage(r) <= bs
  {
    if ReadForwardRoute(bs) == Parsed(r) {
      Fixed16Back(bs[..2]);
      RouteRead(bs[2..], r);
      assert bs == bs[..2] + bs[2..];
    }
    if |r.token| == TOKEN_SIZE && |r.hops| < 0x1_0000 && ForwardRouteMessage(r) <= bs {
      var more := bs[|ForwardRouteMessage(r)|..];
      assert bs == PutBE16(FORWARD_ROUTE) + (SerializedRoute(r) + more);
      KindReads(FORWARD_ROUTE, SerializedRoute(r) + more);
      RouteHeaderReads(r);
      RouteWritten(bs[2..], r);
    }
  }

  /** The hop `i` of a message. */
  predicate HopIs(bs: Bytes, i: nat, hop: Address) {
    |bs| >= 30 + 4 * i && bs[26 + 4 * i..30 + 4 * i] == hop
  }

  lemma HopAt(bs: Bytes, hops: seq<Address>, i: nat)
    requires |bs| >= 26 && bs[26..] == Flatten(hops) && i < |hops|
    ensures HopIs(bs, i, hops[i])
  {
    var from, to := 4 * i, 4 * (i + 1);
    FlattenAt(hops, i);
    assert bs[26..][from..to] == hops[i];
    SubSlice(bs, 26, from, to);
  }

  /** The bytes of a route: the capacity and the number of hops are little-endian, unlike the kind in front of them. */
  lemma RouteLayout(r: Route)
    requires |r.token| == TOKEN_SIZE
    ensures var bs, n := ForwardRouteMessage(r), |r.hops| % 0x1_0000;
      && |bs| == 26 + 4 * |r.hops| && Val(bs[0]) == 0 && Val(bs[1]) == 2 && bs[2..6] == r.destination && bs[6..16] == r.token
      && LittleAt(bs, 16, Unsigned(r.capacity), 8) && Val(bs[24]) == n % 256 && Val(bs[25]) == n / 256
      && forall i: nat :: i < |r.hops| ==> HopIs(bs, i, r.hops[i])
  {
    var bs, h, n := ForwardRouteMessage(r), RouteHeader(r), |r.hops| % 0x1_0000;
    Layout16(FORWARD_ROUTE);
    Layout16(n);
    assert bs == PutBE16(FORWARD_ROUTE) + h + Flatten(r.hops);
    assert bs[2..6] == h[0..4] == r.destination && bs[6..16] == h[4..14] == r.token;
    assert bs[16..24] == h[14..22] == LE(Unsigned(r.capacity), 8);
    assert bs[24] == PutLE16(n)[0] && bs[25] == PutLE16(n)[1];
    IsLittleAt(bs, 16, Unsigned(r.capacity), 8);
    assert bs[26..] == Flatten(r.hops);
    forall i: nat | i < |r.hops| ensures HopIs(bs, i, r.hops[i]) {
      HopAt(bs, r.hops, i);
    }
  }

  // ---- frames ----

  /** The tag that sealing adds. */
  const TAG_SIZE := 16

  /** A sealed message on the wire, preceded by its length modulo 65536. */
  function Frame(sealed: Bytes): Bytes {
    PutBE16(|sealed| % 0x1_0000) + sealed
  }

  /** One frame off the stream, and what remains. */
  function ReadFrame(stream: Bytes): Option<(Bytes, Bytes)> {
    if |stream| < 2 then None
    else
      var n: nat := GetBE16(stream[..2]);
      if |stream| < 2 + n then None else Some((stream[2..2 + n], stream[2 + n..]))
  }

  /** The length comes high byte first. */
  lemma FrameLayout(sealed: Bytes)
    ensures var f, n := Frame(sealed), |sealed| % 0x1_0000; Val(f[0]) == n / 256 && Val(f[1]) == n % 256 && f[2..] == sealed
  {
    Layout16(|sealed| % 0x1_0000);
  }

  /** A frame is read back exactly when its length fits the length field; a longer one is cut, and
      the rest of it is taken for the next frame. */
  lemma FrameExactIff(sealed: Bytes, rest: Bytes)
    ensures ReadFrame(Frame(sealed) + rest) == Some((sealed, rest)) <==> |sealed| < 0x1_0000
  {
    var n := |sealed| % 0x1_0000;
    var stream := Frame(sealed) + rest;
    assert stream[..2] == PutBE16(n);
    Fixed16(n);
    assert stream[2..2 + n] == sealed[..n] && stream[2 + |sealed|..] == rest;
    if |sealed| < 0x1_0000 {
      assert sealed[..n] == sealed;
    }
  }

  /** The largest table whose response fits a frame. */
  const MAX_FRAMED_ENTRIES := 5459

  /** The largest number of hops whose route fits a frame. */
  const MAX_FRAMED_HOPS := 16373

  lemma TableFrameExactIff(t: Table, sealed: Bytes, rest: Bytes)
    requires |sealed| == |TableResponse(t)| + TAG_SIZE
    ensures ReadFrame(Frame(sealed) + rest) == Some((sealed, rest)) <==> |t| <= MAX_FRAMED_ENTRIES
  {
    FrameExactIff(sealed, rest);
  }

  lemma RouteFrameExactIff(r: Route, sealed: Bytes, rest: Bytes)
    requires |r.token| == TOKEN_SIZE && |sealed| == |ForwardRouteMessage(r)| + TAG_SIZE
    ensures ReadFrame(Frame(sealed) + rest) == Some((sealed, rest)) <==> |r.hops| <= MAX_FRAMED_HOPS
  {
    FrameExactIff(sealed, rest);
  }
}
