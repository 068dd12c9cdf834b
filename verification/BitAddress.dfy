/** Conversion between four-byte addresses and thirty-two bit paths. */
module BitAddress {
  import opened Types
  import opened Numerals

  /** The path of an address: its big-endian number in binary. */
  function BitsOf(a: Address): Bits {
    Digits(FromBE(a), BITS)
  }

  /** The address at the end of a path. */
  function AddressOf(p: Bits): Address {
    BE(Num(p), 4)
  }

  lemma ScaleByte(n: nat)
    ensures Scale(n, 8) == 256 * n
  {
    assert Scale(n, 1) == 2 * n;
    assert Scale(n, 3) == 2 * Scale(n, 2) && Scale(n, 5) == 2 * Scale(n, 4) && Scale(n, 7) == 2 * Scale(n, 6);
  }

  lemma {:induction false} ScaleSum(n: nat, j: nat, k: nat)
    ensures Scale(n, j + k) == Scale(Scale(n, j), k)
  {
    if k > 0 {
      ScaleSum(n, j, k - 1);
    }
  }

  lemma {:induction false} PowScale(n: nat)
    ensures Pow256(n) == Scale(1, 8 * n)
  {
    if n > 0 {
      PowScale(n - 1);
      ScaleSum(1, 8 * (n - 1), 8);
      ScaleByte(Pow256(n - 1));
    }
  }

  /** The two conversions are mutual inverses. */
  lemma Inverses(a: Address, p: Bits)
    ensures AddressOf(BitsOf(a)) == a && BitsOf(AddressOf(p)) == p
    ensures Num(BitsOf(a)) == FromBE(a)
  {
    PowScale(4);
    BEofFromBE(a);
    NumOfDigits(FromBE(a), BITS);
    DigitsOfNum(p);
    NumBound(p);
    FromBEofBE(Num(p), 4);
  }

  // ---- one byte ----

  /** The `n` most significant bits of a byte. */
  function Top(x: Byte, n: nat): (r: Path)
    ensures |r| == n
    decreases n, x
  {
    if n == 0 then [] else [x & 0x80 == 0x80] + Top(x << 1, n - 1)
  }

  function Shifted(x: Byte, n: nat): Byte
    decreases n, x
  {
    if n == 0 then x else Shifted(x << 1, n - 1)
  }

  lemma ShiftVal(x: Byte)
    ensures Val(x << 1) + 256 * Bit(x & 0x80 == 0x80) == 2 * Val(x)
  {
  }

  lemma {:induction false} ScaleAdd(m: nat, n: nat, k: nat)
    ensures Scale(m + n, k) == Scale(m, k) + Scale(n, k)
  {
    if k > 0 {
      ScaleAdd(m, n, k - 1);
    }
  }

  lemma {:induction false} ScaleTimes(n: nat, k: nat)
    ensures Scale(256 * n, k) == 256 * Scale(n, k)
  {
    if k > 0 {
      ScaleTimes(n, k - 1);
    }
  }

  lemma TopStep(x: Byte, n: nat)
    requires n > 0
    ensures Num(Top(x, n)) == Scale(Bit(x & 0x80 == 0x80), n - 1) + Num(Top(x << 1, n - 1))
  {
    NumConcat([x & 0x80 == 0x80], Top(x << 1, n - 1));
    NumSnoc([], x & 0x80 == 0x80);
  }

  lemma ScaleShift(x: Byte, n: nat)
    requires n > 0
    ensures Scale(Val(x), n) == 256 * Scale(Bit(x & 0x80 == 0x80), n - 1) + Scale(Val(x << 1), n - 1)
  {
    ShiftVal(x);
    ScaleSum(Val(x), 1, n - 1);
    ScaleAdd(256 * Bit(x & 0x80 == 0x80), Val(x << 1), n - 1);
    ScaleTimes(Bit(x & 0x80 == 0x80), n - 1);
    assert Scale(Val(x), 1) == 2 * Scale(Val(x), 0);
  }

  /** Shifting out the top `n` bits splits the value. */
  lemma {:induction false} TopSplits(x: Byte, n: nat)
    ensures Scale(Val(x), n) == 256 * Num(Top(x, n)) + Val(Shifted(x, n))
    decreases n
  {
    if n > 0 {
      TopSplits(x << 1, n - 1);
      TopStep(x, n);
      ScaleShift(x, n);
    }
  }

  /** The eight bits of a byte spell it. */
  lemma TopValue(x: Byte)
    ensures Num(Top(x, 8)) == Val(x)
  {
    TopSplits(x, 8);
    ScaleByte(Val(x));
  }

  /** 0x80 shifted right `k` times. */
  function Mask(k: nat): Byte {
    if k == 0 then 0x80 else Mask(k - 1) >> 1
  }

  lemma MaskEven(k: nat)
    requires k < 7
    ensures Mask(k) & 1 == 0
  {
    assert Mask(1) == 0x40;
    assert Mask(3) == Mask(2) >> 1;
    assert Mask(5) == Mask(4) >> 1;
  }

  lemma MaskDown(m: Byte, x: Byte)
    requires m & 1 == 0
    ensures ((m >> 1) & x == m >> 1) <==> (m & (x << 1) == m)
    ensures (x | (m >> 1)) << 1 == (x << 1) | m
    ensures (x | (m >> 1)) & 0x80 == x & 0x80
  {
  }

  lemma TopBit(x: Byte)
    ensures (0x80 & x == 0x80) <==> (x & 0x80 == 0x80)
    ensures (x | 0x80) & 0x80 == 0x80 && (x | 0x80) << 1 == x << 1
  {
  }

  /** The masks read the bits of a byte from the top. */
  lemma {:induction false} MaskTop(x: Byte, k: nat, n: nat)
    requires k < n <= 8
    ensures Top(x, n)[k] <==> Mask(k) & x == Mask(k)
    decreases n
  {
    if k == 0 {
      TopBit(x);
    } else {
      MaskTop(x << 1, k - 1, n - 1);
      MaskEven(k - 1);
      MaskDown(Mask(k - 1), x);
    }
  }

  lemma {:induction false} MaskVal(k: nat)
    requires k < 8
    ensures Val(Mask(k)) == Scale(1, 7 - k) && Mask(k) & (Mask(k) - 1) == 0
  {
    if k == 0 {
      ScaleByte(1);
    } else {
      MaskVal(k - 1);
      MaskEven(k - 1);
      HalveVal(Mask(k - 1));
    }
  }

  lemma HalveVal(m: Byte)
    requires m & 1 == 0
    ensures 2 * Val(m >> 1) == Val(m)
    ensures m & (m - 1) == 0 ==> (m >> 1) & ((m >> 1) - 1) == 0
  {
  }

  /** No bit of `x` at or below the one-bit mask `m` is set. */
  predicate ClearFrom(x: Byte, m: Byte) {
    m != 0 ==> x & (m | (m - 1)) == 0
  }

  lemma OrVal(x: Byte, m: Byte)
    requires ClearFrom(x, m) && m != 0 && m & (m - 1) == 0
    ensures Val(x | m) == Val(x) + Val(m)
    ensures ClearFrom(x, m >> 1) && ClearFrom(x | m, m >> 1)
  {
    assert x | m == x + m;
  }

  lemma AppendByte(p: Path, a: Bytes, o: Path, x: Byte)
    requires Num(p) == FromBE(a) && |o| == 8 && Num(o) == Val(x)
    ensures Num(p + o) == FromBE(a + [x])
  {
    NumConcat(p, o);
    ScaleByte(Num(p));
    assert (a + [x])[..|a|] == a;
  }

  // ---- the conversion loops ----

  lemma BitsUnique(p: Bits, a: Address)
    requires Num(p) == FromBE(a)
    ensures p == BitsOf(a) && a == AddressOf(p)
  {
    DigitsOfNum(p);
    BEofFromBE(a);
  }

  /** The inner loop: a mask walks down one byte. */
  method ByteToOctet(x: Byte) returns (o: Path)
    ensures |o| == 8 && Num(o) == Val(x)
  {
    var mask: Byte := 0x80;
    ghost var top := Top(x, 8);
    o := [];
    for b := 0 to 8
      invariant mask == Mask(b) && o == top[..b]
    {
      MaskTop(x, b, 8);
      assert top[..b + 1] == top[..b] + [top[b]];
      o := o + [mask & x == mask];
      mask := mask >> 1;
    }
    assert top[..8] == top;
    TopValue(x);
  }

  method ByteToBit(address: Address) returns (r: Bits)
    ensures r == BitsOf(address)
  {
    var bits := [];
    for a := 0 to 4
      invariant |bits| == 8 * a && Num(bits) == FromBE(address[..a])
    {
      var o := ByteToOctet(address[a]);
      AppendByte(bits, address[..a], o, address[a]);
      assert address[..a + 1] == address[..a] + [address[a]];
      bits := bits + o;
    }
    r := bits;
    assert address[..4] == address;
    BitsUnique(r, address);
  }

  lemma ScaleSnoc(p: Path, b: bool, k: nat)
    ensures Scale(Num(p + [b]), k) == Scale(Num(p), k + 1) + (if b then Scale(1, k) else 0)
  {
    NumSnoc(p, b);
    ScaleAdd(2 * Num(p), Bit(b), k);
    ScaleSum(Num(p), 1, k);
    assert Scale(Num(p), 1) == 2 * Scale(Num(p), 0);
    ScaleZero(k);
  }

  /** The byte with the bits of `p` at the top. */
  function Assemble(p: Path): Byte {
    if p == [] then 0
    else
      var x, k := Assemble(p[..|p| - 1]), |p| - 1;
      if p[k] then x | Mask(k) else x
  }

  lemma {:induction false} AssembleClear(p: Path)
    requires |p| <= 8
    ensures ClearFrom(Assemble(p), Mask(|p|))
  {
    if p != [] {
      var k := |p| - 1;
      AssembleClear(p[..k]);
      MaskVal(k);
      MaskNonzero(k);
      OrVal(Assemble(p[..k]), Mask(k));
    }
  }

  lemma AssembleStep(p: Path)
    requires 0 < |p| <= 8
    ensures var k := |p| - 1;
      Val(Assemble(p)) == Val(Assemble(p[..k])) + if p[k] then Scale(1, 7 - k) else 0
  {
    var k := |p| - 1;
    AssembleClear(p[..k]);
    MaskVal(k);
    MaskNonzero(k);
    OrVal(Assemble(p[..k]), Mask(k));
  }

  /** The bits assembled so far, padded with zeros to a byte, are its value. */
  lemma {:induction false} AssembleValue(p: Path, width: nat)
    requires |p| <= width == 8
    ensures Val(Assemble(p)) == Scale(Num(p), width - |p|)
  {
    if p == [] {
      ScaleZero(width);
    } else {
      var k := |p| - 1;
      AssembleValue(p[..k], width);
      AssembleStep(p);
      ScaleSnoc(p[..k], p[k], 7 - k);
      assert p[..k] + [p[k]] == p;
    }
  }

  lemma MaskNonzero(k: nat)
    requires k < 8
    ensures Mask(k) != 0
  {
    MaskVal(k);
    ScalePositive(7 - k);
  }

  lemma {:induction false} ScalePositive(k: nat)
    ensures Scale(1, k) > 0
  {
    if k > 0 {
      ScalePositive(k - 1);
    }
  }

  lemma {:induction false} ScaleZero(k: nat)
    ensures Scale(0, k) == 0
  {
    if k > 0 {
      ScaleZero(k - 1);
    }
  }

  /** One step of the inner loop. */
  method AssembleBit(o: Path, b: nat, addressByte: Byte, multiplier: Byte) returns (next: Byte, halved: Byte)
    requires b < |o| && multiplier == Mask(b) && addressByte == Assemble(o[..b])
    ensures halved == Mask(b + 1) && next == Assemble(o[..b + 1])
  {
    assert o[..b + 1][..b] == o[..b];
    next := if o[b] then addressByte | multiplier else addressByte;
    halved := multiplier >> 1;
  }

  /** The inner loop: a multiplier walks down the byte being assembled. */
  method AssembleOctet(o: Path) returns (addressByte: Byte)
    requires |o| == 8
    ensures addressByte == Assemble(o)
  {
    var multiplier: Byte := 0x80;
    addressByte := 0x00;
    for b := 0 to |o|
      invariant multiplier == Mask(b) && addressByte == Assemble(o[..b])
    {
      addressByte, multiplier := AssembleBit(o, b, addressByte, multiplier);
    }
    assert o[..|o|] == o;
  }

  method OctetToByte(o: Path) returns (addressByte: Byte)
    requires |o| == 8
    ensures Val(addressByte) == Num(o)
  {
    addressByte := AssembleOctet(o);
    AssembleValue(o, |o|);
  }

  method BitToByte(bits: Bits) returns (r: Address)
    ensures r == AddressOf(bits)
  {
    var bytes := [];
    for a := 0 to 4
      invariant |bytes| == a && Num(bits[..8 * a]) == FromBE(bytes)
    {
      var o := bits[8 * a..8 * a + 8];
      var addressByte := OctetToByte(o);
      AppendByte(bits[..8 * a], bytes, o, addressByte);
      assert bits[..8 * (a + 1)] == bits[..8 * a] + o;
      bytes := bytes + [addressByte];
    }
    r := bytes;
    assert bits[..32] == bits;
    BitsUnique(bits, r);
  }
}
