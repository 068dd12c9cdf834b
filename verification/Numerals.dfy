/** Positional numerals: the meaning of bit paths and of byte strings as numbers. */
module Numerals {
  import opened Types

  /** How many numbers `n` bytes can hold. */
  function Pow256(n: nat): (r: nat)
    ensures r > 0
  {
    if n == 0 then 1 else 256 * Pow256(n - 1)
  }

  lemma Powers()
    ensures Pow256(2) == 0x1_0000 && Pow256(4) == 0x1_0000_0000 && Pow256(8) == 0x1_0000_0000_0000_0000
  {
    assert Pow256(1) == 256;
    assert Pow256(3) == 256 * Pow256(2);
    assert Pow256(4) == 256 * Pow256(3);
    assert Pow256(5) == 256 * Pow256(4);
    assert Pow256(6) == 256 * Pow256(5);
    assert Pow256(7) == 256 * Pow256(6);
  }

  // ---- bytes as digits ----

  function Val(b: Byte): (r: nat)
    ensures r < 256
  {
    b as nat
  }

  lemma NextByte(b: Byte)
    requires b < 255
    ensures Val(b + 1) == Val(b) + 1 && Val(b) < 255
  {
  }

  lemma LastByte(b: Byte)
    requires !(b < 255)
    ensures Val(b) == 255 && Val(0) == 0
  {
  }

  lemma ZeroByte()
    ensures Val(0) == 0
  {
  }

  /** Counting up from zero reaches every value. */
  lemma {:induction false} HasByte(d: nat) returns (b: Byte)
    requires d < 256
    ensures Val(b) == d
  {
    if d == 0 {
      ZeroByte();
      b := 0;
    } else {
      b := HasByte(d - 1);
      if b < 255 {
        NextByte(b);
        b := b + 1;
      } else {
        LastByte(b);
        assert false;
      }
    }
  }

  lemma ByteExists(d: nat)
    requires d < 256
    ensures exists b :: Val(b) == d
  {
    var b := HasByte(d);
  }

  lemma ValInjective(a: Byte, b: Byte)
    requires Val(a) == Val(b)
    ensures a == b
  {
  }

  lemma OneByteEach()
    ensures forall a, b :: Val(a) == Val(b) ==> a == b
  {
    forall a, b | Val(a) == Val(b) ensures a == b {
      ValInjective(a, b);
    }
  }

  /** The byte of value `n % 256`. */
  function Low(n: nat): (r: Byte)
    ensures Val(r) == n % 256
  {
    ByteExists(n % 256);
    OneByteEach();
    var b: Byte :| Val(b) == n % 256;
    b
  }

  lemma Digit(n: nat, high: nat, low: nat)
    requires low < 256
    ensures n == 256 * high + low <==> n / 256 == high && n % 256 == low
  {
  }

  /** The value of byte `k` of a number, the least significant one being byte 0. */
  function ByteAt(n: nat, k: nat): nat {
    if k == 0 then n % 256 else ByteAt(n / 256, k - 1)
  }

  // ---- big-endian byte strings ----

  function FromBE(bs: Bytes): nat {
    if bs == [] then 0 else 256 * FromBE(bs[..|bs| - 1]) + Val(bs[|bs| - 1])
  }

  function BE(n: nat, len: nat): (r: Bytes)
    ensures |r| == len
  {
    if len == 0 then [] else BE(n / 256, len - 1) + [Low(n)]
  }

  lemma {:induction false} FromBEofBE(n: nat, len: nat)
    requires n < Pow256(len)
    ensures FromBE(BE(n, len)) == n
  {
    if len > 0 {
      FromBEofBE(n / 256, len - 1);
      assert BE(n, len)[..len - 1] == BE(n / 256, len - 1);
      Digit(n, n / 256, n % 256);
    }
  }

  lemma LowOf(n: nat, high: nat, last: Byte)
    requires n == 256 * high + Val(last)
    ensures Low(n) == last && n / 256 == high
  {
    Digit(n, high, Val(last));
    ValInjective(Low(n), last);
  }

  lemma LowIs(high: nat, last: Byte)
    ensures Low(256 * high + Val(last)) == last && (256 * high + Val(last)) / 256 == high
  {
    Digit(256 * high + Val(last), high, Val(last));
    ValInjective(Low(256 * high + Val(last)), last);
  }

  lemma BESnoc(n: nat, init: Bytes, last: Byte)
    requires BE(n, |init|) == init
    ensures BE(256 * n + Val(last), |init| + 1) == init + [last]
  {
    LowIs(n, last);
  }

  lemma {:induction false} BEofFromBE(bs: Bytes)
    ensures FromBE(bs) < Pow256(|bs|) && BE(FromBE(bs), |bs|) == bs
  {
    if bs != [] {
      var init, last := bs[..|bs| - 1], bs[|bs| - 1];
      BEofFromBE(init);
      BESnoc(FromBE(init), init, last);
      assert bs == init + [last];
    }
  }

  /** Big-endian: the least significant byte comes last. */
  lemma {:induction false} BEAt(n: nat, len: nat, k: nat)
    requires k < len
    ensures Val(BE(n, len)[len - 1 - k]) == ByteAt(n, k)
  {
    if k > 0 {
      BEAt(n / 256, len - 1, k - 1);
    }
  }

  // ---- little-endian byte strings ----

  function FromLE(bs: Bytes): nat {
    if bs == [] then 0 else Val(bs[0]) + 256 * FromLE(bs[1..])
  }

  function LE(n: nat, len: nat): (r: Bytes)
    ensures |r| == len
  {
    if len == 0 then [] else [Low(n)] + LE(n / 256, len - 1)
  }

  lemma {:induction false} FromLEofLE(n: nat, len: nat)
    requires n < Pow256(len)
    ensures FromLE(LE(n, len)) == n
  {
    if len > 0 {
      FromLEofLE(n / 256, len - 1);
      assert LE(n, len)[1..] == LE(n / 256, len - 1);
      Digit(n, n / 256, n % 256);
    }
  }

  lemma {:induction false} LEofFromLE(bs: Bytes)
    ensures FromLE(bs) < Pow256(|bs|) && LE(FromLE(bs), |bs|) == bs
  {
    if bs != [] {
      var n := FromLE(bs);
      LEofFromLE(bs[1..]);
      Digit(n, FromLE(bs[1..]), Val(bs[0]));
      ValInjective(Low(n), bs[0]);
      assert bs == [bs[0]] + bs[1..];
    }
  }

  /** Little-endian: the least significant byte comes first. */
  lemma {:induction false} LEAt(n: nat, len: nat, k: nat)
    requires k < len
    ensures Val(LE(n, len)[k]) == ByteAt(n, k)
  {
    if k > 0 {
      LEAt(n / 256, len - 1, k - 1);
    }
  }

  // ---- bit paths ----

  function Bit(b: bool): nat { if b then 1 else 0 }

  /** The number a bit path spells, most significant bit first. */
  function Num(p: Path): nat {
    if p == [] then 0 else 2 * Num(p[..|p| - 1]) + Bit(p[|p| - 1])
  }

  function Digits(n: nat, len: nat): (r: Path)
    ensures |r| == len
  {
    if len == 0 then [] else Digits(n / 2, len - 1) + [n % 2 == 1]
  }

  /** `n` with `k` zero bits appended. */
  function Scale(n: nat, k: nat): nat {
    if k == 0 then n else 2 * Scale(n, k - 1)
  }

  lemma {:induction false} ScaleStep(m: nat, n: nat, k: nat)
    requires m < n
    ensures Scale(m, k) + Scale(1, k) <= Scale(n, k)
  {
    if k > 0 {
      ScaleStep(m, n, k - 1);
    }
  }

  lemma {:induction false} NumOfDigits(n: nat, len: nat)
    requires n < Scale(1, len)
    ensures Num(Digits(n, len)) == n
  {
    if len > 0 {
      NumOfDigits(n / 2, len - 1);
      NumSnoc(Digits(n / 2, len - 1), n % 2 == 1);
    }
  }

  lemma {:induction false} NumBound(p: Path)
    ensures Num(p) < Scale(1, |p|)
  {
    if p != [] {
      NumBound(p[..|p| - 1]);
    }
  }

  lemma {:induction false} DigitsOfNum(p: Path)
    ensures Digits(Num(p), |p|) == p
  {
    if p != [] {
      DigitsOfNum(p[..|p| - 1]);
    }
  }

  lemma {:induction false} NumConcat(p: Path, q: Path)
    ensures Num(p + q) == Scale(Num(p), |q|) + Num(q)
  {
    if q == [] {
      assert p + q == p;
    } else {
      NumConcat(p, q[..|q| - 1]);
      assert (p + q)[..|p + q| - 1] == p + q[..|q| - 1];
    }
  }

  /** Paths of the same length in dictionary order: the first difference has `p` left and `q` right. */
  ghost predicate Before(p: Path, q: Path) {
    exists i :: 0 <= i < |p| == |q| && p[..i] == q[..i] && !p[i] && q[i]
  }

  lemma {:induction false} FirstDifference(p: Path, q: Path) returns (i: nat)
    requires |p| == |q| && p != q
    ensures i < |p| && p[..i] == q[..i] && p[i] != q[i]
  {
    if p[0] != q[0] {
      i := 0;
    } else {
      assert p == [p[0]] + p[1..] && q == [q[0]] + q[1..];
      var j := FirstDifference(p[1..], q[1..]);
      i := j + 1;
      assert p[..i] == [p[0]] + p[1..][..j] && q[..i] == [q[0]] + q[1..][..j];
    }
  }

  lemma NumSnoc(p: Path, b: bool)
    ensures Num(p + [b]) == 2 * Num(p) + Bit(b)
  {
    assert (p + [b])[..|p|] == p;
  }

  lemma SplitValue(front: Path, b: bool, back: Path)
    ensures Num(front + [b] + back) == Scale(2 * Num(front) + Bit(b), |back|) + Num(back)
    ensures Num(back) < Scale(1, |back|)
  {
    NumConcat(front + [b], back);
    NumSnoc(front, b);
    NumBound(back);
  }

  /** Where two paths differ first, the numbers they spell differ the same way. */
  lemma BranchOrder(p: Path, q: Path, i: nat)
    requires |p| == |q| && i < |p| && p[..i] == q[..i] && !p[i] && q[i]
    ensures Num(p) < Num(q)
  {
    SplitValue(p[..i], false, p[i + 1..]);
    SplitValue(q[..i], true, q[i + 1..]);
    ScaleStep(2 * Num(p[..i]), 2 * Num(p[..i]) + 1, |p| - i - 1);
    Split(p, i);
    Split(q, i);
  }

  lemma Split(p: Path, i: nat)
    requires i < |p|
    ensures p == p[..i] + [p[i]] + p[i + 1..]
  {
  }

  /** Dictionary order on paths is numeric order on the addresses they spell. */
  lemma OrderIsNumeric(p: Path, q: Path)
    requires |p| == |q|
    ensures Before(p, q) <==> Num(p) < Num(q)
  {
    if Before(p, q) {
      var i :| 0 <= i < |p| == |q| && p[..i] == q[..i] && !p[i] && q[i];
      BranchOrder(p, q, i);
    } else if p != q {
      var i := FirstDifference(p, q);
      assert p[i];
      BranchOrder(q, p, i);
    }
  }
}
