/**
 Machine words used by the database format: bytes, unsigned 32-bit and
 128-bit integers, Go's wrap-around arithmetic on them, and the little- and
 big-endian readings of a byte string.
 */
module Words {

  type byte = x: int | 0 <= x < 0x100
  type uint32 = x: int | 0 <= x < 0x1_0000_0000
  type uint128 = x: int | 0 <= x < 0x1_0000_0000_0000_0000_0000_0000_0000_0000

  const Two32: nat := 0x1_0000_0000
  const Two128: nat := 0x1_0000_0000_0000_0000_0000_0000_0000_0000

  /** Go's `uint8` arithmetic: the result is reduced modulo 2^8. */
  function Wrap8(x: int): byte
  {
    x % 0x100
  }

  /** Go's `uint32` arithmetic: the result is reduced modulo 2^32. */
  function Wrap32(x: int): uint32
  {
    x % 0x1_0000_0000
  }

  function Pow2(k: nat): (r: nat)
    ensures r >= 1
  {
    if k == 0 then 1 else 2 * Pow2(k - 1)
  }

  function Pow256(k: nat): (r: nat)
    ensures r >= 1
  {
    if k == 0 then 1 else 0x100 * Pow256(k - 1)
  }

  /** The value of `s` read least-significant byte first. */
  function LittleEndian(s: seq<byte>): nat
  {
    if |s| == 0 then 0 else s[0] + 0x100 * LittleEndian(s[1..])
  }

  /** The value of `s` read most-significant byte first (`big.Int.SetBytes`). */
  function BigEndian(s: seq<byte>): nat
  {
    if |s| == 0 then 0 else BigEndian(s[..|s| - 1]) * 0x100 + s[|s| - 1]
  }

  function Reverse(s: seq<byte>): (r: seq<byte>)
    ensures |r| == |s|
    ensures forall i :: 0 <= i < |s| ==> r[i] == s[|s| - 1 - i]
  {
    seq(|s|, i requires 0 <= i < |s| => s[|s| - 1 - i])
  }

  /** The `k` low-order bytes of `v`, least significant first. */
  function EncodeLittleEndian(v: nat, k: nat): (r: seq<byte>)
    ensures |r| == k
  {
    if k == 0 then [] else [v % 0x100] + EncodeLittleEndian(v / 0x100, k - 1)
  }

  /** The `k` low-order bytes of `v`, most significant first. */
  function EncodeBigEndian(v: nat, k: nat): (r: seq<byte>)
    ensures |r| == k
  {
    Reverse(EncodeLittleEndian(v, k))
  }

  lemma Pow256Values()
    ensures Pow256(4) == Two32
    ensures Pow256(16) == Two128
  {
    assert Pow256(2) == 0x1_0000;
    assert Pow256(4) == 0x1_0000_0000;
    assert Pow256(8) == 0x1_0000_0000_0000_0000 by {
      assert Pow256(6) == 0x1_0000_0000_0000;
    }
    assert Pow256(12) == 0x1_0000_0000_0000_0000_0000_0000 by {
      assert Pow256(10) == 0x1_0000_0000_0000_0000_0000;
    }
    assert Pow256(14) == 0x1_0000_0000_0000_0000_0000_0000_0000;
  }

  lemma {:induction false} Pow2Monotone(j: nat, k: nat)
    requires j <= k
    ensures Pow2(j) <= Pow2(k)
    decreases k
  {
    if j < k {
      Pow2Monotone(j, k - 1);
    }
  }

  lemma Pow2Of32()
    ensures Pow2(32) == Two32
  {
    assert Pow2(8) == 0x100;
    assert Pow2(16) == 0x1_0000;
    assert Pow2(24) == 0x100_0000;
  }

  lemma WrapAdd(x: int, y: int)
    ensures Wrap32(Wrap32(x) + y) == Wrap32(x + y)
  {
    var q := x / Two32;
    assert x == q * Two32 + Wrap32(x);
    assert x + y == q * Two32 + (Wrap32(x) + y);
  }

  /** WrapAdd with the unreduced sum named: adding `w` after `before` reaches `total`. */
  lemma WrapStep(o: int, before: int, w: int, total: int)
    requires before + w == total
    ensures Wrap32(Wrap32(o + before) + w) == Wrap32(o + total)
  {
    WrapAdd(o + before, w);
  }

  /** The little-endian reading of four bytes, written out. */
  lemma LittleEndianOfFour(b: seq<byte>)
    requires |b| == 4
    ensures LittleEndian(b) == b[0] as int + 0x100 * b[1] as int + 0x1_0000 * b[2] as int + 0x100_0000 * b[3] as int
  {
    assert LittleEndian(b[3..]) == b[3] by {
      assert b[3..][1..] == [];
    }
    assert b[1..][1..] == b[2..] && b[2..][1..] == b[3..];
  }

  /** A value read little-endian from `k` bytes is below 256^k. */
  lemma {:induction false} LittleEndianBound(s: seq<byte>)
    ensures LittleEndian(s) < Pow256(|s|)
  {
    if |s| > 0 {
      LittleEndianBound(s[1..]);
      assert LittleEndian(s[1..]) + 1 <= Pow256(|s| - 1);
      assert 0x100 * (LittleEndian(s[1..]) + 1) <= 0x100 * Pow256(|s| - 1);
    }
  }

  /** Reading the reversed bytes big-endian is reading the bytes little-endian. */
  lemma {:induction false} BigEndianOfReverse(s: seq<byte>)
    ensures BigEndian(Reverse(s)) == LittleEndian(s)
  {
    if |s| > 0 {
      var r := Reverse(s);
      assert r[..|r| - 1] == Reverse(s[1..]);
      assert r[|r| - 1] == s[0];
      BigEndianOfReverse(s[1..]);
    }
  }

  /** Encoding a value that fits in `k` bytes and reading it back gives the value. */
  lemma {:induction false} LittleEndianOfEncode(v: nat, k: nat)
    requires v < Pow256(k)
    ensures LittleEndian(EncodeLittleEndian(v, k)) == v
  {
    if k > 0 {
      var e := EncodeLittleEndian(v, k);
      assert e[1..] == EncodeLittleEndian(v / 0x100, k - 1);
      LittleEndianOfEncode(v / 0x100, k - 1);
    }
  }

  lemma BigEndianOfEncode(v: nat, k: nat)
    requires v < Pow256(k)
    ensures BigEndian(EncodeBigEndian(v, k)) == v
  {
    BigEndianOfReverse(EncodeLittleEndian(v, k));
    LittleEndianOfEncode(v, k);
  }

  /** A big-endian reading splits at any point into high and low parts. */
  lemma {:induction false} BigEndianSplit(a: seq<byte>, b: seq<byte>)
    ensures BigEndian(a + b) == BigEndian(a) * Pow256(|b|) + BigEndian(b)
    decreases |b|
  {
    if |b| == 0 {
      assert a + b == a;
    } else {
      var ab := a + b;
      var init := b[..|b| - 1];
      assert ab[..|ab| - 1] == a + init;
      assert ab[|ab| - 1] == b[|b| - 1];
      BigEndianSplit(a, init);
      var x, y, p := BigEndian(a), BigEndian(init), Pow256(|b| - 1);
      var q := x * p;
      assert BigEndian(ab) == (q + y) * 0x100 + b[|b| - 1];
      MulShift(x, p);
      assert BigEndian(b) == y * 0x100 + b[|b| - 1];
    }
  }

  lemma MulSucc(i: int, w: int)
    ensures (i - 1) * w + w == i * w
  {
  }

  lemma MulShift(x: int, p: int)
    ensures x * (0x100 * p) == (x * p) * 0x100
  {
  }

  /** A big-endian reading is zero exactly when every byte is zero. */
  lemma {:induction false} BigEndianZero(s: seq<byte>)
    ensures BigEndian(s) == 0 <==> forall i :: 0 <= i < |s| ==> s[i] == 0
  {
    if |s| > 0 {
      BigEndianZero(s[..|s| - 1]);
      assert forall i :: 0 <= i < |s| - 1 ==> s[..|s| - 1][i] == s[i];
    }
  }
}
