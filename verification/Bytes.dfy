/** Byte strings and the big-endian numbers the Solidity ABI writes into them. */
module Bytes {

  type byte = b: nat | b < 256

  type bytes = seq<byte>

  function Pow256(k: nat): (p: nat)
    ensures p > 0
  {
    if k == 0 then 1 else 256 * Pow256(k - 1)
  }

  /** The number a byte string denotes, most significant byte first. */
  function FromBigEndian(bs: bytes): nat {
    if bs == [] then 0 else 256 * FromBigEndian(bs[..|bs| - 1]) + bs[|bs| - 1]
  }

  /** The last `k` base-256 digits of `n`, most significant first. */
  function ToBigEndian(n: nat, k: nat): (bs: bytes)
    ensures |bs| == k
  {
    if k == 0 then [] else ToBigEndian(n / 256, k - 1) + [n % 256]
  }

  lemma {:induction false} FromToBigEndian(n: nat, k: nat)
    requires n < Pow256(k)
    ensures FromBigEndian(ToBigEndian(n, k)) == n
  {
    if k > 0 {
      FromToBigEndian(n / 256, k - 1);
      var bs := ToBigEndian(n, k);
      assert bs[..|bs| - 1] == ToBigEndian(n / 256, k - 1);
    }
  }

  lemma {:induction false} BigEndianBound(bs: bytes)
    ensures FromBigEndian(bs) < Pow256(|bs|)
  {
    if bs != [] {
      BigEndianBound(bs[..|bs| - 1]);
    }
  }

  /** Dropping low-order bytes is a division, which is how the EVM's `shr` reads the
      leading bytes of a word. */
  lemma {:induction false} ShiftRight(hi: bytes, lo: bytes)
    ensures FromBigEndian(hi + lo) / Pow256(|lo|) == FromBigEndian(hi)
  {
    BigEndianAppend(hi, lo);
    BigEndianBound(lo);
    DivideExact(FromBigEndian(hi), Pow256(|lo|), FromBigEndian(lo));
  }

  lemma {:induction false} BigEndianAppend(hi: bytes, lo: bytes)
    ensures FromBigEndian(hi + lo) == FromBigEndian(hi) * Pow256(|lo|) + FromBigEndian(lo)
  {
    if lo == [] {
      assert hi + lo == hi;
    } else {
      var l := lo[..|lo| - 1];
      assert (hi + lo)[..|hi + lo| - 1] == hi + l;
      BigEndianAppend(hi, l);
      Reorder(256, FromBigEndian(hi), Pow256(|l|));
    }
  }

  lemma Reorder(a: nat, b: nat, c: nat)
    ensures a * (b * c) == b * (a * c)
  {
  }

  lemma Reassociate(a: nat, b: nat, c: nat)
    ensures a * (b * c) == (a * b) * c
  {
  }

  lemma DivideExact(q: nat, d: nat, r: nat)
    requires r < d
    ensures (q * d + r) / d == q
  {
    var x := (q * d + r) / d;
    var rest := (q * d + r) % d;
    assert x * d + rest == q * d + r;
    MultiplesApart(x, rest, q, r, d);
  }

  lemma MultiplesApart(x: nat, s: nat, q: nat, r: nat, d: nat)
    requires r < d && s < d
    requires x * d + s == q * d + r
    ensures x == q
  {
    if x < q {
      Monotone(x + 1, q, d);
    } else if q < x {
      Monotone(q + 1, x, d);
    }
  }

  lemma Monotone(a: nat, b: nat, d: nat)
    requires a <= b
    ensures a * d <= b * d
  {
    assert b * d == a * d + (b - a) * d;
  }

  /** 20 and 32 byte fields hold exactly the addresses and the 256-bit words. */
  lemma FieldSizes()
    ensures Pow256(1) == 0x100
    ensures Pow256(12) == 0x1_0000000000000000_00000000
    ensures Pow256(20) == 0x1_0000000000_0000000000_0000000000_0000000000
    ensures Pow256(31) == 0x1_0000000000000000_0000000000000000_0000000000000000_00000000000000
    ensures Pow256(32) == 0x1_0000000000000000_0000000000000000_0000000000000000_0000000000000000
  {
    assert Pow256(4) == 0x1_00000000;
    PowAdd(4, 4);
    PowAdd(8, 4);
    PowAdd(12, 8);
    PowAdd(20, 8);
    assert Pow256(3) == 0x1_000000;
    PowAdd(28, 3);
    PowAdd(28, 4);
  }

  lemma {:induction false} PowAdd(a: nat, b: nat)
    ensures Pow256(a + b) == Pow256(a) * Pow256(b)
  {
    if a > 0 {
      PowAdd(a - 1, b);
      Reassociate(256, Pow256(a - 1), Pow256(b));
    }
  }

  lemma NextModulo(k: nat, n: nat)
    requires n > 0
    ensures (k + 1) % n == if k % n == n - 1 then 0 else k % n + 1
  {
    var q := k / n;
    assert k == q * n + k % n;
    if k % n == n - 1 {
      assert k + 1 == (q + 1) * n + 0;
      ModuloOf(q + 1, n, 0);
    } else {
      ModuloOf(q, n, k % n + 1);
    }
  }

  lemma ModuloOf(q: nat, n: nat, r: nat)
    requires r < n
    ensures (q * n + r) % n == r
  {
    var x, y := (q * n + r) / n, (q * n + r) % n;
    assert x * n + y == q * n + r;
    MultiplesApart(x, y, q, r, n);
  }
}
