/**
 Unsigned machine words. A word of base `B` is a natural number below `B`; each operation
 below says what one instruction (or one C expression on `mbedtls_mpi_uint`) leaves behind,
 wrap-around included.
 */
module Words {

  function Pow(b: nat, e: nat): (r: nat)
    ensures 0 < b ==> 0 < r
  {
    if e == 0 then 1 else b * Pow(b, e - 1)
  }

  lemma {:induction false} PowAdd(b: nat, x: nat, y: nat)
    ensures Pow(b, x + y) == Pow(b, x) * Pow(b, y)
  {
    if x == 0 {
    } else {
      PowAdd(b, x - 1, y);
      Associate(b, Pow(b, x - 1), Pow(b, y));
    }
  }

  const WORD32: nat := 0x1_0000_0000
  const WORD64: nat := 0x1_0000_0000_0000_0000

  // ----- instructions -----

  /** The C value of a comparison, or what `sltu` and `cmpult` write. */
  function Bit(p: bool): (r: nat) { if p then 1 else 0 }

  /** Low word of `x + y + k`, with `k` a carry-in. */
  function AddLo(x: nat, y: nat, k: nat, B: nat): (r: nat)
    requires 0 < B
  {
    (x + y + k) % B
  }

  /** Carry-out of `x + y + k`. */
  function AddHi(x: nat, y: nat, k: nat, B: nat): (r: nat)
    requires 0 < B
  {
    (x + y + k) / B
  }

  /** Low word of a product. */
  function MulLo(x: nat, y: nat, B: nat): (r: nat)
    requires 0 < B
  {
    (x * y) % B
  }

  /** High word of a product. */
  function MulHi(x: nat, y: nat, B: nat): (r: nat)
    requires 0 < B
  {
    (x * y) / B
  }

  /** `x << k` on a word of base `B`, with `M == 2^k`. */
  function Shl(x: nat, M: nat, B: nat): (r: nat)
    requires 0 < B
  {
    (x * M) % B
  }

  /** `x >> k`, with `M == 2^k`. */
  function Shr(x: nat, M: nat): (r: nat)
    requires 0 < M
  {
    x / M
  }

  /** `x & (M - 1)`, with `M` a power of two. */
  function Mask(x: nat, M: nat): (r: nat)
    requires 0 < M
    ensures r < M
  {
    x % M
  }

  // ----- what the instructions mean -----

  lemma Associate(a: int, b: int, c: int)
    ensures a * (b * c) == (a * b) * c
  {
  }

  lemma Distribute(B: int, x: int, y: int)
    ensures B * (x + y) == B * x + B * y
  {
  }

  lemma MulMono(B: nat, x: int, y: int)
    requires x <= y
    ensures B * x <= B * y
  {
    assert 0 <= B * (y - x);
  }

  /** Quotient and remainder are the only way to write `t` over base `B`. */
  lemma SplitUnique(t: nat, lo: nat, hi: nat, B: nat)
    requires lo < B && t == lo + B * hi
    ensures t % B == lo && t / B == hi
  {
    var q, r := t / B, t % B;
    assert t == r + B * q;
    if q < hi {
      MulMono(B, q + 1, hi);
      Distribute(B, q, 1);
      assert false;
    } else if hi < q {
      MulMono(B, hi + 1, q);
      Distribute(B, hi, 1);
      assert false;
    }
  }

  lemma NoWrap(x: nat, y: nat, B: nat)
    requires x + y < B
    ensures AddLo(x, y, 0, B) == x + y
  {
    SplitUnique(x + y, x + y, 0, B);
  }

  lemma AddSplit(x: nat, y: nat, k: nat, B: nat)
    requires x < B && y < B && k <= 1
    ensures AddLo(x, y, k, B) < B
    ensures AddHi(x, y, k, B) == Bit(B <= x + y + k)
    ensures AddLo(x, y, k, B) + B * AddHi(x, y, k, B) == x + y + k
  {
    var t := x + y + k;
    if t < B {
      SplitUnique(t, t, 0, B);
    } else {
      SplitUnique(t, t - B, 1, B);
    }
  }

  /** Without a carry-in, "the sum is below an addend" is exactly the carry-out. */
  lemma CompareIsCarry(x: nat, y: nat, B: nat)
    requires x < B && y < B
    ensures AddLo(x, y, 0, B) < B
    ensures Bit(AddLo(x, y, 0, B) < y) == Bit(AddLo(x, y, 0, B) < x) == AddHi(x, y, 0, B)
    ensures AddLo(x, y, 0, B) + B * AddHi(x, y, 0, B) == x + y
  {
    AddSplit(x, y, 0, B);
  }

  lemma ProductBound(x: nat, y: nat, B: nat)
    requires x < B && y < B
    ensures x * y <= (B - 1) * (B - 1)
  {
    MulMono(x, y, B - 1);
    MulMono(B - 1, x, B - 1);
  }

  lemma MulSplit(x: nat, y: nat, B: nat)
    requires x < B && y < B && 2 <= B
    ensures MulLo(x, y, B) < B
    ensures MulHi(x, y, B) <= B - 2
    ensures MulLo(x, y, B) + B * MulHi(x, y, B) == x * y
  {
    ProductBound(x, y, B);
    assert B * (B - 1) == (B - 1) * (B - 1) + (B - 1);
    if B - 1 <= MulHi(x, y, B) {
      MulMono(B, B - 1, MulHi(x, y, B));
      assert false;
    }
  }

  /** One multiply-accumulate of words fits two words, and a carry of at most `K` words
      (`K == B - 1`, or `K == B` for a carry register plus a pending flag) stays so. */
  lemma MulAddBound(x: nat, y: nat, z: nat, c: nat, K: nat, B: nat)
    requires x < B && y < B && z < B && c <= K && B - 1 <= K <= B
    ensures (x * y + z + c) / B <= K
  {
    var t := x * y + z + c;
    ProductBound(x, y, B);
    assert (B - 1) * (B - 1) == B * (B - 1) - (B - 1);
    assert B * (B - 1) == B * B - B;
    assert t <= B * B - B + K;
    Distribute(B, K, 1);
    if K < t / B {
      MulMono(B, K + 1, t / B);
      assert false;
    }
  }

}
