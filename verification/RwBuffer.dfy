/**
 The buffer for reading and writing an MPI as text: its size is computed with an integer
 approximation of the logarithm, 100 / 332 decimal digits for a bit.
 */
module RwBuffer {
  import opened Words
  import opened LimbVectors

  const LN_2_DIV_LN_10_SCALE100: nat := 332
  const LABEL: nat := 10
  const EXTRA: nat := 6

  /** `MBEDTLS_MPI_RW_BUFFER_SIZE` for a given `MBEDTLS_MPI_MAX_SIZE`. */
  function RwBufferSize(maxSize: nat): (r: nat) {
    (100 * (8 * maxSize) + LN_2_DIV_LN_10_SCALE100 - 1) / LN_2_DIV_LN_10_SCALE100 + LABEL + EXTRA
  }

  /** The digits of `v`, least significant first; zero has one digit. */
  function Digits(v: nat, radix: nat): (ds: seq<nat>)
    requires 2 <= radix
    ensures 1 <= |ds|
  {
    if v < radix then [v] else Shrinks(v, radix); [v % radix] + Digits(v / radix, radix)
  }

  lemma Shrinks(v: nat, radix: nat)
    requires 2 <= radix <= v
    ensures v / radix < v
  {
    if v <= v / radix {
      MulMono(radix, v, v / radix);
      MulMono(v, 2, radix);
      assert false;
    }
  }

  /** The digits are those of `v`. */
  lemma {:induction false} DigitsDenote(v: nat, radix: nat)
    requires 2 <= radix
    ensures Limbs(Digits(v, radix), radix) && Val(Digits(v, radix), radix) == v
  {
    if v < radix {
      ValCons(v, [], radix);
      assert [v] + [] == [v];
    } else {
      Shrinks(v, radix);
      var lo, hi := v % radix, v / radix;
      assert Digits(v, radix) == [lo] + Digits(hi, radix) && v == lo + radix * hi && lo < radix;
      hide Digits, Val;
      DigitsDenote(hi, radix);
      ValCons(lo, Digits(hi, radix), radix);
    }
  }

  /** `k` digits are enough exactly for the numbers below `radix^k`. */
  lemma {:induction false} DigitCount(v: nat, radix: nat, k: nat)
    requires 2 <= radix && 1 <= k
    ensures |Digits(v, radix)| <= k <==> v < Pow(radix, k)
    decreases k
  {
    if v < radix {
      MulMono(radix, 1, Pow(radix, k - 1));
    } else if k == 1 {
    } else {
      DigitCount(v / radix, radix, k - 1);
      QuotientBelow(v, radix, Pow(radix, k - 1));
    }
  }

  lemma QuotientBelow(v: nat, r: nat, p: nat)
    requires 0 < r
    ensures v / r < p <==> v < r * p
  {
    if v / r < p {
      MulMono(r, v / r + 1, p);
      Distribute(r, v / r, 1);
    } else {
      MulMono(r, p, v / r);
    }
  }

  // ----- powers of 2 and of 10 -----

  lemma {:induction false} PowMultiply(b: nat, x: nat, y: nat)
    ensures Pow(Pow(b, x), y) == Pow(b, x * y)
  {
    if y == 0 {
    } else {
      PowMultiply(b, x, y - 1);
      Distribute(x, y - 1, 1);
      PowAdd(b, x, x * (y - 1));
    }
  }

  lemma {:induction false} PowBase(a: nat, b: nat, e: nat)
    requires a < b
    ensures Pow(a, e) <= Pow(b, e)
    ensures 0 < e ==> Pow(a, e) < Pow(b, e)
  {
    if e == 0 {
    } else {
      PowBase(a, b, e - 1);
      ProductBelow(a, b, Pow(a, e - 1), Pow(b, e - 1));
    }
  }

  lemma ProductBelow(a: nat, b: nat, p: nat, q: nat)
    requires a < b && p <= q && 0 < q
    ensures a * p < b * q
  {
    MulMono(a, p, q);
    MulMono(q, a + 1, b);
    Distribute(q, a, 1);
  }

  lemma {:induction false} PowExponent(b: nat, x: nat, y: nat)
    requires 1 <= b && x <= y
    ensures Pow(b, x) <= Pow(b, y)
  {
    if x == y {
    } else {
      PowExponent(b, x, y - 1);
      MulMono(Pow(b, y - 1), 1, b);
    }
  }

  lemma SmallPowers()
    ensures Pow(2, 20) == 1048576 && Pow(10, 5) == 100000
  {
    assert Pow(2, 5) == 32;
    PowAdd(2, 5, 5);
    PowAdd(2, 10, 10);
    assert Pow(10, 2) == 100 && Pow(10, 3) == 1000;
    PowAdd(10, 2, 3);
  }

  /** The one numerical fact: 2^83 < 10^25, which is 2^332 < 10^100. */
  lemma TwoAgainstTen()
    ensures Pow(2, 83) < Pow(10, 25)
  {
    SmallPowers();
    PowAdd(2, 20, 20);
    PowAdd(2, 40, 40);
    PowAdd(2, 80, 3);
    PowAdd(10, 5, 5);
    PowAdd(10, 10, 10);
    PowAdd(10, 20, 5);
  }

  /** If `2^p < 10^q` and `n / p <= k / q`, then `2^n < 10^k`. */
  lemma BitsToDigits(n: nat, k: nat, p: nat, q: nat, e: nat, f: nat)
    requires 1 <= k && Pow(2, p) < Pow(10, q)
    requires e == q * n && f == p * k && e <= f
    ensures Pow(2, n) < Pow(10, k)
  {
    BitSide(n, k, p, q, e, f);
    DigitSide(k, p, q);
    RootBelow(Pow(2, n), Pow(10, k), q);
  }

  lemma BitSide(n: nat, k: nat, p: nat, q: nat, e: nat, f: nat)
    requires e == q * n && f == p * k && e <= f
    ensures Pow(Pow(2, n), q) <= Pow(Pow(2, p), k)
  {
    PowOfPow(2, n, q, e);
    PowOfPow(2, p, k, f);
    PowExponent(2, e, f);
  }

  lemma DigitSide(k: nat, p: nat, q: nat)
    requires 1 <= k && Pow(2, p) < Pow(10, q)
    ensures Pow(Pow(2, p), k) < Pow(Pow(10, k), q)
  {
    PowBase(Pow(2, p), Pow(10, q), k);
    PowOfPow(10, q, k, q * k);
    PowOfPow(10, k, q, q * k);
  }

  lemma PowOfPow(b: nat, x: nat, y: nat, e: nat)
    requires e == x * y
    ensures Pow(Pow(b, x), y) == Pow(b, e)
  {
    PowMultiply(b, x, y);
  }

  lemma RootBelow(a: nat, b: nat, e: nat)
    requires Pow(a, e) < Pow(b, e)
    ensures a < b
  {
    if b < a {
      PowBase(b, a, e);
    }
  }

  // ----- main results -----

  lemma Ceiling(n: nat, k: nat)
    requires 1 <= n && k == (100 * n + 331) / 332
    ensures 1 <= k && 25 * n <= 83 * k
  {
  }

  /** For every bit count and every radix from 10 on, the approximation leaves enough digits. */
  lemma DigitBound(n: nat, v: nat, radix: nat)
    requires 1 <= n && v < Pow(2, n) && 10 <= radix
    ensures |Digits(v, radix)| <= (100 * n + LN_2_DIV_LN_10_SCALE100 - 1) / LN_2_DIV_LN_10_SCALE100
  {
    var k := (100 * n + LN_2_DIV_LN_10_SCALE100 - 1) / LN_2_DIV_LN_10_SCALE100;
    Ceiling(n, k);
    TwoAgainstTen();
    BitsToDigits(n, k, 83, 25, 25 * n, 83 * k);
    LargerRadix(v, radix, k);
  }

  lemma LargerRadix(v: nat, radix: nat, k: nat)
    requires 10 <= radix && 1 <= k && v < Pow(10, k)
    ensures |Digits(v, radix)| <= k
  {
    if 10 < radix {
      PowBase(10, radix, k);
    }
    DigitCount(v, radix, k);
  }

  /** A label of ten characters, the number and six further characters fit the buffer, whatever
      the maximum size. */
  lemma BufferFits(maxSize: nat, v: nat, radix: nat, labelLength: nat)
    requires 1 <= maxSize && v < Pow(2, 8 * maxSize) && 10 <= radix && labelLength <= 10
    ensures labelLength + |Digits(v, radix)| + 6 <= RwBufferSize(maxSize)
  {
    DigitBound(8 * maxSize, v, radix);
  }

  /** The size of the buffer from both sides: 16 characters and the least number of digits that is
      at least 100 / 332 of the bits. */
  lemma BufferIsTight(maxSize: nat)
    requires 1 <= maxSize
    ensures 332 * (RwBufferSize(maxSize) - 17) < 800 * maxSize <= 332 * (RwBufferSize(maxSize) - 16)
    ensures RwBufferSize(512) == 1250 && RwBufferSize(1024) == 2484
  {
  }

  /** With the divisor `q` instead of 332, all decimal numbers have room. */
  ghost predicate ScaleWorks(q: nat)
    requires 1 <= q
  {
    forall n: nat, v: nat :: 1 <= n && v < Pow(2, n) ==> |Digits(v, 10)| <= (100 * n + q - 1) / q
  }

  lemma CeilingAntitone(m: nat, p: nat, q: nat)
    requires 1 <= p <= q
    ensures (m + q - 1) / q <= (m + p - 1) / p
  {
    var c, d := (m + p - 1) / p, (m + q - 1) / q;
    assert m + p - 1 == p * c + (m + p - 1) % p && q * d <= m + q - 1;
    MulMono(c, p, q);
    if c < d {
      MulMono(q, c + 1, d);
      Distribute(q, c, 1);
      assert false;
    }
  }

  /** 332 is the largest divisor that works: 103-bit numbers of 32 digits rule out all others. */
  lemma ScaleIsLargest(q: nat)
    requires 1 <= q
    ensures ScaleWorks(q) <==> q <= 332
  {
    if q <= 332 {
      forall n: nat, v: nat | 1 <= n && v < Pow(2, n)
        ensures |Digits(v, 10)| <= (100 * n + q - 1) / q
      {
        DigitBound(n, v, 10);
        CeilingAntitone(100 * n, q, LN_2_DIV_LN_10_SCALE100);
      }
    } else {
      var n, v := LongDecimal();
      CeilingAntitone(100 * n, 333, q);
    }
  }

  lemma LongDecimal() returns (n: nat, v: nat)
    ensures n == 103 && v < Pow(2, n) && 32 <= |Digits(v, 10)|
  {
    TenAgainstTwo();
    var k := 31;
    n, v := 103, Pow(10, k);
    DigitCount(v, 10, k);
  }

  lemma PowersOfTwo()
    ensures Pow(2, 40) == 1099511627776
    ensures Pow(2, 80) == 1208925819614629174706176
  {
    SmallPowers();
    PowAdd(2, 20, 20);
    PowAdd(2, 40, 40);
  }

  lemma PowersOfTen()
    ensures Pow(10, 15) == 1000000000000000
    ensures Pow(10, 30) == 1000000000000000000000000000000
  {
    SmallPowers();
    PowAdd(10, 5, 5);
    PowAdd(10, 10, 5);
    PowAdd(10, 15, 15);
  }

  lemma TenAgainstTwo()
    ensures Pow(10, 31) < Pow(2, 103)
  {
    SmallPowers();
    PowersOfTwo();
    PowersOfTen();
    PowAdd(2, 80, 20);
    PowAdd(2, 100, 3);
    PowAdd(10, 30, 1);
  }

}
