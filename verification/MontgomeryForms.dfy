/**
 Montgomery reduction as the code does it: the column-wise form, which adds up whole columns of
 products in wide words and fixes one carry at a time, the plain form, which carries as it goes,
 and the setup of `rho` by Newton iteration. Each computes `Montgomery.Reduced`. Line numbers are
 those of `src/demo/wolfssl-3.15.3/src/integer.c`.
 */
module MontgomeryForms {
  import opened Words
  import opened LimbVectors
  import opened MulAdd
  import opened Congruence
  import opened Montgomery
  import opened MpInts

  // ----- setting up rho -----

  /** The precision of the inverse after `r` iterations: 16^(2^r). The `mp_digit` types of 8, 16, 32
      and 64 bits are of these sizes, and lines 2189 to 2197 compile 1 to 4 iterations for them. */
  function Precision(r: nat): (p: nat)
    ensures 16 <= p && p % 16 == 0
  {
    if r == 0 then 16 else Square(Precision(r - 1))
  }

  function Square(p: nat): (q: nat)
    requires 16 <= p && p % 16 == 0
    ensures 16 <= q && q % 16 == 0
  {
    MulMono(p, 16, p);
    assert p * p == 16 * (p / 16 * p) by {
      Associate(16, p / 16, p);
    }
    p * p
  }

  /** Line 2188: an inverse of `b` modulo 16, in an `mp_digit` of `T` values. */
  function FirstInverse(b: nat, T: nat): (x: nat)
    requires 0 < T
  {
    (8 * ((b + 2) / 4 % 2) + b) % T
  }

  /** One of the lines 2189 to 2197: `x *= 2 - b * x`. */
  function Newton(x: nat, b: nat, T: nat): (y: nat)
    requires 0 < T
  {
    (x * ((2 - b * x) % T)) % T
  }

  function Inverse(b: nat, r: nat, T: nat): (x: nat)
    requires 0 < T
    ensures x < T
  {
    if r == 0 then FirstInverse(b, T) else Newton(Inverse(b, r - 1, T), b, T)
  }

  lemma FirstInverseIs(b: nat, T: nat, k: nat)
    requires b % 2 == 1 && T == 16 * k && 0 < k
    ensures Congruent(b * FirstInverse(b, T), 1, 16)
  {
    var x, s := FirstInverse(b, T), (b + 2) / 4 % 2;
    CongruentMod(8 * s + b, T);
    assert Congruent(x, 8 * s + b, T);
    hide FirstInverse;
    CongruentTimes(x, 8 * s + b, b, T);
    CongruentDivisor(x * b, (8 * s + b) * b, 16, k);
    FirstSquare(b);
    CongruentTrans(x * b, (8 * s + b) * b, 1, 16);
  }

  lemma FirstSquare(b: nat)
    requires b % 2 == 1
    ensures Congruent((8 * ((b + 2) / 4 % 2) + b) * b, 1, 16)
  {
    OddSquare(b, b / 8, b % 8, (b + 2) / 4 % 2);
  }

  lemma OddSquare(b: nat, q: nat, r: nat, s: nat)
    requires b == 8 * q + r && r < 8 && r % 2 == 1 && s == (b + 2) / 4 % 2
    ensures Congruent((8 * s + b) * b, 1, 16)
  {
    assert s == if r == 1 || r == 7 then 0 else 1;
    var e := if r == 1 then 0 else if r == 3 then 2 else if r == 5 then 4 else 3;
    assert r * r + 8 * (s * r) == 16 * e + 1;
    OddWitness(s, q, r, e);
  }

  lemma OddWitness(s: nat, q: nat, r: nat, e: nat)
    requires r * r + 8 * (s * r) == 16 * e + 1
    ensures Congruent((8 * s + (8 * q + r)) * (8 * q + r), 1, 16)
  {
    Expand(s + q, q, r);
    Distribute(r, s, q);
    assert 8 * s + (8 * q + r) == 8 * (s + q) + r;
    CongruentBy((8 * s + (8 * q + r)) * (8 * q + r), 1, 4 * ((s + q) * q) + q * r + e, 16);
  }

  lemma Expand(a: nat, q: nat, r: nat)
    ensures (8 * a + r) * (8 * q + r) == 64 * (a * q) + 8 * (a * r) + 8 * (q * r) + r * r
  {
    Distribute(8 * a + r, 8 * q, r);
    Distribute(8 * q, 8 * a, r);
    Distribute(r, 8 * a, r);
  }

  /** An iteration squares the precision, as far as the digit type goes and whatever wraps. */
  lemma NewtonSquares(x: nat, b: nat, p: nat, q: nat, l: nat, T: nat, k: nat)
    requires 0 < T && T == q * k && p * p == q * l && Congruent(b * x, 1, p)
    ensures Congruent(b * Newton(x, b, T), 1, q)
  {
    var y, f := Newton(x, b, T), (2 - b * x) % T;
    CongruentMod(x * f, T);
    CongruentMod(2 - b * x, T);
    CongruentTimes(f, 2 - b * x, x, T);
    CongruentTrans(y, x * f, (2 - b * x) * x, T);
    CongruentTimes(y, (2 - b * x) * x, b, T);
    CongruentDivisor(y * b, (2 - b * x) * x * b, q, k);
    var e: int :| Apart(b * x, 1, e, p);
    NewtonError(b * x, e, p);
    Associate(2 - b * x, x, b);
    CongruentBy((2 - b * x) * (b * x), 1, -(e * e), q * l);
    CongruentDivisor((2 - b * x) * (b * x), 1, q, l);
    CongruentTrans(y * b, (2 - b * x) * (b * x), 1, q);
  }

  lemma NewtonError(t: int, e: int, p: int)
    requires t == 1 + e * p
    ensures (2 - t) * t == 1 + (-(e * e)) * (p * p)
  {
    assert (2 - t) * t == (1 - e * p) * (1 + e * p) == 1 - (e * p) * (e * p);
    Associate(e * p, e, p);
    Associate(e, p, e);
    Associate(e, e, p);
    Associate(e * e, p, p);
  }

  lemma {:induction false} InverseIs(b: nat, r: nat, T: nat, k: nat)
    requires b % 2 == 1 && T == Precision(r) * k && 0 < k
    ensures Congruent(b * Inverse(b, r, T), 1, Precision(r))
  {
    if r == 0 {
      FirstInverseIs(b, T, k);
    } else {
      var p := Precision(r - 1);
      Associate(p, p, k);
      MulMono(p, 1, k);
      InverseIs(b, r - 1, T, p * k);
      NewtonSquares(Inverse(b, r - 1, T), b, p, p * p, 1, T, k);
    }
  }

  /** Iterations beyond the size of the digit type do no harm. */
  lemma {:induction false} InverseStays(b: nat, enough: nat, r: nat, T: nat)
    requires b % 2 == 1 && T == Precision(enough) && enough <= r
    ensures Congruent(b * Inverse(b, r, T), 1, T)
    decreases r
  {
    if r == enough {
      InverseIs(b, r, T, 1);
    } else {
      InverseStays(b, enough, r - 1, T);
      NewtonSquares(Inverse(b, r - 1, T), b, T, T, T, T, 1);
    }
  }

  /** Line 2202: `-1/b` from the inverse, masked to a digit. */
  function Negated(x: nat, z: Sizes): (rho: nat)
    requires 0 < z.base && 0 < z.digit
    ensures rho < z.base
  {
    ((z.base - x) % z.digit) % z.base
  }

  lemma NegatedIs(b: nat, x: nat, z: Sizes, k: nat)
    requires 0 < z.base && z.digit == z.base * k && 0 < k && Congruent(b * x, 1, z.base)
    ensures Congruent(b * Negated(x, z), -1, z.base)
  {
    var B, y: nat := z.base, (z.base - x) % z.digit;
    CongruentMod(y, B);
    CongruentMod(B - x, z.digit);
    CongruentDivisor(y, B - x, B, k);
    NegatedTimes(b, x, y, Negated(x, z), B);
  }

  lemma NegatedTimes(b: nat, x: int, y: nat, rho: nat, B: nat)
    requires Congruent(rho, y, B) && Congruent(y, B - x, B) && Congruent(b * x, 1, B)
    ensures Congruent(b * rho, -1, B)
  {
    CongruentBy(B - x, -x, 1, B);
    CongruentTrans(rho, y, B - x, B);
    CongruentTrans(rho, B - x, -x, B);
    CongruentTimes(rho, -x, b, B);
    CongruentTimes(b * x, 1, -1, B);
    Regroup(b, x);
    CongruentTrans(rho * b, -x * b, -1, B);
  }

  lemma Regroup(b: int, x: int)
    ensures -x * b == (b * x) * -1
  {
  }

  lemma CongruentDivisor(a: int, b: int, d: nat, k: nat)
    requires Congruent(a, b, d * k)
    ensures Congruent(a, b, d)
  {
    var q: int :| Apart(a, b, q, d * k);
    Associate(q, k, d);
    CongruentBy(a, b, q * k, d);
  }

  lemma PreparedBy(m: nat, b: nat, rho: nat, B: nat)
    requires 0 < B && m % B == b % B && Congruent(b * rho, -1, B)
    ensures Prepared(m, rho, B)
  {
    SameResidue(m, b, B);
    CongruentTimes(m, b, rho, B);
    CongruentTrans(m * rho, b * rho, -1, B);
    var q: int :| Apart(m * rho, -1, q, B);
    CongruentBy(m * rho + 1, 0, q, B);
    SameResidue(m * rho + 1, 0, B);
  }

  /** An even modulus has no `rho`. */
  lemma OnlyOdd(m: nat, rho: nat, B: nat)
    requires 2 <= B && B % 2 == 0 && Prepared(m, rho, B)
    ensures m % 2 == 1
  {
    var q := (m * rho + 1) / B;
    assert m * rho + 1 == B * q == 2 * (B / 2 * q);
    if m % 2 == 0 {
      Associate(2, m / 2, rho);
    }
  }

  ghost predicate HasRho(m: nat, B: nat)
    requires 0 < B
  {
    exists rho :: Prepared(m, rho, B)
  }

  datatype Setup = Ready(rho: nat) | InvalidInput

  /** The `r` iterations that are compiled are enough for the digit type. Where `NO_64BIT` is
      defined they are one more than enough. */
  ghost predicate Compiled(z: Sizes, r: nat) {
    z.Spare() && exists enough: nat :: enough <= r && z.digit == Precision(enough)
  }

  /** Digits of 28 bits, which is the default, of 31 and of 60 bits. */
  lemma UsualSizes()
    ensures var z := Sizes(0x1000_0000, WORD32, WORD64); z.Valid() && Compiled(z, 3) && z.Columns() == 256 && z.ArraySize() == 512
    ensures var z := Sizes(0x8000_0000, WORD32, WORD64); z.Valid() && Compiled(z, 3) && z.Columns() == 4 && z.ArraySize() == 8
    ensures var z := Sizes(0x1000_0000_0000_0000, WORD64, WORD64 * WORD64); z.Valid() && Compiled(z, 4) && z.Columns() == 256 && z.ArraySize() == 512
  {
    assert Precision(3) == WORD32 && Precision(4) == WORD64;
  }

  /** `mp_montgomery_setup`: it fails exactly if there is nothing to be found. */
  method MontgomerySetup(n: MpInt, z: Sizes, r: nat) returns (result: Setup)
    requires Compiled(z, r) && n.Valid(z.base) && 0 < n.dp.Length
    ensures result.Ready? ==> result.rho < z.base && Prepared(n.Value(z.base), result.rho, z.base)
    ensures result.Ready? <==> n.Value(z.base) % 2 == 1
    ensures result.Ready? <==> HasRho(n.Value(z.base), z.base)
  {
    var b := n.dp[0];
    ValPadded(n.dp[..], n.used, z.base);
    assert n.dp[..][..n.used] == n.dp[..n.used];
    SetupWorks(n.dp[..], z, r);
    if b % 2 == 0 {
      return InvalidInput;
    }
    var x := Inverse(b, r, z.digit);
    return Ready(Negated(x, z));
  }

  lemma SetupWorks(xs: seq<nat>, z: Sizes, r: nat)
    requires Compiled(z, r) && xs != [] && xs[0] < z.base
    ensures var m, odd := Val(xs, z.base), xs[0] % 2 == 1;
            && (m % 2 == 1 <==> odd) && (HasRho(m, z.base) <==> odd)
            && (odd ==> Prepared(m, Negated(Inverse(xs[0], r, z.digit), z), z.base))
  {
    var m, b := Val(xs, z.base), xs[0];
    LowDigit(xs, z);
    if b % 2 == 1 {
      SplitUnique(b, b, 0, z.base);
      InverseServes(m, b, z, r);
    } else if rho :| Prepared(m, rho, z.base) {
      OnlyOdd(m, rho, z.base);
    }
  }

  lemma InverseServes(m: nat, b: nat, z: Sizes, r: nat)
    requires Compiled(z, r) && b % 2 == 1 && m % z.base == b % z.base
    ensures Prepared(m, Negated(Inverse(b, r, z.digit), z), z.base)
  {
    var x, k := Inverse(b, r, z.digit), z.digit / z.base;
    var enough: nat :| enough <= r && z.digit == Precision(enough);
    InverseStays(b, enough, r, z.digit);
    DigitHoldsBase(z);
    hide Inverse, Negated, Sizes.Divides, Precision;
    CongruentDivisor(b * x, 1, z.base, k);
    NegatedIs(b, x, z, k);
    PreparedBy(m, b, Negated(x, z), z.base);
  }

  lemma DigitHoldsBase(z: Sizes)
    requires z.Spare()
    ensures z.digit == z.base * (z.digit / z.base) && 0 < z.digit / z.base
  {
    var q := z.digit / (2 * z.base);
    assert z.digit == z.base * (2 * q);
    SplitUnique(z.digit, 0, 2 * q, z.base);
  }

  lemma LowDigit(xs: seq<nat>, z: Sizes)
    requires z.Spare() && xs != [] && xs[0] < z.base
    ensures Val(xs, z.base) % z.base == xs[0] && Val(xs, z.base) % 2 == xs[0] % 2
  {
    var v, h := Val(xs[1..], z.base), z.base / 2;
    SplitUnique(Val(xs, z.base), xs[0], v, z.base);
    Associate(2, h, v);
    SameParity(xs[0], h * v);
  }

  lemma SameParity(x: nat, k: nat)
    ensures (x + 2 * k) % 2 == x % 2
  {
  }

  // ----- the column-wise form -----

  /** `mu` times the digits of the modulus, added column by column; nothing is carried. */
  function AddScaled(us: seq<nat>, ns: seq<nat>, mu: nat): (vs: seq<nat>)
    requires |ns| <= |us|
    ensures |vs| == |us|
    ensures forall j :: 0 <= j < |us| ==> vs[j] == us[j] + (if j < |ns| then mu * ns[j] else 0)
  {
    if ns == [] then us else [us[0] + mu * ns[0]] + AddScaled(us[1..], ns[1..], mu)
  }

  lemma {:induction false} AddScaledVal(us: seq<nat>, ns: seq<nat>, mu: nat, B: nat)
    requires |ns| <= |us|
    ensures Val(AddScaled(us, ns, mu), B) == Val(us, B) + mu * Val(ns, B)
  {
    if ns != [] {
      var rest := AddScaled(us[1..], ns[1..], mu);
      AddScaledVal(us[1..], ns[1..], mu, B);
      ValCons(us[0] + mu * ns[0], rest, B);
      Distribute(B, Val(us[1..], B), mu * Val(ns[1..], B));
      Distribute(mu, ns[0], B * Val(ns[1..], B));
      Associate(B, mu, Val(ns[1..], B));
      Associate(mu, B, Val(ns[1..], B));
    }
  }

  /** The value of the columns when the carry of the lowest one is handed on and that one is left
      out. */
  function Carried(vs: seq<nat>, B: nat): (r: seq<nat>)
    requires 2 <= |vs| && 0 < B
    ensures |r| == |vs| - 1
  {
    [vs[1] + Shr(vs[0], B)] + vs[2..]
  }

  lemma CarriedVal(vs: seq<nat>, B: nat)
    requires 2 <= |vs| && 0 < B
    ensures Val(vs, B) == vs[0] % B + B * Val(Carried(vs, B), B)
  {
    ValCons(vs[1] + Shr(vs[0], B), vs[2..], B);
    assert vs[1..][1..] == vs[2..];
    Distribute(B, vs[1] + B * Val(vs[2..], B), Shr(vs[0], B));
  }

  /** The digit mask of the columns `us`, taken from the lowest one. */
  function MuOf(u: nat, rho: nat, z: Sizes): (mu: nat)
    requires 0 < z.base && 0 < z.word
    ensures mu < z.base
  {
    MulLo(u % z.base, rho, z.word) % z.base
  }

  lemma MuOfIs(us: seq<nat>, rho: nat, z: Sizes)
    requires z.Wide() && us != [] && rho < z.base
    ensures MuOf(us[0], rho, z) == Mu(Val(us, z.base), rho, z.base)
  {
    LowestDigit(us, z.base);
    DigitProduct(us[0] % z.base, rho, z);
  }

  lemma LowestDigit(us: seq<nat>, B: nat)
    requires 0 < B && us != []
    ensures Val(us, B) % B == us[0] % B
  {
    var v := Val(us[1..], B);
    Distribute(B, us[0] / B, v);
    SplitUnique(Val(us, B), us[0] % B, us[0] / B + v, B);
  }

  lemma DigitProduct(x: nat, y: nat, z: Sizes)
    requires z.Wide() && x < z.base && y < z.base
    ensures MulLo(x, y, z.word) == x * y <= (z.base - 1) * (z.base - 1)
  {
    ProductBound(x, y, z.base);
    SquareHolds(x * y, 0, 0, z.base);
    SplitUnique(x * y, x * y, 0, z.word);
  }

  /** One turn of the outer loop takes one digit off the value of the columns. */
  lemma ColumnDone(us: seq<nat>, ns: seq<nat>, m: nat, rho: nat, z: Sizes)
    requires z.Wide() && 2 <= |us| && |ns| <= |us| && m == Val(ns, z.base) && rho < z.base && Prepared(m, rho, z.base)
    ensures var vs := AddScaled(us, ns, MuOf(us[0], rho, z));
            Val(Carried(vs, z.base), z.base) == Next(Val(us, z.base), m, rho, z.base)
  {
    var B, mu := z.base, MuOf(us[0], rho, z);
    var vs := AddScaled(us, ns, mu);
    hide Val, AddScaled, Carried, MuOf, Mu, Next, Prepared;
    MuOfIs(us, rho, z);
    AddScaledVal(us, ns, mu, B);
    CarriedVal(vs, B);
    NextIsExact(Val(us, B), m, rho, B);
    SplitUnique(Val(vs, B), vs[0] % B, Val(Carried(vs, B), B), B);
    SplitUnique(Val(vs, B), 0, Next(Val(us, B), m, rho, B), B);
  }

  // ----- no column overflows -----

  /** The largest product of two digits. */
  function LargestProduct(B: nat): (p: nat)
    requires 0 < B
  {
    (B - 1) * (B - 1)
  }

  /** The largest carry out of a column. */
  function LargestCarry(n: nat, B: nat): (c: nat)
    requires 0 < B
  {
    n * (B - 1)
  }

  /** The most a column can hold after `i` turns: `i` products on top of a digit of `x`, and in
      the lowest column the carry of one that is done. */
  function Limit(lowest: bool, i: nat, n: nat, B: nat): (w: nat)
    requires 0 < B
  {
    (B - 1) + i * LargestProduct(B) + (if lowest then LargestCarry(n, B) else 0)
  }

  predicate Bounded(us: seq<nat>, i: nat, n: nat, B: nat)
    requires 0 < B
  {
    forall j :: 0 <= j < |us| ==> us[j] <= Limit(j == 0, i, n, B)
  }

  /** No column, and no carry added to one, comes to more than this. */
  function Most(n: nat, B: nat): (w: nat)
    requires 0 < B
  {
    Limit(true, n, n, B)
  }

  lemma LimitStep(lowest: bool, i: nat, n: nat, x: nat, y: nat, B: nat)
    requires x < B && y < B
    ensures Limit(lowest, i, n, B) + x * y <= Limit(lowest, i + 1, n, B)
  {
    ProductBound(x, y, B);
    assert x * y <= LargestProduct(B);
    hide LargestProduct, LargestCarry;
    Distribute(LargestProduct(B), i, 1);
  }

  lemma LimitGrows(lowest: bool, i: nat, n: nat, B: nat)
    requires i <= n && 0 < B
    ensures Limit(lowest, i, n, B) + (if lowest then 0 else LargestCarry(n, B)) <= Most(n, B)
    ensures Limit(false, i, n, B) <= Limit(lowest, i, n, B)
  {
    hide LargestProduct, LargestCarry;
    MulMono(LargestProduct(B), i, n);
  }

  lemma MostIs(n: nat, B: nat)
    requires 0 < B
    ensures Most(n, B) == (B - 1) + B * LargestCarry(n, B)
  {
    var w := LargestCarry(n, B);
    Associate(n, B - 1, B - 1);
    Distribute(w, B - 1, 1);
  }

  /** The guard at line 2387 keeps the largest column within an `mp_word`. */
  lemma MostFits(n: nat, z: Sizes)
    requires z.Wide() && z.Admits(n)
    ensures Most(n, z.base) < z.word && Shr(Most(n, z.base), z.base) <= LargestCarry(n, z.base)
  {
    var B := z.base;
    MostIs(n, B);
    AdmitsIs(n, B * B, z);
    CarriesFit(n, B);
    hide Most, LargestCarry, Sizes.Admits, Sizes.SquareFits;
    SplitUnique(Most(n, B), B - 1, LargestCarry(n, B), B);
  }

  lemma AdmitsIs(n: nat, p: nat, z: Sizes)
    requires z.Wide() && z.Admits(n) && p == z.base * z.base
    ensures p * n + p <= z.word
  {
    assert 0 < p && n + 1 <= z.word / p;
    MulMono(p, n + 1, z.word / p);
    Distribute(p, n, 1);
  }

  lemma CarriesFit(n: nat, B: nat)
    requires 2 <= B
    ensures (B - 1) + B * LargestCarry(n, B) < (B * B) * n + B * B
  {
    MulMono(n, B - 1, B);
    MulMono(B, LargestCarry(n, B), n * B);
    Associate(B, B, n);
    MulMono(B, 2, B);
  }

  /** A product of two digits added to a column of `i` products makes one of `i + 1`. */
  lemma OneMore(us: seq<nat>, ns: seq<nat>, mu: nat, i: nat, n: nat, B: nat)
    requires 0 < B && |ns| <= |us| && mu < B && Limbs(ns, B) && Bounded(us, i, n, B)
    ensures Bounded(AddScaled(us, ns, mu), i + 1, n, B)
  {
    var vs := AddScaled(us, ns, mu);
    forall j | 0 <= j < |us|
      ensures vs[j] <= Limit(j == 0, i + 1, n, B)
    {
      LimitStep(j == 0, i, n, mu, if j < |ns| then ns[j] else 0, B);
    }
  }

  lemma BoundedFits(us: seq<nat>, i: nat, j: nat, n: nat, z: Sizes)
    requires z.Wide() && i <= n && z.Admits(n) && j < |us| && Bounded(us, i, n, z.base)
    ensures us[j] <= Most(n, z.base) < z.word
    ensures Shr(us[j], z.base) <= LargestCarry(n, z.base)
    ensures 0 < j ==> us[j] + LargestCarry(n, z.base) < z.word
  {
    hide Limit, Most, LargestCarry, Shr, Sizes.Admits, Sizes.SquareFits;
    var B := z.base;
    MostFits(n, z);
    LimitGrows(j == 0, i, n, B);
    ShrMono(us[j], Most(n, B), B);
  }

  lemma ShrMono(x: nat, y: nat, B: nat)
    requires x <= y && 0 < B
    ensures Shr(x, B) <= Shr(y, B)
  {
    if y / B < x / B {
      MulMono(B, y / B + 1, x / B);
    }
  }

  lemma CarriedBounded(vs: seq<nat>, i: nat, n: nat, z: Sizes)
    requires z.Wide() && 2 <= |vs| && i <= n && z.Admits(n) && Bounded(vs, i, n, z.base)
    ensures Bounded(Carried(vs, z.base), i, n, z.base)
  {
    BoundedFits(vs, i, 0, n, z);
  }

  /** The inner loop: `mu` times the modulus is added to the columns from `ix` on. */
  method AddProducts(w: array<nat>, ix: nat, hi: nat, ns: array<nat>, n: nat, mu: nat, z: Sizes)
    requires z.Wide() && w != ns && ix + n <= hi <= w.Length && n <= ns.Length && z.Admits(n)
    requires mu < z.base && Limbs(ns[..n], z.base) && ix < n && Bounded(w[ix..hi], ix, n, z.base)
    modifies w
    ensures w[ix..hi] == AddScaled(old(w[ix..hi]), ns[..n], mu) && w[hi..] == old(w[hi..])
  {
    ghost var us, vs := w[ix..hi], AddScaled(w[ix..hi], ns[..n], mu);
    OneMore(us, ns[..n], mu, ix, n, z.base);
    for iy := 0 to n
      invariant w[hi..] == old(w[hi..])
      invariant forall j :: 0 <= j < hi - ix ==> w[ix + j] == if j < iy then vs[j] else us[j]
    {
      ColumnFits(us, ns[..n], mu, iy, ix, n, z);
      w[ix + iy] := AddLo(w[ix + iy], MulLo(mu, ns[iy], z.word), 0, z.word);
    }
    assert w[ix..hi] == vs;
  }

  /** Neither a product nor its sum with the column wraps. */
  lemma ColumnFits(us: seq<nat>, ns: seq<nat>, mu: nat, j: nat, i: nat, n: nat, z: Sizes)
    requires z.Wide() && j < |ns| <= |us| && mu < z.base && Limbs(ns, z.base)
    requires i < n && z.Admits(n) && Bounded(us, i, n, z.base)
    ensures MulLo(mu, ns[j], z.word) == mu * ns[j]
    ensures AddLo(us[j], mu * ns[j], 0, z.word) == us[j] + mu * ns[j]
  {
    var vs := AddScaled(us, ns, mu);
    OneMore(us, ns, mu, i, n, z.base);
    BoundedFits(vs, i + 1, j, n, z);
    DigitProduct(mu, ns[j], z);
    hide Bounded, AddLo, MulLo, Sizes.Admits, Sizes.SquareFits, Most;
    NoWrap(us[j], mu * ns[j], z.word);
  }

  /** The outer loop: `n` digits are taken off the columns, from the lowest one up. */
  method ReduceColumns(w: array<nat>, hi: nat, ns: array<nat>, n: nat, rho: nat, z: Sizes)
    requires z.Wide() && w != ns && hi == 2 * n + 1 <= w.Length && 0 < n <= ns.Length && z.Admits(n)
    requires rho < z.base && Limbs(ns[..n], z.base) && Prepared(Val(ns[..n], z.base), rho, z.base)
    requires Limbs(w[..hi], z.base)
    modifies w
    ensures Bounded(w[n..hi], n, n, z.base) && w[hi..] == old(w[hi..])
    ensures Val(w[n..hi], z.base) == Redc(Val(old(w[..hi]), z.base), Val(ns[..n], z.base), rho, n, z.base)
  {
    hide Val, Bounded, Redc, Prepared, Carried, AddScaled, MuOf, Shr, AddLo, Sizes.Admits, Sizes.SquareFits;
    ghost var B, m := z.base, Val(ns[..n], z.base);
    ghost var x := Val(w[..hi], B);
    DigitsBounded(w[..hi], n, B);
    assert w[0..hi] == w[..hi];
    for ix := 0 to n
      invariant w[hi..] == old(w[hi..]) && Bounded(w[ix..hi], ix, n, B)
      invariant Redc(Val(w[ix..hi], B), m, rho, n - ix, B) == Redc(x, m, rho, n, B)
    {
      ghost var us := w[ix..hi];
      var mu := MuOf(w[ix], rho, z);
      AddProducts(w, ix, hi, ns, n, mu, z);
      ghost var vs := w[ix..hi];
      OneMore(us, ns[..n], mu, ix, n, B);
      CarryFits(vs, ix + 1, n, z);
      TurnDone(us, ns[..n], m, rho, n - ix, z);
      w[ix + 1] := AddLo(w[ix + 1], Shr(w[ix], z.base), 0, z.word);
      assert w[ix + 1..hi] == [AddLo(vs[1], Shr(vs[0], B), 0, z.word)] + vs[2..];
    }
    RedcNone(Val(w[n..hi], B), m, rho, B);
  }

  lemma DigitsBounded(us: seq<nat>, n: nat, B: nat)
    requires 0 < B && Limbs(us, B)
    ensures Bounded(us, 0, n, B)
  {
    MulMono(n, 0, B - 1);
  }

  lemma RedcNone(x: nat, m: nat, rho: nat, B: nat)
    requires 0 < B
    ensures Redc(x, m, rho, 0, B) == x
  {
  }

  /** Handing on the carry of a column does not wrap. */
  lemma CarryFits(vs: seq<nat>, i: nat, n: nat, z: Sizes)
    requires z.Wide() && 2 <= |vs| && i <= n && z.Admits(n) && Bounded(vs, i, n, z.base)
    ensures [AddLo(vs[1], Shr(vs[0], z.base), 0, z.word)] + vs[2..] == Carried(vs, z.base)
    ensures Bounded(Carried(vs, z.base), i, n, z.base)
  {
    CarriedBounded(vs, i, n, z);
    BoundedFits(vs, i, 0, n, z);
    BoundedFits(vs, i, 1, n, z);
    hide Bounded, Shr, AddLo, Sizes.Admits, Sizes.SquareFits;
    NoWrap(vs[1], Shr(vs[0], z.base), z.word);
  }

  /** One turn of the outer loop is one digit of the reduction. */
  lemma TurnDone(us: seq<nat>, ns: seq<nat>, m: nat, rho: nat, left: nat, z: Sizes)
    requires z.Wide() && |ns| < |us| && 0 < |ns| && 0 < left
    requires m == Val(ns, z.base) && rho < z.base && Prepared(m, rho, z.base)
    ensures var vs := AddScaled(us, ns, MuOf(us[0], rho, z));
            Redc(Val(Carried(vs, z.base), z.base), m, rho, left - 1, z.base) == Redc(Val(us, z.base), m, rho, left, z.base)
  {
    hide Val, AddScaled, MuOf, Prepared, Next;
    ColumnDone(us, ns, m, rho, z);
  }

  // ----- carrying and copying out -----

  function Masked(us: seq<nat>, B: nat): (ds: seq<nat>)
    requires 0 < B
    ensures |ds| == |us| && Limbs(ds, B) && forall j :: 0 <= j < |us| ==> ds[j] == us[j] % B
  {
    if us == [] then [] else [us[0] % B] + Masked(us[1..], B)
  }

  /** Of the columns `cols` those in `done` are carried and `rest` is what is left. */
  predicate Carrying(cols: seq<nat>, done: seq<nat>, rest: seq<nat>, B: nat)
    requires 0 < B
  {
    Val(cols, B) == Val(Masked(done, B), B) + Pow(B, |done|) * Val(rest, B)
  }

  lemma CarryingStep(cols: seq<nat>, done: seq<nat>, rest: seq<nat>, B: nat)
    requires 0 < B && 2 <= |rest| && Carrying(cols, done, rest, B)
    ensures Carrying(cols, done + [rest[0]], Carried(rest, B), B)
  {
    var more, d := Masked(done + [rest[0]], B), rest[0] % B;
    assert more == Masked(done, B) + [d];
    ValAppend(Masked(done, B), [d], B);
    ValOne(d, B);
    CarriedVal(rest, B);
    hide Val, Masked, Carried;
    var p, v := Pow(B, |done|), Val(Carried(rest, B), B);
    Distribute(p, d, B * v);
    Associate(p, B, v);
    assert Pow(B, |done| + 1) == p * B;
  }

  lemma CarryingEnd(cols: seq<nat>, done: seq<nat>, last: nat, B: nat)
    requires 0 < B && Carrying(cols, done, [last], B) && Val(cols, B) < Pow(B, |done| + 1)
    ensures Val(Masked(done + [last], B), B) == Val(cols, B)
  {
    var p := Pow(B, |done|);
    ValOne(last, B);
    if B <= last {
      MulMono(p, B, last);
    }
    SplitUnique(last, last, 0, B);
    assert Masked(done + [last], B) == Masked(done, B) + [last];
    ValAppend(Masked(done, B), [last], B);
  }

  /** The loop at line 2329. It also adds a carry to the column behind the last one, which may
      hold anything and is not used. */
  method CarryColumns(w: array<nat>, n: nat, z: Sizes)
    requires z.Wide() && 0 < n && z.Admits(n) && 2 * n + 1 < w.Length
    requires Bounded(w[n..2 * n + 1], n, n, z.base) && Val(w[n..2 * n + 1], z.base) < Pow(z.base, n + 1)
    modifies w
    ensures Val(Masked(w[n..2 * n + 1], z.base), z.base) == Val(old(w[n..2 * n + 1]), z.base)
  {
    hide Val, Masked, Carried, Bounded, Pow, Carrying, Shr, AddLo, Sizes.Admits, Sizes.SquareFits;
    ghost var B, hi, cols := z.base, 2 * n + 1, w[n..2 * n + 1];
    NothingCarried(cols, B);
    assert w[n..n] == [];
    for ix := n + 1 to 2 * n + 2
      invariant var k := if ix <= 2 * n then ix else hi;
                Carrying(cols, w[n..k - 1], w[k - 1..hi], B) && Bounded(w[k - 1..hi], n, n, B)
    {
      ghost var done, rest := w[n..ix - 1], w[ix - 1..];
      if ix < hi {
        CarryingOn(cols, w[n..ix - 1], w[ix - 1..hi], n, z);
      }
      ghost var was := w[..];
      w[ix] := AddLo(w[ix], Shr(w[ix - 1], z.base), 0, z.word);
      if ix < hi {
        assert w[n..ix] == was[n..ix - 1] + [was[ix - 1]];
        assert w[ix..hi] == [AddLo(was[ix], Shr(was[ix - 1], B), 0, z.word)] + was[ix + 1..hi];
      }
    }
    assert w[2 * n..hi] == [w[2 * n]];
    CarryingEnd(cols, w[n..2 * n], w[2 * n], B);
    assert w[n..hi] == w[n..2 * n] + [w[2 * n]];
  }

  lemma NothingCarried(cols: seq<nat>, B: nat)
    requires 0 < B
    ensures Carrying(cols, [], cols, B)
  {
  }

  lemma CarryingOn(cols: seq<nat>, done: seq<nat>, rest: seq<nat>, n: nat, z: Sizes)
    requires z.Wide() && 2 <= |rest| && z.Admits(n) && Carrying(cols, done, rest, z.base) && Bounded(rest, n, n, z.base)
    ensures var next := [AddLo(rest[1], Shr(rest[0], z.base), 0, z.word)] + rest[2..];
            Carrying(cols, done + [rest[0]], next, z.base) && Bounded(next, n, n, z.base)
  {
    CarryFits(rest, n, n, z);
    CarryingStep(cols, done, rest, z.base);
  }

  /** Lines 2255 to 2262: the digits of `x` in the columns, with zeros above. */
  method LoadColumns(w: array<nat>, hi: nat, a: array<nat>, used: nat, ghost B: nat)
    requires 0 < B && w != a && used <= hi <= w.Length && used <= a.Length && Limbs(a[..used], B)
    modifies w
    ensures Limbs(w[..hi], B) && Val(w[..hi], B) == Val(a[..used], B)
  {
    hide Val;
    for ix := 0 to used
      invariant w[..ix] == a[..ix]
    {
      w[ix] := a[ix];
    }
    for ix := used to hi
      invariant w[..used] == a[..used] && forall j :: used <= j < ix ==> w[j] == 0
    {
      w[ix] := 0;
    }
    ValPadded(w[..hi], used, B);
    assert w[..hi][..used] == a[..used];
  }

  /** Lines 2346 to 2355: the digits are masked out of the columns, and what is left of `x` is
      cleared. */
  method CopyDigits(a: array<nat>, olduse: nat, w: array<nat>, n: nat, B: nat)
    requires 0 < B && a != w && n + 1 <= a.Length && olduse <= a.Length && 2 * n + 1 <= w.Length
    modifies a
    ensures a[..n + 1] == Masked(w[n..2 * n + 1], B)
    ensures forall j :: n + 1 <= j < a.Length ==> a[j] == if j < olduse then 0 else old(a[j])
  {
    for ix := 0 to n + 1
      invariant forall j :: 0 <= j < ix ==> a[j] == w[n + j] % B
      invariant forall j :: ix <= j < a.Length ==> a[j] == old(a[j])
    {
      a[ix] := w[n + ix] % B;
    }
    var ix := n + 1;
    while ix < olduse
      invariant n + 1 <= ix && (ix <= olduse || ix == n + 1)
      invariant forall j :: 0 <= j < n + 1 ==> a[j] == w[n + j] % B
      invariant forall j :: n + 1 <= j < a.Length ==> a[j] == if j < ix then 0 else old(a[j])
    {
      a[ix] := 0;
      ix := ix + 1;
    }
    assert a[..n + 1] == Masked(w[n..2 * n + 1], B);
  }

  /** What both forms ask for: `x` of at most twice as many digits as the modulus, which has no
      leading zeros, and `rho` from the setup. */
  ghost predicate Reducible(x: MpInt, n: MpInt, rho: nat, z: Sizes)
    reads x, x.dp, n, n.dp
  {
    && z.Valid() && x != n && x.dp != n.dp && x.Valid(z.base) && n.Valid(z.base)
    && n.Clamped() && 0 < n.used && x.used <= 2 * n.used
    && rho < z.base && Prepared(n.Value(z.base), rho, z.base)
  }

  /** A value of `2 n` digits comes down to `n + 1` digits. */
  lemma ResultFits(xs: seq<nat>, ns: seq<nat>, rho: nat, n: nat, B: nat)
    requires 2 <= B && Limbs(xs, B) && Limbs(ns, B) && |xs| <= 2 * n && |ns| == n
    ensures Redc(Val(xs, B), Val(ns, B), rho, n, B) < Pow(B, n + 1)
  {
    var p := Pow(B, n);
    ValBound(xs, B);
    ValBound(ns, B);
    PowMono(B, |xs|, n + n);
    PowAdd(B, n, n);
    RedcBound(Val(xs, B), Val(ns, B), rho, n, p, B);
    MulMono(p, 2, B);
  }

  /** Lines 2235 to 2356: from the digits of `x` in `a` to those of the result. */
  method ReduceByColumns(a: array<nat>, used: nat, ns: array<nat>, n: nat, rho: nat, z: Sizes)
    requires z.Wide() && z.Admits(n) && a != ns && 0 < n <= ns.Length && n + 1 <= a.Length && used <= a.Length && used <= 2 * n
    requires Limbs(a[..used], z.base) && Limbs(ns[..n], z.base) && rho < z.base && Prepared(Val(ns[..n], z.base), rho, z.base)
    modifies a
    ensures Limbs(a[..n + 1], z.base)
    ensures Val(a[..n + 1], z.base) == Redc(Val(old(a[..used]), z.base), Val(ns[..n], z.base), rho, n, z.base)
    ensures forall j :: n + 1 <= j < a.Length ==> a[j] == if j < used then 0 else old(a[j])
  {
    hide Val, Redc, Masked, Bounded, Prepared, Sizes.SquareFits, Pow;
    ResultFits(a[..used], ns[..n], rho, n, z.base);
    var w := new nat[z.ArraySize()];
    LoadColumns(w, 2 * n + 1, a, used, z.base);
    ReduceColumns(w, 2 * n + 1, ns, n, rho, z);
    CarryColumns(w, n, z);
    CopyDigits(a, used, w, n, z.base);
  }

  /** `fast_mp_montgomery_reduce`, when memory is available. No column ever overflows. */
  method FastMontgomeryReduce(x: MpInt, n: MpInt, rho: nat, z: Sizes)
    requires Reducible(x, n, rho, z) && z.Admits(n.used)
    modifies x, x.dp
    ensures x.Valid(z.base) && x.Clamped()
    ensures x.Value(z.base) == Reduced(old(x.Value(z.base)), n.Value(z.base), rho, n.used, z.base)
  {
    hide Val, Redc, Prepared, Sizes.Admits, Sizes.SquareFits, Sizes.Divides;
    x.Grow(n.used + 1, z.base);
    ReduceByColumns(x.dp, x.used, n.dp, n.used, rho, z);
    x.used := n.used + 1;
    x.Clamp(z.base);
    FinalSubtraction(x, n, z);
  }

  /** The last lines of both forms: `n` is subtracted once if that is possible. */
  method FinalSubtraction(x: MpInt, n: MpInt, z: Sizes)
    requires z.Spare() && x != n && x.dp != n.dp && x.Valid(z.base) && n.Valid(z.base) && x.Clamped() && n.Clamped()
    modifies x, x.dp
    ensures x.Valid(z.base) && x.Clamped()
    ensures x.Value(z.base) == var t, m := old(x.Value(z.base)), n.Value(z.base); if m <= t then t - m else t
  {
    var c := x.Compare(n, z.base);
    if c != -1 {
      if x.used < n.used {
        MoreDigits(n.dp[..n.used], x.dp[..x.used], z.base);
      }
      x.Subtract(n, z);
    }
  }

  // ----- the plain form -----

  /** Replacing a digit changes the value by so many times its weight. */
  lemma {:induction false} ValUpdate(xs: seq<nat>, i: nat, y: nat, B: nat)
    requires i < |xs|
    ensures Val(xs[i := y], B) + Pow(B, i) * xs[i] == Val(xs, B) + Pow(B, i) * y
  {
    var lo, hi := xs[..i], xs[i + 1..];
    assert xs == lo + ([xs[i]] + hi) && xs[i := y] == lo + ([y] + hi);
    ValAppend(lo, [xs[i]] + hi, B);
    ValAppend(lo, [y] + hi, B);
    ValCons(xs[i], hi, B);
    ValCons(y, hi, B);
    Distribute(Pow(B, i), xs[i], B * Val(hi, B));
    Distribute(Pow(B, i), y, B * Val(hi, B));
  }

  /** A carry on its way up: `u` is due at place `i` of `xs`, and all of it comes to `total`. */
  predicate Due(xs: seq<nat>, i: nat, u: nat, total: nat, B: nat) {
    i <= |xs| && Limbs(xs, B) && u < B && Val(xs, B) + Pow(B, i) * u == total
  }

  lemma DueStep(xs: seq<nat>, i: nat, u: nat, total: nat, z: Sizes)
    requires z.Spare() && Due(xs, i, u, total, z.base) && i < |xs|
    ensures var t := AddLo(xs[i], u, 0, z.digit);
            Due(xs[i := Mask(t, z.base)], i + 1, Shr(t, z.base), total, z.base)
  {
    var B, t := z.base, AddLo(xs[i], u, 0, z.digit);
    var d, q := Mask(t, B), Shr(t, B);
    TwoDigits(xs[i], u, z);
    ValUpdate(xs, i, d, B);
    assert Pow(B, i + 1) == B * Pow(B, i);
    hide Val, Pow, AddLo, Mask, Shr, Sizes.Divides;
    DueColumn(Pow(B, i), xs[i], u, d, q, B);
  }

  lemma DueColumn(p: nat, x: nat, u: nat, d: nat, q: nat, B: nat)
    requires x + u == d + B * q
    ensures p * x + p * u == p * d + (B * p) * q
  {
    Distribute(p, x, u);
    Distribute(p, d, B * q);
    Associate(p, B, q);
  }

  lemma TwoDigits(x: nat, y: nat, z: Sizes)
    requires z.Spare() && x < z.base && y < z.base
    ensures var t := AddLo(x, y, 0, z.digit);
            x + y == Mask(t, z.base) + z.base * Shr(t, z.base) && Shr(t, z.base) < z.base
  {
    DigitHoldsTwo(z);
    hide Sizes.Divides;
    NoWrap(x, y, z.digit);
    hide AddLo;
    if x + y < z.base {
      SplitUnique(x + y, x + y, 0, z.base);
    } else {
      SplitUnique(x + y, x + y - z.base, 1, z.base);
    }
  }

  lemma DigitHoldsTwo(z: Sizes)
    requires z.Spare()
    ensures 2 * z.base <= z.digit
  {
    var q := z.digit / (2 * z.base);
    assert z.digit == 2 * z.base * q;
  }

  /** A carry cannot be due beyond the top. */
  lemma DueInside(xs: seq<nat>, i: nat, u: nat, total: nat, B: nat)
    requires Due(xs, i, u, total, B) && total < Pow(B, |xs|) && 0 < u
    ensures i < |xs|
  {
    MulMono(Pow(B, i), 1, u);
  }

  /** The loop at line 2443: a carry is passed up as far as it goes, and never beyond `hi`. */
  method PropagateCarry(a: array<nat>, k0: nat, hi: nat, u0: nat, z: Sizes)
    requires z.Spare() && k0 <= hi <= a.Length && Limbs(a[k0..hi], z.base) && u0 < z.base
    requires Val(a[k0..hi], z.base) + u0 < Pow(z.base, hi - k0)
    modifies a
    ensures Limbs(a[k0..hi], z.base) && forall j :: 0 <= j < a.Length && !(k0 <= j < hi) ==> a[j] == old(a[j])
    ensures Val(a[k0..hi], z.base) == old(Val(a[k0..hi], z.base)) + u0
  {
    hide Val, Due, Shr, Mask, AddLo, Sizes.Divides;
    ghost var B, total := z.base, Val(a[k0..hi], z.base) + u0;
    DueAtFirst(a[k0..hi], u0, B);
    var k, u := k0, u0;
    while u != 0
      invariant k0 <= k && Due(a[k0..hi], k - k0, u, total, B)
      invariant forall j :: 0 <= j < a.Length && !(k0 <= j < hi) ==> a[j] == old(a[j])
      decreases hi - k
    {
      DueInside(a[k0..hi], k - k0, u, total, B);
      DueStep(a[k0..hi], k - k0, u, total, z);
      ghost var was := a[k0..hi];
      var t := AddLo(a[k], u, 0, z.digit);
      u := Shr(t, z.base);
      a[k] := Mask(t, z.base);
      assert a[k0..hi] == was[k - k0 := Mask(t, z.base)];
      k := k + 1;
    }
    NothingDue(a[k0..hi], k - k0, total, B);
  }

  lemma DueAtFirst(xs: seq<nat>, u: nat, B: nat)
    requires Limbs(xs, B) && u < B
    ensures Due(xs, 0, u, Val(xs, B) + u, B)
  {
  }

  lemma NothingDue(xs: seq<nat>, i: nat, total: nat, B: nat)
    requires Due(xs, i, 0, total, B)
    ensures Limbs(xs, B) && Val(xs, B) == total
  {
  }

  /** The loop at line 2428, digit by digit a multiply-accumulate: `mu` times the modulus is added
      from `ix` on, and a carry is left over. */
  method AddRow(a: array<nat>, ix: nat, ns: array<nat>, n: nat, mu: nat, z: Sizes) returns (u: nat)
    requires z.Wide() && a != ns && ix + n <= a.Length && n <= ns.Length && mu < z.base
    requires Limbs(a[ix..ix + n], z.base) && Limbs(ns[..n], z.base)
    modifies a
    ensures Out(a[ix..ix + n], u) == Lanes(ns[..n], old(a[ix..ix + n]), mu, 0, z.base)
    ensures u < z.base && forall j :: 0 <= j < a.Length && !(ix <= j < ix + n) ==> a[j] == old(a[j])
  {
    hide Lanes, Sizes.SquareFits;
    ghost var B, ds, ss := z.base, a[ix..ix + n], ns[..n];
    u := 0;
    NoLanes(mu, B);
    assert a[ix..ix] == [] && ss[..0] == [] && ds[..0] == [];
    for iy := 0 to n
      invariant u < B && Out(a[ix..ix + iy], u) == Lanes(ss[..iy], ds[..iy], mu, 0, B)
      invariant forall j :: 0 <= j < a.Length && !(ix <= j < ix + iy) ==> a[j] == old(a[j])
    {
      assert a[ix + iy] == ds[iy];
      LanesSnoc(ss[..iy], ss[iy], ds[..iy], ds[iy], mu, 0, B);
      assert ss[..iy + 1] == ss[..iy] + [ss[iy]] && ds[..iy + 1] == ds[..iy] + [ds[iy]];
      RowFits(ns[iy], mu, a[ix + iy], u, z);
      ghost var done := a[ix..ix + iy];
      var r := AddLo(AddLo(MulLo(mu, ns[iy], z.word), u, 0, z.word), a[ix + iy], 0, z.word);
      u := Shr(r, z.base);
      a[ix + iy] := Mask(r, z.base);
      assert a[ix..ix + iy + 1] == done + [Mask(r, z.base)];
    }
    assert ss[..n] == ss && ds[..n] == ds;
  }

  lemma NoLanes(b: nat, B: nat)
    requires 0 < B
    ensures Lanes([], [], b, 0, B) == Out([], 0)
  {
  }

  /** The sum at line 2430 does not wrap, and its two digits are those of the limb. */
  lemma RowFits(x: nat, mu: nat, y: nat, u: nat, z: Sizes)
    requires z.Wide() && x < z.base && mu < z.base && y < z.base && u < z.base
    ensures var r := AddLo(AddLo(MulLo(mu, x, z.word), u, 0, z.word), y, 0, z.word);
            Mask(r, z.base) == LimbOut(x, mu, y, u, z.base) && Shr(r, z.base) == CarryOut(x, mu, y, u, z.base) < z.base
  {
    DigitProduct(mu, x, z);
    SquareHolds(mu * x, y, u, z.base);
    hide MulLo;
    NoWrap(mu * x, u, z.word);
    NoWrap(mu * x + u, y, z.word);
    CarryIsWord(x, mu, y, u, z.base);
    hide AddLo;
    assert mu * x + u + y == x * mu + y + u;
  }

  lemma SquareHolds(x: nat, y: nat, u: nat, B: nat)
    requires x <= (B - 1) * (B - 1) && y < B && u < B
    ensures x + u + y < B * B
  {
    Distribute(B - 1, B, -1);
    Distribute(B, B, -1);
  }

  /** One turn of the outer loop: the multiple of the modulus that clears digit `ix`. */
  method ReduceRow(a: array<nat>, ix: nat, hi: nat, ns: array<nat>, n: nat, rho: nat, z: Sizes)
    requires z.Valid() && a != ns && ix + n < hi <= a.Length && 0 < n <= ns.Length
    requires Limbs(a[ix..hi], z.base) && Limbs(ns[..n], z.base) && rho < z.base && Prepared(Val(ns[..n], z.base), rho, z.base)
    requires Val(a[ix..hi], z.base) + (z.base - 1) * Val(ns[..n], z.base) < Pow(z.base, hi - ix)
    modifies a
    ensures forall j :: 0 <= j < a.Length && !(ix <= j < hi) ==> a[j] == old(a[j])
    ensures Limbs(a[ix..hi], z.base) && a[ix] == 0
    ensures Val(a[ix + 1..hi], z.base) == Next(Val(old(a[ix..hi]), z.base), Val(ns[..n], z.base), rho, z.base)
  {
    hide Val, Lanes, Prepared, Next, Mu, Mask, Sizes.SquareFits, Sizes.Divides, Pow, MulLo;
    ghost var B, us, m := z.base, a[ix..hi], Val(ns[..n], z.base);
    var mu := Mask(MulLo(a[ix], rho, z.word), z.base);
    MuOfDigit(us, rho, z);
    assert us[..n] == a[ix..ix + n];
    var u := AddRow(a, ix, ns, n, mu, z);
    ghost var lo := a[ix..ix + n];
    RowSum(us, lo, u, ns[..n], mu, B);
    assert a[ix + n..hi] == us[n..];
    PropagateCarry(a, ix + n, hi, u, z);
    assert forall j :: 0 <= j < n ==> a[ix + j] == lo[j];
    assert a[ix..ix + n] == lo;
    RowDone(Val(us, B), lo, a[ix + n..hi], mu, m, rho, B);
    CutRow(a[..], ix, ix + n, hi);
  }

  /** What the row adds up to, and that there is room for the carry that is due. */
  lemma RowSum(us: seq<nat>, lo: seq<nat>, u: nat, ns: seq<nat>, mu: nat, B: nat)
    requires |ns| <= |us| && Limbs(us, B) && mu < B
    requires Out(lo, u) == Lanes(ns, us[..|ns|], mu, 0, B)
    requires Val(us, B) + (B - 1) * Val(ns, B) < Pow(B, |us|)
    ensures |lo| == |ns| && Limbs(lo, B) && Limbs(us[|ns|..], B)
    ensures Val(us[|ns|..], B) + u < Pow(B, |us| - |ns|)
    ensures Val(lo, B) + Pow(B, |ns|) * (Val(us[|ns|..], B) + u) == Val(us, B) + mu * Val(ns, B)
  {
    var n, rest := |ns|, us[|ns|..];
    RowValue(us, lo, rest, u, ns, mu, B);
    RowRoom(Val(lo, B), Val(rest, B) + u, n, |rest|, Val(us, B), mu, Val(ns, B), B);
  }

  lemma CutRow(s: seq<nat>, i: nat, j: nat, k: nat)
    requires i < j <= k <= |s|
    ensures s[i..k] == s[i..j] + s[j..k] && s[i + 1..k] == s[i..k][1..]
  {
  }

  lemma MuOfDigit(us: seq<nat>, rho: nat, z: Sizes)
    requires z.Wide() && us != [] && us[0] < z.base && rho < z.base
    ensures Mask(MulLo(us[0], rho, z.word), z.base) == Mu(Val(us, z.base), rho, z.base) < z.base
  {
    MuOfIs(us, rho, z);
    SplitUnique(us[0], us[0], 0, z.base);
  }

  /** The value of the digits after the row, with the carry that is due. */
  lemma RowValue(us: seq<nat>, lo: seq<nat>, rest: seq<nat>, u: nat, ns: seq<nat>, mu: nat, B: nat)
    requires 0 < B && |ns| <= |us| && us[|ns|..] == rest
    requires Out(lo, u) == Lanes(ns, us[..|ns|], mu, 0, B)
    ensures |lo| == |ns| && Limbs(lo, B)
    ensures Val(lo, B) + Pow(B, |ns|) * (Val(rest, B) + u) == Val(us, B) + mu * Val(ns, B)
  {
    var n := |ns|;
    LanesEquation(ns, us[..n], mu, 0, B);
    LanesLimbs(ns, us[..n], mu, 0, B);
    ValAppend(us[..n], rest, B);
    assert us == us[..n] + rest;
    hide Val, Lanes, Pow;
    Distribute(Pow(B, n), Val(rest, B), u);
  }

  /** There is room for the carry that is due. */
  lemma RowRoom(lo: nat, v: nat, n: nat, k: nat, us: nat, mu: nat, m: nat, B: nat)
    requires mu < B && lo + Pow(B, n) * v == us + mu * m && us + (B - 1) * m < Pow(B, n + k)
    ensures v < Pow(B, k)
  {
    PowAdd(B, n, k);
    MulMono(m, mu, B - 1);
    if Pow(B, k) <= v {
      MulMono(Pow(B, n), Pow(B, k), v);
    }
  }

  lemma RowDone(x: nat, lo: seq<nat>, top: seq<nat>, mu: nat, m: nat, rho: nat, B: nat)
    requires 0 < B && lo != [] && Limbs(lo, B) && mu == Mu(x, rho, B) && Prepared(m, rho, B)
    requires Val(lo, B) + Pow(B, |lo|) * Val(top, B) == x + mu * m
    ensures (lo + top)[0] == 0 && Val((lo + top)[1..], B) == Next(x, m, rho, B)
  {
    var xs := lo + top;
    ValAppend(lo, top, B);
    NextIsExact(x, m, rho, B);
    assert Val(xs, B) == xs[0] + B * Val(xs[1..], B);
    hide Val, Next, Mu, Pow, Prepared;
    SplitUnique(Val(xs, B), xs[0], Val(xs[1..], B), B);
    SplitUnique(Val(xs, B), 0, Next(x, m, rho, B), B);
  }

  /** There is room for a multiple of the modulus while digits are taken off. */
  predicate Small(v: nat, i: nat, n: nat, m: nat, B: nat)
    requires i <= 2 * n
  {
    v < Pow(B, 2 * n - i) + m && m < Pow(B, n)
  }

  lemma SmallRoom(v: nat, i: nat, n: nat, m: nat, B: nat)
    requires 2 <= B && i < n && Small(v, i, n, m, B)
    ensures v + (B - 1) * m < Pow(B, 2 * n + 1 - i)
  {
    var p := Pow(B, 2 * n - i);
    Distribute(m, B, -1);
    MulMono(B, m + 1, Pow(B, n));
    Distribute(B, m, 1);
    PowMono(B, n + 1, 2 * n - i);
    MulMono(p, 2, B);
  }

  lemma SmallNext(v: nat, i: nat, n: nat, m: nat, rho: nat, B: nat)
    requires 0 < B && i < n && Small(v, i, n, m, B)
    ensures Small(Next(v, m, rho, B), i + 1, n, m, B)
  {
    NextBound(v, m, rho, Pow(B, 2 * n - i - 1), B);
  }

  lemma SmallFirst(xs: seq<nat>, k: nat, ns: seq<nat>, n: nat, B: nat)
    requires 0 < B && k <= |xs| && k <= 2 * n && |ns| == n && Limbs(xs, B) && Limbs(ns, B)
    requires forall i :: k <= i < |xs| ==> xs[i] == 0
    ensures Val(xs, B) == Val(xs[..k], B) && Small(Val(xs, B), 0, n, Val(ns, B), B)
  {
    ValPadded(xs, k, B);
    ValBound(xs[..k], B);
    ValBound(ns, B);
    PowMono(B, k, 2 * n);
  }

  /** The outer loop: `n` digits of the first `2 n + 1` in `a` become zero. */
  method ReduceInPlace(a: array<nat>, ghost used: nat, ns: array<nat>, n: nat, rho: nat, z: Sizes)
    requires z.Valid() && a != ns && 0 < n <= ns.Length && used <= 2 * n && 2 * n + 1 <= a.Length
    requires Limbs(a[..], z.base) && (forall i :: used <= i < a.Length ==> a[i] == 0)
    requires Limbs(ns[..n], z.base) && rho < z.base && Prepared(Val(ns[..n], z.base), rho, z.base)
    modifies a
    ensures Limbs(a[..], z.base) && (forall i :: 0 <= i < n ==> a[i] == 0)
    ensures forall i :: 2 * n + 1 <= i < a.Length ==> a[i] == 0
    ensures Val(a[n..2 * n + 1], z.base) == Redc(Val(old(a[..used]), z.base), Val(ns[..n], z.base), rho, n, z.base)
  {
    hide Val, Redc, Prepared, Small, Next, Sizes.SquareFits, Sizes.Divides;
    ghost var B, m := z.base, Val(ns[..n], z.base);
    var hi := 2 * n + 1;
    ghost var x := Val(a[..used], B);
    SmallFirst(a[..hi], used, ns[..n], n, B);
    assert a[..hi][..used] == a[..used] && a[0..hi] == a[..hi];
    for ix := 0 to n
      invariant Limbs(a[ix..hi], B) && (forall i :: 0 <= i < ix ==> a[i] == 0) && forall i :: hi <= i < a.Length ==> a[i] == 0
      invariant Small(Val(a[ix..hi], B), ix, n, m, B)
      invariant Redc(Val(a[ix..hi], B), m, rho, n - ix, B) == Redc(x, m, rho, n, B)
    {
      ghost var v := Val(a[ix..hi], B);
      SmallRoom(v, ix, n, m, B);
      SmallNext(v, ix, n, m, rho, B);
      RedcTurn(v, m, rho, n - ix, B);
      ReduceRow(a, ix, hi, ns, n, rho, z);
      assert a[ix + 1..hi] == a[ix..hi][1..];
    }
    RedcNone(Val(a[n..hi], B), m, rho, B);
    forall i | 0 <= i < a.Length
      ensures a[i] < B
    {
      if n <= i < hi {
        assert a[i] == a[n..hi][i - n];
      }
    }
  }

  lemma RedcTurn(x: nat, m: nat, rho: nat, n: nat, B: nat)
    requires 0 < B && 0 < n
    ensures Redc(x, m, rho, n, B) == Redc(Next(x, m, rho, B), m, rho, n - 1, B)
  {
  }

  /** The slower form that `mp_montgomery_reduce` falls back on, when memory is available. */
  method PlainMontgomeryReduce(x: MpInt, n: MpInt, rho: nat, z: Sizes)
    requires Reducible(x, n, rho, z)
    modifies x, x.dp
    ensures x.Valid(z.base) && x.Clamped()
    ensures x.Value(z.base) == Reduced(old(x.Value(z.base)), n.Value(z.base), rho, n.used, z.base)
  {
    hide Val, Redc, Prepared, Sizes.SquareFits, Sizes.Divides;
    var digs := n.used * 2 + 1;
    x.Grow(digs, z.base);
    ghost var used := x.used;
    x.used := digs;
    ReduceInPlace(x.dp, used, n.dp, n.used, rho, z);
    ZerosBelow(x.dp[..digs], n.used, z.base);
    assert x.dp[..digs][n.used..] == x.dp[n.used..digs];
    x.Clamp(z.base);
    x.ShiftDown(n.used, z.base);
    FinalSubtraction(x, n, z);
  }

  lemma ZerosBelow(xs: seq<nat>, n: nat, B: nat)
    requires 0 < B && n <= |xs| && Limbs(xs, B) && forall i :: 0 <= i < n ==> xs[i] == 0
    ensures Val(xs, B) / Pow(B, n) == Val(xs[n..], B)
  {
    DropDigits(xs, n, B);
  }

  /** `x` times the inverse of the radix power modulo `m`, wherever one subtraction is enough. */
  predicate Quotient(r: nat, x: nat, m: nat, rho: nat, n: nat, B: nat)
    requires 0 < B && 0 < m
  {
    x < Pow(B, n) * m + m ==> r == (x * Pow(BaseInverse(m, rho, B), n)) % m
  }

  lemma ReducedIsWanted(x: nat, m: nat, rho: nat, n: nat, B: nat)
    requires 2 <= B && Prepared(m, rho, B)
    ensures 0 < m && Quotient(Reduced(x, m, rho, n, B), x, m, rho, n, B)
  {
    if m == 0 {
      SplitUnique(1, 1, 0, B);
    }
    if x < Pow(B, n) * m + m {
      ReducedIsQuotient(x, m, rho, n, B);
    }
  }

  /** `mp_montgomery_reduce`: the column-wise form if the columns fit, the plain form otherwise. */
  method MontgomeryReduce(x: MpInt, n: MpInt, rho: nat, z: Sizes)
    requires Reducible(x, n, rho, z)
    modifies x, x.dp
    ensures x.Valid(z.base) && x.Clamped()
    ensures x.Value(z.base) == Reduced(old(x.Value(z.base)), n.Value(z.base), rho, n.used, z.base)
    ensures 0 < n.Value(z.base)
            && Quotient(x.Value(z.base), old(x.Value(z.base)), n.Value(z.base), rho, n.used, z.base)
  {
    ReducedIsWanted(x.Value(z.base), n.Value(z.base), rho, n.used, z.base);
    if 2 * n.used + 1 < z.ArraySize() && n.used < z.Columns() {
      FastMontgomeryReduce(x, n, rho, z);
    } else {
      PlainMontgomeryReduce(x, n, rho, z);
    }
  }

}
