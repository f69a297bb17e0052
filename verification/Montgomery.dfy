/**
 Montgomery reduction of multi-precision integers: the column-wise form that keeps its carries
 back, the plain form it replaces, and the setup that finds `-1/n` by Newton iteration. Line
 numbers are those of `src/demo/wolfssl-3.15.3/src/integer.c`.
 */
module Montgomery {
  import opened Words
  import opened LimbVectors
  import opened MulAdd
  import opened Congruence

  // ----- what the reduction computes -----

  /** `rho` is `-1/m` modulo the digit base. */
  predicate Prepared(m: nat, rho: nat, B: nat)
    requires 0 < B
  {
    (m * rho + 1) % B == 0
  }

  /** The multiple of `m` that makes the lowest digit of `x` vanish. */
  function Mu(x: nat, rho: nat, B: nat): (mu: nat)
    requires 0 < B
    ensures mu < B
  {
    ((x % B) * rho) % B
  }

  lemma AddMultiples(p: int, q: int, x: int, k: int, l: int, B: int)
    requires p == q + k * B && q + x == l * B
    ensures x + p == (k + l) * B
  {
  }

  /** `x` plus that multiple, with the digit taken off. */
  function Next(x: nat, m: nat, rho: nat, B: nat): (y: nat)
    requires 0 < B
  {
    (x + Mu(x, rho, B) * m) / B
  }

  /** `n` digits taken off, one at a time. */
  function Redc(x: nat, m: nat, rho: nat, n: nat, B: nat): (r: nat)
    requires 0 < B
    decreases n
  {
    if n == 0 then x else Redc(Next(x, m, rho, B), m, rho, n - 1, B)
  }

  /** The result of a reduction, after the one subtraction at the end. */
  function Reduced(x: nat, m: nat, rho: nat, n: nat, B: nat): (r: nat)
    requires 0 < B
  {
    var t := Redc(x, m, rho, n, B);
    if m <= t then t - m else t
  }

  lemma DigitVanishes(x: nat, m: nat, rho: nat, B: nat)
    requires 0 < B && Prepared(m, rho, B)
    ensures (x + Mu(x, rho, B) * m) % B == 0
  {
    var mu := Mu(x, rho, B);
    SameResidue(m * rho + 1, 0, B);
    CongruentMod((x % B) * rho, B);
    CongruentMod(x, B);
    CongruentTimes(x % B, x, rho, B);
    CongruentTrans(mu, (x % B) * rho, x * rho, B);
    CongruentTimes(mu, x * rho, m, B);
    CongruentTimes(m * rho + 1, 0, x, B);
    var k: int :| Apart(mu * m, (x * rho) * m, k, B);
    var l: int :| Apart((m * rho + 1) * x, 0, l, B);
    Distribute(x, m * rho, 1);
    Associate(x, rho, m);
    hide Mu, Prepared;
    AddMultiples(mu * m, (x * rho) * m, x, k, l, B);
    CongruentBy(x + mu * m, 0, k + l, B);
    SameResidue(x + mu * m, 0, B);
  }

  lemma NextIsExact(x: nat, m: nat, rho: nat, B: nat)
    requires 0 < B && Prepared(m, rho, B)
    ensures B * Next(x, m, rho, B) == x + Mu(x, rho, B) * m
  {
    DigitVanishes(x, m, rho, B);
  }

  /** The reduction divides exactly: `B^n` times the result is `x` plus a multiple of `m`. */
  lemma {:induction false} RedcEquation(x: nat, m: nat, rho: nat, n: nat, B: nat) returns (q: nat)
    requires 0 < B && Prepared(m, rho, B)
    ensures Pow(B, n) * Redc(x, m, rho, n, B) == x + q * m && q < Pow(B, n)
    decreases n
  {
    if n == 0 {
      q := 0;
    } else {
      hide Mu, Next;
      var mu, y := Mu(x, rho, B), Next(x, m, rho, B);
      NextIsExact(x, m, rho, B);
      var rest := RedcEquation(y, m, rho, n - 1, B);
      q := mu + B * rest;
      RedcStep(x, y, mu, rest, m, Pow(B, n - 1), Redc(y, m, rho, n - 1, B), B);
    }
  }

  lemma RedcStep(x: nat, y: nat, mu: nat, rest: nat, m: nat, p: nat, r: nat, B: nat)
    requires B * y == x + mu * m && p * r == y + rest * m && rest < p && mu < B
    ensures (B * p) * r == x + (mu + B * rest) * m && mu + B * rest < B * p
  {
    Associate(B, p, r);
    Distribute(B, y, rest * m);
    Associate(B, rest, m);
    Distribute(m, mu, B * rest);
    MulMono(B, rest + 1, p);
    Distribute(B, rest, 1);
  }

  /** A bound on `x` carries over to the result. */
  lemma {:induction false} RedcBound(x: nat, m: nat, rho: nat, n: nat, p: nat, B: nat)
    requires 0 < B && x < Pow(B, n) * p + m
    ensures Redc(x, m, rho, n, B) < p + m
    decreases n
  {
    if n == 0 {
    } else {
      Associate(B, Pow(B, n - 1), p);
      NextBound(x, m, rho, Pow(B, n - 1) * p, B);
      hide Next;
      RedcBound(Next(x, m, rho, B), m, rho, n - 1, p, B);
    }
  }

  lemma NextBound(x: nat, m: nat, rho: nat, p: nat, B: nat)
    requires 0 < B && x < B * p + m
    ensures Next(x, m, rho, B) < p + m
  {
    var mu, q := Mu(x, rho, B), Next(x, m, rho, B);
    MulMono(m, mu, B - 1);
    Distribute(m, B, -1);
    Distribute(B, p, m);
    assert x + mu * m < B * (p + m);
    if p + m <= q {
      MulMono(B, p + m, q);
    }
  }

  /** The inverse of the digit base modulo `m`. */
  function BaseInverse(m: nat, rho: nat, B: nat): (k: nat)
    requires 0 < B
  {
    (m * rho + 1) / B
  }

  lemma {:induction false} PowersCancel(m: nat, rho: nat, n: nat, B: nat)
    requires 0 < B && Prepared(m, rho, B)
    ensures Congruent(Pow(B, n) * Pow(BaseInverse(m, rho, B), n), 1, m)
  {
    if n == 0 {
      CongruentBy(1, 1, 0, m);
    } else {
      var k, p, q := BaseInverse(m, rho, B), Pow(B, n - 1), Pow(BaseInverse(m, rho, B), n - 1);
      PowersCancel(m, rho, n - 1, B);
      CongruentBy(B * k, 1, rho, m);
      CongruentProduct(B * k, 1, p * q, 1, m);
      assert (B * p) * (k * q) == (B * k) * (p * q);
    }
  }

  /** The result is the only number below `m` that, times `B^n`, is congruent to `x`. */
  lemma ReducedIsUnique(x: nat, m: nat, rho: nat, n: nat, r: nat, B: nat)
    requires 0 < B && Prepared(m, rho, B) && x < Pow(B, n) * m + m && r < m
    ensures Reduced(x, m, rho, n, B) < m
    ensures Reduced(x, m, rho, n, B) == r <==> Congruent(Pow(B, n) * r, x, m)
  {
    var big, t := Pow(B, n), Reduced(x, m, rho, n, B);
    RedcBound(x, m, rho, n, m, B);
    ReducedCongruent(x, m, rho, n, B);
    if Congruent(big * r, x, m) {
      CongruentSwap(big * r, x, m);
      CongruentTrans(big * t, x, big * r, m);
      Cancel(t, r, m, rho, n, B);
      SmallCongruent(t, r, m);
    }
  }

  lemma ReducedCongruent(x: nat, m: nat, rho: nat, n: nat, B: nat)
    requires 0 < B && Prepared(m, rho, B)
    ensures Congruent(Pow(B, n) * Reduced(x, m, rho, n, B), x, m)
  {
    var big, t := Pow(B, n), Redc(x, m, rho, n, B);
    var q := RedcEquation(x, m, rho, n, B);
    hide Redc, Pow;
    if m <= t {
      TakeOff(big, t, m, x, q);
      CongruentBy(big * (t - m), x, q - big, m);
    } else {
      CongruentBy(big * t, x, q, m);
    }
  }

  lemma TakeOff(big: int, t: int, m: int, x: int, q: int)
    requires big * t == x + q * m
    ensures big * (t - m) == x + (q - big) * m
  {
  }

  /** `B^n` may be cancelled modulo `m`. */
  lemma Cancel(s: nat, t: nat, m: nat, rho: nat, n: nat, B: nat)
    requires 0 < B && Prepared(m, rho, B) && Congruent(Pow(B, n) * s, Pow(B, n) * t, m)
    ensures Congruent(s, t, m)
  {
    var big, inv := Pow(B, n), Pow(BaseInverse(m, rho, B), n);
    CongruentTimes(big * s, big * t, inv, m);
    TimesOne(s, m, rho, n, B);
    TimesOne(t, m, rho, n, B);
    CongruentTrans(s, (big * s) * inv, (big * t) * inv, m);
    CongruentSwap(t, (big * t) * inv, m);
    CongruentTrans(s, (big * t) * inv, t, m);
  }

  lemma TimesOne(s: nat, m: nat, rho: nat, n: nat, B: nat)
    requires 0 < B && Prepared(m, rho, B)
    ensures Congruent(s, (Pow(B, n) * s) * Pow(BaseInverse(m, rho, B), n), m)
  {
    var big, inv := Pow(B, n), Pow(BaseInverse(m, rho, B), n);
    PowersCancel(m, rho, n, B);
    CongruentTimes(big * inv, 1, s, m);
    assert (big * inv) * s == (big * s) * inv;
    CongruentSwap((big * inv) * s, 1 * s, m);
  }

  /** The comment at line 2208: `x` times the inverse of `B^n`, modulo `m`. */
  lemma ReducedIsQuotient(x: nat, m: nat, rho: nat, n: nat, B: nat)
    requires 0 < B && 0 < m && Prepared(m, rho, B) && x < Pow(B, n) * m + m
    ensures Reduced(x, m, rho, n, B) == (x * Pow(BaseInverse(m, rho, B), n)) % m
  {
    var big, inv, t := Pow(B, n), Pow(BaseInverse(m, rho, B), n), Reduced(x, m, rho, n, B);
    RedcBound(x, m, rho, n, m, B);
    assert t < m;
    hide Reduced, Pow;
    ReducedCongruent(x, m, rho, n, B);
    CongruentTimes(big * t, x, inv, m);
    TimesOne(t, m, rho, n, B);
    CongruentTrans(t, (big * t) * inv, x * inv, m);
    SameResidue(t, x * inv, m);
    SplitUnique(t, t, 0, m);
  }

  /** A number in Montgomery form, `x * B^n` modulo `m`, is reduced to `x`. */
  lemma FormRoundTrip(x: nat, m: nat, rho: nat, n: nat, B: nat)
    requires 0 < B && Prepared(m, rho, B) && x < m
    ensures Reduced(Form(x, m, n, B), m, rho, n, B) == x
  {
    var big := Pow(B, n);
    MulMono(m, 1, big);
    CongruentMod(x * big, m);
    CongruentSwap((x * big) % m, x * big, m);
    ReducedIsUnique(Form(x, m, n, B), m, rho, n, x, B);
  }

  /** The Montgomery form of `x`. */
  function Form(x: nat, m: nat, n: nat, B: nat): (f: nat)
    requires 0 < m
    ensures f < m
  {
    (x * Pow(B, n)) % m
  }

  /** Reducing the product of two Montgomery forms gives the form of the product. */
  lemma FormProduct(x: nat, y: nat, m: nat, rho: nat, n: nat, B: nat)
    requires 0 < B && 0 < m < Pow(B, n) && Prepared(m, rho, B)
    ensures Reduced(Form(x, m, n, B) * Form(y, m, n, B), m, rho, n, B) == Form(x * y, m, n, B)
  {
    var big, f, g, r := Pow(B, n), Form(x, m, n, B), Form(y, m, n, B), Form(x * y, m, n, B);
    CongruentMod(x * big, m);
    CongruentMod(y * big, m);
    CongruentMod((x * y) * big, m);
    hide Form, Reduced, Pow;
    FormOfProduct(f, g, r, x, y, m, big);
    MulMono(f, g, m);
    MulMono(m, f, big);
    ReducedIsUnique(f * g, m, rho, n, r, B);
  }

  lemma FormOfProduct(f: nat, g: nat, r: nat, x: nat, y: nat, m: nat, big: nat)
    requires Congruent(f, x * big, m) && Congruent(g, y * big, m) && Congruent(r, (x * y) * big, m)
    ensures Congruent(big * r, f * g, m)
  {
    CongruentProduct(f, x * big, g, y * big, m);
    CongruentTimes(r, (x * y) * big, big, m);
    Associate(x, y, big);
    Associate(x, y * big, big);
    Associate(x, big, y * big);
    CongruentSwap(f * g, (x * big) * (y * big), m);
    CongruentTrans(r * big, (x * big) * (y * big), f * g, m);
  }

  lemma {:induction false} RedcOfEdge(m: nat, rho: nat, n: nat, B: nat)
    requires 0 < B && Prepared(m, rho, B)
    ensures Redc(Pow(B, n) * m + m, m, rho, n, B) == 2 * m
    decreases n
  {
    if 0 < n {
      var p := Pow(B, n - 1);
      var x := B * p * m + m;
      Associate(B, p, m);
      MuOfEdge(x, p * m, m, rho, B);
      Distribute(m, B, -1);
      Distribute(B, p * m, m);
      SplitUnique(x + (B - 1) * m, 0, p * m + m, B);
      assert Next(x, m, rho, B) == p * m + m;
      hide Next, Mu;
      RedcOfEdge(m, rho, n - 1, B);
    }
  }

  lemma MuOfEdge(x: nat, q: nat, m: nat, rho: nat, B: nat)
    requires 0 < B && Prepared(m, rho, B) && x == B * q + m
    ensures Mu(x, rho, B) == B - 1
  {
    CongruentMod((x % B) * rho, B);
    CongruentMod(x, B);
    CongruentBy(x, m, q, B);
    CongruentTrans(x % B, x, m, B);
    CongruentTimes(x % B, m, rho, B);
    CongruentTrans(Mu(x, rho, B), (x % B) * rho, m * rho, B);
    CongruentBy(m * rho, B - 1, (m * rho + 1) / B - 1, B);
    CongruentTrans(Mu(x, rho, B), m * rho, B - 1, B);
    SmallCongruent(Mu(x, rho, B), B - 1, B);
  }

  /** One subtraction at the end is enough for every `x` below a bound if and only if the bound is
      at most `m * (B^n + 1)`. */
  lemma OneSubtractionIsExact(m: nat, rho: nat, n: nat, bound: nat, B: nat)
    requires 0 < B && 0 < m && Prepared(m, rho, B)
    ensures (forall x: nat :: x < bound ==> Reduced(x, m, rho, n, B) < m) <==> bound <= Pow(B, n) * m + m
  {
    if bound <= Pow(B, n) * m + m {
      forall x: nat | x < bound
        ensures Reduced(x, m, rho, n, B) < m
      {
        RedcBound(x, m, rho, n, m, B);
      }
    } else {
      RedcOfEdge(m, rho, n, B);
      assert Reduced(Pow(B, n) * m + m, m, rho, n, B) == m;
    }
  }

}
