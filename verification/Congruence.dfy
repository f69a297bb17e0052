/**
 Congruence modulo a number, by a witness for the quotient.
 */
module Congruence {
  import opened Words

  predicate Apart(a: int, b: int, k: int, n: nat) {
    a == b + k * n
  }

  ghost predicate Congruent(a: int, b: int, n: nat) {
    exists k: int :: Apart(a, b, k, n)
  }

  lemma CongruentBy(a: int, b: int, k: int, n: nat)
    requires a == b + k * n
    ensures Congruent(a, b, n)
  {
    assert Apart(a, b, k, n);
  }

  lemma CongruentSwap(a: int, b: int, n: nat)
    requires Congruent(a, b, n)
    ensures Congruent(b, a, n)
  {
    var k: int :| Apart(a, b, k, n);
    CongruentBy(b, a, -k, n);
  }

  lemma CongruentTrans(a: int, b: int, c: int, n: nat)
    requires Congruent(a, b, n) && Congruent(b, c, n)
    ensures Congruent(a, c, n)
  {
    var k: int :| Apart(a, b, k, n);
    var l: int :| Apart(b, c, l, n);
    assert (k + l) * n == k * n + l * n;
    CongruentBy(a, c, k + l, n);
  }

  lemma CongruentTimes(a: int, b: int, m: int, n: nat)
    requires Congruent(a, b, n)
    ensures Congruent(a * m, b * m, n)
  {
    var k: int :| Apart(a, b, k, n);
    assert a * m == b * m + (k * m) * n;
    CongruentBy(a * m, b * m, k * m, n);
  }

  lemma CongruentProduct(a: int, b: int, c: int, d: int, n: nat)
    requires Congruent(a, b, n) && Congruent(c, d, n)
    ensures Congruent(a * c, b * d, n)
  {
    CongruentTimes(a, b, c, n);
    CongruentTimes(c, d, b, n);
    CongruentTrans(a * c, b * c, b * d, n);
  }

  lemma CongruentMod(a: int, n: nat)
    requires 0 < n
    ensures Congruent(a % n, a, n)
  {
    assert a % n == a + (-(a / n)) * n;
    CongruentBy(a % n, a, -(a / n), n);
  }

  /** Congruent numbers have the same residue, and only they have. */
  lemma SameResidue(a: int, b: int, n: nat)
    requires 0 < n
    ensures Congruent(a, b, n) <==> a % n == b % n
  {
    CongruentMod(a, n);
    CongruentMod(b, n);
    if a % n == b % n {
      CongruentSwap(a % n, a, n);
      CongruentTrans(a, a % n, b, n);
    }
    if Congruent(a, b, n) {
      CongruentTrans(a % n, a, b, n);
      CongruentSwap(b % n, b, n);
      CongruentTrans(a % n, b, b % n, n);
      SmallCongruent(a % n, b % n, n);
    }
  }

  lemma SmallCongruent(a: int, b: int, n: nat)
    requires Congruent(a, b, n) && 0 <= a < n && 0 <= b < n
    ensures a == b
  {
    var k: int :| Apart(a, b, k, n);
    if 0 < k {
      MulMono(n, 1, k);
    } else if k < 0 {
      MulMono(n, k, -1);
    }
  }

}
