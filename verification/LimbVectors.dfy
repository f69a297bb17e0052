/**
 Little-endian limb vectors and the number they stand for.
 */
module LimbVectors {
  import opened Words

  predicate Limbs(xs: seq<nat>, B: nat) {
    forall i :: 0 <= i < |xs| ==> xs[i] < B
  }

  /** `val(xs)`: limb `i` weighs `B^i`. */
  function Val(xs: seq<nat>, B: nat): (r: nat) {
    if xs == [] then 0 else xs[0] + B * Val(xs[1..], B)
  }

  lemma ValCons(x: nat, xs: seq<nat>, B: nat)
    ensures Val([x] + xs, B) == x + B * Val(xs, B)
  {
    assert ([x] + xs)[1..] == xs;
  }

  /** A vector of limbs is determined by its length and its value. */
  lemma {:induction false} ValInjective(xs: seq<nat>, ys: seq<nat>, B: nat)
    requires |xs| == |ys| && Limbs(xs, B) && Limbs(ys, B)
    requires Val(xs, B) == Val(ys, B)
    ensures xs == ys
  {
    if xs == [] {
    } else {
      var t := Val(xs, B);
      SplitUnique(t, xs[0], Val(xs[1..], B), B);
      SplitUnique(t, ys[0], Val(ys[1..], B), B);
      ValInjective(xs[1..], ys[1..], B);
      assert xs == [xs[0]] + xs[1..] && ys == [ys[0]] + ys[1..];
    }
  }

  lemma {:induction false} ValBound(xs: seq<nat>, B: nat)
    requires Limbs(xs, B) && 0 < B
    ensures Val(xs, B) < Pow(B, |xs|)
  {
    if xs == [] {
    } else {
      ValBound(xs[1..], B);
      MulMono(B, Val(xs[1..], B) + 1, Pow(B, |xs| - 1));
      Distribute(B, Val(xs[1..], B), 1);
    }
  }

  lemma {:induction false} ValAppend(xs: seq<nat>, ys: seq<nat>, B: nat)
    ensures Val(xs + ys, B) == Val(xs, B) + Pow(B, |xs|) * Val(ys, B)
  {
    if xs == [] {
      assert xs + ys == ys;
    } else {
      assert (xs + ys)[1..] == xs[1..] + ys;
      ValAppend(xs[1..], ys, B);
      Distribute(B, Val(xs[1..], B), Pow(B, |xs| - 1) * Val(ys, B));
      Associate(B, Pow(B, |xs| - 1), Val(ys, B));
    }
  }

  /** One digit more at the top. */
  lemma ValSnoc(xs: seq<nat>, k: nat, B: nat)
    requires k < |xs|
    ensures Val(xs[..k + 1], B) == Val(xs[..k], B) + Pow(B, k) * xs[k]
  {
    assert xs[..k + 1] == xs[..k] + [xs[k]];
    ValAppend(xs[..k], [xs[k]], B);
    ValOne(xs[k], B);
  }

  lemma ValOne(x: nat, B: nat)
    ensures Val([x], B) == x
  {
  }

  /** Zeros at the top do not count. */
  lemma {:induction false} ValPadded(xs: seq<nat>, k: nat, B: nat)
    requires k <= |xs| && forall i :: k <= i < |xs| ==> xs[i] == 0
    ensures Val(xs, B) == Val(xs[..k], B)
  {
    if k == |xs| {
      assert xs[..k] == xs;
    } else {
      var n := |xs| - 1;
      var ys := xs[..n];
      ValPadded(ys, k, B);
      ValSnoc(xs, n, B);
      assert ys[..k] == xs[..k] && xs[..n + 1] == xs;
    }
  }

  /** With a nonzero digit at the top the value has as many digits. */
  lemma ValAtLeast(xs: seq<nat>, B: nat)
    requires xs != [] && xs[|xs| - 1] != 0
    ensures Pow(B, |xs| - 1) <= Val(xs, B)
  {
    var n := |xs| - 1;
    ValSnoc(xs, n, B);
    assert xs[..n + 1] == xs;
    MulMono(Pow(B, n), 1, xs[n]);
  }

  /** The highest digit in which two vectors differ decides which is greater. */
  lemma {:induction false} TopDecides(xs: seq<nat>, ys: seq<nat>, k: nat, B: nat)
    requires k < |xs| == |ys| && Limbs(xs, B) && Limbs(ys, B)
    requires ys[k] < xs[k] && xs[k + 1..] == ys[k + 1..]
    ensures Val(ys, B) < Val(xs, B)
  {
    if k == 0 {
    } else {
      assert xs[1..][k..] == xs[k + 1..] && ys[1..][k..] == ys[k + 1..];
      TopDecides(xs[1..], ys[1..], k - 1, B);
      MulMono(B, Val(ys[1..], B) + 1, Val(xs[1..], B));
      Distribute(B, Val(ys[1..], B), 1);
    }
  }

  lemma {:induction false} PowMono(B: nat, i: nat, j: nat)
    requires i <= j && 0 < B
    ensures Pow(B, i) <= Pow(B, j)
  {
    if i < j {
      PowMono(B, i, j - 1);
      MulMono(Pow(B, j - 1), 1, B);
    }
  }

}
