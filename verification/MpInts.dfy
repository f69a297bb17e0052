/**
 Multi-precision integers as arrays of digits, and the operations on them that Montgomery
 reduction uses. Line numbers are those of `src/demo/wolfssl-3.15.3/src/integer.c`.
 */
module MpInts {
  import opened Words
  import opened LimbVectors

  /** The powers of two that fix a configuration: the digit base, `1 << DIGIT_BIT`, and the number
      of values of an `mp_digit` and of an `mp_word`. */
  datatype Sizes = Sizes(base: nat, digit: nat, word: nat) {
    predicate Valid() {
      Spare() && Wide()
    }

    /** A digit has a bit to spare in an `mp_digit`. */
    predicate Spare() {
      2 <= base <= digit && Divides()
    }

    predicate Divides()
      requires 0 < base
    {
      base % 2 == 0 && digit % (2 * base) == 0
    }

    /** A product of two digits fits an `mp_word`. */
    predicate Wide() {
      2 <= base <= word && SquareFits()
    }

    predicate SquareFits() {
      base * base <= word
    }

    /** The columns of a modulus of `n` digits fit: the guard at lines 2387 to 2389. */
    predicate Admits(n: nat)
      requires 0 < base
    {
      2 * n + 1 < ArraySize() && n < Columns()
    }

    /** The number of products of two digits that fit an `mp_word`. */
    function Columns(): (n: nat)
      requires 0 < base
    {
      word / (base * base)
    }

    /** `MP_WARRAY`. */
    function ArraySize(): (n: nat)
      requires 0 < base
    {
      2 * Columns()
    }
  }

  /** The wrapped difference of two digits and a borrow. */
  function Difference(x: nat, y: nat, u: nat, z: Sizes): (t: nat)
    requires 0 < z.digit
  {
    (x - y - u) % z.digit
  }

  /** `t >> (CHAR_BIT * sizeof (mp_digit) - 1)`. */
  function TopBit(t: nat, z: Sizes): (u: nat)
    requires 2 <= z.digit
  {
    t / (z.digit / 2)
  }

  /** The digit that one column of a subtraction leaves, with `u` borrowed before: the difference
      wraps, its top bit is the next borrow, and the mask clears that bit. */
  lemma BorrowDigit(x: nat, y: nat, u: nat, z: Sizes)
    requires z.Spare() && x < z.base && y < z.base && u <= 1
    ensures var t := Difference(x, y, u, z);
            var u' := TopBit(t, z);
            u' <= 1 && t % z.base < z.base && t % z.base + y + u == x + z.base * u'
  {
    var q := z.digit / (2 * z.base);
    assert z.digit == 2 * z.base * q;
    HalfDigit(z, q);
    var t: nat := (x - y - u) % z.digit;
    if 0 <= x - y - u {
      SplitUnique(x - y - u, x - y - u, 0, z.digit);
      SplitUnique(t, t, 0, z.digit / 2);
      SplitUnique(t, t, 0, z.base);
    } else {
      assert t == z.digit + (x - y - u) by {
        WrapDown(x - y - u, z.digit);
      }
      SplitUnique(t, t - z.digit / 2, 1, z.digit / 2);
      Distribute(z.base, 2 * q, -1);
      SplitUnique(t, z.base + (x - y - u), 2 * q - 1, z.base);
    }
  }

  lemma HalfDigit(z: Sizes, q: nat)
    requires z.Spare() && z.digit == 2 * z.base * q
    ensures z.digit / 2 == z.base * q && z.digit == z.base * (2 * q) && 0 < q && z.base <= z.digit / 2
  {
    Associate(2, z.base, q);
    SplitUnique(z.digit, 0, z.base * q, 2);
    MulMono(z.base, 1, q);
  }

  lemma WrapDown(x: int, m: nat)
    requires x < 0 <= m + x
    ensures x % m == m + x
  {
    var q := x / m;
    assert x == m * q + x % m;
    if 0 <= q {
      MulMono(m, 0, q);
    } else if q < -1 {
      MulMono(m, q, -2);
    }
  }

  /** The columns done so far, and a borrow `u` to come, are the difference of `xs` and `ys` in
      those columns. */
  predicate Subtracted(done: seq<nat>, xs: seq<nat>, ys: seq<nat>, u: nat, B: nat) {
    && |done| <= |xs| == |ys| && Limbs(done, B) && u <= 1
    && Val(done, B) + Val(ys[..|done|], B) == Val(xs[..|done|], B) + Pow(B, |done|) * u
  }

  lemma SubtractStep(done: seq<nat>, xs: seq<nat>, ys: seq<nat>, u: nat, z: Sizes)
    requires z.Spare() && Subtracted(done, xs, ys, u, z.base) && |done| < |xs| && Limbs(xs, z.base) && Limbs(ys, z.base)
    ensures var t := Difference(xs[|done|], ys[|done|], u, z);
            Subtracted(done + [t % z.base], xs, ys, TopBit(t, z), z.base)
  {
    var i, B := |done|, z.base;
    var t := Difference(xs[i], ys[i], u, z);
    var d, u', p := t % B, TopBit(t, z), Pow(B, i);
    hide Val, Difference, TopBit, Sizes.Divides;
    BorrowDigit(xs[i], ys[i], u, z);
    ValSnoc(xs, i, B);
    ValSnoc(ys, i, B);
    ValSnoc(done + [d], i, B);
    assert (done + [d])[..i] == done && (done + [d])[..i + 1] == done + [d];
    Column(p, d, ys[i], u, xs[i], u', B);
    assert Pow(B, i + 1) == B * p;
  }

  lemma NothingSubtracted(xs: seq<nat>, ys: seq<nat>, B: nat)
    requires |xs| == |ys|
    ensures Subtracted([], xs, ys, 0, B)
  {
    assert xs[..0] == [] && ys[..0] == [];
  }

  /** Nothing is borrowed from beyond the top if the difference is not negative. */
  lemma SubtractEnd(done: seq<nat>, xs: seq<nat>, ys: seq<nat>, u: nat, B: nat)
    requires 0 < B && Subtracted(done, xs, ys, u, B) && |done| == |xs| && Val(ys, B) <= Val(xs, B)
    ensures Val(done, B) == Val(xs, B) - Val(ys, B) && Limbs(done, B)
  {
    assert ys[..|done|] == ys && xs[..|done|] == xs;
    ValBound(done, B);
  }

  /** `ys` with zeros put on top. */
  function Padded(ys: seq<nat>, n: nat): (r: seq<nat>)
    requires |ys| <= n
    ensures |r| == n && r[..|ys|] == ys && forall i :: |ys| <= i < n ==> r[i] == 0
  {
    ys + seq(n - |ys|, _ => 0)
  }

  lemma Column(p: nat, d: nat, y: nat, u: nat, x: nat, u': nat, B: nat)
    requires d + y + u == x + B * u'
    ensures p * d + p * y + p * u == p * x + (B * p) * u'
  {
    Distribute(p, d, y);
    Distribute(p, d + y, u);
    Distribute(p, x, B * u');
    Associate(p, B, u');
  }

  /** Dropping digits at the bottom divides by a power of the base. */
  lemma DropDigits(xs: seq<nat>, b: nat, B: nat)
    requires 0 < B && Limbs(xs, B)
    ensures Val(xs, B) / Pow(B, b) == if |xs| <= b then 0 else Val(xs[b..], B)
  {
    ValBound(xs, B);
    if |xs| <= b {
      PowMono(B, |xs|, b);
      SplitUnique(Val(xs, B), Val(xs, B), 0, Pow(B, b));
    } else {
      ValBound(xs[..b], B);
      ValAppend(xs[..b], xs[b..], B);
      assert xs[..b] + xs[b..] == xs;
      SplitUnique(Val(xs, B), Val(xs[..b], B), Val(xs[b..], B), Pow(B, b));
    }
  }

  /** More digits, greater number. */
  lemma MoreDigits(xs: seq<nat>, ys: seq<nat>, B: nat)
    requires 0 < B && |ys| < |xs| && Limbs(ys, B) && xs[|xs| - 1] != 0
    ensures Val(ys, B) < Val(xs, B)
  {
    ValBound(ys, B);
    ValAtLeast(xs, B);
    PowMono(B, |ys|, |xs| - 1);
  }

  /** The loops of `s_mp_sub`: the first `m` digits of `b` are taken from the first `n` of `a`. */
  method SubtractDigits(a: array<nat>, n: nat, b: array<nat>, m: nat, z: Sizes)
    requires z.Spare() && a != b && m <= n <= a.Length && m <= b.Length
    requires Limbs(a[..n], z.base) && Limbs(b[..m], z.base) && Val(b[..m], z.base) <= Val(a[..n], z.base)
    modifies a
    ensures Limbs(a[..n], z.base) && a[n..] == old(a[n..])
    ensures Val(a[..n], z.base) == Val(old(a[..n]), z.base) - Val(b[..m], z.base)
  {
    hide Val, Difference, TopBit, Pow, Subtracted, Padded, Sizes.Divides;
    ghost var B, xs, ys := z.base, a[..n], Padded(b[..m], n);
    ValPadded(ys, m, B);
    NothingSubtracted(xs, ys, B);
    var u: nat := 0;
    for i := 0 to m
      invariant a[i..] == old(a[..])[i..] && Subtracted(a[..i], xs, ys, u, B)
    {
      u := SubtractDigit(a, i, b[i], u, xs, ys, z);
    }
    for i := m to n
      invariant a[i..] == old(a[..])[i..] && Subtracted(a[..i], xs, ys, u, B)
    {
      u := SubtractDigit(a, i, 0, u, xs, ys, z);
    }
    SubtractEnd(a[..n], xs, ys, u, B);
  }

  /** One column: the digit `y` and the borrow `u` are taken from digit `i` of `a`. */
  method SubtractDigit(a: array<nat>, i: nat, y: nat, u: nat, ghost xs: seq<nat>, ghost ys: seq<nat>, z: Sizes) returns (u': nat)
    requires z.Spare() && i < |xs| == |ys| && i < a.Length && a[i] == xs[i] && y == ys[i]
    requires Limbs(xs, z.base) && Limbs(ys, z.base) && Subtracted(a[..i], xs, ys, u, z.base)
    modifies a
    ensures a[i + 1..] == old(a[i + 1..]) && Subtracted(a[..i + 1], xs, ys, u', z.base)
  {
    SubtractStep(a[..i], xs, ys, u, z);
    var t := Difference(a[i], y, u, z);
    ghost var done := a[..i] + [t % z.base];
    u' := TopBit(t, z);
    a[i] := t % z.base;
    assert a[..i + 1] == done;
  }

  /** The loops of `mp_rshd`: `n` digits move down by `b` places, and zeros come in at the top. */
  method MoveDown(a: array<nat>, n: nat, b: nat)
    requires b <= n <= a.Length
    modifies a
    ensures a[..n - b] == old(a[b..n]) && a[n..] == old(a[n..])
    ensures forall j :: n - b <= j < n ==> a[j] == 0
  {
    for i := 0 to n - b
      invariant a[..i] == old(a[..])[b..b + i] && a[i..] == old(a[..])[i..]
    {
      a[i] := a[i + b];
    }
    for i := n - b to n
      invariant a[..n - b] == old(a[b..n]) && a[n..] == old(a[n..])
      invariant forall j :: n - b <= j < i ==> a[j] == 0
    {
      a[i] := 0;
    }
  }

  class MpInt {
    var used: nat
    var dp: array<nat>

    /** Digits are digits, and those that are allocated and not used are zero. */
    ghost predicate Valid(B: nat)
      reads this, dp
    {
      used <= dp.Length && Limbs(dp[..], B) && forall i :: used <= i < dp.Length ==> dp[i] == 0
    }

    /** No leading zeros. */
    predicate Clamped()
      reads this, dp
    {
      0 < used <= dp.Length ==> dp[used - 1] != 0
    }

    ghost function Value(B: nat): (v: nat)
      requires used <= dp.Length
      reads this, dp
    {
      Val(dp[..used], B)
    }

    /** `mp_grow`, when memory is available. */
    method Grow(size: nat, ghost B: nat)
      requires 0 < B && Valid(B)
      modifies this
      ensures Valid(B) && size <= dp.Length && used == old(used) && Value(B) == old(Value(B))
      ensures if size <= old(dp.Length) then dp == old(dp) else fresh(dp) && dp.Length == size + 2
    {
      if dp.Length < size {
        var from := dp;
        var tmp := new nat[size + 2];
        for i := 0 to from.Length
          invariant dp == from && used == old(used)
          invariant tmp[..i] == from[..i]
        {
          tmp[i] := from[i];
        }
        for i := from.Length to size + 2
          invariant dp == from && used == old(used)
          invariant tmp[..from.Length] == from[..]
          invariant forall j :: from.Length <= j < i ==> tmp[j] == 0
        {
          tmp[i] := 0;
        }
        assert forall i :: 0 <= i < from.Length ==> tmp[i] == tmp[..from.Length][i] == from[i];
        assert tmp[..used] == from[..used];
        dp := tmp;
      }
    }

    /** `mp_clamp`. */
    method Clamp(ghost B: nat)
      requires Valid(B)
      modifies this`used
      ensures Valid(B) && Clamped() && used <= old(used) && Value(B) == old(Value(B))
    {
      ghost var v := Value(B);
      while 0 < used && dp[used - 1] == 0
        invariant Valid(B) && used <= old(used) && Value(B) == v
      {
        ValSnoc(dp[..], used - 1, B);
        assert dp[..][..used] == dp[..used] && dp[..][..used - 1] == dp[..used - 1];
        used := used - 1;
      }
    }

    /** `mp_cmp_mag`: the sign of the result is that of the difference. */
    method Compare(b: MpInt, ghost B: nat) returns (c: int)
      requires 0 < B && Valid(B) && b.Valid(B) && Clamped() && b.Clamped()
      ensures c == if Value(B) < b.Value(B) then -1 else if Value(B) == b.Value(B) then 0 else 1
    {
      if used > b.used {
        MoreDigits(dp[..used], b.dp[..b.used], B);
        return 1;
      }
      if used < b.used {
        MoreDigits(b.dp[..b.used], dp[..used], B);
        return -1;
      }
      ghost var xs, ys := dp[..used], b.dp[..used];
      var i: nat := used;
      while 0 < i
        invariant i <= used && xs[i..] == ys[i..]
      {
        i := i - 1;
        if dp[i] > b.dp[i] {
          TopDecides(xs, ys, i, B);
          return 1;
        }
        if dp[i] < b.dp[i] {
          TopDecides(ys, xs, i, B);
          return -1;
        }
        assert xs[i..] == [xs[i]] + xs[i + 1..] && ys[i..] == [ys[i]] + ys[i + 1..];
      }
      assert xs[0..] == xs && ys[0..] == ys;
      return 0;
    }

    /** `s_mp_sub` with the result in the first operand. */
    method Subtract(b: MpInt, z: Sizes)
      requires z.Spare() && Valid(z.base) && b.Valid(z.base) && dp != b.dp && b != this
      requires b.used <= used && b.Value(z.base) <= Value(z.base)
      modifies this`used, dp
      ensures Valid(z.base) && Clamped() && Value(z.base) == old(Value(z.base)) - b.Value(z.base)
    {
      SubtractDigits(dp, used, b.dp, b.used, z);
      Clamp(z.base);
    }

    /** `mp_rshd`: `b` digits are dropped at the bottom. */
    method ShiftDown(b: nat, ghost B: nat)
      requires 0 < B && Valid(B)
      modifies this`used, dp
      ensures Valid(B) && Value(B) == old(Value(B)) / Pow(B, b) && (old(Clamped()) ==> Clamped())
    {
      ghost var xs := dp[..used];
      DropDigits(xs, b, B);
      if b == 0 {
        return;
      }
      if used <= b {
        Zero(B);
        return;
      }
      MoveDown(dp, used, b);
      used := used - b;
      assert dp[..used] == xs[b..];
    }

    /** `mp_zero`. */
    method Zero(ghost B: nat)
      requires 0 < B
      modifies this`used, dp
      ensures Valid(B) && used == 0 && Value(B) == 0
    {
      used := 0;
      for i := 0 to dp.Length
        invariant used == 0 && forall j :: 0 <= j < i ==> dp[j] == 0
      {
        dp[i] := 0;
      }
    }
  }

}
