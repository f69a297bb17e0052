/**
 The two portable C forms of MULADDC, for every limb width. `biL` is the width of a limb in
 bits and `biH` half of it.
 */
module CForms {
  import opened Words
  import opened LimbVectors
  import opened MulAdd

  // ----- double-width form -----

  method DoubleWidthCore(mem: array<nat>, s: nat, d: nat, b: nat, c: nat, biL: nat) returns (s': nat, d': nat, c': nat)
    requires 1 <= biL && s < mem.Length && d < mem.Length
    requires Limbs(mem[..], Pow(2, biL)) && b < Pow(2, biL) && c < Pow(2, biL)
    modifies mem
    ensures State(mem[..], s', d', c') == Step(State(old(mem[..]), s, d, c), b, Pow(2, biL))
    ensures Limbs(mem[..], Pow(2, biL)) && c' < Pow(2, biL)
  {
    var B := Pow(2, biL);
    assert 2 <= B by { assert B == 2 * Pow(2, biL - 1); }
    ghost var x, z := mem[s], mem[d];

    var r := (mem[s] * b) % (B * B);
    s' := s + 1;
    var r0 := r % B;
    var r1 := Shr(r, Pow(2, biL)) % B;
    DoubleWidthProduct(x, b, B);
    ghost var lo, hi := r0, r1;
    CompareIsCarry(r0, c, B);
    r0 := AddLo(r0, c, 0, B);
    ghost var k1 := Bit(r0 < c);
    NoWrap(r1, k1, B);
    r1 := AddLo(r1, Bit(r0 < c), 0, B);
    ghost var l1 := r0;
    CompareIsCarry(r0, mem[d], B);
    r0 := AddLo(r0, mem[d], 0, B);
    ghost var k2 := Bit(r0 < mem[d]);
    TwoAdds(x, b, z, c, lo, hi, l1, k1, r0, k2, B);
    CarryIsWord(x, b, z, c, B);
    NoWrap(r1, k2, B);
    r1 := AddLo(r1, Bit(r0 < mem[d]), 0, B);
    c' := r1;
    mem[d] := r0;
    d' := d + 1;
  }

  /** The double-width product loses nothing and its high word leaves room for a carry. */
  lemma DoubleWidthProduct(x: nat, b: nat, B: nat)
    requires x < B && b < B && 2 <= B
    ensures (x * b) % (B * B) == x * b
    ensures (x * b) / B <= B - 2 && ((x * b) / B) % B == (x * b) / B
    ensures (x * b) % B + B * ((x * b) / B) == x * b
  {
    MulSplit(x, b, B);
    ProductBound(x, b, B);
    assert (B - 1) * (B - 1) < B * B;
    SplitUnique(x * b, x * b, 0, B * B);
    SplitUnique((x * b) / B, (x * b) / B, 0, B);
  }

  method DoubleWidth(mem: array<nat>, s: nat, d: nat, b: nat, c: nat, n: nat, biL: nat) returns (s': nat, d': nat, c': nat)
    requires 1 <= biL && s + n <= mem.Length && d + n <= mem.Length
    requires Limbs(mem[..], Pow(2, biL)) && b < Pow(2, biL) && c < Pow(2, biL)
    modifies mem
    ensures State(mem[..], s', d', c') == Run(State(old(mem[..]), s, d, c), b, n, Pow(2, biL))
    ensures SafeLayout(s, d, n) ==>
              Adds(State(old(mem[..]), s, d, c), Window(old(mem[..]), s, n), b, n, Pow(2, biL), State(mem[..], s', d', c'))
    ensures Limbs(mem[..], Pow(2, biL)) && c' < Pow(2, biL)
  {
    s', d', c' := s, d, c;
    for i := 0 to n
      invariant s' == s + i && d' == d + i && c' < Pow(2, biL) && Limbs(mem[..], Pow(2, biL))
      invariant Run(State(mem[..], s', d', c'), b, n - i, Pow(2, biL)) == Run(State(old(mem[..]), s, d, c), b, n, Pow(2, biL))
    {
      s', d', c' := DoubleWidthCore(mem, s', d', b, c', biL);
    }
    VectorEquation(State(old(mem[..]), s, d, c), b, n, Pow(2, biL));
  }

  // ----- half-limb form -----

  lemma EvenWidth(biH: nat)
    requires 1 <= biH
    ensures Pow(2, 2 * biH) == Pow(2, biH) * Pow(2, biH)
    ensures 2 <= Pow(2, biH) < Pow(2, 2 * biH)
  {
    PowAdd(2, biH, biH);
    var H := Pow(2, biH);
    assert H == 2 * Pow(2, biH - 1);
    MulMono(H, 2, H);
  }

  /** Shifting a limb left by half its width drops its upper half. */
  lemma ShiftHalf(x: nat, H: nat)
    requires 0 < H
    ensures 0 < H * H
    ensures Shl(x, H, H * H) == H * (x % H) < H * H
    ensures Shr(Shl(x, H, H * H), H) == x % H
    ensures Shl(x, H, H * H) + H * H * Shr(x, H) == H * x
  {
    var l, u := x % H, x / H;
    assert x == l + H * u;
    MulMono(H, l + 1, H);
    Distribute(H, l, 1);
    Distribute(H, l, H * u);
    Associate(H, H, u);
    SplitUnique(x * H, H * l, u, H * H);
    SplitUnique(H * l, 0, l, H);
  }

  /** Long multiplication by halves. */
  lemma FourProducts(s0: nat, s1: nat, b0: nat, b1: nat, H: nat)
    ensures (s0 + H * s1) * (b0 + H * b1) == s0 * b0 + H * (s0 * b1) + H * (s1 * b0) + H * H * (s1 * b1)
  {
    var b := b0 + H * b1;
    calc {
      (s0 + H * s1) * b;
      s0 * b + (H * s1) * b;
      { Associate(H, s1, b); }
      s0 * b + H * (s1 * b);
      { Distribute(s0, b0, H * b1); Distribute(s1, b0, H * b1); Distribute(H, s1 * b0, s1 * (H * b1)); }
      s0 * b0 + s0 * (H * b1) + H * (s1 * b0) + H * (s1 * (H * b1));
      { Associate(s0, H, b1); Associate(H, s0, b1); Associate(s1, H, b1); Associate(H, s1, b1); }
      s0 * b0 + H * (s0 * b1) + H * (s1 * b0) + H * (H * (s1 * b1));
      { Associate(H, H, s1 * b1); }
      s0 * b0 + H * (s0 * b1) + H * (s1 * b0) + H * H * (s1 * b1);
    }
  }

  /** The low word `X` and the high word `U` of a cross product taken apart, and likewise `Y`
      and `V`: collected word by word they are the same total. */
  lemma CollectHigh(Q: nat, H: nat, p00: nat, rx: nat, ry: nat, p11: nat, X: nat, U: nat, Y: nat, V: nat)
    requires X + Q * U == H * rx && Y + Q * V == H * ry
    ensures p00 + X + Y + Q * (p11 + U + V) == p00 + H * rx + H * ry + Q * p11
  {
    Distribute(Q, p11 + U, V);
    Distribute(Q, p11, U);
  }

  lemma HalfProduct(x: nat, y: nat, H: nat)
    requires x < H && y < H
    ensures MulLo(x, y, H * H) == x * y < H * H
  {
    MulMono(x, y, H);
    MulMono(H, x + 1, H);
    Distribute(H, x, 1);
    SplitUnique(x * y, x * y, 0, H * H);
  }

  lemma Halves(x: nat, H: nat)
    requires 0 < H && x < H * H
    ensures Shr(Shl(x, H, H * H), H) == x % H
    ensures Shr(x, H) < H
    ensures x == x % H + H * Shr(x, H)
  {
    ShiftHalf(x, H);
    if H <= x / H {
      MulMono(H, H, x / H);
      assert false;
    }
  }

  /** The four partial products of two limbs as the code forms them, with the cross products
      split between the low and the high word: none of them loses a bit, and together they are
      the product. */
  lemma HalfProducts(x: nat, b: nat, H: nat)
    requires 0 < H && x < H * H && b < H * H
    ensures var s0, s1 := Shr(Shl(x, H, H * H), H), Shr(x, H);
            var b0, b1 := Shr(Shl(b, H, H * H), H), Shr(b, H);
            var r0, rx, ry, r1 := MulLo(s0, b0, H * H), MulLo(s0, b1, H * H), MulLo(s1, b0, H * H), MulLo(s1, b1, H * H);
            r0 + Shl(rx, H, H * H) + Shl(ry, H, H * H) + H * H * (r1 + Shr(rx, H) + Shr(ry, H)) == x * b
  {
    Halves(x, H);
    Halves(b, H);
    var s0, s1, b0, b1 := x % H, Shr(x, H), b % H, Shr(b, H);
    HalfProduct(s0, b0, H);
    HalfProduct(s0, b1, H);
    HalfProduct(s1, b0, H);
    HalfProduct(s1, b1, H);
    FourProducts(s0, s1, b0, b1, H);
    var rx, ry := s0 * b1, s1 * b0;
    ShiftHalf(rx, H);
    ShiftHalf(ry, H);
    CollectHigh(H * H, H, s0 * b0, rx, ry, s1 * b1, Shl(rx, H, H * H), Shr(rx, H), Shl(ry, H, H * H), Shr(ry, H));
  }

  /** Four additions into the low word, each carry going to the high word: if the exact total is
      that of one limb, the result is right and the high word, even its exact sum, is a word. */
  lemma FourAdds(x: nat, b: nat, z: nat, c: nat, lo: nat, hi: nat, a1: nat, a2: nat, a3: nat, a4: nat, B: nat)
    requires x < B && b < B && z < B && c < B
    requires lo < B && a1 < B && a2 < B && a3 < B && a4 < B
    requires lo + a1 + a2 + a3 + a4 + B * hi == x * b + z + c
    ensures var l1 := AddLo(lo, a1, 0, B);
            var l2 := AddLo(l1, a2, 0, B);
            var l3 := AddLo(l2, a3, 0, B);
            LimbOut(x, b, z, c, B) == AddLo(l3, a4, 0, B)
            && CarryOut(x, b, z, c, B) == hi + AddHi(lo, a1, 0, B) + AddHi(l1, a2, 0, B) + AddHi(l2, a3, 0, B) + AddHi(l3, a4, 0, B) < B
  {
    var l1, k1 := AddLo(lo, a1, 0, B), AddHi(lo, a1, 0, B);
    AddSplit(lo, a1, 0, B);
    var l2, k2 := AddLo(l1, a2, 0, B), AddHi(l1, a2, 0, B);
    AddSplit(l1, a2, 0, B);
    var l3, k3 := AddLo(l2, a3, 0, B), AddHi(l2, a3, 0, B);
    AddSplit(l2, a3, 0, B);
    var l4, k4 := AddLo(l3, a4, 0, B), AddHi(l3, a4, 0, B);
    AddSplit(l3, a4, 0, B);
    Distribute(B, hi + k1 + k2 + k3, k4);
    Distribute(B, hi + k1 + k2, k3);
    Distribute(B, hi + k1, k2);
    Distribute(B, hi, k1);
    LimbIs(x, b, z, c, l4, hi + k1 + k2 + k3 + k4, B);
    CarryIsWord(x, b, z, c, B);
  }

  method HalfLimbCore(mem: array<nat>, s: nat, d: nat, b0: nat, b1: nat, c: nat, H: nat, ghost b: nat)
    returns (s': nat, d': nat, c': nat)
    requires 2 <= H && s < mem.Length && d < mem.Length
    requires Limbs(mem[..], H * H) && b < H * H && c < H * H
    requires b0 == Shr(Shl(b, H, H * H), H) && b1 == Shr(b, H)
    modifies mem
    ensures State(mem[..], s', d', c') == Step(State(old(mem[..]), s, d, c), b, H * H)
    ensures Limbs(mem[..], H * H) && c' < H * H
  {
    var B := H * H;
    ghost var x, z := mem[s], mem[d];
    HalfProducts(x, b, H);

    var s0 := Shr(Shl(mem[s], H, B), H);
    var s1 := Shr(mem[s], H);
    s' := s + 1;
    var rx, r0 := MulLo(s0, b1, B), MulLo(s0, b0, B);
    var ry, r1 := MulLo(s1, b0, B), MulLo(s1, b1, B);
    FourAdds(x, b, z, c, r0, r1 + Shr(rx, H) + Shr(ry, H), Shl(rx, H, B), Shl(ry, H, B), c, z, B);
    r1 := Add(r1, Shr(rx, H), B);
    r1 := Add(r1, Shr(ry, H), B);
    rx, ry := Shl(rx, H, B), Shl(ry, H, B);
    r0, r1 := AddCompare(r0, r1, rx, B);
    r0, r1 := AddCompare(r0, r1, ry, B);
    r0, r1 := AddCompare(r0, r1, c, B);
    r0, r1 := AddCompare(r0, r1, mem[d], B);
    c' := r1;
    mem[d] := r0;
    d' := d + 1;
  }

  /** `r1 += x` where the sum is known to be a word. */
  method Add(r1: nat, x: nat, B: nat) returns (r: nat)
    requires r1 + x < B
    ensures r == r1 + x
  {
    NoWrap(r1, x, B);
    r := AddLo(r1, x, 0, B);
  }

  /** `r0 += a; r1 += (r0 < a);` where the high word is known not to wrap. */
  method AddCompare(r0: nat, r1: nat, a: nat, B: nat) returns (l: nat, h: nat)
    requires r0 < B && a < B && r1 + AddHi(r0, a, 0, B) < B
    ensures l == AddLo(r0, a, 0, B) < B && h == r1 + AddHi(r0, a, 0, B)
  {
    CompareIsCarry(r0, a, B);
    l := AddLo(r0, a, 0, B);
    NoWrap(r1, Bit(l < a), B);
    h := AddLo(r1, Bit(l < a), 0, B);
  }

  method HalfLimb(mem: array<nat>, s: nat, d: nat, b: nat, c: nat, n: nat, biH: nat) returns (s': nat, d': nat, c': nat)
    requires 1 <= biH && s + n <= mem.Length && d + n <= mem.Length
    requires Limbs(mem[..], Pow(2, 2 * biH)) && b < Pow(2, 2 * biH) && c < Pow(2, 2 * biH)
    modifies mem
    ensures State(mem[..], s', d', c') == Run(State(old(mem[..]), s, d, c), b, n, Pow(2, 2 * biH))
    ensures SafeLayout(s, d, n) ==>
              Adds(State(old(mem[..]), s, d, c), Window(old(mem[..]), s, n), b, n, Pow(2, 2 * biH), State(mem[..], s', d', c'))
    ensures Limbs(mem[..], Pow(2, 2 * biH)) && c' < Pow(2, 2 * biH)
  {
    var H, B := Pow(2, biH), Pow(2, 2 * biH);
    EvenWidth(biH);
    var b0, b1 := Shr(Shl(b, H, B), H), Shr(b, H);
    s', d', c' := s, d, c;
    for i := 0 to n
      invariant s' == s + i && d' == d + i && c' < B && Limbs(mem[..], B)
      invariant Run(State(mem[..], s', d', c'), b, n - i, B) == Run(State(old(mem[..]), s, d, c), b, n, B)
    {
      s', d', c' := HalfLimbCore(mem, s', d', b0, b1, c', H, b);
    }
    VectorEquation(State(old(mem[..]), s, d, c), b, n, B);
  }

}
