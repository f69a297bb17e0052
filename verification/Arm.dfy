/**
 The three ARM forms of MULADDC: Thumb-1, which has no long multiplication, the long-multiply
 form and the DSP form. The fields are the registers that live from one macro to the next;
 pointers count limbs.
 */
module Arm {
  import opened Words
  import opened LimbVectors
  import opened MulAdd
  import opened CForms

  const HALF: nat := 0x1_0000

  /** One limb in the order of the Thumb-1 code: the incoming carry is added before the cross
      products. `x0`, `x1`, `b0`, `b1` are the halves of the source limb and of the multiplier. */
  lemma ThumbLimb(x: nat, b: nat, z: nat, c: nat, x0: nat, x1: nat, b0: nat, b1: nat)
    requires x < WORD32 && b < WORD32 && z < WORD32 && c < WORD32
    requires x0 == Shr(Shl(x, HALF, WORD32), HALF) && x1 == Shr(x, HALF)
    requires b0 == Shr(Shl(b, HALF, WORD32), HALF) && b1 == Shr(b, HALF)
    ensures var lo, p, q, hi := MulLo(b0, x0, WORD32), MulLo(x0, b1, WORD32), MulLo(x1, b0, WORD32), MulLo(b1, x1, WORD32);
            var l1 := AddLo(lo, c, 0, WORD32);
            var l2 := AddLo(l1, Shl(p, HALF, WORD32), 0, WORD32);
            var l3 := AddLo(l2, Shl(q, HALF, WORD32), 0, WORD32);
            && AddLo(l3, z, 0, WORD32) == LimbOut(x, b, z, c, WORD32)
            && hi + Shr(p, HALF) + Shr(q, HALF) + AddHi(lo, c, 0, WORD32) + AddHi(l1, Shl(p, HALF, WORD32), 0, WORD32)
               + AddHi(l2, Shl(q, HALF, WORD32), 0, WORD32) + AddHi(l3, z, 0, WORD32)
               == CarryOut(x, b, z, c, WORD32) < WORD32
  {
    var H := HALF;
    assert WORD32 == H * H;
    HalfProducts(x, b, H);
    var lo, p, q, hi := MulLo(x0, b0, H * H), MulLo(x0, b1, H * H), MulLo(x1, b0, H * H), MulLo(x1, b1, H * H);
    FourAdds(x, b, z, c, lo, hi + Shr(p, H) + Shr(q, H), c, Shl(p, H, H * H), Shl(q, H, H * H), z, H * H);
  }

  class Thumb1 {
    const mem: array<nat>
    var r0: int
    var r1: int
    var r2: nat
    var r8: nat
    var r9: nat

    constructor (mem: array<nat>)
      ensures this.mem == mem
    {
      this.mem := mem;
    }

    ghost function St(): (st: State)
      reads this, mem
    {
      State(mem[..], r0, r1, r2)
    }

    /** The multiplier `b` is kept in halves: `r8` the low one, `r9` the high one. */
    ghost predicate Valid(b: nat)
      reads this, mem
    {
      && Limbs(mem[..], WORD32) && r2 < WORD32 && b < WORD32
      && r8 == Shr(Shl(b, HALF, WORD32), HALF) && r9 == Shr(b, HALF)
    }

    method Init(s: nat, d: nat, c: nat, b: nat)
      requires Limbs(mem[..], WORD32) && b < WORD32 && c < WORD32
      modifies this
      ensures Valid(b) && St() == State(old(mem[..]), s, d, c)
    {
      r0 := s;
      r1 := d;
      r2 := c;
      var r3 := b;
      var r7 := Shr(r3, HALF);
      r9 := r7;
      r7 := Shl(r3, HALF, WORD32);
      r7 := Shr(r7, HALF);
      r8 := r7;
    }

    /** `carry` is the C flag; the shifts between an addition and its `adc` come before it is set
        or after it is used. */
    method Core(ghost b: nat)
      requires Valid(b) && InBounds(St(), 1)
      modifies this, mem
      ensures Valid(b)
      ensures St() == Step(old(St()), b, WORD32)
    {
      ghost var x := mem[r0];
      ThumbLimb(x, b, mem[r1], r2, Shr(Shl(x, HALF, WORD32), HALF), Shr(x, HALF), r8, r9);
      var r3, r4, r5, r6, r7, carry;
      r6 := mem[r0];
      r0 := r0 + 1;
      r7 := Shr(r6, HALF);
      r6 := Shl(r6, HALF, WORD32);
      r6 := Shr(r6, HALF);
      r4 := r8;
      r4 := MulLo(r4, r6, WORD32);
      r3 := r9;
      r6 := MulLo(r6, r3, WORD32);
      r5 := r9;
      r5 := MulLo(r5, r7, WORD32);
      r3 := r8;
      r7 := MulLo(r7, r3, WORD32);
      r3 := Shr(r6, HALF);
      r5 := Add(r5, r3, WORD32);
      r3 := Shr(r7, HALF);
      r5 := Add(r5, r3, WORD32);
      r4, carry := AddFlag(r4, r2, WORD32);
      r2 := 0;
      r5 := Add(r5, carry, WORD32);
      r3 := Shl(r6, HALF, WORD32);
      r4, carry := AddFlag(r4, r3, WORD32);
      r5 := Add(r5, carry, WORD32);
      r3 := Shl(r7, HALF, WORD32);
      r4, carry := AddFlag(r4, r3, WORD32);
      r5 := Add(r5, carry, WORD32);
      r3 := mem[r1];
      r4, carry := AddFlag(r4, r3, WORD32);
      r2 := Add(r2 + r5, carry, WORD32);
      mem[r1] := r4;
      r1 := r1 + 1;
    }

    /** `add`: the sum and the C flag. */
    static method AddFlag(x: nat, y: nat, B: nat) returns (lo: nat, carry: nat)
      requires x < B && y < B
      ensures lo == AddLo(x, y, 0, B) < B && carry == AddHi(x, y, 0, B) <= 1
    {
      AddSplit(x, y, 0, B);
      lo, carry := AddLo(x, y, 0, B), AddHi(x, y, 0, B);
    }

    method Stop() returns (c: nat, d: int, s: int)
      ensures State(mem[..], s, d, c) == St()
    {
      c := r2;
      d := r1;
      s := r0;
    }

    method Execute(s: nat, d: nat, c: nat, b: nat, n: nat) returns (c': nat, d': int, s': int)
      requires Limbs(mem[..], WORD32) && b < WORD32 && c < WORD32 && InBounds(State(mem[..], s, d, c), n)
      modifies this, mem
      ensures State(mem[..], s', d', c') == Run(State(old(mem[..]), s, d, c), b, n, WORD32)
    {
      Init(s, d, c, b);
      for i := 0 to n
        invariant Valid(b) && InBounds(St(), n - i)
        invariant Run(St(), b, n - i, WORD32) == Run(State(old(mem[..]), s, d, c), b, n, WORD32)
      {
        Core(b);
      }
      c', d', s' := Stop();
    }
  }

  class LongMultiply {
    const mem: array<nat>
    var r0: int
    var r1: int
    var r2: nat
    var r3: nat

    constructor (mem: array<nat>)
      ensures this.mem == mem
    {
      this.mem := mem;
    }

    ghost function St(): (st: State)
      reads this, mem
    {
      State(mem[..], r0, r1, r2)
    }

    ghost predicate Valid()
      reads this, mem
    {
      Limbs(mem[..], WORD32) && r2 < WORD32 && r3 < WORD32
    }

    method Core()
      requires Valid() && InBounds(St(), 1)
      modifies this, mem
      ensures Valid() && r3 == old(r3)
      ensures St() == Step(old(St()), r3, WORD32)
    {
      ghost var x, z, c := mem[r0], mem[r1], r2;
      var r4 := mem[r0];
      r0 := r0 + 1;
      var r5 := 0;
      var r6 := mem[r1];
      LongSum(x, r3, c);
      r2, r5 := (r2 + WORD32 * r5 + r3 * r4) % WORD32, (r2 + WORD32 * r5 + r3 * r4) / WORD32;
      AddSplit(r6, r2, 0, WORD32);
      var r7, carry := AddLo(r6, r2, 0, WORD32), AddHi(r6, r2, 0, WORD32);
      LongLimb(x, r3, z, c, r2, r5, r7, carry);
      r2 := AddLo(r5, 0, carry, WORD32);
      mem[r1] := r7;
      r1 := r1 + 1;
    }

    method Init(s: nat, d: nat, c: nat, b: nat)
      requires Limbs(mem[..], WORD32) && b < WORD32 && c < WORD32
      modifies this
      ensures Valid() && St() == State(old(mem[..]), s, d, c) && r3 == b
    {
      r0 := s;
      r1 := d;
      r2 := c;
      r3 := b;
    }

    method Stop() returns (c: nat, d: int, s: int)
      ensures State(mem[..], s, d, c) == St()
    {
      c := r2;
      d := r1;
      s := r0;
    }

    method Execute(s: nat, d: nat, c: nat, b: nat, n: nat) returns (c': nat, d': int, s': int)
      requires Limbs(mem[..], WORD32) && b < WORD32 && c < WORD32 && InBounds(State(mem[..], s, d, c), n)
      modifies this, mem
      ensures State(mem[..], s', d', c') == Run(State(old(mem[..]), s, d, c), b, n, WORD32)
    {
      Init(s, d, c, b);
      for i := 0 to n
        invariant Valid() && r3 == b && InBounds(St(), n - i)
        invariant Run(St(), b, n - i, WORD32) == Run(State(old(mem[..]), s, d, c), b, n, WORD32)
      {
        Core();
      }
      c', d', s' := Stop();
    }
  }

  /** `umlal` into a zero high word does not overflow its register pair. */
  lemma LongSum(x: nat, b: nat, c: nat)
    requires x < WORD32 && b < WORD32 && c < WORD32
    ensures b * x == x * b && (c + x * b) / WORD32 < WORD32
    ensures (c + x * b) % WORD32 + WORD32 * ((c + x * b) / WORD32) == c + x * b
  {
    CarryIsWord(x, b, 0, c, WORD32);
  }

  lemma LongLimb(x: nat, b: nat, z: nat, c: nat, lo: nat, hi: nat, l: nat, k: nat)
    requires x < WORD32 && b < WORD32 && z < WORD32 && c < WORD32 && l < WORD32
    requires lo + WORD32 * hi == x * b + c && l + WORD32 * k == z + lo
    ensures LimbOut(x, b, z, c, WORD32) == l && CarryOut(x, b, z, c, WORD32) == hi + k == AddLo(hi, 0, k, WORD32) < WORD32
  {
    Distribute(WORD32, hi, k);
    LimbIs(x, b, z, c, l, hi + k, WORD32);
    CarryIsWord(x, b, z, c, WORD32);
    NoWrap(hi, k, WORD32);
  }

  class Dsp {
    const mem: array<nat>
    var s: int
    var d: int
    var c: nat
    const b: nat

    constructor (mem: array<nat>, s: nat, d: nat, c: nat, b: nat)
      ensures this.mem == mem && this.s == s && this.d == d && this.c == c && this.b == b
    {
      this.mem := mem;
      this.s := s;
      this.d := d;
      this.c := c;
      this.b := b;
    }

    ghost function St(): (st: State)
      reads this, mem
    {
      State(mem[..], s, d, c)
    }

    ghost predicate Valid()
      reads this, mem
    {
      Limbs(mem[..], WORD32) && c < WORD32 && b < WORD32
    }

    /** `umaal r1, c, b, r0`: `b * r0 + c + r1`, which fits its register pair, over `c:r1`. */
    method Core()
      requires Valid() && InBounds(St(), 1)
      modifies this, mem
      ensures Valid()
      ensures St() == Step(old(St()), b, WORD32)
    {
      CarryIsWord(mem[s], b, mem[d], c, WORD32);
      var r0 := mem[s];
      s := s + 1;
      var r1 := mem[d];
      var pair := b * r0 + c + r1;
      r1, c := pair % WORD32, pair / WORD32;
      mem[d] := r1;
      d := d + 1;
    }

    method Execute(n: nat)
      requires Valid() && InBounds(St(), n)
      modifies this, mem
      ensures St() == Run(old(St()), b, n, WORD32)
    {
      for i := 0 to n
        invariant Valid() && InBounds(St(), n - i)
        invariant Run(St(), b, n - i, WORD32) == Run(old(St()), b, n, WORD32)
      {
        Core();
      }
    }
  }

}
