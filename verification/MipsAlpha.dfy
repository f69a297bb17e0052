/**
 The MIPS and Alpha forms of MULADDC. Neither machine has a carry flag: carries are recovered by
 unsigned comparison. The fields are the registers that live from one macro to the next;
 pointers count limbs.
 */
module MipsAlpha {
  import opened Words
  import opened LimbVectors
  import opened MulAdd

  /** A limb with both carries recovered by comparison. */
  lemma CompareLimb(x: nat, b: nat, z: nat, c: nat, B: nat)
    requires 2 <= B && x < B && b < B && z < B && c < B
    ensures var lo, hi := MulLo(x, b, B), MulHi(x, b, B);
            var l1 := AddLo(lo, c, 0, B);
            var l2 := AddLo(l1, z, 0, B);
            var k1, k2 := Bit(l1 < c), Bit(l2 < l1);
            && l1 < B && k2 == Bit(l2 < z)
            && l2 == LimbOut(x, b, z, c, B) < B
            && AddLo(hi, k1, 0, B) == hi + k1 && AddLo(hi + k1, k2, 0, B) == CarryOut(x, b, z, c, B) < B
  {
    var lo, hi := MulLo(x, b, B), MulHi(x, b, B);
    MulSplit(x, b, B);
    CompareIsCarry(lo, c, B);
    var l1 := AddLo(lo, c, 0, B);
    CompareIsCarry(l1, z, B);
    var l2 := AddLo(l1, z, 0, B);
    TwoAdds(x, b, z, c, lo, hi, l1, Bit(l1 < c), l2, Bit(l2 < z), B);
    CarryIsWord(x, b, z, c, B);
    NoWrap(hi, Bit(l1 < c), B);
    NoWrap(hi + Bit(l1 < c), Bit(l2 < z), B);
  }

  class Mips {
    const mem: array<nat>
    var r10: int
    var r11: int
    var r12: nat
    var r13: nat

    constructor (mem: array<nat>)
      ensures this.mem == mem
    {
      this.mem := mem;
    }

    ghost function St(): (st: State)
      reads this, mem
    {
      State(mem[..], r10, r11, r12)
    }

    ghost predicate Valid()
      reads this, mem
    {
      Limbs(mem[..], WORD32) && r12 < WORD32 && r13 < WORD32
    }

    method Core()
      requires Valid() && InBounds(St(), 1)
      modifies this, mem
      ensures Valid() && r13 == old(r13)
      ensures St() == Step(old(St()), r13, WORD32)
    {
      CompareLimb(mem[r10], r13, mem[r11], r12, WORD32);
      var r14 := mem[r10];
      var lo, hi := MulLo(r14, r13, WORD32), MulHi(r14, r13, WORD32);
      r10 := r10 + 1;
      r14 := lo;
      var r9 := hi;
      r14 := AddLo(r14, r12, 0, WORD32);
      var r15 := mem[r11];
      r12 := Bit(r14 < r12);
      r15 := AddLo(r14, r15, 0, WORD32);
      r14 := Bit(r15 < r14);
      r12 := AddLo(r9, r12, 0, WORD32);
      mem[r11] := r15;
      r12 := AddLo(r12, r14, 0, WORD32);
      r11 := r11 + 1;
    }

    method Init(s: nat, d: nat, c: nat, b: nat)
      requires Limbs(mem[..], WORD32) && b < WORD32 && c < WORD32
      modifies this
      ensures Valid() && St() == State(old(mem[..]), s, d, c) && r13 == b
    {
      r10 := s;
      r11 := d;
      r12 := c;
      r13 := b;
    }

    method Stop() returns (c: nat, d: int, s: int)
      ensures State(mem[..], s, d, c) == St()
    {
      c := r12;
      d := r11;
      s := r10;
    }

    method Execute(s: nat, d: nat, c: nat, b: nat, n: nat) returns (c': nat, d': int, s': int)
      requires Limbs(mem[..], WORD32) && b < WORD32 && c < WORD32 && InBounds(State(mem[..], s, d, c), n)
      modifies this, mem
      ensures State(mem[..], s', d', c') == Run(State(old(mem[..]), s, d, c), b, n, WORD32)
    {
      Init(s, d, c, b);
      for i := 0 to n
        invariant Valid() && r13 == b && InBounds(St(), n - i)
        invariant Run(St(), b, n - i, WORD32) == Run(State(old(mem[..]), s, d, c), b, n, WORD32)
      {
        Core();
      }
      c', d', s' := Stop();
    }
  }

  class Alpha {
    const mem: array<nat>
    var r1: int
    var r2: int
    var r3: nat
    var r4: nat

    constructor (mem: array<nat>)
      ensures this.mem == mem
    {
      this.mem := mem;
    }

    ghost function St(): (st: State)
      reads this, mem
    {
      State(mem[..], r1, r2, r3)
    }

    ghost predicate Valid()
      reads this, mem
    {
      Limbs(mem[..], WORD64) && r3 < WORD64 && r4 < WORD64
    }

    method Core()
      requires Valid() && InBounds(St(), 1)
      modifies this, mem
      ensures Valid() && r4 == old(r4)
      ensures St() == Step(old(St()), r4, WORD64)
    {
      CompareLimb(mem[r1], r4, mem[r2], r3, WORD64);
      var r6 := mem[r1];
      r1 := r1 + 1;
      var r7 := MulLo(r6, r4, WORD64);
      r6 := MulHi(r6, r4, WORD64);
      r7 := AddLo(r7, r3, 0, WORD64);
      r3 := Bit(r7 < r3);
      var r5 := mem[r2];
      r7 := AddLo(r7, r5, 0, WORD64);
      r5 := Bit(r7 < r5);
      mem[r2] := r7;
      r2 := r2 + 1;
      r3 := AddLo(r6, r3, 0, WORD64);
      r3 := AddLo(r3, r5, 0, WORD64);
    }

    method Init(s: nat, d: nat, c: nat, b: nat)
      requires Limbs(mem[..], WORD64) && b < WORD64 && c < WORD64
      modifies this
      ensures Valid() && St() == State(old(mem[..]), s, d, c) && r4 == b
    {
      r1 := s;
      r2 := d;
      r3 := c;
      r4 := b;
    }

    method Stop() returns (c: nat, d: int, s: int)
      ensures State(mem[..], s, d, c) == St()
    {
      c := r3;
      d := r2;
      s := r1;
    }

    method Execute(s: nat, d: nat, c: nat, b: nat, n: nat) returns (c': nat, d': int, s': int)
      requires Limbs(mem[..], WORD64) && b < WORD64 && c < WORD64 && InBounds(State(mem[..], s, d, c), n)
      modifies this, mem
      ensures State(mem[..], s', d', c') == Run(State(old(mem[..]), s, d, c), b, n, WORD64)
    {
      Init(s, d, c, b);
      for i := 0 to n
        invariant Valid() && r4 == b && InBounds(St(), n - i)
        invariant Run(St(), b, n - i, WORD64) == Run(State(old(mem[..]), s, d, c), b, n, WORD64)
      {
        Core();
      }
      c', d', s' := Stop();
    }
  }

}
