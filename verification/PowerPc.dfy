/**
 The PowerPC form of MULADDC, for either word size: part of the carry stays in the CA flag from
 one core to the next, and both pointers lag one limb behind. The fields are the registers that
 live from one macro to the next; `r3` and `r4` count limbs.
 */
module PowerPc {
  import opened Words
  import opened LimbVectors
  import opened MulAdd

  class Machine {
    const mem: array<nat>
    /** `WORD32` or `WORD64`. */
    const B: nat
    var r3: int
    var r4: int
    var r5: nat
    var r6: nat
    var ca: nat

    constructor (mem: array<nat>, B: nat, ca: nat)
      ensures this.mem == mem && this.B == B && this.ca == ca
    {
      this.mem := mem;
      this.B := B;
      this.ca := ca;
    }

    /** The abstract state between cores: the carry is `r5` plus CA and both pointers are one
        limb ahead of the registers. */
    ghost function St(): (st: State)
      reads this, mem
    {
      State(mem[..], r3 + 1, r4 + 1, r5 + ca)
    }

    ghost predicate Valid()
      reads this, mem
    {
      2 <= B && Limbs(mem[..], B) && r6 < B && r5 < B && ca <= 1 && r5 + ca < B
    }

    /** Whatever CA was, `addic` clears it. */
    method Init(s: nat, d: nat, c: nat, b: nat)
      requires 2 <= B && Limbs(mem[..], B) && b < B && c < B
      modifies this
      ensures Valid() && St() == State(old(mem[..]), s, d, c) && r6 == b
    {
      r3 := s;
      r4 := d;
      r5 := c;
      r6 := b;
      r3 := r3 - 1;
      r4 := r4 - 1;
      AddSplit(r5, 0, 0, B);
      r5, ca := AddLo(r5, 0, 0, B), AddHi(r5, 0, 0, B);
    }

    method Core()
      requires Valid() && InBounds(St(), 1)
      modifies this, mem
      ensures Valid() && r6 == old(r6)
      ensures St() == Step(old(St()), r6, B)
    {
      FlagLimb(mem[r3 + 1], r6, mem[r4 + 1], r5, ca, B);
      CarryIsWord(mem[r3 + 1], r6, mem[r4 + 1], r5 + ca, B);
      r3 := r3 + 1;
      var r7 := mem[r3];
      var r8, r9 := MulLo(r7, r6, B), MulHi(r7, r6, B);
      r8, ca := AddLo(r8, r5, ca, B), AddHi(r8, r5, ca, B);
      r7 := mem[r4 + 1];
      r5, ca := AddLo(r9, 0, ca, B), AddHi(r9, 0, ca, B);
      r8, ca := AddLo(r8, r7, 0, B), AddHi(r8, r7, 0, B);
      r4 := r4 + 1;
      mem[r4] := r8;
    }

    /** Folds CA into the carry, which cannot overflow, and moves the pointers up. */
    method Stop() returns (c: nat, d: int, s: int)
      requires Valid()
      modifies this
      ensures State(mem[..], s, d, c) == old(St()) && c < B
    {
      AddSplit(r5, 0, ca, B);
      r5, ca := AddLo(r5, 0, ca, B), AddHi(r5, 0, ca, B);
      r4 := r4 + 1;
      r3 := r3 + 1;
      c := r5;
      d := r4;
      s := r3;
    }

    /** INIT, `n` cores, STOP: the plain run, whatever CA was before. */
    method Execute(s: nat, d: nat, c: nat, b: nat, n: nat) returns (c': nat, d': int, s': int)
      requires 2 <= B && Limbs(mem[..], B) && b < B && c < B && InBounds(State(mem[..], s, d, c), n)
      modifies this, mem
      ensures State(mem[..], s', d', c') == Run(State(old(mem[..]), s, d, c), b, n, B)
      ensures Limbs(mem[..], B) && c' < B
    {
      Init(s, d, c, b);
      for i := 0 to n
        invariant Valid() && r6 == b && InBounds(St(), n - i)
        invariant Run(St(), b, n - i, B) == Run(State(old(mem[..]), s, d, c), b, n, B)
      {
        Core();
      }
      c', d', s' := Stop();
    }
  }

}
