/**
 The 68000 forms of MULADDC: the one-limb core and the eight-limb block, which hands part of
 each carry to the next limb in the X flag. The fields are the registers that live from one
 macro to the next; `a2` and `a3` count limbs.
 */
module M68k {
  import opened Words
  import opened LimbVectors
  import opened MulAdd
  import opened Blocks

  // ----- what cores and blocks do, with X on entry -----

  /** A state with the carry in a register, and the X flag beside it. */
  datatype Flagged = Flagged(st: State, x: nat) {
    predicate Valid(n: nat) {
      InBounds(st, n) && Limbs(st.mem, WORD32) && st.c < WORD32 && x <= 1
    }
  }

  function WithCarry(st: State, c: nat): (r: State) {
    State(st.mem, st.s, st.d, c)
  }

  /** One core clears X. An eight-limb block adds it to the carry, and sets it again if the last
      carry is a full word. */
  function AfterBlock(f: Flagged, b: nat, block: Block): (r: Flagged)
    requires InBounds(f.st, Size(block))
    ensures |r.st.mem| == |f.st.mem| && r.st.s == f.st.s + Size(block) && r.st.d == f.st.d + Size(block)
  {
    if block == One then Flagged(Step(f.st, b, WORD32), 0)
    else
      var r := Run(WithCarry(f.st, f.st.c + f.x), b, HUIT, WORD32);
      Flagged(WithCarry(r, r.c % WORD32), r.c / WORD32)
  }

  function RunBlocks(f: Flagged, b: nat, blocks: seq<Block>): (r: Flagged)
    requires InBounds(f.st, LimbCount(blocks))
    ensures |r.st.mem| == |f.st.mem|
    decreases |blocks|
  {
    if blocks == [] then f else RunBlocks(AfterBlock(f, b, blocks[0]), b, blocks[1..])
  }

  lemma RunBlocksFrom(f: Flagged, b: nat, blocks: seq<Block>, i: nat)
    requires i < |blocks| && InBounds(f.st, LimbCount(blocks[i..]))
    ensures InBounds(AfterBlock(f, b, blocks[i]).st, LimbCount(blocks[i + 1..]))
    ensures RunBlocks(f, b, blocks[i..]) == RunBlocks(AfterBlock(f, b, blocks[i]), b, blocks[i + 1..])
  {
    assert blocks[i..][1..] == blocks[i + 1..];
  }

  /** When an INIT ... STOP region computes what it should: INIT leaves the X flag as it found
      it, and an eight-limb block adds it in. */
  predicate FlagHarmless(x: nat, blocks: seq<Block>) {
    x == 0 || blocks == [] || blocks[0] == One
  }

  /** The only operands of an eight-limb block with X set whose last carry is a full word: all of
      them are largest, and no source limb is overwritten before it is read. */
  predicate Saturated(st: State, b: nat, n: nat)
    requires InBounds(st, n)
  {
    && st.c == WORD32 - 1 && b == WORD32 - 1 && SafeLayout(st.s, st.d, n)
    && Largest(st.mem, st.s, n) && Largest(st.mem, st.d, n)
  }

  predicate Largest(m: seq<nat>, p: int, n: nat)
    requires 0 <= p && p + n <= |m|
  {
    forall j :: p <= j < p + n ==> m[j] == WORD32 - 1
  }

  /** What any sequence of cores and blocks comes to, in terms of plain runs. A pending flag is one
      more in the carry, for a block that comes first. If that block ends in a full word, the
      word is lost, and what is left of it is a flag for the next block. */
  function Outcome(f: Flagged, b: nat, blocks: seq<Block>): (r: Flagged)
    requires InBounds(f.st, LimbCount(blocks))
  {
    if FlagHarmless(f.x, blocks) then
      Flagged(Run(f.st, b, LimbCount(blocks), WORD32), if blocks == [] then f.x else 0)
    else if !Saturated(f.st, b, HUIT) then
      Flagged(Run(WithCarry(f.st, f.st.c + 1), b, LimbCount(blocks), WORD32), 0)
    else
      var r, rest := Run(WithCarry(f.st, WORD32), b, HUIT, WORD32), blocks[1..];
      var c := if rest != [] && rest[0] == Eight then 1 else 0;
      Flagged(Run(WithCarry(r, c), b, LimbCount(rest), WORD32), if rest == [] then 1 else 0)
  }

  /** The carry of a limb is a full word only from a full word and largest operands. */
  lemma FullCarry(x: nat, b: nat, z: nat, c: nat)
    requires x < WORD32 && b < WORD32 && z < WORD32 && c <= WORD32
    ensures CarryOut(x, b, z, c, WORD32) == WORD32 <==> x == b == z == WORD32 - 1 && c == WORD32
    ensures CarryOut(x, b, z, c, WORD32) == WORD32 ==> LimbOut(x, b, z, c, WORD32) == 0
  {
    var t := x * b + z + c;
    if x == b == z == WORD32 - 1 && c == WORD32 {
      LimbIs(x, b, z, c, 0, WORD32, WORD32);
    } else {
      SmallerTotal(x, b, z, c);
      assert t < WORD32 * WORD32;
    }
  }

  lemma SmallerTotal(x: nat, b: nat, z: nat, c: nat)
    requires x < WORD32 && b < WORD32 && z < WORD32 && c <= WORD32
    requires !(x == b == z == WORD32 - 1 && c == WORD32)
    ensures x * b + z + c < WORD32 * WORD32
  {
    ProductBound(x, b, WORD32);
    if x < WORD32 - 1 {
      MulMono(b, x, WORD32 - 2);
    } else if b < WORD32 - 1 {
      MulMono(x, b, WORD32 - 2);
    }
  }

  /** The carry of a run is a full word if and only if a full word came in and all operands are
      largest whenever they are read. */
  lemma {:induction false} SaturatedIsExact(st: State, b: nat, n: nat)
    requires InBounds(st, n) && Limbs(st.mem, WORD32) && b < WORD32 && st.c < WORD32 && 0 < n
    ensures Run(WithCarry(st, st.c + 1), b, n, WORD32).c == WORD32 <==> Saturated(st, b, n)
    decreases n
  {
    var f := WithCarry(st, st.c + 1);
    var next := Step(f, b, WORD32);
    FullCarry(st.mem[st.s], b, st.mem[st.d], st.c + 1);
    StepKeeps(f, b);
    assert Run(f, b, n, WORD32) == Run(next, b, n - 1, WORD32);
    if n == 1 {
      NoneIsNothing(next, b, WORD32);
    } else if next.c == WORD32 {
      SaturatedIsExact(WithCarry(next, WORD32 - 1), b, n - 1);
      assert WithCarry(WithCarry(next, WORD32 - 1), WORD32) == next;
      SaturatedCons(st, b, n);
    } else {
      RunKeepsWords(next, b, n - 1, WORD32 - 1, WORD32);
    }
  }

  lemma StepKeeps(st: State, b: nat)
    requires InBounds(st, 1) && Limbs(st.mem, WORD32) && b < WORD32 && st.c <= WORD32
    ensures Limbs(Step(st, b, WORD32).mem, WORD32) && Step(st, b, WORD32).c <= WORD32
  {
    MulAddBound(st.mem[st.s], b, st.mem[st.d], st.c, WORD32, WORD32);
  }

  lemma SaturatedCons(st: State, b: nat, n: nat)
    requires InBounds(st, n) && 2 <= n && b == WORD32 - 1 && st.c == WORD32 - 1
    requires st.mem[st.s] == st.mem[st.d] == WORD32 - 1
    ensures var next := State(st.mem[st.d := 0], st.s + 1, st.d + 1, WORD32 - 1);
            Saturated(st, b, n) <==> Saturated(next, b, n - 1)
  {
    var m: seq<nat>, r: seq<nat> := st.mem, st.mem[st.d := 0];
    if Saturated(State(r, st.s + 1, st.d + 1, WORD32 - 1), b, n - 1) {
      assert r[st.s + n - 1] == WORD32 - 1;
      forall j | 0 <= j < |m| && (st.s <= j < st.s + n || st.d <= j < st.d + n)
        ensures m[j] == WORD32 - 1
      {
        assert j == st.s || j == st.d || r[j] == WORD32 - 1;
      }
    }
  }

  /** With X clear the blocks are a plain run, however it is cut. */
  lemma {:induction false} PlainBlocks(st: State, b: nat, blocks: seq<Block>)
    requires Flagged(st, 0).Valid(LimbCount(blocks)) && b < WORD32
    ensures RunBlocks(Flagged(st, 0), b, blocks) == Flagged(Run(st, b, LimbCount(blocks), WORD32), 0)
    decreases |blocks|
  {
    if blocks == [] {
      NoneIsNothing(st, b, WORD32);
    } else {
      var n, rest := Size(blocks[0]), blocks[1..];
      var r := Run(st, b, n, WORD32);
      RunKeepsWords(st, b, n, WORD32 - 1, WORD32);
      PlainBlock(st, b, blocks[0]);
      hide Run, AfterBlock;
      PlainBlocks(r, b, rest);
      RunSplit(st, b, n, LimbCount(rest), WORD32);
    }
  }

  lemma PlainBlock(st: State, b: nat, block: Block)
    requires Flagged(st, 0).Valid(Size(block)) && b < WORD32
    ensures AfterBlock(Flagged(st, 0), b, block) == Flagged(Run(st, b, Size(block), WORD32), 0)
  {
    if block == One {
      OneIsStep(st, b, WORD32);
    } else {
      hide Run, AfterBlock;
      var n: nat := HUIT;
      RunKeepsWords(st, b, n, WORD32 - 1, WORD32);
      FlagOut(Flagged(st, 0), b, Run(st, b, n, WORD32), Run(st, b, n, WORD32).c, 0);
    }
  }

  lemma FlaggedCore(st: State, b: nat)
    requires Flagged(st, 1).Valid(1) && b < WORD32
    ensures AfterBlock(Flagged(st, 1), b, One) == Flagged(Run(st, b, Size(One), WORD32), 0)
    ensures Flagged(Run(st, b, Size(One), WORD32), 0).Valid(0)
  {
    OneIsStep(st, b, WORD32);
    RunKeepsWords(st, b, Size(One), WORD32 - 1, WORD32);
  }

  /** How the last carry is split over the register and the flag. */
  lemma FlagOut(f: Flagged, b: nat, r: State, c: nat, x: nat)
    requires InBounds(f.st, HUIT) && r == Run(WithCarry(f.st, f.st.c + f.x), b, HUIT, WORD32)
    requires c < WORD32 && x <= 1 && r.c == (if x == 0 then c else WORD32) && (x == 1 ==> c == 0)
    ensures AfterBlock(f, b, Eight) == Flagged(WithCarry(r, c), x)
  {
    hide Run;
    assert r.c % WORD32 == c && r.c / WORD32 == x;
  }

  /** A block with X set. */
  lemma FlaggedHuit(st: State, b: nat)
    requires Flagged(st, 1).Valid(HUIT) && b < WORD32
    ensures var f, r := AfterBlock(Flagged(st, 1), b, Eight), Run(WithCarry(st, st.c + 1), b, HUIT, WORD32);
            f == (if Saturated(st, b, HUIT) then Flagged(WithCarry(r, 0), 1) else Flagged(r, 0)) && f.Valid(0)
  {
    hide Run, Saturated, AfterBlock;
    var n: nat, r := HUIT, Run(WithCarry(st, st.c + 1), b, HUIT, WORD32);
    SaturatedIsExact(st, b, n);
    RunKeepsWords(WithCarry(st, st.c + 1), b, n, WORD32, WORD32);
    FlagOut(Flagged(st, 1), b, r, if r.c == WORD32 then 0 else r.c, if r.c == WORD32 then 1 else 0);
  }

  /** After a block that leaves X clear the rest is plain. */
  lemma ThenPlain(g: State, b: nat, n: nat, rest: seq<Block>)
    requires InBounds(g, n + LimbCount(rest)) && Flagged(Run(g, b, n, WORD32), 0).Valid(LimbCount(rest)) && b < WORD32
    ensures RunBlocks(Flagged(Run(g, b, n, WORD32), 0), b, rest) == Flagged(Run(g, b, n + LimbCount(rest), WORD32), 0)
  {
    PlainBlocks(Run(g, b, n, WORD32), b, rest);
    RunSplit(g, b, n, LimbCount(rest), WORD32);
  }

  /** Main theorem: what any sequence of cores and blocks comes to, for either value of X. */
  lemma {:induction false} BlocksComeTo(f: Flagged, b: nat, blocks: seq<Block>)
    requires f.Valid(LimbCount(blocks)) && b < WORD32
    ensures RunBlocks(f, b, blocks) == Outcome(f, b, blocks)
    decreases |blocks|
  {
    hide Run, AfterBlock, Saturated;
    if f.x == 0 {
      PlainBlocks(f.st, b, blocks);
    } else if blocks == [] {
      NoneIsNothing(f.st, b, WORD32);
    } else {
      var block, rest := blocks[0], blocks[1..];
      if block == One {
        FlaggedCore(f.st, b);
        ThenPlain(f.st, b, Size(One), rest);
      } else if !Saturated(f.st, b, HUIT) {
        FlaggedHuit(f.st, b);
        ThenPlain(WithCarry(f.st, f.st.c + 1), b, HUIT, rest);
      } else {
        FlaggedHuit(f.st, b);
        SaturatedCarry(f.st, b);
        BlocksComeTo(AfterBlock(f, b, Eight), b, rest);
        NotSaturated(AfterBlock(f, b, Eight).st, b, rest);
      }
    }
  }

  lemma SaturatedCarry(st: State, b: nat)
    requires InBounds(st, HUIT) && Saturated(st, b, HUIT)
    ensures st.c + 1 == WORD32
  {
  }

  lemma NotSaturated(st: State, b: nat, rest: seq<Block>)
    requires InBounds(st, LimbCount(rest)) && st.c == 0
    ensures rest != [] && rest[0] == Eight ==> !Saturated(st, b, HUIT)
  {
  }

  /** A pending flag on top of the carry always shows in the first limb. */
  lemma FlagShows(x: nat, b: nat, z: nat, c: nat)
    ensures LimbOut(x, b, z, c + 1, WORD32) != LimbOut(x, b, z, c, WORD32)
  {
    var t := x * b + z + c;
    assert (t + 1) % WORD32 != t % WORD32;
  }

  /** The result is that of the plain run if and only if X was clear on entry, or no eight-limb
      block comes first. */
  lemma HarmlessIsExact(f: Flagged, b: nat, blocks: seq<Block>)
    requires f.Valid(LimbCount(blocks)) && b < WORD32
    ensures Outcome(f, b, blocks).st == Run(f.st, b, LimbCount(blocks), WORD32) <==> FlagHarmless(f.x, blocks)
  {
    if !FlagHarmless(f.x, blocks) {
      PendingShows(f, b, blocks);
      FirstLimb(f.st, b, LimbCount(blocks), WORD32);
      hide Outcome, Run;
      FlagShows(f.st.mem[f.st.s], b, f.st.mem[f.st.d], f.st.c);
    }
  }

  lemma PendingShows(f: Flagged, b: nat, blocks: seq<Block>)
    requires InBounds(f.st, LimbCount(blocks)) && !FlagHarmless(f.x, blocks)
    ensures var st := f.st;
            Outcome(f, b, blocks).st.mem[st.d] == LimbOut(st.mem[st.s], b, st.mem[st.d], st.c + 1, WORD32)
  {
    hide Run, Saturated, LimbOut;
    var pending := WithCarry(f.st, f.st.c + 1);
    if Saturated(f.st, b, HUIT) {
      SaturatedCarry(f.st, b);
      FirstOfBlock(pending, b, 0, LimbCount(blocks[1..]));
      FirstOfBlock(pending, b, 1, LimbCount(blocks[1..]));
    } else {
      FirstLimb(pending, b, LimbCount(blocks), WORD32);
    }
  }

  /** What comes after a block leaves its first limb alone. */
  lemma FirstOfBlock(st: State, b: nat, c: nat, rest: nat)
    requires InBounds(st, HUIT + rest)
    ensures var r := WithCarry(Run(st, b, HUIT, WORD32), c);
            Run(r, b, rest, WORD32).mem[st.d] == LimbOut(st.mem[st.s], b, st.mem[st.d], st.c, WORD32)
  {
    hide Run;
    var h: nat := HUIT;
    FirstLimb(st, b, h, WORD32);
    RunFrame(WithCarry(Run(st, b, h, WORD32), c), b, rest, WORD32);
  }

  class Machine {
    const mem: array<nat>
    var d0: nat
    var d2: nat
    var d3: nat
    var a2: int
    var a3: int
    var x: nat

    constructor (mem: array<nat>, x: nat)
      requires x <= 1
      ensures this.mem == mem && this.x == x
    {
      this.mem := mem;
      this.x := x;
    }

    /** The abstract state between macros: the carry is in `d3`. */
    ghost function St(): (st: State)
      reads this, mem
    {
      State(mem[..], a2, a3, d3)
    }

    /** The abstract state inside an eight-limb block: the carry is a register plus X. */
    ghost function Pending(h: nat): (st: State)
      reads this, mem
    {
      State(mem[..], a2, a3, h + x)
    }

    /** The same with the flag. */
    ghost function Now(): (f: Flagged)
      reads this, mem
    {
      Flagged(St(), x)
    }

    ghost predicate Valid()
      reads this, mem
    {
      Limbs(mem[..], WORD32) && d0 == 0 && d2 < WORD32 && d3 < WORD32 && x <= 1
    }

    method Init(s: nat, d: nat, c: nat, b: nat)
      requires Limbs(mem[..], WORD32) && b < WORD32 && c < WORD32 && x <= 1
      modifies this
      ensures Valid() && St() == State(old(mem[..]), s, d, c) && d2 == b && x == old(x)
    {
      a2 := s;
      a3 := d;
      d3 := c;
      d2 := b;
      d0 := 0;
    }

    /** `f` is X while the core runs. */
    method Core()
      requires Valid() && InBounds(St(), 1)
      modifies this, mem
      ensures Valid() && d2 == old(d2) && x == 0
      ensures St() == Step(old(St()), d2, WORD32)
    {
      FlagLimb(mem[a2], d2, mem[a3], d3, 0, WORD32);
      CarryIsWord(mem[a2], d2, mem[a3], d3, WORD32);
      var d1, d4, f := mem[a2], 0, 0;
      a2 := a2 + 1;
      d1, d4 := MulLo(d1, d2, WORD32), MulHi(d1, d2, WORD32);
      d1, f := AddLo(d1, d3, 0, WORD32), AddHi(d1, d3, 0, WORD32);
      d4, f := AddLo(d4, d0, f, WORD32), AddHi(d4, d0, f, WORD32);
      d3 := 0;
      mem[a3], f := AddLo(d1, mem[a3], 0, WORD32), AddHi(d1, mem[a3], 0, WORD32);
      a3 := a3 + 1;
      AddSplit(d3, d4, f, WORD32);
      d3, f := AddLo(d3, d4, f, WORD32), AddHi(d3, d4, f, WORD32);
      x := f;
    }

    /** One limb of the block. The carry comes in as register `h` plus X and goes out as register
        `h'` plus X; `d3` and `d4` take turns in the two roles. */
    method Section(h: nat, ghost left: nat) returns (h': nat)
      requires Limbs(mem[..], WORD32) && d0 == 0 && d2 < WORD32 && h < WORD32 && x <= 1
      requires 0 < left && InBounds(Pending(h), left)
      modifies this, mem
      ensures Limbs(mem[..], WORD32) && d0 == 0 && d2 == old(d2) && h' < WORD32 && x <= 1
      ensures InBounds(Pending(h'), left - 1)
      ensures Run(Pending(h'), d2, left - 1, WORD32) == Run(old(Pending(h)), d2, left, WORD32)
    {
      hide AddLo, AddHi, MulLo, MulHi, LimbOut, CarryOut;
      FlagLimb(mem[a2], d2, mem[a3], h, x, WORD32);
      var d1, f := mem[a2], x;
      a2 := a2 + 1;
      d1, h' := MulLo(d1, d2, WORD32), MulHi(d1, d2, WORD32);
      d1, f := AddLo(d1, h, f, WORD32), AddHi(d1, h, f, WORD32);
      h', f := AddLo(h', d0, f, WORD32), AddHi(h', d0, f, WORD32);
      mem[a3], f := AddLo(d1, mem[a3], 0, WORD32), AddHi(d1, mem[a3], 0, WORD32);
      a3 := a3 + 1;
      x := f;
    }

    /** Two limbs of the block: the carry goes from `d3` to `d4` and back. */
    method Pair(ghost left: nat)
      requires Valid() && 2 <= left && InBounds(St(), left)
      modifies this, mem
      ensures Valid() && d2 == old(d2)
      ensures InBounds(St(), left - 2)
      ensures Run(Pending(d3), d2, left - 2, WORD32) == Run(old(Pending(d3)), d2, left, WORD32)
    {
      var d4 := Section(d3, left);
      d3 := Section(d4, left - 1);
    }

    /** The eight limbs of the block, for either value of X on entry. */
    method Sections()
      requires Valid() && InBounds(St(), HUIT)
      modifies this, mem
      ensures Valid() && d2 == old(d2)
      ensures Pending(d3) == Run(old(Pending(d3)), d2, HUIT, WORD32)
    {
      ghost var n := HUIT;
      Pair(n);
      Pair(n - 2);
      Pair(n - 4);
      Pair(n - 6);
    }

    /** The eight-limb block: eight plain steps with X added to the carry. X is left set only when
        it was set on entry and the carry came to a full word. */
    method Huit()
      requires Valid() && InBounds(St(), HUIT)
      modifies this, mem
      ensures Valid() && d2 == old(d2) && (old(x) == 0 ==> x == 0)
      ensures Now() == AfterBlock(old(Now()), d2, Eight)
    {
      hide Run, AfterBlock, AddLo, AddHi;
      ghost var before := Now();
      RunKeepsWords(Pending(d3), d2, HUIT, if x == 0 then WORD32 - 1 else WORD32, WORD32);
      Sections();
      ghost var r := Pending(d3);
      AddSplit(d3, d0, x, WORD32);
      d3, x := AddLo(d3, d0, x, WORD32), AddHi(d3, d0, x, WORD32);
      FlagOut(before, d2, r, d3, x);
    }

    method PerformAll(blocks: seq<Block>)
      requires Valid() && InBounds(St(), LimbCount(blocks))
      modifies this, mem
      ensures Valid() && Now() == RunBlocks(old(Now()), old(d2), blocks)
    {
      hide Limbs, Step;
      ghost var start, b := Now(), d2;
      CountFrom(blocks, 0);
      for i := 0 to |blocks|
        invariant Valid() && d2 == b && InBounds(St(), LimbCount(blocks[i..]))
        invariant RunBlocks(Now(), b, blocks[i..]) == RunBlocks(start, b, blocks)
      {
        CountFrom(blocks, i);
        RunBlocksFrom(Now(), b, blocks, i);
        if blocks[i] == One {
          Core();
        } else {
          Huit();
        }
      }
    }

    /** Any sequence of cores and eight-limb blocks between INIT and STOP, for either value of X on
        entry. The result is that of the plain run if and only if X was clear, or no eight-limb
        block comes first; in all other cases it is the one that `Outcome` says. */
    method Execute(s: nat, d: nat, c: nat, b: nat, blocks: seq<Block>) returns (c': nat, d': int, s': int)
      requires Limbs(mem[..], WORD32) && b < WORD32 && c < WORD32 && x <= 1
      requires InBounds(State(mem[..], s, d, c), LimbCount(blocks))
      modifies this, mem
      ensures Flagged(State(mem[..], s', d', c'), x) == Outcome(Flagged(State(old(mem[..]), s, d, c), old(x)), b, blocks)
      ensures State(mem[..], s', d', c') == Run(State(old(mem[..]), s, d, c), b, LimbCount(blocks), WORD32)
              <==> FlagHarmless(old(x), blocks)
      ensures Limbs(mem[..], WORD32) && c' < WORD32
    {
      Init(s, d, c, b);
      BlocksComeTo(Now(), b, blocks);
      HarmlessIsExact(Now(), b, blocks);
      PerformAll(blocks);
      c', d', s' := Stop();
    }

    method Stop() returns (c: nat, d: int, s: int)
      ensures State(mem[..], s, d, c) == St()
    {
      c := d3;
      d := a3;
      s := a2;
    }

  }

}
