/**
 The i386 forms of MULADDC: the one-limb core and the eight-limb SSE2 block. The fields are the
 registers that live from one macro to the next; the others are locals of the macro that uses
 them. `esi` and `edi` count limbs. Line numbers are those of `inc/mbedtls/bn_mul.h`.
 */
module I386 {
  import opened Words
  import opened LimbVectors
  import opened MulAdd
  import opened Blocks

  // ----- what the SSE2 block does, wherever s and d point -----

  /** The source limbs as the block loads them: limbs 4 to 6 after the first store, limb 7 after
      the second, the others before any. */
  function Sse2Reads(st: State, b: nat): (w: seq<nat>)
    requires InBounds(st, HUIT)
    ensures |w| == HUIT
  {
    var out := Lanes(Window(st.mem, st.s, 4), Window(st.mem, st.d, 4), b, st.c, WORD32).limbs;
    var m1 := st.mem[st.d := out[0]];
    var m2 := m1[st.d + 1 := out[1]];
    Window(st.mem, st.s, 4) + [m1[st.s + 4], m1[st.s + 5], m1[st.s + 6], m2[st.s + 7]]
  }

  function Sse2Block(st: State, b: nat): (r: State)
    requires InBounds(st, HUIT)
    ensures |r.mem| == |st.mem|
  {
    var out := Lanes(Sse2Reads(st, b), Window(st.mem, st.d, HUIT), b, st.c, WORD32);
    State(Splice(st.mem, st.d, out.limbs), st.s + HUIT, st.d + HUIT, out.carry)
  }

  /** The layouts in which the reordering cannot be seen. */
  predicate Reorderable(s: int, d: int) {
    d <= s || s + 6 <= d
  }

  /** Equal limbs read, equal result. */
  lemma SameReads(st: State, b: nat)
    requires InBounds(st, HUIT) && Sse2Reads(st, b) == SourceRead(st, b, HUIT, WORD32)
    ensures Sse2Block(st, b) == Run(st, b, HUIT, WORD32)
  {
    RunIsSplice(st, b, HUIT, WORD32);
  }

  /** The first limb stored by a run, and the second if the first store did not change what is
      read for it. */
  lemma FirstStored(st: State, b: nat, n: nat)
    requires 2 <= n && InBounds(st, n)
    ensures var m, r := st.mem, Run(st, b, n, WORD32).mem;
            && r[st.d] == LimbOut(m[st.s], b, m[st.d], st.c, WORD32)
            && (st.s + 1 != st.d ==>
                  r[st.d + 1] == LimbOut(m[st.s + 1], b, m[st.d + 1], CarryOut(m[st.s], b, m[st.d], st.c, WORD32), WORD32))
  {
    var next := Step(st, b, WORD32);
    assert Run(st, b, n, WORD32) == Run(next, b, n - 1, WORD32);
    assert Run(next, b, n - 1, WORD32) == Run(Step(next, b, WORD32), b, n - 2, WORD32);
    RunFrame(next, b, n - 1, WORD32);
    RunFrame(Step(next, b, WORD32), b, n - 2, WORD32);
  }

  lemma FirstLanes(xs: seq<nat>, zs: seq<nat>, b: nat, c: nat)
    requires |xs| == |zs| && 2 <= |xs|
    ensures var out := Lanes(xs, zs, b, c, WORD32).limbs;
            && out[0] == LimbOut(xs[0], b, zs[0], c, WORD32)
            && out[1] == LimbOut(xs[1], b, zs[1], CarryOut(xs[0], b, zs[0], c, WORD32), WORD32)
  {
  }

  lemma EarlyStores(st: State, b: nat)
    requires InBounds(st, HUIT) && st.s + 6 <= st.d
    ensures var out, r := Lanes(Window(st.mem, st.s, 4), Window(st.mem, st.d, 4), b, st.c, WORD32).limbs, Run(st, b, HUIT, WORD32).mem;
            r[st.d] == out[0] && r[st.d + 1] == out[1]
  {
    FirstStored(st, b, HUIT);
    FirstLanes(Window(st.mem, st.s, 4), Window(st.mem, st.d, 4), b, st.c);
  }

  lemma EarlyRead(st: State, b: nat, i: nat)
    requires InBounds(st, HUIT) && i < 7 && (i < 4 || st.s + i != st.d)
    ensures Sse2Reads(st, b)[i] == st.mem[st.s + i]
  {
  }

  lemma LateReads(st: State, b: nat)
    requires InBounds(st, HUIT) && st.s + 6 <= st.d
    ensures var out := Lanes(Window(st.mem, st.s, 4), Window(st.mem, st.d, 4), b, st.c, WORD32).limbs;
            && Sse2Reads(st, b)[6] == (if st.s + 6 == st.d then out[0] else st.mem[st.s + 6])
            && Sse2Reads(st, b)[7] == (if st.s + 6 == st.d then out[1] else if st.s + 7 == st.d then out[0] else st.mem[st.s + 7])
  {
  }

  lemma ReadsAgree(st: State, b: nat)
    requires InBounds(st, HUIT) && Reorderable(st.s, st.d)
    ensures Sse2Reads(st, b) == SourceRead(st, b, HUIT, WORD32)
  {
    var xs, ys := Sse2Reads(st, b), SourceRead(st, b, HUIT, WORD32);
    if st.d <= st.s {
      assert xs == Window(st.mem, st.s, HUIT);
    } else {
      var r := Run(st, b, HUIT, WORD32).mem;
      RunFrame(st, b, HUIT, WORD32);
      EarlyStores(st, b);
      LateReads(st, b);
      forall i: nat | i < HUIT
        ensures xs[i] == ys[i]
      {
        assert ys[i] == r[st.s + i];
        if i < 6 {
          EarlyRead(st, b, i);
        }
      }
      assert xs == ys;
    }
  }

  lemma Sse2IsEightSteps(st: State, b: nat)
    requires InBounds(st, HUIT) && Reorderable(st.s, st.d)
    ensures Sse2Block(st, b) == Run(st, b, HUIT, WORD32)
  {
    ReadsAgree(st, b);
    SameReads(st, b);
  }

  lemma ReadsAreLimbs(st: State, b: nat)
    requires InBounds(st, HUIT) && Limbs(st.mem, WORD32)
    ensures Limbs(Sse2Reads(st, b), WORD32)
  {
    LanesLimbs(Window(st.mem, st.s, 4), Window(st.mem, st.d, 4), b, st.c, WORD32);
  }

  lemma SameSplice(m: seq<nat>, p: int, v: seq<nat>, w: seq<nat>)
    requires 0 <= p && p + |v| <= |m| && |v| == |w|
    requires Splice(m, p, v) == Splice(m, p, w)
    ensures v == w
  {
    WindowOfSplice(m, p, v);
    WindowOfSplice(m, p, w);
  }

  /** Equal memory, equal limbs read. */
  lemma SameResult(st: State)
    requires InBounds(st, HUIT) && Limbs(st.mem, WORD32) && st.c < WORD32
    requires Sse2Block(st, 1).mem == Run(st, 1, HUIT, WORD32).mem
    ensures Sse2Reads(st, 1) == SourceRead(st, 1, HUIT, WORD32)
  {
    hide Sse2Block, Sse2Reads, SourceRead, Lanes, Run, Splice, Window;
    var n: nat := HUIT;
    var xs, ys, zs := Sse2Reads(st, 1), SourceRead(st, 1, n, WORD32), Window(st.mem, st.d, n);
    BlockIsSplice(st, 1);
    RunIsSplice(st, 1, n, WORD32);
    ReadsAreLimbs(st, 1);
    SourceIsLimbs(st, 1, n);
    SameSplice(st.mem, st.d, Lanes(xs, zs, 1, st.c, WORD32).limbs, Lanes(ys, zs, 1, st.c, WORD32).limbs);
    LanesInjective(xs, ys, zs, st.c, WORD32);
  }

  lemma BlockIsSplice(st: State, b: nat)
    requires InBounds(st, HUIT)
    ensures var out := Lanes(Sse2Reads(st, b), Window(st.mem, st.d, HUIT), b, st.c, WORD32);
            Sse2Block(st, b).mem == Splice(st.mem, st.d, out.limbs)
  {
  }

  lemma SourceIsLimbs(st: State, b: nat, n: nat)
    requires InBounds(st, n) && Limbs(st.mem, WORD32) && b < WORD32 && st.c < WORD32
    ensures Limbs(SourceRead(st, b, n, WORD32), WORD32)
  {
    RunKeepsWords(st, b, n, WORD32 - 1, WORD32);
  }

  /** In every other layout some memory shows the reordering. */
  lemma ReorderingSeen(size: nat, s: nat, d: nat)
    requires d + HUIT <= size && !Reorderable(s, d)
    ensures var st := State(Spike(size, if d < s + 4 then s else s + 1), s, d, 0);
            Sse2Block(st, 1).mem != Run(st, 1, HUIT, WORD32).mem
  {
    var j := if d < s + 4 then 0 else 1;
    var st := State(Spike(size, s + j), s, d, 0);
    FirstStored(st, 1, HUIT);
    LimbIs(1, 1, 0, 0, 1, 0, WORD32);
    LimbIs(0, 1, 0, 0, 0, 0, WORD32);
    EarlyRead(st, 1, d + j - s);
    assert SourceRead(st, 1, HUIT, WORD32)[d + j - s] == Run(st, 1, HUIT, WORD32).mem[d + j] == 1;
    assert Limbs(st.mem, WORD32);
    if Sse2Block(st, 1).mem == Run(st, 1, HUIT, WORD32).mem {
      SameResult(st);
      assert false;
    }
  }

  /** The block is eight plain steps on every memory, multiplier and carry if and only if `d` is
      not after `s`, or is at least six limbs after it. */
  lemma ReorderingIsExact(size: nat, s: nat, d: nat)
    requires s + HUIT <= size && d + HUIT <= size
    ensures (forall m: seq<nat>, b: nat, c: nat :: |m| == size && Limbs(m, WORD32) && b < WORD32 && c < WORD32 ==>
               Sse2Block(State(m, s, d, c), b) == Run(State(m, s, d, c), b, HUIT, WORD32))
            <==> Reorderable(s, d)
  {
    if Reorderable(s, d) {
      forall m: seq<nat>, b: nat, c: nat | |m| == size && Limbs(m, WORD32) && b < WORD32 && c < WORD32
        ensures Sse2Block(State(m, s, d, c), b) == Run(State(m, s, d, c), b, HUIT, WORD32)
      {
        Sse2IsEightSteps(State(m, s, d, c), b);
      }
    } else {
      ReorderingSeen(size, s, d);
      assert Limbs(Spike(size, if d < s + 4 then s else s + 1), WORD32);
    }
  }

  // ----- what a run of cores and blocks does -----

  /** What one core or one eight-limb block does. */
  function AfterBlock(st: State, b: nat, block: Block): (r: State)
    requires InBounds(st, Size(block))
    ensures |r.mem| == |st.mem| && r.s == st.s + Size(block) && r.d == st.d + Size(block)
  {
    if block == One then Step(st, b, WORD32) else Sse2Block(st, b)
  }

  /** The blocks one after another, each as its own form does it. */
  function RunBlocks(st: State, b: nat, blocks: seq<Block>): (r: State)
    requires InBounds(st, LimbCount(blocks))
    ensures |r.mem| == |st.mem|
    decreases |blocks|
  {
    if blocks == [] then st else RunBlocks(AfterBlock(st, b, blocks[0]), b, blocks[1..])
  }

  lemma RunBlocksFrom(st: State, b: nat, blocks: seq<Block>, i: nat)
    requires i < |blocks| && InBounds(st, LimbCount(blocks[i..]))
    ensures InBounds(AfterBlock(st, b, blocks[i]), LimbCount(blocks[i + 1..]))
    ensures RunBlocks(st, b, blocks[i..]) == RunBlocks(AfterBlock(st, b, blocks[i]), b, blocks[i + 1..])
  {
    assert blocks[i..][1..] == blocks[i + 1..];
  }

  /** A run of blocks may be cut anywhere, and the shortest ones are the core and the block. */
  lemma {:induction false} BlocksAppend(st: State, b: nat, xs: seq<Block>, ys: seq<Block>)
    requires InBounds(st, LimbCount(xs) + LimbCount(ys))
    ensures LimbCount(xs + ys) == LimbCount(xs) + LimbCount(ys) && InBounds(RunBlocks(st, b, xs), LimbCount(ys))
    ensures RunBlocks(st, b, xs + ys) == RunBlocks(RunBlocks(st, b, xs), b, ys)
    decreases |xs|
  {
    if xs == [] {
      assert xs + ys == ys;
    } else {
      assert (xs + ys)[1..] == xs[1..] + ys;
      BlocksAppend(AfterBlock(st, b, xs[0]), b, xs[1..], ys);
    }
  }

  lemma ShortestRuns(st: State, b: nat)
    ensures InBounds(st, 1) ==> RunBlocks(st, b, [One]) == Step(st, b, WORD32)
    ensures InBounds(st, HUIT) ==> RunBlocks(st, b, [Eight]) == Sse2Block(st, b)
  {
    hide Step, Sse2Block;
    assert LimbCount([One]) == 1 && LimbCount([Eight]) == HUIT;
  }

  /** A block writes its destination limbs. */
  lemma BlockFrame(st: State, b: nat, block: Block)
    requires InBounds(st, Size(block))
    ensures var r := AfterBlock(st, b, block);
            forall j :: 0 <= j < |st.mem| && !(st.d <= j < r.d) ==> r.mem[j] == st.mem[j]
  {
  }

  /** The limbs before the destination are not written. */
  lemma {:induction false} BlocksFrame(st: State, b: nat, blocks: seq<Block>)
    requires InBounds(st, LimbCount(blocks))
    ensures forall j :: 0 <= j < st.d ==> RunBlocks(st, b, blocks).mem[j] == st.mem[j]
    decreases |blocks|
  {
    if blocks != [] {
      hide AfterBlock;
      BlockFrame(st, b, blocks[0]);
      BlocksFrame(AfterBlock(st, b, blocks[0]), b, blocks[1..]);
    }
  }

  lemma BlockIsRun(st: State, b: nat, block: Block)
    requires InBounds(st, Size(block)) && (Reorderable(st.s, st.d) || block == One)
    ensures AfterBlock(st, b, block) == Run(st, b, Size(block), WORD32)
  {
    if block == One {
      OneIsStep(st, b, WORD32);
    } else {
      Sse2IsEightSteps(st, b);
    }
  }

  /** Where reordering cannot be seen, or without eight-limb blocks, the way a run is cut is of no
      consequence. */
  lemma {:induction false} BlocksAreRun(st: State, b: nat, blocks: seq<Block>)
    requires InBounds(st, LimbCount(blocks)) && (Reorderable(st.s, st.d) || Eight !in blocks)
    ensures RunBlocks(st, b, blocks) == Run(st, b, LimbCount(blocks), WORD32)
    decreases |blocks|
  {
    hide AfterBlock, Run, Size;
    if blocks == [] {
      NoneIsNothing(st, b, WORD32);
    } else {
      var n, rest, next := Size(blocks[0]), blocks[1..], AfterBlock(st, b, blocks[0]);
      BlockIsRun(st, b, blocks[0]);
      BlocksAreRun(next, b, rest);
      RunSplit(st, b, n, LimbCount(rest), WORD32);
    }
  }

  /** A core with `b == 1` that reads zero changes nothing. */
  lemma ZeroStep(m: seq<nat>, s: nat, d: nat)
    requires s < |m| && d < |m| && m[s] == 0 && m[d] < WORD32
    ensures AfterBlock(State(m, s, d, 0), 1, One) == State(m, s + 1, d + 1, 0)
  {
    LimbIs(0, 1, m[d], 0, m[d], 0, WORD32);
  }

  /** A spike that the source pointer has not come to is left alone. */
  lemma SpikeStays(size: nat, at: nat, s: nat, d: nat)
    requires s < at && s < size && d < size
    ensures AfterBlock(State(Spike(size, at), s, d, 0), 1, One) == State(Spike(size, at), s + 1, d + 1, 0)
  {
    hide AfterBlock;
    ZeroStep(Spike(size, at), s, d);
  }

  /** A difference before the destination is still there at the end. */
  lemma DifferenceStays(x: State, y: State, b: nat, blocks: seq<Block>, j: nat)
    requires InBounds(x, LimbCount(blocks)) && InBounds(y, LimbCount(blocks)) && |x.mem| == |y.mem|
    requires j < x.d == y.d && x.mem[j] != y.mem[j]
    ensures RunBlocks(x, b, blocks) != Run(y, b, LimbCount(blocks), WORD32)
  {
    BlocksFrame(x, b, blocks);
    RunFrame(y, b, LimbCount(blocks), WORD32);
  }

  /** A difference made by the first block is still there at the end. */
  lemma BlockDiffers(st: State, b: nat, rest: seq<Block>)
    requires InBounds(st, Size(Eight) + LimbCount(rest))
    requires AfterBlock(st, b, Eight).mem != Run(st, b, Size(Eight), WORD32).mem
    ensures RunBlocks(AfterBlock(st, b, Eight), b, rest) != Run(st, b, Size(Eight) + LimbCount(rest), WORD32)
  {
    var n := Size(Eight);
    hide AfterBlock, Run, RunBlocks, LimbCount, Size;
    var x, y := AfterBlock(st, b, Eight), Run(st, b, n, WORD32);
    BlockFrame(st, b, Eight);
    RunFrame(st, b, n, WORD32);
    RunSplit(st, b, n, LimbCount(rest), WORD32);
    var j :| 0 <= j < |st.mem| && x.mem[j] != y.mem[j];
    DifferenceStays(x, y, b, rest, j);
  }

  lemma EightSeen(size: nat, s: nat, d: nat)
    requires d + HUIT <= size && !Reorderable(s, d)
    ensures var st := State(Spike(size, if d < s + 4 then s else s + 1), s, d, 0);
            AfterBlock(st, 1, Eight).mem != Run(st, 1, Size(Eight), WORD32).mem
  {
    ReorderingSeen(size, s, d);
  }

  /** The limb that shows the reordering in the first eight-limb block of a run. */
  function Witness(s: nat, d: nat, blocks: seq<Block>): (at: nat)
    requires Eight in blocks
    ensures s <= at
    decreases |blocks|
  {
    if blocks[0] == Eight then if d < s + 4 then s else s + 1
    else Witness(s + 1, d + 1, blocks[1..])
  }

  /** In every other layout some memory shows that the limbs were cut into blocks. */
  lemma {:induction false} CuttingSeen(size: nat, s: nat, d: nat, blocks: seq<Block>)
    requires s + LimbCount(blocks) <= size && d + LimbCount(blocks) <= size
    requires !Reorderable(s, d) && Eight in blocks
    ensures var st := State(Spike(size, Witness(s, d, blocks)), s, d, 0);
            RunBlocks(st, 1, blocks) != Run(st, 1, LimbCount(blocks), WORD32)
    decreases |blocks|
  {
    hide Run, AfterBlock, Spike;
    var at, block, rest := Witness(s, d, blocks), blocks[0], blocks[1..];
    var st := State(Spike(size, at), s, d, 0);
    if block == Eight {
      EightSeen(size, s, d);
      BlockDiffers(st, 1, rest);
    } else {
      CuttingSeen(size, s + 1, d + 1, rest);
      SpikeStays(size, at, s, d);
      CoreThenRun(st, 1, rest);
    }
    assert RunBlocks(st, 1, blocks) == RunBlocks(AfterBlock(st, 1, block), 1, rest);
  }

  /** A core before the other blocks is a step before the rest of the run. */
  lemma CoreThenRun(st: State, b: nat, rest: seq<Block>)
    requires InBounds(st, Size(One) + LimbCount(rest))
    ensures Run(st, b, Size(One) + LimbCount(rest), WORD32) == Run(AfterBlock(st, b, One), b, LimbCount(rest), WORD32)
  {
    BlockIsRun(st, b, One);
    RunSplit(st, b, Size(One), LimbCount(rest), WORD32);
  }

  /** For given pointers and a given way of cutting a run, the result is that of the plain run on
      every memory, multiplier and carry if and only if the reordering cannot be seen or there is
      no eight-limb block. */
  lemma CuttingIsExact(size: nat, s: nat, d: nat, blocks: seq<Block>)
    requires s + LimbCount(blocks) <= size && d + LimbCount(blocks) <= size
    ensures (forall m: seq<nat>, b: nat, c: nat :: |m| == size && Limbs(m, WORD32) && b < WORD32 && c < WORD32 ==>
               RunBlocks(State(m, s, d, c), b, blocks) == Run(State(m, s, d, c), b, LimbCount(blocks), WORD32))
            <==> Reorderable(s, d) || Eight !in blocks
  {
    if Reorderable(s, d) || Eight !in blocks {
      forall m: seq<nat>, b: nat, c: nat | |m| == size && Limbs(m, WORD32) && b < WORD32 && c < WORD32
        ensures RunBlocks(State(m, s, d, c), b, blocks) == Run(State(m, s, d, c), b, LimbCount(blocks), WORD32)
      {
        BlocksAreRun(State(m, s, d, c), b, blocks);
      }
    } else {
      CuttingSeen(size, s, d, blocks);
      assert Limbs(Spike(size, Witness(s, d, blocks)), WORD32);
    }
  }

  // ----- the instructions -----

  /** `paddq`: a 64-bit lane sum. */
  function Paddq(x: nat, y: nat): (r: nat) { (x + y) % WORD64 }

  /** `pmuludq`: the 64-bit product of two low halves. */
  function Pmuludq(x: nat, y: nat): (r: nat) { ((x % WORD32) * (y % WORD32)) % WORD64 }

  /** `movd` to memory. */
  function Low(x: nat): (r: nat) { x % WORD32 }

  /** `psrlq $32`. */
  function High(x: nat): (r: nat) { x / WORD32 }

  /** No lane sum of the block overflows 64 bits, in whichever order its terms are added. */
  lemma LaneFits(x: nat, z: nat, b: nat, c: nat)
    requires x < WORD32 && z < WORD32 && b < WORD32 && c < WORD32
    ensures Pmuludq(x, b) == x * b
    ensures Paddq(z, x * b) == Paddq(x * b, z) == z + x * b
    ensures Paddq(c, z + x * b) == Paddq(c + z, x * b) == x * b + z + c < WORD64
    ensures Paddq(c, z) == c + z
    ensures CarryOut(x, b, z, c, WORD32) < WORD32
  {
    CarryIsWord(x, b, z, c, WORD32);
    ProductFits(x, b);
    hide Pmuludq, CarryOut;
    SumsFit(x * b, z, c);
  }

  lemma ProductFits(x: nat, b: nat)
    requires x < WORD32 && b < WORD32
    ensures Pmuludq(x, b) == x * b <= 0xffff_ffff * 0xffff_ffff
  {
    ProductBound(x, b, WORD32);
    assert x % WORD32 == x && b % WORD32 == b;
    SplitUnique(x * b, x * b, 0, WORD64);
  }

  lemma SumsFit(p: nat, z: nat, c: nat)
    requires p <= 0xffff_ffff * 0xffff_ffff && z < WORD32 && c < WORD32
    ensures Paddq(z, p) == Paddq(p, z) == z + p && Paddq(c, z) == c + z
    ensures Paddq(c, z + p) == Paddq(c + z, p) == p + z + c < WORD64
  {
  }

  /** The running sums of a block: source limbs, destination limbs, multiplier and carry. */
  datatype Sums = Sums(xs: seq<nat>, zs: seq<nat>, b: nat, c: nat) {
    predicate Sized() {
      |xs| == |zs| == HUIT
    }

    predicate Valid() {
      Sized() && Limbs(xs, WORD32) && Limbs(zs, WORD32) && b < WORD32 && c < WORD32
    }

    /** Product and destination limb of lane `i`. */
    function Term(i: nat): (r: nat)
      requires Sized() && i < HUIT
    {
      Paddq(zs[i], Pmuludq(xs[i], b))
    }

    /** What `mm1` holds when result limb `i` is stored from it. */
    function Sum(i: nat): (r: nat)
      requires Sized() && i < HUIT
    {
      if i == 0 then Paddq(Paddq(c, zs[0]), Pmuludq(xs[0], b)) else Paddq(High(Sum(i - 1)), Term(i))
    }

    ghost function All(): (r: seq<nat>)
      requires Sized()
      ensures |r| == HUIT && forall i :: 0 <= i < HUIT ==> r[i] == Sum(i)
    {
      seq(HUIT, (i: nat) requires i < HUIT => Sum(i))
    }
  }

  lemma SumStep(x: nat, z: nat, b: nat, c: nat)
    requires x < WORD32 && z < WORD32 && b < WORD32 && c < WORD32
    ensures var t := Paddq(c, Paddq(z, Pmuludq(x, b)));
            && t == Paddq(Paddq(c, z), Pmuludq(x, b)) == x * b + z + c
            && Low(t) == LimbOut(x, b, z, c, WORD32) && High(t) == CarryOut(x, b, z, c, WORD32) < WORD32
  {
    LaneFits(x, z, b, c);
  }

  /** The carry that travels in the high half of `mm1` is the carry of the plain steps. */
  lemma {:induction false} LanesOfSums(s: Sums, n: nat)
    requires s.Valid() && n <= HUIT
    ensures var r := Lanes(s.xs[..n], s.zs[..n], s.b, s.c, WORD32);
            && (forall i :: 0 <= i < n ==> r.limbs[i] == Low(s.Sum(i)))
            && r.carry == (if n == 0 then s.c else High(s.Sum(n - 1))) < WORD32
  {
    if n == 0 {
    } else {
      LanesOfSums(s, n - 1);
      var x, z, k := s.xs[n - 1], s.zs[n - 1], Lanes(s.xs[..n - 1], s.zs[..n - 1], s.b, s.c, WORD32).carry;
      LanesSnoc(s.xs[..n - 1], x, s.zs[..n - 1], z, s.b, s.c, WORD32);
      assert s.xs[..n] == s.xs[..n - 1] + [x] && s.zs[..n] == s.zs[..n - 1] + [z];
      SumStep(x, z, s.b, k);
    }
  }

  /** The first two stores of the block are those that `Sse2Reads` supposes. */
  lemma FirstSums(st: State, b: nat)
    requires InBounds(st, HUIT) && Limbs(st.mem, WORD32) && b < WORD32 && st.c < WORD32
    ensures var s := BlockSums(st, b);
            && s.Valid()
            && var m1: seq<nat> := st.mem[st.d := Low(s.Sum(0))];
               var m2 := m1[st.d + 1 := Low(s.Sum(1))];
               s.xs == Window(st.mem, st.s, 4) + [m1[st.s + 4], m1[st.s + 5], m1[st.s + 6], m2[st.s + 7]]
  {
    var s := BlockSums(st, b);
    ReadsAreLimbs(st, b);
    LanesOfSums(s, 2);
    FirstLanes(s.xs[..2], s.zs[..2], b, st.c);
    FirstLanes(Window(st.mem, st.s, 4), Window(st.mem, st.d, 4), b, st.c);
  }

  /** The sums of the block that starts in `st`. */
  function BlockSums(st: State, b: nat): (s: Sums)
    requires InBounds(st, HUIT)
    ensures s.Sized()
  {
    Sums(Sse2Reads(st, b), Window(st.mem, st.d, HUIT), b, st.c)
  }

  lemma EarlySums(st: State, b: nat)
    requires InBounds(st, HUIT) && Limbs(st.mem, WORD32) && b < WORD32 && st.c < WORD32
    ensures var m, s, d, sums := st.mem, st.s, st.d, BlockSums(st, b).All();
            && sums[0] == Paddq(Paddq(st.c, m[d]), Pmuludq(m[s], b))
            && sums[1] == Paddq(High(sums[0]), Paddq(m[d + 1], Pmuludq(m[s + 1], b)))
            && sums[2] == Paddq(High(sums[1]), Paddq(m[d + 2], Pmuludq(m[s + 2], b)))
            && sums[3] == Paddq(High(sums[2]), Paddq(Pmuludq(m[s + 3], b), m[d + 3]))
  {
    BlockOperands(st, b);
    SumChain(BlockSums(st, b), 1);
    SumChain(BlockSums(st, b), 2);
    SumChain(BlockSums(st, b), 3);
  }

  lemma LateSums(st: State, b: nat)
    requires InBounds(st, HUIT) && Limbs(st.mem, WORD32) && b < WORD32 && st.c < WORD32
    ensures var m, s, d, sums := st.mem, st.s, st.d, BlockSums(st, b).All();
            var m1: seq<nat> := m[d := Low(sums[0])];
            var m2 := m1[d + 1 := Low(sums[1])];
            && sums[4] == Paddq(High(sums[3]), Paddq(Pmuludq(m1[s + 4], b), m[d + 4]))
            && sums[5] == Paddq(High(sums[4]), Paddq(Pmuludq(m1[s + 5], b), m[d + 5]))
            && sums[6] == Paddq(High(sums[5]), Paddq(Pmuludq(m1[s + 6], b), m[d + 6]))
            && sums[7] == Paddq(High(sums[6]), Paddq(Pmuludq(m2[s + 7], b), m[d + 7]))
  {
    BlockOperands(st, b);
    SumChain(BlockSums(st, b), 4);
    SumChain(BlockSums(st, b), 5);
    SumChain(BlockSums(st, b), 6);
    SumChain(BlockSums(st, b), 7);
  }

  lemma SumChain(s: Sums, i: nat)
    requires s.Sized() && i < HUIT
    ensures s.All()[0] == Paddq(Paddq(s.c, s.zs[0]), Pmuludq(s.xs[0], s.b))
    ensures 0 < i ==> s.All()[i] == Paddq(High(s.All()[i - 1]), Paddq(s.zs[i], Pmuludq(s.xs[i], s.b)))
    ensures 0 < i ==> s.All()[i] == Paddq(High(s.All()[i - 1]), Paddq(Pmuludq(s.xs[i], s.b), s.zs[i]))
  {
    assert s.All()[i] == s.Sum(i) && s.All()[0] == s.Sum(0);
    if 0 < i {
      assert s.All()[i - 1] == s.Sum(i - 1);
    }
  }

  /** Which limbs the lanes of a block multiply and add. */
  lemma BlockOperands(st: State, b: nat)
    requires InBounds(st, HUIT) && Limbs(st.mem, WORD32) && b < WORD32 && st.c < WORD32
    ensures var m, s, d, lanes := st.mem, st.s, st.d, BlockSums(st, b);
            var m1: seq<nat> := m[d := Low(lanes.All()[0])];
            var m2 := m1[d + 1 := Low(lanes.All()[1])];
            && lanes.xs == [m[s], m[s + 1], m[s + 2], m[s + 3], m1[s + 4], m1[s + 5], m1[s + 6], m2[s + 7]]
            && lanes.zs == [m[d], m[d + 1], m[d + 2], m[d + 3], m[d + 4], m[d + 5], m[d + 6], m[d + 7]]
            && lanes.b == b && lanes.c == st.c
  {
    FirstSums(st, b);
    assert BlockSums(st, b).All()[0] == BlockSums(st, b).Sum(0);
    assert BlockSums(st, b).All()[1] == BlockSums(st, b).Sum(1);
  }

  /** The low halves of the first `n` sums have been stored over the memory `m`, from `d` on, and
      nothing else has; `now` is the memory. */
  ghost predicate Stored(m: seq<nat>, now: seq<nat>, d: int, sums: seq<nat>, n: nat)
    requires n <= |sums|
  {
    && |now| == |m| && 0 <= d && d + |sums| <= |m|
    && (forall i :: 0 <= i < n ==> now[d + i] == Low(sums[i]))
    && (forall j :: 0 <= j < |m| && !(d <= j < d + n) ==> now[j] == m[j])
  }

  /** The memory after the last store, and the carry in the last sum, are the block's. */
  lemma StoredIsBlock(st: State, b: nat, mem: seq<nat>)
    requires InBounds(st, HUIT) && Limbs(st.mem, WORD32) && b < WORD32 && st.c < WORD32
    requires Stored(st.mem, mem, st.d, BlockSums(st, b).All(), HUIT)
    ensures Sse2Block(st, b) == State(mem, st.s + 8, st.d + 8, High(BlockSums(st, b).All()[7]))
  {
    var lanes := BlockSums(st, b);
    FirstSums(st, b);
    LanesOfSums(lanes, HUIT);
    var out := Lanes(lanes.xs, lanes.zs, b, st.c, WORD32);
    assert lanes.xs[..HUIT] == lanes.xs && lanes.zs[..HUIT] == lanes.zs;
    assert lanes.All()[7] == lanes.Sum(7);
    forall i | 0 <= i < HUIT
      ensures Window(mem, st.d, HUIT)[i] == out.limbs[i]
    {
      assert mem[st.d + i] == Low(lanes.All()[i]) == Low(lanes.Sum(i));
    }
    assert Window(mem, st.d, HUIT) == out.limbs;
    SpliceWindow(st.mem, mem, st.d, HUIT);
  }

  lemma BlockKeepsWords(st: State, b: nat)
    requires InBounds(st, HUIT) && Limbs(st.mem, WORD32) && b < WORD32 && st.c < WORD32
    ensures Limbs(Sse2Block(st, b).mem, WORD32) && Sse2Block(st, b).c < WORD32
  {
    var xs, zs := Sse2Reads(st, b), Window(st.mem, st.d, HUIT);
    ReadsAreLimbs(st, b);
    LanesLimbs(xs, zs, b, st.c, WORD32);
    LanesCarry(xs, zs, b, st.c, WORD32);
  }

  // ----- the machine -----

  class Machine {
    const mem: array<nat>
    var ebx: nat
    var ecx: nat
    var esi: int
    var edi: int

    constructor (mem: array<nat>)
      ensures this.mem == mem
    {
      this.mem := mem;
    }

    /** The abstract state: the carry is in `ecx`. */
    ghost function St(): (st: State)
      reads this, mem
    {
      State(mem[..], esi, edi, ecx)
    }

    ghost predicate Valid()
      reads this, mem
    {
      Limbs(mem[..], WORD32) && ebx < WORD32 && ecx < WORD32
    }

    method Init(s: nat, d: nat, c: nat, b: nat)
      requires Limbs(mem[..], WORD32) && b < WORD32 && c < WORD32
      modifies this
      ensures Valid() && St() == State(old(mem[..]), s, d, c) && ebx == b
    {
      esi := s;
      edi := d;
      ecx := c;
      ebx := b;
    }

    method Core()
      requires Valid() && InBounds(St(), 1)
      modifies this, mem
      ensures Valid() && ebx == old(ebx)
      ensures St() == Step(old(St()), ebx, WORD32)
    {
      ghost var x, z, c := mem[esi], mem[edi], ecx;
      MulSplit(x, ebx, WORD32);
      var eax := mem[esi];
      esi := esi + 1;
      var edx;
      eax, edx := MulLo(eax, ebx, WORD32), MulHi(eax, ebx, WORD32);
      ghost var lo, hi := eax, edx;
      var cf;
      AddSplit(eax, ecx, 0, WORD32);
      eax, cf := AddLo(eax, ecx, 0, WORD32), AddHi(eax, ecx, 0, WORD32);
      ghost var l1, k1 := eax, cf;
      NoWrap(edx, cf, WORD32);
      edx := AddLo(edx, 0, cf, WORD32);
      AddSplit(eax, mem[edi], 0, WORD32);
      eax, cf := AddLo(eax, mem[edi], 0, WORD32), AddHi(eax, mem[edi], 0, WORD32);
      TwoAdds(x, ebx, z, c, lo, hi, l1, k1, eax, cf, WORD32);
      CarryIsWord(x, ebx, z, c, WORD32);
      NoWrap(edx, cf, WORD32);
      edx := AddLo(edx, 0, cf, WORD32);
      ecx := edx;
      mem[edi] := eax;
      edi := edi + 1;
    }

    /** The eight-limb block. Its instructions, in the order of the source, are in the five
        parts below, cut where the fewest registers are live. */
    method Huit()
      requires Valid() && InBounds(St(), HUIT)
      modifies this, mem
      ensures Valid() && ebx == old(ebx)
      ensures St() == Sse2Block(old(St()), ebx)
    {
      ghost var st, b := St(), ebx;
      ghost var sums := BlockSums(st, b).All();
      hide BlockSums, Sse2Block, Stored;
      var mm0, mm1, mm3, mm5, mm7 := HuitLoads(st, sums);
      var mm2, mm4, mm6;
      mm1, mm2, mm4, mm6 := HuitFirstTwo(mm0, mm1, mm3, st, sums);
      mm1, mm2, mm3, mm4 := HuitNextTwo(mm0, mm1, mm2, mm4, mm5, mm7, st, sums);
      mm1, mm6, mm3 := HuitThirdTwo(mm1, mm2, mm4, mm6, mm3, st, sums);
      HuitLastTwo(mm1, mm6, mm3, st, sums);
    }

    /** The block that started in `st` is under way and its sums are `sums`. */
    ghost predicate InBlock(st: State, sums: seq<nat>)
      reads this
    {
      && InBounds(st, HUIT) && Limbs(st.mem, WORD32) && ebx < WORD32 && st.c < WORD32
      && mem.Length == |st.mem| && esi == st.s && edi == st.d
      && sums == BlockSums(st, ebx).All()
    }

    /** Lines 82 to 100: everything that is loaded before the first store. */
    method HuitLoads(ghost st: State, ghost sums: seq<nat>) returns (mm0: nat, mm1: nat, mm3: nat, mm5: nat, mm7: nat)
      requires InBlock(st, sums) && mem[..] == st.mem && ecx == st.c
      ensures mm0 == ebx && mm1 == sums[0] && sums[1] == Paddq(High(sums[0]), mm3)
      ensures sums[2] == Paddq(High(sums[1]), mm5) && sums[3] == Paddq(High(sums[2]), mm7)
    {
      EarlySums(st, ebx);
      var mm2, mm4, mm6;
      mm1 := ecx;
      mm0 := ebx;
      mm3 := mem[edi];
      mm1 := Paddq(mm1, mm3);
      mm2 := mem[esi];
      mm2 := Pmuludq(mm2, mm0);
      mm4 := mem[esi + 1];
      mm4 := Pmuludq(mm4, mm0);
      mm6 := mem[esi + 2];
      mm6 := Pmuludq(mm6, mm0);
      mm7 := mem[esi + 3];
      mm7 := Pmuludq(mm7, mm0);
      mm1 := Paddq(mm1, mm2);
      mm3 := mem[edi + 1];
      mm3 := Paddq(mm3, mm4);
      mm5 := mem[edi + 2];
      mm5 := Paddq(mm5, mm6);
      mm4 := mem[edi + 3];
      mm7 := Paddq(mm7, mm4);
    }

    /** Lines 101 to 111: two stores, and the loads of source limbs 4 to 6 between them. */
    method HuitFirstTwo(mm0: nat, in1: nat, mm3: nat, ghost st: State, ghost sums: seq<nat>)
      returns (mm1: nat, mm2: nat, mm4: nat, mm6: nat)
      requires InBlock(st, sums) && mem[..] == st.mem
      requires mm0 == ebx && in1 == sums[0] && sums[1] == Paddq(High(sums[0]), mm3)
      modifies mem
      ensures var m1: seq<nat> := st.mem[edi := Low(sums[0])]; mem[..] == m1[edi + 1 := Low(sums[1])]
      ensures mm1 == High(sums[1])
      ensures sums[4] == Paddq(High(sums[3]), Paddq(mm2, st.mem[edi + 4]))
      ensures sums[5] == Paddq(High(sums[4]), Paddq(mm4, st.mem[edi + 5]))
      ensures sums[6] == Paddq(High(sums[5]), Paddq(mm6, st.mem[edi + 6]))
    {
      LateSums(st, ebx);
      mm1 := in1;
      mem[edi] := Low(mm1);
      ghost var m1: seq<nat> := st.mem[edi := Low(sums[0])];
      assert mem[..] == m1;
      mm2 := mem[esi + 4];
      mm2 := Pmuludq(mm2, mm0);
      mm1 := High(mm1);
      mm4 := mem[esi + 5];
      mm4 := Pmuludq(mm4, mm0);
      mm1 := Paddq(mm1, mm3);
      mm6 := mem[esi + 6];
      mm6 := Pmuludq(mm6, mm0);
      mem[edi + 1] := Low(mm1);
      mm1 := High(mm1);
    }

    /** Lines 112 to 123: the load of source limb 7 and two more stores. */
    method HuitNextTwo(mm0: nat, in1: nat, in2: nat, in4: nat, in5: nat, mm7: nat, ghost st: State, ghost sums: seq<nat>)
      returns (mm1: nat, mm2: nat, mm3: nat, mm4: nat)
      requires InBlock(st, sums) && mm0 == ebx && in1 == High(sums[1])
      requires var m1: seq<nat> := st.mem[edi := Low(sums[0])]; mem[..] == m1[edi + 1 := Low(sums[1])]
      requires sums[2] == Paddq(High(sums[1]), in5) && sums[3] == Paddq(High(sums[2]), mm7)
      requires sums[4] == Paddq(High(sums[3]), Paddq(in2, st.mem[edi + 4]))
      requires sums[5] == Paddq(High(sums[4]), Paddq(in4, st.mem[edi + 5]))
      modifies mem
      ensures Stored(st.mem, mem[..], edi, sums, 4) && mm1 == High(sums[3])
      ensures sums[4] == Paddq(High(sums[3]), mm2) && sums[5] == Paddq(High(sums[4]), mm4)
      ensures sums[7] == Paddq(High(sums[6]), Paddq(mm3, st.mem[edi + 7]))
    {
      LateSums(st, ebx);
      var mm5;
      mm1, mm2, mm4, mm5 := in1, in2, in4, in5;
      mm3 := mem[esi + 7];
      mm3 := Pmuludq(mm3, mm0);
      mm1 := Paddq(mm1, mm5);
      mm5 := mem[edi + 4];
      mm2 := Paddq(mm2, mm5);
      mem[edi + 2] := Low(mm1);
      mm1 := High(mm1);
      mm1 := Paddq(mm1, mm7);
      mm5 := mem[edi + 5];
      mm4 := Paddq(mm4, mm5);
      mem[edi + 3] := Low(mm1);
      mm1 := High(mm1);
    }

    /** Lines 124 to 133: two more stores. */
    method HuitThirdTwo(in1: nat, mm2: nat, mm4: nat, in6: nat, in3: nat, ghost st: State, ghost sums: seq<nat>)
      returns (mm1: nat, mm6: nat, mm3: nat)
      requires InBlock(st, sums) && Stored(st.mem, mem[..], edi, sums, 4) && in1 == High(sums[3])
      requires sums[4] == Paddq(High(sums[3]), mm2) && sums[5] == Paddq(High(sums[4]), mm4)
      modifies mem
      ensures Stored(st.mem, mem[..], edi, sums, 6) && mm1 == High(sums[5])
      ensures mm6 == Paddq(in6, st.mem[edi + 6]) && mm3 == Paddq(in3, st.mem[edi + 7])
    {
      ghost var m := st.mem;
      var mm5;
      mm1, mm3, mm6 := in1, in3, in6;
      mm1 := Paddq(mm1, mm2);
      mm5 := mem[edi + 6];
      mm6 := Paddq(mm6, mm5);
      mem[edi + 4] := Low(mm1);
      mm1 := High(mm1);
      mm1 := Paddq(mm1, mm4);
      mm5 := mem[edi + 7];
      mm3 := Paddq(mm3, mm5);
      mem[edi + 5] := Low(mm1);
      mm1 := High(mm1);
    }

    /** Lines 134 to 142: the last two stores; the pointers advance and the carry is left in `ecx`. */
    method HuitLastTwo(in1: nat, mm6: nat, mm3: nat, ghost st: State, ghost sums: seq<nat>)
      requires InBlock(st, sums) && Stored(st.mem, mem[..], edi, sums, 6) && in1 == High(sums[5])
      requires sums[6] == Paddq(High(sums[5]), mm6) && sums[7] == Paddq(High(sums[6]), mm3)
      modifies this, mem
      ensures Valid() && ebx == old(ebx) && St() == Sse2Block(st, ebx)
    {
      var mm1 := in1;
      mm1 := Paddq(mm1, mm6);
      mem[edi + 6] := Low(mm1);
      mm1 := High(mm1);
      mm1 := Paddq(mm1, mm3);
      mem[edi + 7] := Low(mm1);
      edi := edi + 8;
      esi := esi + 8;
      mm1 := High(mm1);
      ecx := mm1;
      StoredIsBlock(st, ebx, mem[..]);
      BlockKeepsWords(st, ebx);
    }

    method PerformAll(blocks: seq<Block>)
      requires Valid() && InBounds(St(), LimbCount(blocks))
      modifies this, mem
      ensures Valid()
      ensures St() == RunBlocks(old(St()), old(ebx), blocks)
    {
      hide Limbs;
      ghost var start, b := St(), ebx;
      CountFrom(blocks, 0);
      for i := 0 to |blocks|
        invariant Valid() && ebx == b && InBounds(St(), LimbCount(blocks[i..]))
        invariant RunBlocks(St(), b, blocks[i..]) == RunBlocks(start, b, blocks)
      {
        CountFrom(blocks, i);
        RunBlocksFrom(St(), b, blocks, i);
        if blocks[i] == One {
          Core();
        } else {
          Huit();
        }
      }
      assert RunBlocks(St(), b, []) == St();
    }

    /** Any sequence of cores and eight-limb blocks between one INIT and one STOP: the result is
        that of the blocks, and by `CuttingIsExact` that of the plain run wherever the way the
        limbs are cut cannot be seen. */
    method Execute(s: nat, d: nat, c: nat, b: nat, blocks: seq<Block>) returns (c': nat, d': int, s': int)
      requires Limbs(mem[..], WORD32) && b < WORD32 && c < WORD32
      requires InBounds(State(mem[..], s, d, c), LimbCount(blocks))
      modifies this, mem
      ensures State(mem[..], s', d', c') == RunBlocks(State(old(mem[..]), s, d, c), b, blocks)
      ensures Reorderable(s, d) || Eight !in blocks ==>
                State(mem[..], s', d', c') == Run(State(old(mem[..]), s, d, c), b, LimbCount(blocks), WORD32)
      ensures Limbs(mem[..], WORD32) && c' < WORD32
    {
      Init(s, d, c, b);
      if Reorderable(s, d) || Eight !in blocks {
        BlocksAreRun(St(), b, blocks);
      }
      PerformAll(blocks);
      c', d', s' := Stop();
    }

    method Stop() returns (c: nat, d: int, s: int)
      ensures State(mem[..], s, d, c) == St()
    {
      c := ecx;
      d := edi;
      s := esi;
    }
  }

}
