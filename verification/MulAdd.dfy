/**
 "Multiply source vector [s] with b, add result to destination vector [d] and set carry c":
 the one job that every form of MULADDC does.

 `Lanes` does it on two separate vectors. `Run` does it limb by limb on one flat memory in
 which the pointers `s` and `d` may be anywhere, so that it also covers `s == d` and
 overlapping vectors. The forms themselves, in the other modules, are proved equal to `Run`.
 Pointers count limbs.
 */
module MulAdd {
  import opened Words
  import opened LimbVectors

  // ----- one limb -----

  /** The limb stored for source limb `x`, destination limb `z` and incoming carry `c`. */
  function LimbOut(x: nat, b: nat, z: nat, c: nat, B: nat): (r: nat)
    requires 0 < B
  {
    (x * b + z + c) % B
  }

  /** The carry handed on. */
  function CarryOut(x: nat, b: nat, z: nat, c: nat, B: nat): (r: nat)
    requires 0 < B
  {
    (x * b + z + c) / B
  }

  /** The two words of a limb's total are determined by what they add up to. */
  lemma LimbIs(x: nat, b: nat, z: nat, c: nat, lo: nat, hi: nat, B: nat)
    requires lo < B && lo + B * hi == x * b + z + c
    ensures LimbOut(x, b, z, c, B) == lo && CarryOut(x, b, z, c, B) == hi
  {
    SplitUnique(x * b + z + c, lo, hi, B);
  }

  /** A carry that is a word stays a word. */
  lemma CarryIsWord(x: nat, b: nat, z: nat, c: nat, B: nat)
    requires x < B && b < B && z < B && c < B
    ensures CarryOut(x, b, z, c, B) < B
  {
    MulAddBound(x, b, z, c, B - 1, B);
  }

  /** The pattern of most forms: a two-word product, then two additions whose carries go to the
      high word. `c` may be split over a register and a flag. */
  lemma TwoAdds(x: nat, b: nat, z: nat, c: nat, lo: nat, hi: nat, l1: nat, k1: nat, l2: nat, k2: nat, B: nat)
    requires lo + B * hi == x * b && l1 + B * k1 == lo + c && l2 + B * k2 == l1 + z && l2 < B
    ensures LimbOut(x, b, z, c, B) == l2 && CarryOut(x, b, z, c, B) == hi + k1 + k2
  {
    Distribute(B, hi + k1, k2);
    Distribute(B, hi, k1);
    LimbIs(x, b, z, c, l2, hi + k1 + k2, B);
  }

  /** One limb in the forms that keep part of the carry in a processor flag: the carry comes in
      as a register `h` plus a flag `f` and goes out as the high word plus a flag. */
  lemma FlagLimb(x: nat, b: nat, z: nat, h: nat, f: nat, B: nat)
    requires 2 <= B && x < B && b < B && z < B && h < B && f <= 1
    ensures var l1, k1 := AddLo(MulLo(x, b, B), h, f, B), AddHi(MulLo(x, b, B), h, f, B);
            var h', f' := AddLo(MulHi(x, b, B), 0, k1, B), AddHi(l1, z, 0, B);
            && AddLo(l1, z, 0, B) == LimbOut(x, b, z, h + f, B) < B
            && h' + f' == CarryOut(x, b, z, h + f, B) && h' < B && f' <= 1 && k1 <= 1
            && AddHi(MulHi(x, b, B), 0, k1, B) == 0
  {
    var lo, hi := MulLo(x, b, B), MulHi(x, b, B);
    MulSplit(x, b, B);
    AddSplit(lo, h, f, B);
    var l1, k1 := AddLo(lo, h, f, B), AddHi(lo, h, f, B);
    AddSplit(l1, z, 0, B);
    AddSplit(hi, 0, k1, B);
    TwoAdds(x, b, z, h + f, lo, hi, l1, k1, AddLo(l1, z, 0, B), AddHi(l1, z, 0, B), B);
  }

  // ----- on vectors -----

  datatype Out = Out(limbs: seq<nat>, carry: nat)

  function Lanes(ss: seq<nat>, ds: seq<nat>, b: nat, c: nat, B: nat): (r: Out)
    requires |ss| == |ds| && 0 < B
    ensures |r.limbs| == |ds|
  {
    if ss == [] then Out([], c)
    else
      var rest := Lanes(ss[1..], ds[1..], b, CarryOut(ss[0], b, ds[0], c, B), B);
      Out([LimbOut(ss[0], b, ds[0], c, B)] + rest.limbs, rest.carry)
  }

  lemma LanesCons(x: nat, xs: seq<nat>, z: nat, zs: seq<nat>, b: nat, c: nat, B: nat)
    requires |xs| == |zs| && 0 < B
    ensures var rest := Lanes(xs, zs, b, CarryOut(x, b, z, c, B), B);
            Lanes([x] + xs, [z] + zs, b, c, B) == Out([LimbOut(x, b, z, c, B)] + rest.limbs, rest.carry)
  {
    assert ([x] + xs)[1..] == xs && ([z] + zs)[1..] == zs;
  }

  /** The vector equation: nothing is lost between the destination and the carry. */
  lemma {:induction false} LanesEquation(ss: seq<nat>, ds: seq<nat>, b: nat, c: nat, B: nat)
    requires |ss| == |ds| && 0 < B
    ensures var r := Lanes(ss, ds, b, c, B);
            Val(r.limbs, B) + Pow(B, |ds|) * r.carry == Val(ds, B) + b * Val(ss, B) + c
  {
    if ss == [] {
    } else {
      var x, z := ss[0], ds[0];
      var lo, k := LimbOut(x, b, z, c, B), CarryOut(x, b, z, c, B);
      var rest := Lanes(ss[1..], ds[1..], b, k, B);
      LanesEquation(ss[1..], ds[1..], b, k, B);
      assert ([lo] + rest.limbs)[1..] == rest.limbs;
      EquationStep(x, z, b, c, lo, k, Val(rest.limbs, B), Pow(B, |ds| - 1), rest.carry,
                   Val(ss[1..], B), Val(ds[1..], B), B);
    }
  }

  lemma EquationStep(x: nat, z: nat, b: nat, c: nat, lo: nat, k: nat,
                     out: nat, p: nat, carry: nat, vs: nat, vd: nat, B: nat)
    requires lo + B * k == x * b + z + c
    requires out + p * carry == vd + b * vs + k
    ensures (lo + B * out) + (B * p) * carry == (z + B * vd) + b * (x + B * vs) + c
  {
    calc {
      (lo + B * out) + (B * p) * carry;
      { Associate(B, p, carry); Distribute(B, out, p * carry); }
      lo + B * (out + p * carry);
      lo + B * (vd + b * vs + k);
      { Distribute(B, vd + b * vs, k); Distribute(B, vd, b * vs); }
      lo + B * k + B * vd + B * (b * vs);
      { Associate(B, b, vs); Associate(b, B, vs); }
      x * b + z + c + B * vd + b * (B * vs);
      { Distribute(b, x, B * vs); }
      (z + B * vd) + b * (x + B * vs) + c;
    }
  }

  /** Doing the first limbs and then the others, handing the carry over, is the whole job. */
  lemma {:induction false} LanesAppend(xs: seq<nat>, ys: seq<nat>, us: seq<nat>, vs: seq<nat>,
                                       b: nat, c: nat, B: nat)
    requires |xs| == |us| && |ys| == |vs| && 0 < B
    ensures var lo := Lanes(xs, us, b, c, B);
            var hi := Lanes(ys, vs, b, lo.carry, B);
            Lanes(xs + ys, us + vs, b, c, B) == Out(lo.limbs + hi.limbs, hi.carry)
  {
    if xs == [] {
      assert xs + ys == ys && us + vs == vs;
    } else {
      assert (xs + ys)[1..] == xs[1..] + ys && (us + vs)[1..] == us[1..] + vs;
      LanesAppend(xs[1..], ys, us[1..], vs, b, CarryOut(xs[0], b, us[0], c, B), B);
    }
  }

  lemma LanesSnoc(xs: seq<nat>, x: nat, zs: seq<nat>, z: nat, b: nat, c: nat, B: nat)
    requires |xs| == |zs| && 0 < B
    ensures var r := Lanes(xs, zs, b, c, B);
            Lanes(xs + [x], zs + [z], b, c, B)
            == Out(r.limbs + [LimbOut(x, b, z, r.carry, B)], CarryOut(x, b, z, r.carry, B))
  {
    var k := Lanes(xs, zs, b, c, B).carry;
    LanesAppend(xs, [x], zs, [z], b, c, B);
    LanesCons(x, [], z, [], b, k, B);
    assert [x] + [] == [x] && [z] + [] == [z];
    assert [LimbOut(x, b, z, k, B)] + [] == [LimbOut(x, b, z, k, B)];
  }

  lemma {:induction false} LanesLimbs(ss: seq<nat>, ds: seq<nat>, b: nat, c: nat, B: nat)
    requires |ss| == |ds| && 0 < B
    ensures Limbs(Lanes(ss, ds, b, c, B).limbs, B)
  {
    if ss == [] {
    } else {
      LanesLimbs(ss[1..], ds[1..], b, CarryOut(ss[0], b, ds[0], c, B), B);
    }
  }

  lemma {:induction false} LanesCarry(ss: seq<nat>, ds: seq<nat>, b: nat, c: nat, B: nat)
    requires |ss| == |ds| && Limbs(ss, B) && Limbs(ds, B) && b < B && c < B
    ensures Lanes(ss, ds, b, c, B).carry < B
  {
    if ss == [] {
    } else {
      CarryIsWord(ss[0], b, ds[0], c, B);
      LanesCarry(ss[1..], ds[1..], b, CarryOut(ss[0], b, ds[0], c, B), B);
    }
  }

  /** The header's sentence leaves no freedom: any destination of the right length and any
      carry that satisfy the vector equation are the ones `Lanes` gives. */
  lemma EquationDetermines(ss: seq<nat>, ds: seq<nat>, b: nat, c: nat, B: nat, out: Out)
    requires |ss| == |ds| == |out.limbs| && 0 < B && Limbs(out.limbs, B)
    requires Val(out.limbs, B) + Pow(B, |ds|) * out.carry == Val(ds, B) + b * Val(ss, B) + c
    ensures Lanes(ss, ds, b, c, B) == out
  {
    var lanes := Lanes(ss, ds, b, c, B);
    LanesEquation(ss, ds, b, c, B);
    LanesLimbs(ss, ds, b, c, B);
    ValBound(out.limbs, B);
    ValBound(lanes.limbs, B);
    var t := Val(ds, B) + b * Val(ss, B) + c;
    SplitUnique(t, Val(out.limbs, B), out.carry, Pow(B, |ds|));
    SplitUnique(t, Val(lanes.limbs, B), lanes.carry, Pow(B, |ds|));
    ValInjective(out.limbs, lanes.limbs, B);
  }

  /** With `b == 1` the limbs alone tell any two sources apart. */
  lemma LanesInjective(xs: seq<nat>, ys: seq<nat>, zs: seq<nat>, c: nat, B: nat)
    requires |xs| == |ys| == |zs| && Limbs(xs, B) && Limbs(ys, B) && 0 < B
    requires Lanes(xs, zs, 1, c, B).limbs == Lanes(ys, zs, 1, c, B).limbs
    ensures xs == ys
  {
    LanesEquation(xs, zs, 1, c, B);
    LanesEquation(ys, zs, 1, c, B);
    ValBound(xs, B);
    ValBound(ys, B);
    SameRest(Val(Lanes(xs, zs, 1, c, B).limbs, B) - Val(zs, B) - c, Val(xs, B), Val(ys, B),
             Lanes(xs, zs, 1, c, B).carry, Lanes(ys, zs, 1, c, B).carry, Pow(B, |zs|));
    ValInjective(xs, ys, B);
  }

  lemma SameRest(t: int, x: nat, y: nat, i: nat, j: nat, p: nat)
    requires x == t + p * i && y == t + p * j && x < p && y < p
    ensures x == y
  {
    if i < j {
      MulMono(p, i + 1, j);
      Distribute(p, i, 1);
    } else if j < i {
      MulMono(p, j + 1, i);
      Distribute(p, j, 1);
    }
  }

  // ----- in memory -----

  datatype State = State(mem: seq<nat>, s: int, d: int, c: nat)

  /** `n` limbs can be read at `s` and updated at `d`. */
  predicate InBounds(st: State, n: nat) {
    0 <= st.s && st.s + n <= |st.mem| && 0 <= st.d && st.d + n <= |st.mem|
  }

  /** One limb: read `*s` and `*d`, write `*d`, keep the high word as the carry. */
  function Step(st: State, b: nat, B: nat): (r: State)
    requires InBounds(st, 1) && 0 < B
  {
    var x, z := st.mem[st.s], st.mem[st.d];
    State(st.mem[st.d := LimbOut(x, b, z, st.c, B)], st.s + 1, st.d + 1, CarryOut(x, b, z, st.c, B))
  }

  function Run(st: State, b: nat, n: nat, B: nat): (r: State)
    requires InBounds(st, n) && 0 < B
    ensures |r.mem| == |st.mem| && r.s == st.s + n && r.d == st.d + n
    decreases n
  {
    if n == 0 then st else Run(Step(st, b, B), b, n - 1, B)
  }

  /** Only the destination window is written. */
  lemma {:induction false} RunFrame(st: State, b: nat, n: nat, B: nat)
    requires InBounds(st, n) && 0 < B
    ensures forall j :: 0 <= j < |st.mem| && !(st.d <= j < st.d + n) ==> Run(st, b, n, B).mem[j] == st.mem[j]
    decreases n
  {
    if n == 0 {
    } else {
      RunFrame(Step(st, b, B), b, n - 1, B);
    }
  }

  /** A run may be cut anywhere: `n` limbs and then `m` limbs are `n + m` limbs. */
  lemma {:induction false} RunSplit(st: State, b: nat, n: nat, m: nat, B: nat)
    requires InBounds(st, n + m) && 0 < B
    ensures Run(Run(st, b, n, B), b, m, B) == Run(st, b, n + m, B)
    decreases n
  {
    if n == 0 {
    } else {
      RunSplit(Step(st, b, B), b, n - 1, m, B);
    }
  }

  /** The first limb is settled by the first step. */
  lemma FirstLimb(st: State, b: nat, n: nat, B: nat)
    requires InBounds(st, n) && 0 < B && 0 < n
    ensures Run(st, b, n, B).mem[st.d] == LimbOut(st.mem[st.s], b, st.mem[st.d], st.c, B)
  {
    RunFrame(Step(st, b, B), b, n - 1, B);
  }

  /** Limbs stay limbs and the carry stays bounded; `K == B - 1` is "the carry is a word". */
  lemma {:induction false} RunKeepsWords(st: State, b: nat, n: nat, K: nat, B: nat)
    requires InBounds(st, n) && Limbs(st.mem, B) && b < B && st.c <= K && B - 1 <= K <= B
    ensures Limbs(Run(st, b, n, B).mem, B) && Run(st, b, n, B).c <= K
    decreases n
  {
    if n == 0 {
    } else {
      MulAddBound(st.mem[st.s], b, st.mem[st.d], st.c, K, B);
      RunKeepsWords(Step(st, b, B), b, n - 1, K, B);
    }
  }

  /** No source limb is overwritten before it is read. */
  predicate SafeLayout(s: int, d: int, n: nat) {
    d <= s || s + n <= d
  }

  /** `n` limbs from `p` on. */
  function Window(m: seq<nat>, p: int, n: nat): (w: seq<nat>)
    requires 0 <= p && p + n <= |m|
    ensures |w| == n
  {
    m[p..p + n]
  }

  /** `m` with the limbs from `p` on replaced by `w`. */
  function Splice(m: seq<nat>, p: int, w: seq<nat>): (r: seq<nat>)
    requires 0 <= p && p + |w| <= |m|
    ensures |r| == |m|
  {
    m[..p] + w + m[p + |w|..]
  }

  lemma SpliceWindow(m: seq<nat>, r: seq<nat>, p: int, n: nat)
    requires |r| == |m| && 0 <= p && p + n <= |m|
    requires forall j :: 0 <= j < |m| && !(p <= j < p + n) ==> r[j] == m[j]
    ensures r == Splice(m, p, Window(r, p, n))
  {
  }

  lemma WindowOfSplice(m: seq<nat>, p: int, w: seq<nat>)
    requires 0 <= p && p + |w| <= |m|
    ensures Window(Splice(m, p, w), p, |w|) == w
  {
  }

  /** What the run reads at `s`: the source as it was if `d <= s`, and the source as the run
      leaves it otherwise, since then a limb that is written at all is written before it is
      read. */
  function SourceRead(st: State, b: nat, n: nat, B: nat): (w: seq<nat>)
    requires InBounds(st, n) && 0 < B
    ensures |w| == n
  {
    if st.d <= st.s then Window(st.mem, st.s, n) else Window(Run(st, b, n, B).mem, st.s, n)
  }

  lemma SourceReadCons(st: State, b: nat, n: nat, B: nat)
    requires InBounds(st, n) && 0 < B && 0 < n
    ensures var next := Step(st, b, B);
            SourceRead(st, b, n, B) == [st.mem[st.s]] + SourceRead(next, b, n - 1, B)
  {
    RunFrame(st, b, n, B);
  }

  /** A run in memory is the vector job on the limbs it reads, wherever `s` and `d` point. */
  lemma {:induction false} RunIsLanes(st: State, b: nat, n: nat, B: nat)
    requires InBounds(st, n) && 0 < B
    ensures var r := Run(st, b, n, B);
            Lanes(SourceRead(st, b, n, B), Window(st.mem, st.d, n), b, st.c, B) == Out(Window(r.mem, st.d, n), r.c)
    decreases n
  {
    if n == 0 {
    } else {
      var next := Step(st, b, B);
      RunIsLanes(next, b, n - 1, B);
      SourceReadCons(st, b, n, B);
      WindowCons(st, b, n, B);
      LanesCons(st.mem[st.s], SourceRead(next, b, n - 1, B), st.mem[st.d], Window(next.mem, next.d, n - 1), b, st.c, B);
    }
  }

  lemma WindowCons(st: State, b: nat, n: nat, B: nat)
    requires InBounds(st, n) && 0 < B && 0 < n
    ensures var next, r := Step(st, b, B), Run(st, b, n, B);
            && Window(st.mem, st.d, n) == [st.mem[st.d]] + Window(next.mem, next.d, n - 1)
            && Window(r.mem, st.d, n) == [next.mem[st.d]] + Window(r.mem, next.d, n - 1)
  {
    RunFrame(Step(st, b, B), b, n - 1, B);
  }

  /** The same for the whole state. */
  lemma RunIsSplice(st: State, b: nat, n: nat, B: nat)
    requires InBounds(st, n) && 0 < B
    ensures var out := Lanes(SourceRead(st, b, n, B), Window(st.mem, st.d, n), b, st.c, B);
            Run(st, b, n, B) == State(Splice(st.mem, st.d, out.limbs), st.s + n, st.d + n, out.carry)
  {
    RunIsLanes(st, b, n, B);
    RunFrame(st, b, n, B);
    SpliceWindow(st.mem, Run(st, b, n, B).mem, st.d, n);
  }

  /** `r` is what the header asks for: the destination window of `st` plus `b` times `source`
      plus the carry, as a window and a carry; everything else as it was; pointers advanced. */
  ghost predicate Adds(st: State, source: seq<nat>, b: nat, n: nat, B: nat, r: State)
    requires InBounds(st, n) && |source| == n && 0 < B
  {
    && |r.mem| == |st.mem| && r.s == st.s + n && r.d == st.d + n
    && r.mem == Splice(st.mem, st.d, Window(r.mem, st.d, n))
    && Val(Window(r.mem, st.d, n), B) + Pow(B, n) * r.c == Val(Window(st.mem, st.d, n), B) + b * Val(source, B) + st.c
  }

  /** In a safe layout the limbs read are the source as it was. */
  lemma SafeRead(st: State, b: nat, n: nat, B: nat)
    requires InBounds(st, n) && 0 < B && SafeLayout(st.s, st.d, n)
    ensures SourceRead(st, b, n, B) == Window(st.mem, st.s, n)
  {
    RunFrame(st, b, n, B);
  }

  /** Main theorem, for every limb count, multiplier, carry and memory, and every placement of
      the two vectors: in a safe layout the run is what the header asks for, and in the others
      it is so for the source as the run leaves it. */
  lemma VectorEquation(st: State, b: nat, n: nat, B: nat)
    requires InBounds(st, n) && 0 < B
    ensures var r := Run(st, b, n, B);
            && (SafeLayout(st.s, st.d, n) ==> Adds(st, Window(st.mem, st.s, n), b, n, B, r))
            && (st.s < st.d ==> Adds(st, Window(r.mem, st.s, n), b, n, B, r))
  {
    RunFrame(st, b, n, B);
    SpliceWindow(st.mem, Run(st, b, n, B).mem, st.d, n);
    RunIsLanes(st, b, n, B);
    LanesEquation(SourceRead(st, b, n, B), Window(st.mem, st.d, n), b, st.c, B);
    if SafeLayout(st.s, st.d, n) {
      SafeRead(st, b, n, B);
    }
  }

  /** In a safe layout the header's sentence pins the result down completely: every final state
      that meets it with limbs in the destination is the one the run reaches. */
  lemma AddsDetermines(st: State, b: nat, n: nat, B: nat, r: State)
    requires InBounds(st, n) && 0 < B && SafeLayout(st.s, st.d, n)
    requires Adds(st, Window(st.mem, st.s, n), b, n, B, r) && Limbs(Window(r.mem, st.d, n), B)
    ensures r == Run(st, b, n, B)
  {
    var ss, ds := Window(st.mem, st.s, n), Window(st.mem, st.d, n);
    EquationDetermines(ss, ds, b, st.c, B, Out(Window(r.mem, st.d, n), r.c));
    SafeRead(st, b, n, B);
    RunIsSplice(st, b, n, B);
  }

  /** In place: with `s == d` the run computes `(b + 1) * val(d) + c`. */
  lemma InPlace(st: State, b: nat, n: nat, B: nat)
    requires InBounds(st, n) && 0 < B && st.s == st.d
    ensures var r := Run(st, b, n, B);
            Val(Window(r.mem, st.d, n), B) + Pow(B, n) * r.c == (b + 1) * Val(Window(st.mem, st.d, n), B) + st.c
  {
    VectorEquation(st, b, n, B);
    Distribute(Val(Window(st.mem, st.d, n), B), b, 1);
  }

  /** A single 1 in an otherwise zero memory, to be copied by a run with `b == 1`. */
  function Spike(size: nat, at: nat): (m: seq<nat>)
    ensures |m| == size
    ensures forall i :: 0 <= i < size ==> m[i] == Bit(i == at)
  {
    if size == 0 then [] else Spike(size - 1, at) + [Bit(size - 1 == at)]
  }

  lemma SpikeIsOverwritten(size: nat, s: nat, d: nat, n: nat, B: nat)
    requires 2 <= B && s + n <= size && d + n <= size && s < d < s + n
    ensures var st := State(Spike(size, s), s, d, 0);
            !Adds(st, Window(st.mem, s, n), 1, n, B, Run(st, 1, n, B))
  {
    var st := State(Spike(size, s), s, d, 0);
    var r := Run(st, 1, n, B);
    LimbIs(1, 1, 0, 0, 1, 0, B);
    assert st.mem[s] == 1 && st.mem[d] == 0;
    assert r == Run(Step(st, 1, B), 1, n - 1, B);
    RunFrame(Step(st, 1, B), 1, n - 1, B);
    VectorEquation(st, 1, n, B);
    RunKeepsWords(st, 1, n, B - 1, B);
    var before, after := Window(st.mem, s, n), Window(r.mem, s, n);
    assert after[d - s] == 1 && before[d - s] == 0;
    if Val(after, B) == Val(before, B) {
      ValInjective(after, before, B);
      assert false;
    }
  }

  /** The layout condition is exact: for given pointers and limb count the header's equation
      holds on every memory, multiplier and carry if and only if the layout is safe. */
  lemma LayoutIsExact(size: nat, s: nat, d: nat, n: nat, B: nat)
    requires 2 <= B && s + n <= size && d + n <= size
    ensures (forall m: seq<nat>, b: nat, c: nat ::
               |m| == size && Limbs(m, B) && b < B && c < B ==>
                 var st := State(m, s, d, c);
                 Adds(st, Window(m, s, n), b, n, B, Run(st, b, n, B)))
            <==> SafeLayout(s, d, n)
  {
    if SafeLayout(s, d, n) {
      forall m: seq<nat>, b: nat, c: nat | |m| == size && Limbs(m, B) && b < B && c < B
        ensures var st := State(m, s, d, c);
                Adds(st, Window(m, s, n), b, n, B, Run(st, b, n, B))
      {
        VectorEquation(State(m, s, d, c), b, n, B);
      }
    } else {
      SpikeIsOverwritten(size, s, d, n, B);
      assert Limbs(Spike(size, s), B);
    }
  }

}
