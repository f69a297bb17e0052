/**
 Descriptor sets for `select`: a packed bit array that behaves as a plain set of descriptors.
 */
module FdSet {

  /** The bit of descriptor offset `i` inside its byte: `1 << (i & 7)`. */
  function Mask(i: nat): (r: bv8) {
    (1 as bv8) << (i % 8)
  }

  predicate HasBit(byte: bv8, i: nat) {
    byte & Mask(i) != 0
  }

  lemma OrOnlyItsBit(byte: bv8, i: nat, j: nat)
    requires i < 8 && j < 8
    ensures HasBit(byte | Mask(i), j) <==> i == j || HasBit(byte, j)
  {
    MaskTable(i);
    MaskTable(j);
  }

  lemma AndNotOnlyItsBit(byte: bv8, i: nat, j: nat)
    requires i < 8 && j < 8
    ensures HasBit(byte & !Mask(i), j) <==> i != j && HasBit(byte, j)
  {
    MaskTable(i);
    MaskTable(j);
  }

  lemma MaskTable(i: nat)
    requires i < 8
    ensures Mask(i) == [1, 2, 4, 8, 16, 32, 64, 128][i]
  {
    if i == 0 {} else if i == 1 {} else if i == 2 {} else if i == 3 {}
    else if i == 4 {} else if i == 5 {} else if i == 6 {} else {}
  }

  lemma SingleBit(byte: bv8, i: nat)
    requires i < 8
    ensures byte & Mask(i) == if HasBit(byte, i) then [1, 2, 4, 8, 16, 32, 64, 128][i] else 0
  {
    MaskTable(i);
  }

  /** Bit `k` of a packed array. */
  predicate BitAt(bytes: seq<bv8>, k: int)
    requires 0 <= k < 8 * |bytes|
  {
    HasBit(bytes[k / 8], k % 8)
  }

  lemma OrInArray(bytes: seq<bv8>, k: nat)
    requires k < 8 * |bytes|
    ensures var r := bytes[k / 8 := bytes[k / 8] | Mask(k % 8)];
            forall j :: 0 <= j < 8 * |bytes| ==> (BitAt(r, j) <==> j == k || BitAt(bytes, j))
  {
    forall j | 0 <= j < 8 * |bytes|
      ensures var r := bytes[k / 8 := bytes[k / 8] | Mask(k % 8)];
              BitAt(r, j) <==> j == k || BitAt(bytes, j)
    {
      OrOnlyItsBit(bytes[k / 8], k % 8, j % 8);
    }
  }

  lemma AndNotInArray(bytes: seq<bv8>, k: nat)
    requires k < 8 * |bytes|
    ensures var r := bytes[k / 8 := bytes[k / 8] & !Mask(k % 8)];
            forall j :: 0 <= j < 8 * |bytes| ==> (BitAt(r, j) <==> j != k && BitAt(bytes, j))
  {
    forall j | 0 <= j < 8 * |bytes|
      ensures var r := bytes[k / 8 := bytes[k / 8] & !Mask(k % 8)];
              BitAt(r, j) <==> j != k && BitAt(bytes, j)
    {
      AndNotOnlyItsBit(bytes[k / 8], k % 8, j % 8);
    }
  }

  // ----- the guard -----

  const INT_MAX: int := 0x7fff_ffff

  predicate Int32(n: int) { -INT_MAX - 1 <= n <= INT_MAX }

  /** The subtraction of two `int`s, wrapped to 32 bits. */
  function Minus(n: int, offset: int): (r: int) {
    var t := n - offset;
    if t < -INT_MAX - 1 then t + 0x1_0000_0000 else if INT_MAX < t then t - 0x1_0000_0000 else t
  }

  /** The test in `FDSETSAFESET` and `FDSETSAFEGET`. */
  predicate Guard(n: int, offset: nat, size: nat) {
    Minus(n, offset) < size && 0 <= Minus(n, offset)
  }

  /** The guard is right about every `int` if and only if the last descriptor is an `int` too. */
  lemma GuardIsExact(offset: nat, size: nat)
    requires offset <= INT_MAX && 1 <= size <= INT_MAX
    ensures (forall n :: Int32(n) ==> (Guard(n, offset, size) <==> offset <= n < offset + size))
            <==> offset + size - 1 <= INT_MAX
  {
    if INT_MAX < offset + size - 1 {
      var n := offset + size - 1 - 0x1_0000_0000;
      assert Int32(n) && Guard(n, offset, size) && n < offset;
    }
  }

  // ----- the set -----

  datatype Op = Zero | Set(n: int) | Clr(n: int)

  /** What one operation does to a plain set of descriptors. */
  function Apply(op: Op, s: set<int>, offset: nat, size: nat): (r: set<int>) {
    match op
    case Zero => {}
    case Set(n) => if offset <= n < offset + size then s + {n} else s
    case Clr(n) => s - {n}
  }

  function ApplyAll(ops: seq<Op>, s: set<int>, offset: nat, size: nat): (r: set<int>) {
    if ops == [] then s else ApplyAll(ops[1..], Apply(ops[0], s, offset, size), offset, size)
  }

  /** An operation that decides about descriptor `n`. */
  predicate Concerns(op: Op, n: int) {
    op == Zero || op == Set(n) || op == Clr(n)
  }

  predicate Untouched(ops: seq<Op>, n: int) {
    forall i :: 0 <= i < |ops| ==> !Concerns(ops[i], n)
  }

  /** Operation `k` sets `n` and no later one concerns it. */
  predicate SetLastAt(ops: seq<Op>, n: int, k: nat) {
    k < |ops| && ops[k] == Set(n) && Untouched(ops[k + 1..], n)
  }

  /** After any history a descriptor is in the set if and only if it is a legal one and the last
      operation that concerns it was FD_SET, or none does and it was in the set before. */
  lemma {:induction false} LastOperationDecides(ops: seq<Op>, s: set<int>, offset: nat, size: nat, n: int)
    requires forall m :: m in s ==> offset <= m < offset + size
    ensures n in ApplyAll(ops, s, offset, size) <==>
              || (n in s && Untouched(ops, n))
              || (offset <= n < offset + size && exists k: nat :: SetLastAt(ops, n, k))
  {
    if ops == [] {
    } else {
      LastOperationDecides(ops[1..], Apply(ops[0], s, offset, size), offset, size, n);
      UntouchedCons(ops, n);
      SetLastCons(ops, n);
    }
  }

  lemma UntouchedCons(ops: seq<Op>, n: int)
    requires ops != []
    ensures Untouched(ops, n) <==> !Concerns(ops[0], n) && Untouched(ops[1..], n)
  {
    assert forall i :: 1 <= i < |ops| ==> ops[i] == ops[1..][i - 1];
  }

  lemma SetLastCons(ops: seq<Op>, n: int)
    requires ops != []
    ensures (exists k: nat :: SetLastAt(ops, n, k))
            <==> (ops[0] == Set(n) && Untouched(ops[1..], n)) || exists k: nat :: SetLastAt(ops[1..], n, k)
  {
    if k: nat :| SetLastAt(ops, n, k) {
      if 0 < k {
        assert ops[1..][k - 1 + 1..] == ops[k + 1..];
        assert SetLastAt(ops[1..], n, k - 1);
      }
    }
    if k: nat :| SetLastAt(ops[1..], n, k) {
      assert ops[1..][k + 1..] == ops[k + 1 + 1..];
      assert SetLastAt(ops, n, k + 1);
    }
    if ops[0] == Set(n) && Untouched(ops[1..], n) {
      assert SetLastAt(ops, n, 0);
    }
  }

  /** The descriptors whose bits are set. */
  ghost function Members(bytes: seq<bv8>, offset: nat, size: nat): (s: set<int>)
    requires size <= 8 * |bytes|
  {
    set n | offset <= n < offset + size && Present(bytes, offset, size, n)
  }

  predicate Present(bytes: seq<bv8>, offset: nat, size: nat, n: int)
    requires size <= 8 * |bytes| && offset <= n < offset + size
  {
    BitAt(bytes, n - offset)
  }

  lemma MembersSet(bytes: seq<bv8>, offset: nat, size: nat, n: int)
    requires size <= 8 * |bytes|
    ensures var k := n - offset;
            Apply(Set(n), Members(bytes, offset, size), offset, size)
            == if 0 <= k < size then Members(bytes[k / 8 := bytes[k / 8] | Mask(k % 8)], offset, size) else Members(bytes, offset, size)
  {
    hide BitAt, HasBit, Mask;
    if 0 <= n - offset < size {
      OrInArray(bytes, n - offset);
    }
  }

  lemma MembersClr(bytes: seq<bv8>, offset: nat, size: nat, n: int)
    requires size <= 8 * |bytes|
    ensures var k := n - offset;
            Apply(Clr(n), Members(bytes, offset, size), offset, size)
            == if 0 <= k < size then Members(bytes[k / 8 := bytes[k / 8] & !Mask(k % 8)], offset, size) else Members(bytes, offset, size)
  {
    hide BitAt, HasBit, Mask;
    if 0 <= n - offset < size {
      AndNotInArray(bytes, n - offset);
    }
  }

  class DescriptorSet {
    const bits: array<bv8>
    const offset: nat
    const size: nat

    ghost predicate Valid() {
      bits.Length == (size + 7) / 8 && 1 <= size && offset + size - 1 <= INT_MAX
    }

    /** The plain set that the bits stand for. */
    ghost function Model(): (r: set<int>)
      requires Valid()
      reads bits
    {
      Members(bits[..], offset, size)
    }

    constructor (offset: nat, size: nat)
      requires 1 <= size && offset + size - 1 <= INT_MAX
      ensures Valid() && fresh(bits) && this.offset == offset && this.size == size
    {
      this.offset, this.size := offset, size;
      this.bits := new bv8[(size + 7) / 8];
    }

    method FdZero()
      requires Valid()
      modifies bits
      ensures Model() == {}
      ensures forall i :: 0 <= i < bits.Length ==> bits[i] == 0
    {
      forall i | 0 <= i < bits.Length {
        bits[i] := 0;
      }
      assert forall k :: 0 <= k < size ==> !BitAt(bits[..], k);
    }

    method FdSet(n: int)
      requires Valid() && Int32(n)
      modifies bits
      ensures Model() == Apply(Set(n), old(Model()), offset, size)
      ensures if offset <= n < offset + size
              then forall k :: 0 <= k < 8 * bits.Length ==> (BitAt(bits[..], k) <==> k == n - offset || BitAt(old(bits[..]), k))
              else bits[..] == old(bits[..])
    {
      hide BitAt, HasBit, Mask, Members, Apply;
      ghost var before := bits[..];
      MembersSet(before, offset, size, n);
      if Guard(n, offset, size) {
        var k := n - offset;
        OrInArray(before, k);
        bits[k / 8] := bits[k / 8] | Mask(k % 8);
        assert bits[..] == before[k / 8 := before[k / 8] | Mask(k % 8)];
      }
    }

    method FdClr(n: int)
      requires Valid() && Int32(n)
      modifies bits
      ensures Model() == Apply(Clr(n), old(Model()), offset, size)
      ensures if offset <= n < offset + size
              then forall k :: 0 <= k < 8 * bits.Length ==> (BitAt(bits[..], k) <==> k != n - offset && BitAt(old(bits[..]), k))
              else bits[..] == old(bits[..])
    {
      hide BitAt, HasBit, Mask, Members, Apply;
      ghost var before := bits[..];
      MembersClr(before, offset, size, n);
      if Guard(n, offset, size) {
        var k := n - offset;
        AndNotInArray(before, k);
        bits[k / 8] := bits[k / 8] & !Mask(k % 8);
        assert bits[..] == before[k / 8 := before[k / 8] & !Mask(k % 8)];
      }
    }

    /** The value of FD_ISSET, nonzero exactly for the descriptors in the set: their bit. */
    method FdIsSet(n: int) returns (r: bv8)
      requires Valid() && Int32(n)
      ensures r != 0 <==> n in Model()
      ensures r == if n in Model() then [1, 2, 4, 8, 16, 32, 64, 128][(n - offset) % 8] else 0
    {
      if Guard(n, offset, size) {
        var k := n - offset;
        SingleBit(bits[k / 8], k % 8);
        r := bits[k / 8] & Mask(k % 8);
      } else {
        r := 0;
      }
    }

    /** Any sequence of operations on the bits is the same sequence on a plain set. */
    method Perform(ops: seq<Op>)
      requires Valid()
      requires forall i :: 0 <= i < |ops| && ops[i] != Zero ==> Int32(ops[i].n)
      modifies bits
      ensures Model() == ApplyAll(ops, old(Model()), offset, size)
    {
      for i := 0 to |ops|
        invariant ApplyAll(ops[i..], Model(), offset, size) == ApplyAll(ops, old(Model()), offset, size)
      {
        assert ops[i..][1..] == ops[i + 1..];
        match ops[i]
        case Zero => FdZero();
        case Set(n) => FdSet(n);
        case Clr(n) => FdClr(n);
      }
    }
  }

}
