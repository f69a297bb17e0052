/**
 How a run is cut up: by single cores and by eight-limb blocks, in any order.
 */
module Blocks {
  import opened MulAdd

  /** Limbs in one eight-limb block. */
  const HUIT: nat := 8

  datatype Block = One | Eight

  function LimbCount(blocks: seq<Block>): (r: nat) {
    if blocks == [] then 0 else Size(blocks[0]) + LimbCount(blocks[1..])
  }

  function Size(block: Block): (r: nat) { if block == One then 1 else HUIT }

  lemma CountFrom(blocks: seq<Block>, i: nat)
    requires i <= |blocks|
    ensures blocks[0..] == blocks
    ensures i == |blocks| ==> LimbCount(blocks[i..]) == 0
    ensures i < |blocks| ==> LimbCount(blocks[i..]) == Size(blocks[i]) + LimbCount(blocks[i + 1..])
  {
    assert i < |blocks| ==> blocks[i..][1..] == blocks[i + 1..];
  }

  lemma NoneIsNothing(st: State, b: nat, B: nat)
    requires InBounds(st, 0) && 0 < B
    ensures Run(st, b, 0, B) == st
  {
  }

  lemma OneIsStep(st: State, b: nat, B: nat)
    requires InBounds(st, 1) && 0 < B
    ensures Run(st, b, 1, B) == Step(st, b, B)
  {
    var n: nat := 1;
    assert Run(st, b, n, B) == Run(Step(st, b, B), b, n - 1, B);
  }

}
