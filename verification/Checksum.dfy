/**
 One's-complement folding: `FOLD_U32T` and `SWAP_BYTES_IN_WORD`, and why an Internet checksum
 does not depend on byte order (section 2(B) of RFC 1071).
 */
module Checksum {
  import opened Words

  function Fold(u: nat): (r: nat) {
    u / 0x1_0000 + u % 0x1_0000
  }

  function FoldTwice(u: nat): (r: nat) {
    Fold(Fold(u))
  }

  /** The low two bytes of `w`, exchanged. */
  function Swap(w: nat): (r: nat) {
    (w % 0x100) * 0x100 + (w % 0x1_0000) / 0x100
  }

  predicate Words16(ws: seq<nat>) {
    forall i :: 0 <= i < |ws| ==> ws[i] < 0x1_0000
  }

  function Sum(ws: seq<nat>): (r: nat) {
    if ws == [] then 0 else ws[0] + Sum(ws[1..])
  }

  function SwapAll(ws: seq<nat>): (r: seq<nat>)
    ensures |r| == |ws| && forall i :: 0 <= i < |ws| ==> r[i] == Swap(ws[i])
  {
    if ws == [] then [] else [Swap(ws[0])] + SwapAll(ws[1..])
  }

  // ----- folding -----

  /** The only number up to 0xffff with a given residue mod 0xffff that is zero just for zero. */
  predicate Represents(f: nat, u: nat) {
    f < 0x1_0000 && f % 0xffff == u % 0xffff && (f == 0 <==> u == 0)
  }

  lemma RepresentsUnique(f: nat, g: nat, u: nat)
    requires Represents(f, u) && Represents(g, u)
    ensures f == g
  {
  }

  lemma FoldKeeps(u: nat)
    ensures u == Fold(u) + 0xffff * (u / 0x1_0000)
    ensures Fold(u) % 0xffff == u % 0xffff
    ensures Fold(u) == 0 <==> u == 0
  {
  }

  /** Two folds of any 32-bit sum fit 16 bits, keep the residue and give zero only for zero. */
  lemma FoldTwiceRepresents(u: nat)
    requires u < WORD32
    ensures Represents(FoldTwice(u), u)
  {
    FoldKeeps(u);
    FoldKeeps(Fold(u));
  }

  lemma SameResidue(v: nat, s: nat, k: int)
    requires v == s + 0xffff * k
    ensures s % 0xffff == v % 0xffff
  {
  }

  lemma PartsRepresent(u: nat, v: nat, f: nat, g: nat, w: nat)
    requires Represents(f, u) && Represents(g, v) && Represents(w, f + g)
    ensures Represents(w, u + v)
  {
    var i, j := u / 0xffff - f / 0xffff, v / 0xffff - g / 0xffff;
    SameResidue(u + v, f + g, i + j);
  }

  /** A checksum may be taken in parts: folding the parts first does not change the result. */
  lemma FoldParts(u: nat, v: nat)
    requires u + v < WORD32
    ensures FoldTwice(FoldTwice(u) + FoldTwice(v)) == FoldTwice(u + v)
  {
    hide FoldTwice;
    FoldTwiceRepresents(u);
    FoldTwiceRepresents(v);
    FoldTwiceRepresents(u + v);
    FoldTwiceRepresents(FoldTwice(u) + FoldTwice(v));
    PartsRepresent(u, v, FoldTwice(u), FoldTwice(v), FoldTwice(FoldTwice(u) + FoldTwice(v)));
    RepresentsUnique(FoldTwice(FoldTwice(u) + FoldTwice(v)), FoldTwice(u + v), u + v);
  }

  // ----- swapping -----

  lemma SwapBytes(h: nat, l: nat)
    requires h < 0x100 && l < 0x100
    ensures Swap(0x100 * h + l) == 0x100 * l + h
  {
    assert (0x100 * h + l) % 0x100 == l && (0x100 * h + l) / 0x100 == h;
  }

  /** Of any number only the two lowest bytes count, and they change places. */
  lemma SwapMasks(w: nat, h: nat, l: nat)
    requires h < 0x100 && l < 0x100
    ensures Swap(0x1_0000 * w + 0x100 * h + l) == 0x100 * l + h
  {
    var u := 0x1_0000 * w + 0x100 * h + l;
    SplitUnique(u, 0x100 * h + l, w, 0x1_0000);
    SplitUnique(u, l, 0x100 * w + h, 0x100);
    SplitUnique(0x100 * h + l, l, h, 0x100);
  }

  /** Exchanging the bytes multiplies by 256 mod 0xffff, and is its own inverse. */
  lemma SwapMeans(w: nat)
    requires w < 0x1_0000
    ensures Swap(w) < 0x1_0000 && Swap(Swap(w)) == w
    ensures Swap(w) + 0xffff * (w / 0x100) == 0x100 * w
    ensures Swap(w) == 0 <==> w == 0
  {
    var h, l := w / 0x100, w % 0x100;
    SwapBytes(h, l);
    SwapBytes(l, h);
  }

  /** How many times 0xffff the swapped sum falls short of 256 times the sum. */
  function HighBytes(ws: seq<nat>): (r: nat) {
    if ws == [] then 0 else ws[0] / 0x100 + HighBytes(ws[1..])
  }

  lemma {:induction false} SwappedSum(ws: seq<nat>)
    requires Words16(ws)
    ensures Sum(SwapAll(ws)) + 0xffff * HighBytes(ws) == 0x100 * Sum(ws)
    ensures Sum(SwapAll(ws)) == 0 <==> Sum(ws) == 0
  {
    if ws == [] {
    } else {
      SwappedSum(ws[1..]);
      SwapMeans(ws[0]);
      assert SwapAll(ws)[1..] == SwapAll(ws[1..]);
    }
  }

  lemma {:induction false} SumBound(ws: seq<nat>)
    requires Words16(ws)
    ensures Sum(ws) <= 0xffff * |ws| && Words16(SwapAll(ws))
  {
    if ws == [] {
    } else {
      SumBound(ws[1..]);
      SwapMeans(ws[0]);
    }
  }

  /** Adding up the byte-swapped words in a 32-bit accumulator and folding twice gives the
      byte-swapped result. */
  predicate OrderIndependent(ws: seq<nat>) {
    FoldTwice(Sum(SwapAll(ws)) % WORD32) == Swap(FoldTwice(Sum(ws)))
  }

  /** Byte-order independence, for every sequence of words whose sum fits 32 bits: it holds if and
      only if the swapped sum fits 32 bits as well. */
  lemma ByteOrderIndependent(ws: seq<nat>)
    requires Words16(ws) && Sum(ws) < WORD32
    ensures OrderIndependent(ws) <==> Sum(SwapAll(ws)) < WORD32
  {
    var u, v := Sum(ws), Sum(SwapAll(ws));
    SwappedSum(ws);
    FoldTwiceRepresents(u);
    FoldTwiceRepresents(v % WORD32);
    SwappedResult(u, v, HighBytes(ws), FoldTwice(u), FoldTwice(v % WORD32));
  }

  lemma SwappedResult(u: nat, v: nat, h: nat, f: nat, g: nat)
    requires u < WORD32 && v + 0xffff * h == 0x100 * u && (v == 0 <==> u == 0)
    requires Represents(f, u) && Represents(g, v % WORD32)
    ensures g == Swap(f) <==> v < WORD32
  {
    SwapMeans(f);
    Residue256(u, v, h, f);
    CompareResults(v, g, Swap(f));
  }

  lemma CompareResults(v: nat, g: nat, s: nat)
    requires v < 0x100 * WORD32 && Represents(g, v % WORD32) && Represents(s, v)
    ensures g == s <==> v < WORD32
  {
    if v < WORD32 {
      RepresentsUnique(g, s, v);
    } else {
      Wrapped(v);
    }
  }

  lemma Residue256(u: nat, v: nat, h: nat, f: nat)
    requires v + 0xffff * h == 0x100 * u && f < 0x1_0000 && f % 0xffff == u % 0xffff
    ensures Swap(f) % 0xffff == v % 0xffff
  {
    SwapMeans(f);
    var i := u / 0xffff - f / 0xffff;
    assert u == f + 0xffff * i;
    SameResidue(v, Swap(f), f / 0x100 + 0x100 * i - h);
  }

  /** A 32-bit wrap-around loses one for every 2^32, which no fold can restore. */
  lemma Wrapped(v: nat)
    requires WORD32 <= v < 0x100 * WORD32
    ensures (v % WORD32) % 0xffff != v % 0xffff
  {
    var k := v / WORD32;
    assert WORD32 == 0xffff * 0x1_0001 + 1;
    assert v == v % WORD32 + k + 0xffff * (0x1_0001 * k);
  }

  /** Up to 65537 words neither sum can overflow the accumulator. */
  lemma ShortSumsFit(ws: seq<nat>)
    requires Words16(ws) && |ws| <= 65537
    ensures Sum(ws) < WORD32 && Sum(SwapAll(ws)) < WORD32
  {
    SumBound(ws);
    SumBound(SwapAll(ws));
  }

  /** `ones` words of all ones, and zeros behind them. */
  function Filler(ones: nat, zeros: nat): (ws: seq<nat>)
    ensures |ws| == ones + zeros
  {
    if 0 < ones then [0xffff] + Filler(ones - 1, zeros)
    else if 0 < zeros then [0] + Filler(0, zeros - 1)
    else []
  }

  lemma {:induction false} FillerSums(ones: nat, zeros: nat)
    ensures var ws := Filler(ones, zeros);
            Words16(ws) && Sum(ws) == 0xffff * ones && Sum(SwapAll(ws)) == 0xffff * ones
    decreases ones, zeros
  {
    assert Swap(0xffff) == 0xffff && Swap(0) == 0;
    hide Swap;
    if 0 < ones {
      FillerSums(ones - 1, zeros);
      SumsCons(0xffff, Filler(ones - 1, zeros));
    } else if 0 < zeros {
      FillerSums(0, zeros - 1);
      SumsCons(0, Filler(0, zeros - 1));
    }
  }

  lemma SumsCons(w: nat, ws: seq<nat>)
    ensures Sum([w] + ws) == w + Sum(ws)
    ensures Sum(SwapAll([w] + ws)) == Swap(w) + Sum(SwapAll(ws))
  {
    assert ([w] + ws)[1..] == ws;
    assert SwapAll([w] + ws) == [Swap(w)] + SwapAll(ws);
    assert ([Swap(w)] + SwapAll(ws))[1..] == SwapAll(ws);
  }

  /** 65538 words, and any number of zeros, whose sum just fits 32 bits and whose swapped sum does
      not. */
  lemma OrderSeen(ones: nat, zeros: nat)
    requires ones == 65536
    ensures var ws := [0x00ff, 0xfeff] + Filler(ones, zeros);
            Words16(ws) && Sum(ws) == WORD32 - 2 && WORD32 <= Sum(SwapAll(ws)) && !OrderIndependent(ws)
  {
    var rest := Filler(ones, zeros);
    var ws := [0x00ff, 0xfeff] + rest;
    assert ws == [0x00ff] + ([0xfeff] + rest);
    FillerSums(ones, zeros);
    SumsCons(0xfeff, rest);
    SumsCons(0x00ff, [0xfeff] + rest);
    ByteOrderIndependent(ws);
  }

  /** By length: every sequence of `n` words whose sum fits is independent of byte order if and
      only if there are at most 65537 words. */
  lemma LengthIsExact(n: nat)
    ensures (forall ws :: Words16(ws) && |ws| == n && Sum(ws) < WORD32 ==> OrderIndependent(ws)) <==> n <= 65537
  {
    if n <= 65537 {
      forall ws | Words16(ws) && |ws| == n && Sum(ws) < WORD32
        ensures OrderIndependent(ws)
      {
        ShortSumsFit(ws);
        ByteOrderIndependent(ws);
      }
    } else {
      var ones: nat := 65536;
      OrderSeen(ones, n - 65538);
      var ws := [0x00ff, 0xfeff] + Filler(ones, n - 65538);
      assert |ws| == n && Words16(ws);
    }
  }

}
