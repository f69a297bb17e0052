/**
 Ancillary data: the CMSG macros (section 20 of RFC 3542) lay out records in a control buffer
 and walk from one to the next. Addresses and sizes are words of the machine, so every sum of
 them wraps.
 */
module Ancillary {
  import LimbVectors

  type byte = b: nat | b < 256

  /** The data models: `long` and pointers of 4 bytes, or of 8. */
  datatype Abi = Ilp32 | Lp64 {
    /** `sizeof(long)`. */
    function Long(): (r: nat) { if Ilp32? then 4 else 8 }

    /** The number of addresses. */
    function Space(): (r: nat) { if Ilp32? then 0x1_0000_0000 else 0x1_0000_0000_0000_0000 }

    /** A sum as the machine keeps it: the remainder by `Space()`. */
    function Wrap(x: nat): (r: nat)
      ensures r < Space()
    {
      if Ilp32? then x % 0x1_0000_0000 else x % 0x1_0000_0000_0000_0000
    }

    /** The low bits that the alignment mask clears: the remainder by `Long()`. */
    function LowBits(x: nat): (r: nat)
      ensures r < Long() && r <= x
    {
      if Ilp32? then x % 4 else x % 8
    }

    predicate Aligned(x: nat) { LowBits(x) == 0 }

    /** `ALIGN_H` and `ALIGN_D`: adding a mask and clearing it again, in machine words. */
    function Align(size: nat): (r: nat) {
      var t := Wrap(size + Long() - 1);
      t - LowBits(t)
    }

    /** The header with the padding behind it. */
    function Header(): (r: nat)
      ensures r == if Ilp32? then 12 else 16
    {
      Align(HEADER)
    }

    /** `CMSG_SPACE`. */
    function CmsgSpace(length: nat): (r: nat) { Wrap(Header() + Align(length)) }

    /** `CMSG_LEN`. */
    function CmsgLen(length: nat): (r: nat) { Wrap(Header() + length) }

    /** The least aligned number from `size` on, without wrap-around. */
    function Up(size: nat): (r: nat) {
      size + Long() - 1 - LowBits(size + Long() - 1)
    }
  }

  /** `sizeof(struct cmsghdr)`: a `socklen_t` and two `int`s. */
  const HEADER: nat := 12

  // ----- wrapping sums -----

  lemma WrapIs(abi: Abi, x: nat, q: nat, r: nat)
    requires r < abi.Space() && x == (if abi.Ilp32? then 0x1_0000_0000 * q + r else 0x1_0000_0000_0000_0000 * q + r)
    ensures abi.Wrap(x) == r
  {
  }

  lemma LowBitsAre(abi: Abi, x: nat, q: nat, r: nat)
    requires r < abi.Long() && x == (if abi.Ilp32? then 4 * q + r else 8 * q + r)
    ensures abi.LowBits(x) == r
  {
  }

  lemma WrapSmall(abi: Abi, x: nat)
    requires x < abi.Space()
    ensures abi.Wrap(x) == x
  {
  }

  /** Wrapping a part of a sum first makes no difference. */
  lemma WrapOnce(abi: Abi, x: nat, y: nat)
    ensures abi.Wrap(abi.Wrap(x) + y) == abi.Wrap(x + y)
  {
    var w, r := abi.Wrap(x), abi.Wrap(abi.Wrap(x) + y);
    if abi.Ilp32? {
      WrapIs(abi, x + y, x / 0x1_0000_0000 + (w + y) / 0x1_0000_0000, r);
    } else {
      WrapIs(abi, x + y, x / 0x1_0000_0000_0000_0000 + (w + y) / 0x1_0000_0000_0000_0000, r);
    }
  }

  lemma WrapAdd(abi: Abi, a: nat, x: nat, h: nat)
    ensures abi.Wrap(a + abi.Wrap(x) + h) == abi.Wrap(a + x + h)
  {
    hide Abi.Wrap;
    WrapOnce(abi, x, a + h);
    assert abi.Wrap(x) + (a + h) == a + abi.Wrap(x) + h && x + (a + h) == a + x + h;
  }

  lemma UpFacts(abi: Abi, size: nat)
    ensures size <= abi.Up(size) < size + abi.Long() && abi.Aligned(abi.Up(size))
  {
    var t := size + abi.Long() - 1;
    LowBitsAre(abi, abi.Up(size), if abi.Ilp32? then t / 4 else t / 8, 0);
  }

  /** Clearing the low bits commutes with wrapping, since `Long()` divides `Space()`. */
  lemma MaskWrapped(abi: Abi, t: nat)
    ensures abi.Wrap(t) - abi.LowBits(abi.Wrap(t)) == abi.Wrap(t - abi.LowBits(t))
  {
    var w := abi.Wrap(t);
    var l := abi.LowBits(w);
    if abi.Ilp32? {
      var q := t / 0x1_0000_0000;
      LowBitsAre(abi, t, 0x4000_0000 * q + w / 4, l);
      WrapIs(abi, t - l, q, w - l);
    } else {
      var q := t / 0x1_0000_0000_0000_0000;
      LowBitsAre(abi, t, 0x2000_0000_0000_0000 * q + w / 8, l);
      WrapIs(abi, t - l, q, w - l);
    }
  }

  lemma AlignIsUp(abi: Abi, size: nat)
    ensures abi.Align(size) == abi.Wrap(abi.Up(size))
  {
    MaskWrapped(abi, size + abi.Long() - 1);
  }

  lemma AlignOfWrapped(abi: Abi, x: nat)
    ensures abi.Align(abi.Wrap(x)) == abi.Align(x)
  {
    WrapOnce(abi, x, abi.Long() - 1);
  }

  lemma SpaceIsUp(abi: Abi, length: nat)
    ensures abi.CmsgSpace(length) == abi.Wrap(abi.Header() + abi.Up(length))
  {
    AlignIsUp(abi, length);
    WrapOnce(abi, abi.Up(length), abi.Header());
  }

  /** Aligning the length of a record gives the space it takes, for every payload length and with
      all wrap-around; this is what makes CMSG_NXTHDR find what the layout put down. */
  lemma SpaceIsAlignedLength(abi: Abi, length: nat)
    ensures abi.Align(abi.CmsgLen(length)) == abi.CmsgSpace(length)
  {
    calc {
      abi.Align(abi.CmsgLen(length));
      { AlignOfWrapped(abi, abi.Header() + length); }
      abi.Align(abi.Header() + length);
      { AlignIsUp(abi, abi.Header() + length); }
      abi.Wrap(abi.Up(abi.Header() + length));
      { UpAfterHeader(abi, length); }
      abi.Wrap(abi.Header() + abi.Up(length));
      { SpaceIsUp(abi, length); }
      abi.CmsgSpace(length);
    }
  }

  lemma UpAfterHeader(abi: Abi, length: nat)
    ensures abi.Up(abi.Header() + length) == abi.Header() + abi.Up(length)
  {
    var x := length + abi.Long() - 1;
    var h := abi.Header();
    LowBitsAre(abi, h + x, if abi.Ilp32? then 3 + x / 4 else 2 + x / 8, abi.LowBits(x));
  }

  // ----- the walk -----

  const NULL: nat := 0

  /** `msg_control` and the bytes behind it; `msg_controllen` is their number. */
  datatype Msg = Msg(control: nat, buf: seq<byte>) {
    function End(): (r: nat) { control + |buf| }

    /** The buffer lies in the address space and not at the null address. */
    predicate Placed(abi: Abi) {
      0 < control && End() < abi.Space() && |buf| < 0x1_0000_0000
    }

    /** A whole header can be read at `a`. */
    predicate HasHeader(a: nat) {
      control <= a && a + HEADER <= End()
    }

    /** `cmsg_len` of the header at `a`. */
    function Length(a: nat): (r: nat)
      requires HasHeader(a)
    {
      U32At(buf, a - control)
    }
  }

  /** Four bytes in host order, here least significant first. */
  function U32At(s: seq<byte>, i: nat): (v: nat)
    requires i + 4 <= |s|
    ensures v < 0x1_0000_0000
  {
    (s[i] as nat) + 0x100 * (s[i + 1] as nat) + 0x1_0000 * (s[i + 2] as nat) + 0x100_0000 * (s[i + 3] as nat)
  }

  /** The weights of the stored bytes are the powers of 256 from the lowest one up. */
  lemma U32IsLittleEndian(s: seq<byte>, i: nat)
    requires i + 4 <= |s|
    ensures U32At(s, i) == LimbVectors.Val([s[i], s[i + 1], s[i + 2], s[i + 3]], 0x100)
  {
    LimbVectors.ValCons(s[i], [s[i + 1], s[i + 2], s[i + 3]], 0x100);
    LimbVectors.ValCons(s[i + 1], [s[i + 2], s[i + 3]], 0x100);
    LimbVectors.ValCons(s[i + 2], [s[i + 3]], 0x100);
    LimbVectors.ValOne(s[i + 3], 0x100);
    assert [s[i]] + [s[i + 1], s[i + 2], s[i + 3]] == [s[i], s[i + 1], s[i + 2], s[i + 3]];
  }

  /** `CMSG_FIRSTHDR`. */
  function FirstHdr(m: Msg): (r: nat) {
    if |m.buf| >= HEADER then m.control else NULL
  }

  /** `CMSG_NXTHDR`. */
  function NxtHdr(abi: Abi, m: Msg, a: nat): (r: nat)
    requires a == NULL || m.HasHeader(a)
  {
    if a == NULL then FirstHdr(m)
    else if abi.Wrap(a + abi.Align(m.Length(a)) + abi.Header()) > m.End() then NULL
    else abi.Wrap(a + abi.Align(m.Length(a)))
  }

  /** What CMSG_NXTHDR is meant to find: the next aligned position, if a padded header still fits
      behind it. */
  function Following(abi: Abi, m: Msg, a: nat): (r: nat)
    requires m.HasHeader(a)
  {
    var next := a + abi.Up(m.Length(a));
    if next + abi.Header() > m.End() then NULL else next
  }

  /** The sum that CMSG_NXTHDR compares does not wrap, or the next position is just the end of the
      address space and so comes out as the null address. */
  predicate Trusted(abi: Abi, m: Msg, a: nat)
    requires m.HasHeader(a)
  {
    var next := a + abi.Up(m.Length(a));
    next + abi.Header() < abi.Space() || next == abi.Space()
  }

  /** Exactly when CMSG_NXTHDR is right. */
  lemma NxtHdrIsExact(abi: Abi, m: Msg, a: nat)
    requires m.Placed(abi) && m.HasHeader(a)
    ensures NxtHdr(abi, m, a) == Following(abi, m, a) <==> Trusted(abi, m, a)
  {
    NxtHdrIs(abi, m, a);
  }

  lemma NxtSums(abi: Abi, m: Msg, a: nat)
    requires m.Placed(abi) && m.HasHeader(a)
    ensures var next := a + abi.Up(m.Length(a));
            NxtHdr(abi, m, a) == if abi.Wrap(next + abi.Header()) > m.End() then NULL else abi.Wrap(next)
  {
    hide Abi.Wrap, Abi.Up, Abi.Align;
    AlignIsUp(abi, m.Length(a));
    WrapAdd(abi, a, abi.Up(m.Length(a)), 0);
    WrapAdd(abi, a, abi.Up(m.Length(a)), abi.Header());
  }

  /** What CMSG_NXTHDR does with its wrapping sums: a sum that wraps always passes the guard. */
  lemma NxtHdrIs(abi: Abi, m: Msg, a: nat)
    requires m.Placed(abi) && m.HasHeader(a)
    ensures var next, space := a + abi.Up(m.Length(a)), abi.Space();
            && next < 2 * space
            && NxtHdr(abi, m, a) == if next + abi.Header() < space then Following(abi, m, a)
                                    else if next < space then next
                                    else next - space
  {
    var up := abi.Up(m.Length(a));
    NxtSums(abi, m, a);
    UpBound(abi, m.Length(a));
    NxtCases(a, up, abi.Header(), m.End(), abi.Space());
    WrapTwo(abi, a + up);
    WrapTwo(abi, a + up + abi.Header());
  }

  /** A sum that wraps comes out as an address in the buffer or before it. */
  lemma NxtCases(a: nat, up: nat, h: nat, end: nat, space: nat)
    requires a + HEADER <= end < space && HEADER <= h <= 16 && 0x1_0000_0000 <= space && up <= 0x1_0000_0000
    requires h == HEADER || 0x2_0000_0000 <= space
    ensures a + up + h < 2 * space && (space <= a + up + h ==> a + up + h - space <= end)
  {
  }

  /** Rounding up a 32-bit length gives at most 2^32. */
  lemma UpBound(abi: Abi, size: nat)
    requires size < 0x1_0000_0000
    ensures size <= abi.Up(size) <= 0x1_0000_0000
  {
    var t := size + abi.Long() - 1;
    assert abi.Up(size) == if abi.Ilp32? then t / 4 * 4 else t / 8 * 8;
  }

  lemma WrapTwo(abi: Abi, x: nat)
    requires x < 2 * abi.Space()
    ensures abi.Wrap(x) == if x < abi.Space() then x else x - abi.Space()
  {
    WrapIs(abi, x, if x < abi.Space() then 0 else 1, if x < abi.Space() then x else x - abi.Space());
  }

  /** A length that does not run past the end of the address space can be trusted. */
  lemma ShortEnough(abi: Abi, m: Msg, a: nat)
    requires m.HasHeader(a) && a + m.Length(a) + abi.Long() + abi.Header() <= abi.Space()
    ensures Trusted(abi, m, a)
  {
    UpFacts(abi, m.Length(a));
  }

  /** On a 32-bit machine the guard can be passed by a length that wraps. */
  lemma WrapExample()
    ensures var m := Msg(0x1000, [253, 255, 255, 255, 0, 0, 0, 0, 0, 0, 0, 0]);
            && m.Placed(Ilp32) && m.HasHeader(0x1000) && m.Length(0x1000) == 0xffff_fffd
            && Following(Ilp32, m, 0x1000) == NULL && NxtHdr(Ilp32, m, 0x1000) == 0x1000
  {
  }

  /** Headers found one from the other by CMSG_NXTHDR. */
  predicate Chain(abi: Abi, m: Msg, hs: seq<nat>) {
    && (forall i :: 0 <= i < |hs| ==> hs[i] != NULL && m.HasHeader(hs[i]))
    && (forall i :: 1 <= i < |hs| ==> hs[i] == NxtHdr(abi, m, hs[i - 1]))
  }

  /** Headers visited from CMSG_FIRSTHDR on. */
  predicate Visits(abi: Abi, m: Msg, hs: seq<nat>) {
    (hs != [] ==> hs[0] == FirstHdr(m)) && Chain(abi, m, hs)
  }

  /** The whole walk, to the end. */
  predicate Walk(abi: Abi, m: Msg, hs: seq<nat>) {
    && Visits(abi, m, hs)
    && (if hs == [] then FirstHdr(m) == NULL else NxtHdr(abi, m, hs[|hs| - 1]) == NULL)
  }

  /** At the null address CMSG_NXTHDR gives the first header, if a bare one fits. */
  lemma NxtHdrAtNull(abi: Abi, m: Msg)
    ensures NxtHdr(abi, m, NULL) == FirstHdr(m) == if |m.buf| < 12 then 0 else m.control
  {
  }

  /** Headers found by CMSG_NXTHDR alone: from the null address until the null address. */
  predicate Loop(abi: Abi, m: Msg, hs: seq<nat>) {
    && (forall i :: 0 <= i < |hs| ==> hs[i] != NULL && m.HasHeader(hs[i]))
    && (forall i :: 0 <= i <= |hs| ==> NxtHdr(abi, m, Before(hs, i)) == At(hs, i))
  }

  /** The header before place `i`. */
  function Before(hs: seq<nat>, i: nat): (a: nat)
    requires i <= |hs|
  {
    if i == 0 then NULL else hs[i - 1]
  }

  function At(hs: seq<nat>, i: nat): (a: nat)
    requires i <= |hs|
  {
    if i == |hs| then NULL else hs[i]
  }

  /** Beginning with CMSG_NXTHDR at the null address is the same as with CMSG_FIRSTHDR. */
  lemma LoopIsWalk(abi: Abi, m: Msg, hs: seq<nat>)
    ensures Loop(abi, m, hs) <==> Walk(abi, m, hs)
  {
    hide NxtHdr, FirstHdr;
    NxtHdrAtNull(abi, m);
    var n := |hs|;
    if Loop(abi, m, hs) {
      assert NxtHdr(abi, m, Before(hs, 0)) == At(hs, 0);
      assert NxtHdr(abi, m, Before(hs, n)) == At(hs, n);
      forall i | 1 <= i < n
        ensures hs[i] == NxtHdr(abi, m, hs[i - 1])
      {
        assert NxtHdr(abi, m, Before(hs, i)) == At(hs, i);
      }
    }
    if Walk(abi, m, hs) {
      forall i | 0 <= i <= n
        ensures NxtHdr(abi, m, Before(hs, i)) == At(hs, i)
      {
      }
    }
  }

  /** There is at most one walk, and every visit sequence is a prefix of it. */
  lemma {:induction false} WalkUnique(abi: Abi, m: Msg, hs: seq<nat>, walk: seq<nat>)
    requires Visits(abi, m, hs) && Walk(abi, m, walk)
    ensures hs <= walk
  {
    if hs == [] {
    } else {
      var n := |hs| - 1;
      WalkUnique(abi, m, hs[..n], walk);
      assert hs == hs[..n] + [hs[n]];
      assert 0 < n ==> hs[n - 1] == hs[..n][n - 1] == walk[n - 1];
      if n == |walk| {
        assert false;
      }
      assert hs[n] == walk[n];
    }
  }

  /** The next position does not come too near the end of the address space: a padded header fits
      in front of it, or the position is exactly that end, or a bare header fits in the buffer. */
  predicate Orderly(abi: Abi, m: Msg, a: nat)
    requires m.HasHeader(a)
  {
    Trusted(abi, m, a) || a + abi.Up(m.Length(a)) + HEADER <= m.End()
  }

  /** From a header inside the buffer CMSG_NXTHDR goes to another one inside the buffer and behind
      the whole record, or stops, exactly if the header is orderly. */
  lemma NextStaysInside(abi: Abi, m: Msg, a: nat)
    requires m.Placed(abi) && m.HasHeader(a)
    ensures var next := NxtHdr(abi, m, a);
            next == NULL || (m.HasHeader(next) && a + m.Length(a) <= next) <==> Orderly(abi, m, a)
  {
    NxtHdrIs(abi, m, a);
    UpBound(abi, m.Length(a));
  }

  /** A header that says it has no length and has room for a padded one from where it is; past the
      end of the address space there seems to be room as well. */
  predicate Stuck(abi: Abi, m: Msg, a: nat)
    requires m.HasHeader(a)
  {
    m.Length(a) == 0 && (a + abi.Header() <= m.End() || abi.Space() <= a + abi.Header())
  }

  /** From an orderly header the walk stays where it is exactly if the header is stuck. */
  lemma StuckStays(abi: Abi, m: Msg, a: nat)
    requires m.Placed(abi) && m.HasHeader(a)
    ensures Stuck(abi, m, a) ==> NxtHdr(abi, m, a) == a
    ensures Orderly(abi, m, a) && NxtHdr(abi, m, a) == a ==> Stuck(abi, m, a)
  {
    hide NxtHdr, Abi.Wrap, Abi.Up, U32At;
    NxtHdrIs(abi, m, a);
    UpFacts(abi, m.Length(a));
    UpOfAligned(abi, 0);
  }

  lemma SumAligned(abi: Abi, x: nat, y: nat)
    requires abi.Aligned(x) && abi.Aligned(y)
    ensures abi.Aligned(x + y) && (y <= x ==> abi.Aligned(x - y))
  {
    LowBitsAre(abi, x + y, if abi.Ilp32? then x / 4 + y / 4 else x / 8 + y / 8, 0);
    if y <= x {
      LowBitsAre(abi, x - y, if abi.Ilp32? then x / 4 - y / 4 else x / 8 - y / 8, 0);
    }
  }

  lemma NextAligned(abi: Abi, m: Msg, a: nat)
    requires m.Placed(abi) && m.HasHeader(a) && abi.Aligned(a)
    ensures abi.Aligned(NxtHdr(abi, m, a))
  {
    var up := abi.Up(m.Length(a));
    NxtHdrIs(abi, m, a);
    UpFacts(abi, m.Length(a));
    SumAligned(abi, a, up);
    SumAligned(abi, abi.Space(), 0);
    if abi.Space() <= a + up {
      SumAligned(abi, a + up, abi.Space());
    }
  }

  /** If the buffer is aligned for `long`, so is every header visited, wrap-around or not. */
  lemma {:induction false} VisitsAreAligned(abi: Abi, m: Msg, hs: seq<nat>)
    requires m.Placed(abi) && Visits(abi, m, hs) && abi.Aligned(m.control)
    ensures forall i :: 0 <= i < |hs| ==> abi.Aligned(hs[i])
  {
    if 1 < |hs| {
      var before := hs[..|hs| - 1];
      assert Visits(abi, m, before);
      VisitsAreAligned(abi, m, before);
      NextAligned(abi, m, before[|before| - 1]);
      assert hs == before + [hs[|hs| - 1]];
    }
  }

  // ----- the walk of an arbitrary buffer -----

  /** Each record ends before the next header, and no header comes twice. */
  ghost predicate InOrder(m: Msg, hs: seq<nat>)
    requires forall i :: 0 <= i < |hs| ==> m.HasHeader(hs[i])
  {
    forall i, j :: 0 <= i < j < |hs| ==> hs[i] < hs[j] && hs[i] + m.Length(hs[i]) <= hs[j]
  }

  /** The header is one from which a walk can only go forward. */
  predicate Forward(abi: Abi, m: Msg, a: nat)
    requires m.HasHeader(a)
  {
    Orderly(abi, m, a) && !Stuck(abi, m, a)
  }

  lemma ForwardMeans(abi: Abi, m: Msg, a: nat)
    requires m.Placed(abi) && m.HasHeader(a)
    ensures var next := NxtHdr(abi, m, a);
            next == NULL || (m.HasHeader(next) && a < next && a + m.Length(a) <= next) <==> Forward(abi, m, a)
  {
    NextStaysInside(abi, m, a);
    StuckStays(abi, m, a);
  }

  /** Headers visited are in increasing order and their records do not overlap, exactly if all of
      them but the last lead forward. */
  lemma {:induction false} VisitsInOrder(abi: Abi, m: Msg, hs: seq<nat>)
    requires m.Placed(abi) && Visits(abi, m, hs)
    ensures InOrder(m, hs) <==> forall i :: 0 <= i < |hs| - 1 ==> Forward(abi, m, hs[i])
  {
    if 1 < |hs| {
      var n := |hs| - 1;
      var before := hs[..n];
      assert Visits(abi, m, before);
      VisitsInOrder(abi, m, before);
      ForwardMeans(abi, m, hs[n - 1]);
      assert hs[n] == NxtHdr(abi, m, hs[n - 1]);
      assert forall i :: 0 <= i < n ==> before[i] == hs[i];
      assert InOrder(m, hs) ==> InOrder(m, before) && hs[n - 1] < hs[n] && hs[n - 1] + m.Length(hs[n - 1]) <= hs[n];
    }
  }

  /** With lengths of at least a header there are only as many records in order as fit. */
  lemma {:induction false} VisitsAreFew(m: Msg, hs: seq<nat>)
    requires forall i :: 0 <= i < |hs| ==> m.HasHeader(hs[i]) && HEADER <= m.Length(hs[i])
    requires InOrder(m, hs)
    ensures HEADER * |hs| <= |m.buf|
    ensures hs != [] ==> m.control + HEADER * (|hs| - 1) <= hs[|hs| - 1]
  {
    assert hs != [] ==> m.HasHeader(hs[|hs| - 1]);
    if 1 < |hs| {
      var before := hs[..|hs| - 1];
      assert forall i :: 0 <= i < |before| ==> before[i] == hs[i];
      VisitsAreFew(m, before);
      assert before[|before| - 1] == hs[|hs| - 2];
    }
  }

  /** No visited header leads outside the buffer or back into what was walked already. */
  ghost predicate Tame(abi: Abi, m: Msg) {
    forall hs :: Visits(abi, m, hs) && hs != [] ==> Orderly(abi, m, hs[|hs| - 1])
  }

  ghost predicate NeverStuck(abi: Abi, m: Msg) {
    forall hs :: Visits(abi, m, hs) && hs != [] ==> !Stuck(abi, m, hs[|hs| - 1])
  }

  lemma {:induction false} WalkFrom(abi: Abi, m: Msg, hs: seq<nat>) returns (walk: seq<nat>)
    requires m.Placed(abi) && Tame(abi, m) && NeverStuck(abi, m) && Visits(abi, m, hs) && hs != []
    ensures Walk(abi, m, walk)
    decreases m.End() - hs[|hs| - 1]
  {
    var next := NxtHdr(abi, m, hs[|hs| - 1]);
    ForwardMeans(abi, m, hs[|hs| - 1]);
    if next == NULL {
      walk := hs;
    } else {
      walk := WalkFrom(abi, m, hs + [next]);
    }
  }

  lemma WalkInOrder(abi: Abi, m: Msg, walk: seq<nat>)
    requires m.Placed(abi) && Tame(abi, m) && NeverStuck(abi, m) && Walk(abi, m, walk)
    ensures InOrder(m, walk)
  {
    forall i | 0 <= i < |walk| - 1
      ensures Forward(abi, m, walk[i])
    {
      assert Visits(abi, m, walk[..i + 1]) && walk[..i + 1][i] == walk[i];
    }
    VisitsInOrder(abi, m, walk);
  }

  /** A header in an orderly walk leads forward. */
  lemma InOrderLeadsForward(abi: Abi, m: Msg, walk: seq<nat>, hs: seq<nat>)
    requires m.Placed(abi) && Walk(abi, m, walk) && InOrder(m, walk) && Visits(abi, m, hs) && hs != []
    ensures Forward(abi, m, hs[|hs| - 1])
  {
    WalkUnique(abi, m, hs, walk);
    VisitsInOrder(abi, m, walk);
    ForwardMeans(abi, m, hs[|hs| - 1]);
  }

  /** Main theorem about an arbitrary control buffer: it can be walked to the end, with every
      header inside the buffer, in increasing order and without overlap, if and only if no visited
      header is disorderly or stuck. */
  lemma OrderlyWalkIff(abi: Abi, m: Msg)
    requires m.Placed(abi)
    ensures (exists walk :: Walk(abi, m, walk) && InOrder(m, walk)) <==> Tame(abi, m) && NeverStuck(abi, m)
  {
    if Tame(abi, m) && NeverStuck(abi, m) {
      var walk := [];
      if FirstHdr(m) != NULL {
        walk := WalkFrom(abi, m, [FirstHdr(m)]);
      }
      assert Walk(abi, m, walk);
      WalkInOrder(abi, m, walk);
    }
    if walk :| Walk(abi, m, walk) && InOrder(m, walk) {
      forall hs | Visits(abi, m, hs) && hs != []
        ensures Forward(abi, m, hs[|hs| - 1])
      {
        InOrderLeadsForward(abi, m, walk, hs);
      }
    }
  }

  /** In a tame buffer nothing but a stuck header keeps a walk from ending. */
  lemma WalkEndsIff(abi: Abi, m: Msg)
    requires m.Placed(abi) && Tame(abi, m)
    ensures (exists walk :: Walk(abi, m, walk)) <==> NeverStuck(abi, m)
  {
    OrderlyWalkIff(abi, m);
    if walk :| Walk(abi, m, walk) {
      forall hs | Visits(abi, m, hs) && hs != []
        ensures !Stuck(abi, m, hs[|hs| - 1])
      {
        StuckStays(abi, m, hs[|hs| - 1]);
        if Stuck(abi, m, hs[|hs| - 1]) {
          StuckForever(abi, m, hs, walk);
        }
      }
    }
  }

  lemma {:induction false} StuckForever(abi: Abi, m: Msg, hs: seq<nat>, walk: seq<nat>)
    requires Visits(abi, m, hs) && hs != [] && Walk(abi, m, walk)
    requires NxtHdr(abi, m, hs[|hs| - 1]) == hs[|hs| - 1]
    ensures false
    decreases |walk| - |hs|
  {
    WalkUnique(abi, m, hs, walk);
    var more := hs + [hs[|hs| - 1]];
    assert Visits(abi, m, more);
    WalkUnique(abi, m, more, walk);
    StuckForever(abi, m, more, walk);
  }

  /** Lengths that stay inside the buffer keep it tame, unless it ends right below the end of the
      address space. */
  lemma HonestIsTame(abi: Abi, m: Msg)
    requires m.Placed(abi) && m.End() + abi.Long() + abi.Header() <= abi.Space()
    requires forall hs :: Visits(abi, m, hs) && hs != [] ==> hs[|hs| - 1] + m.Length(hs[|hs| - 1]) <= m.End()
    ensures Tame(abi, m)
  {
    forall hs | Visits(abi, m, hs) && hs != []
      ensures Orderly(abi, m, hs[|hs| - 1])
    {
      ShortEnough(abi, m, hs[|hs| - 1]);
    }
  }

  // ----- which buffers can be trusted whatever they hold -----

  /** The last place in a buffer of `n` bytes to which a walk can lead. */
  function LastSlot(abi: Abi, control: nat, n: nat): (a: nat)
    ensures control <= a
  {
    if n < abi.Header() then control else control + (n - abi.Header()) - abi.LowBits(n - abi.Header())
  }

  lemma RoundDown(abi: Abi, x: nat, y: nat)
    requires x <= y && abi.Aligned(x)
    ensures x <= y - abi.LowBits(y) && abi.Aligned(y - abi.LowBits(y))
  {
    LowBitsAre(abi, y - abi.LowBits(y), if abi.Ilp32? then y / 4 else y / 8, 0);
    if y - abi.LowBits(y) < x {
      LowBitsAre(abi, x, if abi.Ilp32? then y / 4 else y / 8, x - (y - abi.LowBits(y)));
    }
  }

  /** `a` is a place in `m` to which an orderly walk can lead. */
  predicate Slot(abi: Abi, m: Msg, a: nat) {
    m.control <= a && abi.Aligned(a - m.control) && (a == m.control || a + abi.Header() <= m.End())
  }

  lemma SlotBound(abi: Abi, m: Msg, a: nat)
    requires Slot(abi, m, a)
    ensures a <= LastSlot(abi, m.control, |m.buf|)
  {
    if a != m.control {
      RoundDown(abi, a - m.control, |m.buf| - abi.Header());
    }
  }

  lemma FollowingSlot(abi: Abi, m: Msg, a: nat)
    requires m.HasHeader(a) && Slot(abi, m, a) && Following(abi, m, a) != NULL
    ensures Slot(abi, m, Following(abi, m, a))
  {
    UpFacts(abi, m.Length(a));
    SumAligned(abi, a - m.control, abi.Up(m.Length(a)));
  }

  /** Below this bound no length can reach the end of the address space. */
  predicate OutOfReach(abi: Abi, control: nat, n: nat) {
    LastSlot(abi, control, n) + 0x1_0000_0000 + abi.Header() < abi.Space()
  }

  lemma SlotTrusted(abi: Abi, m: Msg, a: nat)
    requires m.Placed(abi) && m.HasHeader(a) && Slot(abi, m, a) && OutOfReach(abi, m.control, |m.buf|)
    ensures Trusted(abi, m, a)
  {
    SlotBound(abi, m, a);
    UpBound(abi, m.Length(a));
  }

  lemma {:induction false} VisitsAreSlots(abi: Abi, m: Msg, hs: seq<nat>)
    requires m.Placed(abi) && OutOfReach(abi, m.control, |m.buf|) && Visits(abi, m, hs) && hs != []
    ensures Slot(abi, m, hs[|hs| - 1])
  {
    if 1 < |hs| {
      var before := hs[..|hs| - 1];
      var a := before[|before| - 1];
      assert Visits(abi, m, before);
      VisitsAreSlots(abi, m, before);
      SlotTrusted(abi, m, a);
      NxtHdrIsExact(abi, m, a);
      assert hs[|before|] == NxtHdr(abi, m, hs[|before| - 1]);
      FollowingSlot(abi, m, a);
    }
  }

  /** A buffer of `n` bytes in which the walk comes to the last slot and finds `length` there. */
  function Trap(abi: Abi, n: nat, k: nat, length: nat): (buf: seq<byte>)
    requires (k == 0 || abi.Long() <= k) && k + HEADER <= n
    ensures |buf| == n
  {
    if k == 0 then U32Bytes(length) + Zeros(n - 4)
    else U32Bytes(k) + Zeros(k - 4) + U32Bytes(length) + Zeros(n - k - 4)
  }

  lemma TrapLengths(abi: Abi, control: nat, n: nat, k: nat, length: nat)
    requires (k == 0 || abi.Long() <= k) && k + HEADER <= n < 0x1_0000_0000 && length < 0x1_0000_0000
    ensures var m := Msg(control, Trap(abi, n, k, length));
            m.Length(control + k) == length && (0 < k ==> m.Length(control) == k)
  {
    var buf := Trap(abi, n, k, length);
    assert buf[k..k + 4] == U32Bytes(length);
    U32RoundTrip(buf, k, length);
    if 0 < k {
      assert buf[0..4] == U32Bytes(k);
      U32RoundTrip(buf, 0, k);
    }
  }

  /** A length that takes the walk from `a` past the end of the address space. */
  function Overlong(abi: Abi, a: nat): (length: nat)
    ensures length < 0x1_0000_0000
  {
    if a + 0x1_0000_0000 == abi.Space() then 0xffff_fff8 else 0xffff_ffff
  }

  lemma OverlongReaches(abi: Abi, m: Msg, a: nat)
    requires m.Placed(abi) && m.HasHeader(a) && m.Length(a) == Overlong(abi, a) && m.End() < a + 64
    requires abi.Space() <= a + 0x1_0000_0000 + abi.Header()
    ensures !Orderly(abi, m, a)
  {
    assert abi.Up(0xffff_fff8) == 0xffff_fff8 && abi.Up(0xffff_ffff) == 0x1_0000_0000;
  }

  lemma TrapSprings(abi: Abi, control: nat, n: nat)
    requires 0 < control && control + n < abi.Space() && HEADER <= n < 0x1_0000_0000 && !OutOfReach(abi, control, n)
    ensures exists buf: seq<byte> :: |buf| == n && !Tame(abi, Msg(control, buf))
  {
    hide Trap, Abi.Up, Abi.Wrap, Abi.LowBits, U32At, LastSlot;
    var a := LastSlot(abi, control, n);
    var k, length := a - control, Overlong(abi, a);
    LastSlotFacts(abi, control, n);
    var m := Msg(control, Trap(abi, n, k, length));
    TrapLengths(abi, control, n, k, length);
    OverlongReaches(abi, m, a);
    var hs := if k == 0 then [control] else [control, a];
    if 0 < k {
      TrapLeads(abi, m, k);
    }
    assert Visits(abi, m, hs) && hs[|hs| - 1] == a;
    assert !Tame(abi, m);
  }

  lemma LastSlotFacts(abi: Abi, control: nat, n: nat)
    requires HEADER <= n
    ensures var a := LastSlot(abi, control, n);
            && abi.Aligned(a - control) && a + HEADER <= control + n < a + 64
            && (a == control || (control + abi.Long() <= a && a + abi.Header() <= control + n))
  {
    RoundDown(abi, 0, 0);
    if abi.Header() <= n {
      RoundDown(abi, 0, n - abi.Header());
    }
  }

  lemma UpOfAligned(abi: Abi, k: nat)
    requires abi.Aligned(k)
    ensures abi.Up(k) == k
  {
    UpFacts(abi, k);
    RoundDown(abi, k, abi.Up(k));
  }

  lemma TrapLeads(abi: Abi, m: Msg, k: nat)
    requires m.Placed(abi) && 0 < k && abi.Aligned(k) && k + abi.Header() <= |m.buf| && m.Length(m.control) == k
    ensures NxtHdr(abi, m, m.control) == m.control + k
  {
    hide NxtHdr, U32At, Abi.Up, Abi.Wrap;
    UpOfAligned(abi, k);
    NxtHdrIsExact(abi, m, m.control);
  }

  /** Which buffers are tame whatever they hold, by where they are and how long: those too short
      for a header, and those whose last slot is further than 2^32 and a padded header from the end
      of the address space. With 32-bit addresses there are none of the second kind. */
  lemma PlacementIsExact(abi: Abi, control: nat, n: nat)
    requires 0 < control && control + n < abi.Space() && n < 0x1_0000_0000
    ensures (forall buf: seq<byte> :: |buf| == n ==> Tame(abi, Msg(control, buf)))
            <==> n < HEADER || OutOfReach(abi, control, n)
    ensures OutOfReach(abi, control, n) ==> abi.Lp64?
  {
    if n < HEADER || OutOfReach(abi, control, n) {
      forall buf: seq<byte> | |buf| == n
        ensures Tame(abi, Msg(control, buf))
      {
        PlacementTame(abi, Msg(control, buf));
      }
    } else {
      TrapSprings(abi, control, n);
    }
  }

  lemma PlacementTame(abi: Abi, m: Msg)
    requires m.Placed(abi) && (|m.buf| < HEADER || OutOfReach(abi, m.control, |m.buf|))
    ensures Tame(abi, m)
  {
    forall hs | Visits(abi, m, hs) && hs != []
      ensures Orderly(abi, m, hs[|hs| - 1])
    {
      assert m.HasHeader(hs[0]);
      VisitsAreSlots(abi, m, hs);
      SlotTrusted(abi, m, hs[|hs| - 1]);
    }
  }

  /** The usual loop over a control buffer, on every buffer on which it ends at all. */
  method WalkBuffer(abi: Abi, m: Msg) returns (hs: seq<nat>)
    requires m.Placed(abi) && exists walk :: Walk(abi, m, walk)
    ensures Walk(abi, m, hs)
    ensures InOrder(m, hs) <==> Tame(abi, m)
  {
    ghost var walk :| Walk(abi, m, walk);
    hs := [];
    var cmsg := FirstHdr(m);
    while cmsg != NULL
      invariant hs <= walk
      invariant cmsg == if |hs| < |walk| then walk[|hs|] else NULL
      decreases |walk| - |hs|
    {
      hs := hs + [cmsg];
      cmsg := NxtHdr(abi, m, cmsg);
    }
    assert hs == walk;
    OrderlyWalkIff(abi, m);
    if Tame(abi, m) {
      WalkEndsIff(abi, m);
      WalkInOrder(abi, m, hs);
    }
  }

  // ----- laying out records -----

  datatype Record = Record(level: nat, kind: nat, data: seq<byte>) {
    predicate Storable() {
      level < 0x1_0000_0000 && kind < 0x1_0000_0000 && |data| + 32 <= 0x1_0000_0000
    }
  }

  function U32Bytes(v: nat): (s: seq<byte>)
    ensures |s| == 4
  {
    [v % 0x100, v / 0x100 % 0x100, v / 0x1_0000 % 0x100, v / 0x100_0000 % 0x100]
  }

  lemma U32BytesDenote(v: nat)
    requires v < 0x1_0000_0000
    ensures LimbVectors.Val(U32Bytes(v), 0x100) == v
  {
    var s := U32Bytes(v);
    assert s[0..4] == s;
    U32RoundTrip(s, 0, v);
    U32IsLittleEndian(s, 0);
    assert s == [s[0], s[1], s[2], s[3]];
  }

  function Zeros(n: nat): (s: seq<byte>)
    ensures |s| == n
  {
    if n == 0 then [] else [0] + Zeros(n - 1)
  }

  /** A header filled in with CMSG_LEN, and the payload at CMSG_DATA, in CMSG_SPACE bytes. */
  function RecordBytes(abi: Abi, r: Record): (s: seq<byte>)
    requires r.Storable()
    ensures |s| == abi.Header() + abi.Up(|r.data|)
  {
    UpFacts(abi, |r.data|);
    U32Bytes(abi.CmsgLen(|r.data|)) + U32Bytes(r.level) + U32Bytes(r.kind) + Zeros(abi.Header() - HEADER)
    + r.data + Zeros(abi.Up(|r.data|) - |r.data|)
  }

  lemma RecordTakesSpace(abi: Abi, r: Record)
    requires r.Storable()
    ensures |RecordBytes(abi, r)| == abi.CmsgSpace(|r.data|)
  {
    UpFacts(abi, |r.data|);
    SpaceIsUp(abi, |r.data|);
    WrapSmall(abi, abi.Header() + abi.Up(|r.data|));
  }

  predicate AllStorable(rs: seq<Record>) {
    forall i :: 0 <= i < |rs| ==> rs[i].Storable()
  }

  function Chunks(abi: Abi, rs: seq<Record>): (cs: seq<seq<byte>>)
    requires AllStorable(rs)
    ensures |cs| == |rs| && forall i :: 0 <= i < |rs| ==> cs[i] == RecordBytes(abi, rs[i])
  {
    if rs == [] then [] else [RecordBytes(abi, rs[0])] + Chunks(abi, rs[1..])
  }

  function Concat(cs: seq<seq<byte>>): (s: seq<byte>) {
    if cs == [] then [] else cs[0] + Concat(cs[1..])
  }

  /** The records one after another. */
  function Layout(abi: Abi, rs: seq<Record>): (s: seq<byte>)
    requires AllStorable(rs)
  {
    Concat(Chunks(abi, rs))
  }

  lemma {:induction false} ConcatAppend(cs: seq<seq<byte>>, ds: seq<seq<byte>>)
    ensures Concat(cs + ds) == Concat(cs) + Concat(ds)
  {
    if cs == [] {
      assert cs + ds == ds;
    } else {
      ConcatAppend(cs[1..], ds);
      assert (cs + ds)[1..] == cs[1..] + ds;
      assert cs[0] + (Concat(cs[1..]) + Concat(ds)) == (cs[0] + Concat(cs[1..])) + Concat(ds);
    }
  }

  lemma ConcatAround(cs: seq<seq<byte>>, i: nat)
    requires i < |cs|
    ensures Concat(cs) == Concat(cs[..i]) + cs[i] + Concat(cs[i + 1..])
    ensures Concat(cs[..i + 1]) == Concat(cs[..i]) + cs[i]
  {
    var left, one, right := cs[..i], [cs[i]], cs[i + 1..];
    hide Concat;
    ConcatOne(cs[i]);
    Cut(cs, i);
    ConcatAppend(left, one);
    ConcatAppend(left + one, right);
  }

  lemma ConcatOne(c: seq<byte>)
    ensures Concat([c]) == c
  {
  }

  lemma Cut(cs: seq<seq<byte>>, i: nat)
    requires i < |cs|
    ensures cs[..i + 1] == cs[..i] + [cs[i]] && cs == cs[..i] + [cs[i]] + cs[i + 1..]
  {
  }

  /** Where record `i` begins, in a layout that begins at `control`. */
  function Start(abi: Abi, control: nat, rs: seq<Record>, i: nat): (r: nat)
    requires AllStorable(rs) && i <= |rs|
  {
    control + |Concat(Chunks(abi, rs)[..i])|
  }

  function Starts(abi: Abi, control: nat, rs: seq<Record>, n: nat): (hs: seq<nat>)
    requires AllStorable(rs) && n <= |rs|
    ensures |hs| == n && forall i :: 0 <= i < n ==> hs[i] == Start(abi, control, rs, i)
  {
    if n == 0 then [] else Starts(abi, control, rs, n - 1) + [Start(abi, control, rs, n - 1)]
  }

  /** The record at `a`, payload included, lies in the buffer. */
  predicate Readable(abi: Abi, m: Msg, a: nat) {
    m.HasHeader(a) && abi.Header() <= m.Length(a) && a + m.Length(a) <= m.End()
  }

  /** What a reader finds at `a`: the payload is at CMSG_DATA and goes up to `cmsg_len`. */
  function RecordAt(abi: Abi, m: Msg, a: nat): (r: Record)
    requires Readable(abi, m, a)
  {
    var i := a - m.control;
    Record(U32At(m.buf, i + 4), U32At(m.buf, i + 8), m.buf[i + abi.Header()..i + m.Length(a)])
  }

  /** `CMSG_DATA`. */
  function CmsgData(abi: Abi, a: nat): (r: nat) {
    abi.Wrap(a + abi.Header())
  }

  /** What a reader takes for the payload begins at CMSG_DATA, behind the padded header. */
  lemma DataIsPayload(abi: Abi, m: Msg, a: nat)
    requires m.Placed(abi) && Readable(abi, m, a)
    ensures CmsgData(abi, a) == a + if abi.Ilp32? then 12 else 16
    ensures RecordAt(abi, m, a).data == m.buf[CmsgData(abi, a) - m.control..a + m.Length(a) - m.control]
  {
    WrapSmall(abi, a + abi.Header());
  }

  lemma U32RoundTrip(s: seq<byte>, i: nat, v: nat)
    requires v < 0x1_0000_0000 && i + 4 <= |s| && s[i..i + 4] == U32Bytes(v)
    ensures U32At(s, i) == v
  {
    var w := s[i..i + 4];
    assert w[0] == s[i] && w[1] == s[i + 1] && w[2] == s[i + 2] && w[3] == s[i + 3];
    BytesAddUp(v, s[i], s[i + 1], s[i + 2], s[i + 3]);
  }

  lemma BytesAddUp(v: nat, b0: nat, b1: nat, b2: nat, b3: nat)
    requires v < 0x1_0000_0000
    requires b0 == v % 0x100 && b1 == v / 0x100 % 0x100 && b2 == v / 0x1_0000 % 0x100 && b3 == v / 0x100_0000 % 0x100
    ensures b0 + 0x100 * b1 + 0x1_0000 * b2 + 0x100_0000 * b3 == v
  {
    var q1, q2 := v / 0x100, v / 0x1_0000;
    assert q1 / 0x100 == q2 && q2 / 0x100 == v / 0x100_0000;
  }

  lemma Fields(abi: Abi, r: Record)
    requires r.Storable()
    ensures var s, h, n := RecordBytes(abi, r), abi.Header(), |r.data|;
            && HEADER <= h && h + n <= |s|
            && s[0..4] == U32Bytes(abi.CmsgLen(n)) && s[4..8] == U32Bytes(r.level) && s[8..12] == U32Bytes(r.kind)
            && s[h..h + n] == r.data
  {
    UpFacts(abi, |r.data|);
  }

  lemma Inside(pre: seq<byte>, s: seq<byte>, post: seq<byte>, i: nat, j: nat)
    requires i <= j <= |s|
    ensures (pre + s + post)[|pre| + i..|pre| + j] == s[i..j]
  {
  }

  lemma CmsgLenIs(abi: Abi, n: nat)
    requires n + 32 <= 0x1_0000_0000
    ensures abi.CmsgLen(n) == abi.Header() + n < 0x1_0000_0000
  {
    WrapSmall(abi, abi.Header() + n);
  }

  lemma ReadLength(abi: Abi, m: Msg, pre: seq<byte>, r: Record, post: seq<byte>)
    requires r.Storable() && m.buf == pre + RecordBytes(abi, r) + post
    ensures m.HasHeader(m.control + |pre|) && m.Length(m.control + |pre|) == abi.Header() + |r.data|
    ensures Readable(abi, m, m.control + |pre|)
  {
    var s, n := RecordBytes(abi, r), |r.data|;
    Fields(abi, r);
    CmsgLenIs(abi, n);
    Inside(pre, s, post, 0, 4);
    U32RoundTrip(m.buf, |pre|, abi.CmsgLen(n));
  }

  /** A record is read back from wherever it was put. */
  lemma ReadBack(abi: Abi, m: Msg, pre: seq<byte>, r: Record, post: seq<byte>)
    requires r.Storable() && m.buf == pre + RecordBytes(abi, r) + post && Readable(abi, m, m.control + |pre|)
    ensures RecordAt(abi, m, m.control + |pre|) == r
  {
    var s, h, n := RecordBytes(abi, r), abi.Header(), |r.data|;
    ReadLength(abi, m, pre, r, post);
    Fields(abi, r);
    Inside(pre, s, post, 4, 8);
    Inside(pre, s, post, 8, 12);
    Inside(pre, s, post, h, h + n);
    U32RoundTrip(m.buf, |pre| + 4, r.level);
    U32RoundTrip(m.buf, |pre| + 8, r.kind);
  }

  /** From one record of a layout the walk goes to the next, and from the last one nowhere, even
      if fewer bytes than a padded header are left over behind it, if and only if a padded header
      behind the record would not reach the end of the address space. */
  lemma NextRecord(abi: Abi, m: Msg, pre: seq<byte>, at: nat, r: Record, post: seq<byte>, next: nat)
    requires r.Storable() && m.Placed(abi) && m.buf == pre + RecordBytes(abi, r) + post
    requires at == m.control + |pre| && next == if abi.Header() <= |post| then at + |RecordBytes(abi, r)| else NULL
    ensures Readable(abi, m, at) && RecordAt(abi, m, at) == r
    ensures NxtHdr(abi, m, at) == next <==> m.End() - |post| + abi.Header() < abi.Space()
  {
    hide RecordBytes, RecordAt, Abi.Wrap, Abi.Align, Abi.Up;
    ReadLength(abi, m, pre, r, post);
    ReadBack(abi, m, pre, r, post);
    CmsgLenIs(abi, |r.data|);
    SpaceIsAlignedLength(abi, |r.data|);
    RecordTakesSpace(abi, r);
    WrapTwo(abi, at + |RecordBytes(abi, r)|);
    WrapTwo(abi, at + |RecordBytes(abi, r)| + abi.Header());
  }

  lemma ChunkLength(abi: Abi, rs: seq<Record>, i: nat)
    requires AllStorable(rs) && i <= |rs|
    ensures var rest := Concat(Chunks(abi, rs)[i..]);
            if i == |rs| then rest == [] else abi.Header() <= |rest|
  {
    if i < |rs| {
      var cs := Chunks(abi, rs)[i..];
      assert cs[0] == RecordBytes(abi, rs[i]);
      UpFacts(abi, |rs[i].data|);
    }
  }

  /** The layout with record `i` taken out of it. */
  lemma Surroundings(abi: Abi, rs: seq<Record>, tail: seq<byte>, i: nat) returns (pre: seq<byte>, post: seq<byte>)
    requires AllStorable(rs) && i < |rs| && |tail| < abi.Header()
    ensures pre == Concat(Chunks(abi, rs)[..i]) && Layout(abi, rs) + tail == pre + RecordBytes(abi, rs[i]) + post
    ensures |Concat(Chunks(abi, rs)[..i + 1])| == |pre| + |RecordBytes(abi, rs[i])|
    ensures if i + 1 < |rs| then abi.Header() <= |post| else post == tail
  {
    var cs := Chunks(abi, rs);
    ConcatAround(cs, i);
    ChunkLength(abi, rs, i + 1);
    pre, post := Concat(cs[..i]), Concat(cs[i + 1..]) + tail;
    Regroup(pre, cs[i], Concat(cs[i + 1..]), tail);
  }

  lemma Regroup(pre: seq<byte>, s: seq<byte>, rest: seq<byte>, tail: seq<byte>)
    ensures pre + s + rest + tail == pre + s + (rest + tail)
  {
  }

  lemma RecordFound(abi: Abi, m: Msg, rs: seq<Record>, tail: seq<byte>, i: nat, at: nat, next: nat)
    requires AllStorable(rs) && i < |rs| && m.Placed(abi)
    requires m.buf == Layout(abi, rs) + tail && |tail| < abi.Header()
    requires at == Start(abi, m.control, rs, i)
    requires next == if i + 1 == |rs| then NULL else Start(abi, m.control, rs, i + 1)
    ensures Readable(abi, m, at) && RecordAt(abi, m, at) == rs[i] && at != NULL
    ensures NxtHdr(abi, m, at) == next <==> i + 1 < |rs| || m.End() - |tail| + abi.Header() < abi.Space()
  {
    var pre, post := Surroundings(abi, rs, tail, i);
    NextRecord(abi, m, pre, at, rs[i], post, next);
  }

  lemma StartsIsWalk(abi: Abi, m: Msg, hs: seq<nat>)
    requires (|m.buf| < HEADER <==> hs == []) && (hs != [] ==> hs[0] == m.control)
    requires forall i :: 0 <= i < |hs| ==> hs[i] != NULL && m.HasHeader(hs[i])
    requires forall i :: 0 <= i < |hs| - 1 ==> NxtHdr(abi, m, hs[i]) == Next(hs, i)
    ensures Walk(abi, m, hs) <==> hs == [] || NxtHdr(abi, m, hs[|hs| - 1]) == NULL
  {
  }

  /** The address after `hs[i]`. */
  function Next(hs: seq<nat>, i: nat): (r: nat)
    requires i < |hs|
  {
    if i + 1 == |hs| then NULL else hs[i + 1]
  }

  /** The layout does not end so near the end of the address space that a padded header behind it
      would reach that end. */
  predicate RoomBehind(abi: Abi, m: Msg, rs: seq<Record>, tail: seq<byte>) {
    rs == [] || m.End() - |tail| + abi.Header() < abi.Space()
  }

  lemma AllFound(abi: Abi, m: Msg, rs: seq<Record>, tail: seq<byte>)
    requires AllStorable(rs) && m.Placed(abi) && m.buf == Layout(abi, rs) + tail
    requires |tail| < (if rs == [] then HEADER else abi.Header())
    ensures |m.buf| < HEADER <==> rs == []
    ensures var hs := Starts(abi, m.control, rs, |rs|);
            && (rs != [] ==> hs[0] == m.control)
            && (forall i :: 0 <= i < |rs| ==> hs[i] != NULL && Readable(abi, m, hs[i]) && RecordAt(abi, m, hs[i]) == rs[i])
            && (forall i :: 0 <= i < |rs| - 1 ==> NxtHdr(abi, m, hs[i]) == Next(hs, i))
            && (rs == [] || NxtHdr(abi, m, hs[|hs| - 1]) == NULL <==> RoomBehind(abi, m, rs, tail))
  {
    var hs := Starts(abi, m.control, rs, |rs|);
    ChunkLength(abi, rs, 0);
    assert Chunks(abi, rs)[0..] == Chunks(abi, rs);
    forall i | 0 <= i < |rs|
      ensures hs[i] != NULL && Readable(abi, m, hs[i]) && RecordAt(abi, m, hs[i]) == rs[i]
      ensures NxtHdr(abi, m, hs[i]) == Next(hs, i) <==> i + 1 < |rs| || RoomBehind(abi, m, rs, tail)
    {
      RecordFound(abi, m, rs, tail, i, hs[i], Next(hs, i));
    }
  }

  /** Round trip, for every list of records and every place: laid out one after another they are
      each read back whole, and the walk from CMSG_FIRSTHDR by CMSG_NXTHDR until NULL visits
      exactly these records in order, if and only if there is room behind the layout. */
  lemma RoundTrip(abi: Abi, m: Msg, rs: seq<Record>, tail: seq<byte>)
    requires AllStorable(rs) && m.Placed(abi) && m.buf == Layout(abi, rs) + tail
    requires |tail| < (if rs == [] then HEADER else abi.Header())
    ensures var hs := Starts(abi, m.control, rs, |rs|);
            && (forall i :: 0 <= i < |rs| ==> Readable(abi, m, hs[i]) && RecordAt(abi, m, hs[i]) == rs[i])
            && ((forall walk :: Walk(abi, m, walk) <==> walk == hs) <==> RoomBehind(abi, m, rs, tail))
            && (Loop(abi, m, hs) <==> RoomBehind(abi, m, rs, tail))
  {
    var hs := Starts(abi, m.control, rs, |rs|);
    AllFound(abi, m, rs, tail);
    StartsIsWalk(abi, m, hs);
    LoopIsWalk(abi, m, hs);
    if RoomBehind(abi, m, rs, tail) {
      OnlyWalk(abi, m, hs);
    }
  }

  lemma OnlyWalk(abi: Abi, m: Msg, hs: seq<nat>)
    requires Walk(abi, m, hs)
    ensures forall walk :: Walk(abi, m, walk) <==> walk == hs
  {
    forall walk | Walk(abi, m, walk)
      ensures walk == hs
    {
      WalkUnique(abi, m, walk, hs);
      WalkUnique(abi, m, hs, walk);
    }
  }

}
