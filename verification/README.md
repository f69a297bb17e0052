# Verified model of the arithmetic and layout macros of ML302

Several headers of this repository carry whole algorithms as macros, and its copy of wolfSSL has the
big-integer code behind RSA. This project models some of these and proves what they promise:

- `inc/mbedtls/bn_mul.h`: multiply a source vector by a limb, add it to a destination vector, set
  a carry. The header writes this one job many times, in C and in several assembly languages.
- `src/demo/wolfssl-3.15.3/src/integer.c`: Montgomery reduction, in the column-wise form that keeps
  its carries back and in the plain form, with its setup.
- `inc/lwip/sockets.h`: the ancillary-data macros (section 20 of RFC 3542) and the descriptor sets
  for `select`.
- `inc/lwip/inet_chksum.h`: one's-complement folding and byte swapping (section 2(B) of RFC 1071).
- `inc/mbedtls/bignum.h`: the size of the buffer for an MPI in text form.

Check everything with `dafny verify dfyconfig.toml`.

## How it is built

`Words.dfy` has machine words with wrap-around, `LimbVectors.dfy` the number a limb vector stands
for. `MulAdd.dfy` has the specification of the multiply-accumulate job: `Lanes` on two vectors,
`Run` limb by limb on one flat memory in which the pointers may be anywhere, `Adds` the sentence at
`inc/mbedtls/bn_mul.h:25-26` itself. Each form is a method, or a class whose fields are the
registers and flags that live from one macro to the next and whose methods are INIT, CORE, HUIT and
STOP; each is proved to leave exactly the memory, pointers and carry of `Run`, and so all of them
agree with each other. The loop that repeats CORE is not part of the repository; the methods called
`Execute`, `DoubleWidth` and `HalfLimb` are this model's own loops around it. Pointers count limbs.
`biL` and `biH`, which the header uses without defining them, are the width of a limb and half of it.

`Congruence.dfy` and `Montgomery.dfy` say on numbers what a Montgomery reduction is: `Redc` takes
digits off one at a time, and `Reduced` is proved to be `x` times the inverse of the radix power modulo
the modulus. `MpInts.dfy` has `mp_int` as a class over a digit array, with the operations that a
reduction calls, and `MontgomeryForms.dfy` the setup and the two forms, each proved to compute
`Reduced`. The sizes of digits, digit type and word type are parameters.

## What turned out to be conditional

These do not hold on all inputs. Each has an exact condition.

- The vector equation needs a layout in which no source limb is overwritten before it is read:
  `d <= s` or `s + n <= d` (`MulAdd.LayoutIsExact`). In all others it holds with the source as it is
  afterwards.
- The SSE2 block loads later limbs before it stores earlier results. It equals eight plain steps on
  every memory exactly if `d <= s` or `s + 6 <= d` (`I386.ReorderingIsExact`): overlaps by one or two
  limbs of the eight go unnoticed, larger ones do not. So the way a run is cut into cores and blocks is
  of no consequence exactly in these layouts, or if there is no block in it (`I386.CuttingIsExact`).
- The 68000 eight-limb block adds the X flag to the first limb, and INIT does not clear X. A run is
  right exactly if X is clear on entry or the run does not begin with such a block. In the other case
  it is the plain run with a carry larger by one, except where all operands of the first block are
  largest: then a full word of carry is lost (`M68k.Outcome`, `M68k.BlocksComeTo`,
  `M68k.Machine.Execute`).
- One subtraction at the end of a Montgomery reduction is enough exactly for bounds on `x` up to the
  modulus times one more than the radix power (`Montgomery.OneSubtractionIsExact`).
- `CMSG_NXTHDR` compares a sum that can wrap, and a sum that wraps always passes its guard. It is right
  exactly if a padded header behind the next position ends below the end of the address space, or the
  next position is that end (`Ancillary.NxtHdrIsExact`). `Ancillary.WrapExample` is a length that sends
  the walk back to the same header. A buffer can be walked in order, without overlap and to the end,
  exactly if every visited header is orderly and none is stuck (`Ancillary.OrderlyWalkIff`). Whether
  all contents are orderly depends on where the buffer is (`Ancillary.PlacementIsExact`): with 32-bit
  addresses that is never so for a buffer with room for a header, and with 64-bit ones it is so unless
  the buffer is near the end of the address space.
- A layout of records is walked back exactly if a padded header behind it ends below the end of the
  address space (`Ancillary.RoundTrip`).
- Folding is independent of byte order exactly if the sum of the swapped words also fits the 32-bit
  accumulator (`Checksum.ByteOrderIndependent`). Up to 65537 words that is always so, and for every
  greater number of words some sequence shows a difference (`Checksum.LengthIsExact`).

Where code and comment differ the code is followed: `CMSG_FIRSTHDR` accepts a buffer that holds an
unpadded header, although the payload would begin behind its end, while `CMSG_NXTHDR` asks for room
for a padded one; the comment at `inc/mbedtls/bignum.h:72` speaks of 512 bytes where the macro says
1024, and the bound here is for every size. The carry loop at
`src/demo/wolfssl-3.15.3/src/integer.c:2329` goes one column further than the columns that were set
to zero; what it finds there is not used.

## Model

| member | source | states |
|---|---|---|
| MulAdd.LanesEquation | inc/mbedtls/bn_mul.h:24-26 | destination value plus carry times B^n equals old destination plus b times source plus old carry, for vectors of any length |
| MulAdd.EquationDetermines | inc/mbedtls/bn_mul.h:24-26 | that sentence leaves no freedom: one destination vector and one carry satisfy it |
| MulAdd.LanesAppend | inc/mbedtls/bn_mul.h:871-876 | first limbs, then the rest with the carry handed over, is the whole job |
| MulAdd.RunSplit | inc/mbedtls/bn_mul.h:870-876 | a run in memory may be cut after any number of limbs |
| MulAdd.RunFrame | inc/mbedtls/bn_mul.h:876 | nothing outside the n destination limbs changes |
| MulAdd.RunKeepsWords | inc/mbedtls/bn_mul.h:873-876 | limbs stay limbs and the carry stays a word (or a word plus a pending flag) for every run |
| MulAdd.RunIsLanes | inc/mbedtls/bn_mul.h:870-876 | a run in memory is the vector job on the limbs it reads, for every placement of s and d |
| MulAdd.VectorEquation | inc/mbedtls/bn_mul.h:24-26 | main theorem: the header's sentence for every n, memory, multiplier and carry in safe layouts, and with the final source in all others; pointers advance, nothing else changes |
| MulAdd.AddsDetermines | inc/mbedtls/bn_mul.h:24-26 | in a safe layout every final state that meets the sentence is the one the run reaches |
| MulAdd.InPlace | inc/mbedtls/bn_mul.h:871-876 | with s == d the run computes (b + 1) times the vector plus the carry |
| MulAdd.LayoutIsExact | inc/mbedtls/bn_mul.h:871-876 | the sentence holds on every memory if and only if d <= s or s + n <= d |
| MulAdd.FlagLimb | inc/mbedtls/bn_mul.h:224-228 | one limb with the carry split over a register and a flag, in and out; no high word wraps |
| CForms.DoubleWidthProduct | inc/mbedtls/bn_mul.h:871-873 | the double-width product loses nothing and leaves room for a carry in its high word |
| CForms.DoubleWidthCore | inc/mbedtls/bn_mul.h:870-876 | the double-width core is one plain step, for every limb width |
| CForms.DoubleWidth | inc/mbedtls/bn_mul.h:865-879 | n cores are the plain run, and do what the header says in a safe layout |
| CForms.HalfProducts | inc/mbedtls/bn_mul.h:886-896 | the four half-limb products, split between low and high word, are the full product |
| CForms.FourAdds | inc/mbedtls/bn_mul.h:894-901 | four additions with carries give the limb's two words, and the exact sum of the high word is below B |
| CForms.Add | inc/mbedtls/bn_mul.h:894-895 | an addition into r1, called only where it provably does not wrap |
| CForms.AddCompare | inc/mbedtls/bn_mul.h:897-900 | the comparison recovers the carry, and r1 provably does not wrap |
| CForms.HalfLimbCore | inc/mbedtls/bn_mul.h:889-901 | the half-limb core is one plain step, for every half-limb base |
| CForms.HalfLimb | inc/mbedtls/bn_mul.h:882-904 | INIT and n cores are the plain run, for every even limb width, and do what the header says in a safe layout |
| I386.LaneFits | inc/mbedtls/bn_mul.h:85-137 | no 64-bit lane sum of the SSE2 block overflows |
| I386.LanesOfSums | inc/mbedtls/bn_mul.h:101-142 | the carry in the high half of mm1 is the carry of the plain steps, lane by lane |
| I386.Sse2IsEightSteps | inc/mbedtls/bn_mul.h:81-142 | the block equals eight plain steps if d <= s or s + 6 <= d |
| I386.ReorderingIsExact | inc/mbedtls/bn_mul.h:81-142 | the block equals eight plain steps on every memory if and only if d <= s or s + 6 <= d |
| I386.Machine.Init | inc/mbedtls/bn_mul.h:61-67 | loads pointers, carry and multiplier |
| I386.Machine.Core | inc/mbedtls/bn_mul.h:69-77 | the i386 core is one plain step |
| I386.Machine.HuitLoads | inc/mbedtls/bn_mul.h:82-100 | the early loads and products give the first four lane sums |
| I386.Machine.HuitFirstTwo | inc/mbedtls/bn_mul.h:101-111 | two stores, with source limbs 4 to 6 loaded between them |
| I386.Machine.HuitNextTwo | inc/mbedtls/bn_mul.h:112-123 | source limb 7 and two more stores |
| I386.Machine.HuitThirdTwo | inc/mbedtls/bn_mul.h:124-133 | two more stores |
| I386.Machine.HuitLastTwo | inc/mbedtls/bn_mul.h:134-142 | the last two stores; the state is that of the whole block |
| I386.Machine.Huit | inc/mbedtls/bn_mul.h:81-142 | the register program computes the block, for every layout |
| I386.Machine.Stop | inc/mbedtls/bn_mul.h:144-153 | returns carry and advanced pointers |
| I386.BlocksAreRun | inc/mbedtls/bn_mul.h:69-142 | where the reordering cannot be seen, or without blocks, every way of cutting a run gives the plain run |
| I386.BlocksAppend | inc/mbedtls/bn_mul.h:69-142 | a run of cores and blocks may be cut between any two of them, in every layout |
| I386.CuttingIsExact | inc/mbedtls/bn_mul.h:69-142 | for given pointers and a given cut, the plain run results on every memory, multiplier and carry if and only if the reordering cannot be seen or there is no block |
| I386.Machine.Execute | inc/mbedtls/bn_mul.h:61-153 | any sequence of cores and blocks between INIT and STOP has, for every layout, the result of these blocks one after another, and that of the plain run under the condition of CuttingIsExact |
| M68k.FlagShows | inc/mbedtls/bn_mul.h:226 | a pending X flag always changes the first limb stored |
| M68k.SaturatedIsExact | inc/mbedtls/bn_mul.h:223-264 | with X set the last carry of n limbs is a full word if and only if carry, multiplier and all operands are largest and none is overwritten before it is read |
| M68k.BlocksComeTo | inc/mbedtls/bn_mul.h:205-264 | any sequence of cores and blocks, for either value of X, comes to the plain runs that Outcome names: memory, pointers, carry and flag |
| M68k.HarmlessIsExact | inc/mbedtls/bn_mul.h:205-264 | the outcome is that of the plain run if and only if X was clear or no block comes first |
| M68k.Machine.Init | inc/mbedtls/bn_mul.h:197-203 | loads the registers and leaves X as it was |
| M68k.Machine.Core | inc/mbedtls/bn_mul.h:205-212 | the core is one plain step for either value of X, and clears X |
| M68k.Machine.Section | inc/mbedtls/bn_mul.h:224-228 | one limb of the block: the carry is a register plus X before and after |
| M68k.Machine.Huit | inc/mbedtls/bn_mul.h:223-264 | the block is eight plain steps with X added to the carry; X stays set exactly if the carry comes to a full word |
| M68k.Machine.Stop | inc/mbedtls/bn_mul.h:214-221 | returns carry and advanced pointers |
| M68k.Machine.Execute | inc/mbedtls/bn_mul.h:197-264 | memory, pointers, carry and flag are those of Outcome for every entry state; the result is that of the plain run if and only if X was clear or no block comes first |
| PowerPc.Machine.Init | inc/mbedtls/bn_mul.h:307-315 | pointers lag one limb, and CA is cleared whatever it was |
| PowerPc.Machine.Core | inc/mbedtls/bn_mul.h:317-325 | with r5 plus CA as the carry the core is one plain step, for 32- and 64-bit words |
| PowerPc.Machine.Stop | inc/mbedtls/bn_mul.h:327-337 | folds CA into the carry without overflow and restores both pointers |
| PowerPc.Machine.Execute | inc/mbedtls/bn_mul.h:307-337 | INIT, n cores, STOP are the plain run for every n |
| Arm.ThumbLimb | inc/mbedtls/bn_mul.h:598-627 | adding the carry before the cross products gives the same two words |
| Arm.Thumb1.Init | inc/mbedtls/bn_mul.h:586-596 | splits the multiplier into halves |
| Arm.Thumb1.Core | inc/mbedtls/bn_mul.h:598-627 | the Thumb-1 core is one plain step, and no addition into r5 wraps |
| Arm.Thumb1.Execute | inc/mbedtls/bn_mul.h:586-637 | n Thumb-1 cores are the plain run, hence equal to the half-limb C form |
| Arm.LongMultiply.Core | inc/mbedtls/bn_mul.h:665-672 | the umlal core is one plain step |
| Arm.LongMultiply.Execute | inc/mbedtls/bn_mul.h:658-682 | n such cores are the plain run |
| Arm.Dsp.Core | inc/mbedtls/bn_mul.h:644-648 | the umaal core is one plain step |
| Arm.Dsp.Execute | inc/mbedtls/bn_mul.h:641-654 | n such cores are the plain run |
| MipsAlpha.CompareLimb | inc/mbedtls/bn_mul.h:737-744 | carries recovered by unsigned comparison give the limb's two words without wrapping the high one |
| MipsAlpha.Mips.Core | inc/mbedtls/bn_mul.h:731-745 | the MIPS core is one plain step |
| MipsAlpha.Mips.Execute | inc/mbedtls/bn_mul.h:724-754 | n MIPS cores are the plain run |
| MipsAlpha.Alpha.Core | inc/mbedtls/bn_mul.h:697-710 | the Alpha core is one plain step |
| MipsAlpha.Alpha.Execute | inc/mbedtls/bn_mul.h:690-719 | n Alpha cores are the plain run |
| Montgomery.RedcEquation | src/demo/wolfssl-3.15.3/src/integer.c:2401-2460 | taking n digits off divides exactly: B^n times the result is x plus a multiple of the modulus below B^n times it |
| Montgomery.RedcBound | src/demo/wolfssl-3.15.3/src/integer.c:2366-2369 | a bound on x becomes one on the result; below m (B^n + 1) it is less than twice the modulus |
| Montgomery.ReducedIsQuotient | src/demo/wolfssl-3.15.3/src/integer.c:2208 | the result is x times the inverse of B^n modulo the modulus |
| Montgomery.ReducedIsUnique | src/demo/wolfssl-3.15.3/src/integer.c:2208 | it is below the modulus, and the only number there that is congruent to x after multiplication by B^n |
| Montgomery.OneSubtractionIsExact | src/demo/wolfssl-3.15.3/src/integer.c:2366-2369 | one subtraction is enough for all x below a bound if and only if the bound is at most m (B^n + 1) |
| Montgomery.FormRoundTrip | src/demo/wolfssl-3.15.3/src/integer.c:2208 | reducing the Montgomery form of x gives x |
| Montgomery.FormProduct | src/demo/wolfssl-3.15.3/src/integer.c:2208 | reducing the product of two Montgomery forms gives the form of the product |
| MpInts.BorrowDigit | src/demo/wolfssl-3.15.3/src/integer.c:1689-1699 | the wrapped difference, its top bit and the mask are the digit and the borrow of the column |
| MpInts.MpInt.Grow | src/demo/wolfssl-3.15.3/src/integer.c:394-428 | room is made, value and digits stay, and the new digits are zero |
| MpInts.MpInt.Clamp | src/demo/wolfssl-3.15.3/src/integer.c:511-524 | no leading zeros, same value |
| MpInts.MpInt.Compare | src/demo/wolfssl-3.15.3/src/integer.c:1275-1306 | the result is the order of the two values |
| MpInts.SubtractDigits | src/demo/wolfssl-3.15.3/src/integer.c:1685-1712 | the digit loops leave exactly the difference of the values |
| MpInts.MpInt.Subtract | src/demo/wolfssl-3.15.3/src/integer.c:1654-1723 | in place, the value becomes the difference, without leading zeros |
| MpInts.MpInt.ShiftDown | src/demo/wolfssl-3.15.3/src/integer.c:574-622 | the value is divided by B^b |
| MontgomeryForms.NewtonSquares | src/demo/wolfssl-3.15.3/src/integer.c:2189-2197 | an iteration squares the precision of an inverse modulo a power of two, with all wrap-around |
| MontgomeryForms.InverseIs | src/demo/wolfssl-3.15.3/src/integer.c:2188-2197 | r iterations from the first guess give the inverse modulo 16^(2^r) |
| MontgomeryForms.MontgomerySetup | src/demo/wolfssl-3.15.3/src/integer.c:2170-2205 | it finds rho with m rho congruent to -1 modulo B, and fails if and only if there is none, which is if and only if the modulus is even |
| MontgomeryForms.ColumnDone | src/demo/wolfssl-3.15.3/src/integer.c:2276-2310 | one turn of the outer loop, with its one carry fix, takes one digit off the value of the columns |
| MontgomeryForms.MostFits | src/demo/wolfssl-3.15.3/src/integer.c:2386-2389 | the guard keeps the largest possible column within an mp_word |
| MontgomeryForms.ColumnFits | src/demo/wolfssl-3.15.3/src/integer.c:2305 | neither a product nor its sum with a column wraps |
| MontgomeryForms.ReduceColumns | src/demo/wolfssl-3.15.3/src/integer.c:2268-2311 | the columns that are left have the value of n digits taken off, and no column overflows |
| MontgomeryForms.CarryColumns | src/demo/wolfssl-3.15.3/src/integer.c:2317-2331 | after the carries the masked columns are the digits of that value |
| MontgomeryForms.FastMontgomeryReduce | src/demo/wolfssl-3.15.3/src/integer.c:2216-2371 | the column-wise form computes Reduced |
| MontgomeryForms.AddRow | src/demo/wolfssl-3.15.3/src/integer.c:2424-2438 | the inner loop is the multiply-accumulate job on digits |
| MontgomeryForms.PropagateCarry | src/demo/wolfssl-3.15.3/src/integer.c:2443-2447 | the carry is added in full and never goes beyond the top digit |
| MontgomeryForms.ReduceRow | src/demo/wolfssl-3.15.3/src/integer.c:2410-2447 | one turn makes a digit zero and takes it off the value |
| MontgomeryForms.PlainMontgomeryReduce | src/demo/wolfssl-3.15.3/src/integer.c:2393-2467 | the plain form computes Reduced, hence the same as the column-wise form |
| MontgomeryForms.MontgomeryReduce | src/demo/wolfssl-3.15.3/src/integer.c:2375-2468 | either way the result is Reduced, which is x times the inverse of B^n modulo the modulus wherever one subtraction is enough |
| RwBuffer.DigitsDenote | inc/mbedtls/bignum.h:85-86 | the digits counted are those of the number in the given radix |
| RwBuffer.DigitCount | inc/mbedtls/bignum.h:96-98 | k digits are enough exactly for the numbers below radix^k |
| RwBuffer.TwoAgainstTen | inc/mbedtls/bignum.h:101 | 2^83 < 10^25, the fact behind the constant 332 |
| RwBuffer.DigitBound | inc/mbedtls/bignum.h:100-102 | a number of n bits has at most (100 n + 331) / 332 digits, for every n and every radix from 10 |
| RwBuffer.BufferFits | inc/mbedtls/bignum.h:89-102 | a label of ten characters, the number and six more characters fit the buffer, for every maximum size |
| RwBuffer.BufferIsTight | inc/mbedtls/bignum.h:100-102 | the size is 16 plus the least number that is at least 100/332 of the bits; 2484 for the default size |
| RwBuffer.ScaleIsLargest | inc/mbedtls/bignum.h:101 | a divisor q works for all numbers if and only if q <= 332 |
| Checksum.FoldTwiceRepresents | inc/lwip/inet_chksum.h:50-53 | two folds fit 16 bits, keep the residue mod 65535 and give zero only for zero |
| Checksum.FoldParts | inc/lwip/inet_chksum.h:50-53 | folding the parts of a sum first does not change its fold |
| Checksum.SwapMasks | inc/lwip/inet_chksum.h:47 | of any number only the two lowest bytes count, and they change places |
| Checksum.SwapMeans | inc/lwip/inet_chksum.h:45-48 | swapping multiplies by 256 mod 65535 and undoes itself |
| Checksum.SwappedSum | inc/lwip/inet_chksum.h:45-48 | the sum of swapped words against 256 times the sum, exactly |
| Checksum.LengthIsExact | inc/lwip/inet_chksum.h:45-53 | all sequences of n words whose sum fits are independent of byte order if and only if n is at most 65537 |
| Checksum.OrderSeen | inc/lwip/inet_chksum.h:45-53 | a concrete sequence of 65538 words whose sum fits and whose result depends on byte order |
| Checksum.ByteOrderIndependent | inc/lwip/inet_chksum.h:45-53 | swapping every word or swapping the twice-folded sum is the same, if and only if the swapped sum fits 32 bits |
| Checksum.ShortSumsFit | inc/lwip/inet_chksum.h:50-53 | up to 65537 words neither sum overflows |
| FdSet.GuardIsExact | inc/lwip/sockets.h:466-470 | the range test is right about every int if and only if the last descriptor is an int |
| FdSet.MaskTable | inc/lwip/sockets.h:471-473 | the bit of a descriptor in its byte, lowest first |
| FdSet.OrOnlyItsBit | inc/lwip/sockets.h:471 | setting a bit changes that bit only |
| FdSet.AndNotOnlyItsBit | inc/lwip/sockets.h:472 | clearing a bit changes that bit only |
| FdSet.DescriptorSet.FdZero | inc/lwip/sockets.h:474 | the set is empty and every byte zero |
| FdSet.DescriptorSet.FdSet | inc/lwip/sockets.h:471 | adds a legal descriptor and changes no other bit of the array; for any other descriptor the bytes stay as they were |
| FdSet.DescriptorSet.FdClr | inc/lwip/sockets.h:472 | removes a legal descriptor and changes no other bit of the array; for any other descriptor the bytes stay as they were |
| FdSet.DescriptorSet.FdIsSet | inc/lwip/sockets.h:473 | the bit of the descriptor in its byte exactly if it is in the set, and zero otherwise, for illegal ones too |
| FdSet.DescriptorSet.Perform | inc/lwip/sockets.h:466-479 | any sequence of operations on the bits is the same sequence on a plain set |
| FdSet.LastOperationDecides | inc/lwip/sockets.h:466-474 | a descriptor is in the set if and only if the last operation that concerns it put it there |
| Ancillary.SpaceIsAlignedLength | inc/lwip/sockets.h:174-178 | ALIGN_H(CMSG_LEN(n)) equals CMSG_SPACE(n) for every n, wrap-around included |
| Ancillary.AlignIsUp | inc/lwip/sockets.h:154-155 | the mask computes the next multiple of sizeof(long), wrapped |
| Ancillary.U32IsLittleEndian | inc/lwip/sockets.h:142-144 | a field read from four bytes is their value to the base 256, lowest first |
| Ancillary.U32BytesDenote | inc/lwip/sockets.h:142-144 | the bytes stored for a field have that value |
| Ancillary.UpFacts | inc/lwip/sockets.h:149-154 | the next multiple of sizeof(long) is aligned and less than sizeof(long) away |
| Ancillary.NxtHdrAtNull | inc/lwip/sockets.h:157-163 | at NULL both macros give the buffer if a bare header fits and NULL otherwise |
| Ancillary.LoopIsWalk | inc/lwip/sockets.h:157-169 | walking by CMSG_NXTHDR alone, from NULL until NULL, is the walk from CMSG_FIRSTHDR |
| Ancillary.NxtHdrIs | inc/lwip/sockets.h:162-169 | what CMSG_NXTHDR answers from every header, with each way its sums can wrap |
| Ancillary.NxtHdrIsExact | inc/lwip/sockets.h:162-169 | CMSG_NXTHDR finds the next header if and only if a padded header behind the next position ends below the end of the address space, or the next position is that end |
| Ancillary.ShortEnough | inc/lwip/sockets.h:164-166 | a length that does not come near the end of the address space is trusted |
| Ancillary.WrapExample | inc/lwip/sockets.h:164-169 | a concrete 32-bit buffer on which the guard is passed by wrap-around |
| Ancillary.NextStaysInside | inc/lwip/sockets.h:162-169 | the next header is NULL, or inside the buffer and behind the whole record, if and only if the header is orderly |
| Ancillary.WalkUnique | inc/lwip/sockets.h:157-169 | there is at most one complete walk and every visit sequence is a prefix of it |
| Ancillary.VisitsInOrder | inc/lwip/sockets.h:157-169 | visited headers strictly increase and their records do not overlap if and only if all but the last are orderly and not stuck |
| Ancillary.VisitsAreAligned | inc/lwip/sockets.h:149-154 | headers are aligned for long if the buffer is, wrap-around included |
| Ancillary.VisitsAreFew | inc/lwip/sockets.h:157-169 | of records in order with lengths of at least a header there are only as many as fit |
| Ancillary.WalkBuffer | inc/lwip/sockets.h:157-169 | on every buffer that has a complete walk the usual loop terminates with it; it is in order if and only if the buffer is tame |
| Ancillary.OrderlyWalkIff | inc/lwip/sockets.h:157-169 | any buffer has a complete walk with all headers inside, strictly increasing and without overlap, if and only if every visited header is orderly and none is stuck |
| Ancillary.WalkEndsIff | inc/lwip/sockets.h:157-169 | the walk of a tame buffer ends if and only if no visited header is stuck |
| Ancillary.HonestIsTame | inc/lwip/sockets.h:162-169 | visited lengths that stay inside the buffer make it tame |
| Ancillary.PlacementIsExact | inc/lwip/sockets.h:162-169 | by place and size: every content is tame if and only if no header fits or the last slot is further than 2^32 and a padded header from the end of the address space, which needs 64-bit addresses |
| Ancillary.RecordTakesSpace | inc/lwip/sockets.h:174-175 | a record laid out with header, payload and padding takes CMSG_SPACE bytes |
| Ancillary.DataIsPayload | inc/lwip/sockets.h:171-172 | CMSG_DATA is behind the padded header, and the payload is read from there up to cmsg_len |
| Ancillary.ReadBack | inc/lwip/sockets.h:171-178 | level, type and the payload at CMSG_DATA are read back from wherever a record was put |
| Ancillary.NextRecord | inc/lwip/sockets.h:162-169 | a record is read back wherever it is, and the walk goes to the next one, or from the last to NULL, if and only if there is room for a padded header behind it |
| Ancillary.RoundTrip | inc/lwip/sockets.h:154-178 | every record of a layout is read back whole, and the walk, from CMSG_FIRSTHDR or by CMSG_NXTHDR alone, visits exactly these records in order if and only if there is room behind the layout |

## Left out

- The amd64, MicroBlaze, TriCore and MSVC forms of MULADDC (inc/mbedtls/bn_mul.h:171-191, 489-563, 761-858): the same step again with nothing harder; the SPARC forms are disabled in the source.
- Assembly constraints, clobber lists, compiler selection, the saved `ebx`, `emms`, and timing.
- Carry flags that no later instruction reads, and scratch registers outside the macro that uses them.
- The `mbedtls_mpi_*` functions, cJSON, and lwIP's TCP, DHCP and pbuf code: the headers modelled here have only prototypes of them.
- The rest of wolfSSL, with its ciphers and its other big-integer functions: only Montgomery reduction and what it calls are modelled.
- Signs of `mp_int`s, and failures to allocate memory: magnitudes only, and memory is available.
- MontgomeryForms.MontgomeryReduce: asks for x of at most twice as many digits as the modulus, as a product of two reduced numbers has; longer ones do not fit the columns.
- MontgomeryForms.MontgomerySetup: the promotion of 8-bit and 16-bit digits to `int` before they are multiplied.
- `inet_chksum` and its relatives: only prototypes are shown, so words come as a list and their sum is taken as a whole.
- Ancillary.RoundTrip: integers are stored least significant byte first.
- Ancillary.NxtHdrIsExact: 16-bit data models are not covered, only 32-bit ones and those with 64-bit longs and pointers.
- Masks and shifts of sizes and checksums are written as remainders and quotients by powers of two; descriptor bits use bit vectors.
- RwBuffer.BufferFits: macro arithmetic is on unbounded integers, while a compiler evaluates it as `int`.
- The unparenthesised expansion of `SWAP_BYTES_IN_WORD` (inc/lwip/inet_chksum.h:47) inside larger expressions.
- Message dispatch in src/onemo_main.c: it works on system calls and handlers that are not shown.
