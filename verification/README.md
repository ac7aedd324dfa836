# Verification model of the hypervisor, its allocators and its trusted guest

This project models the parts of the repository whose correctness is an argument rather than a reading, and
proves what they are for. Run `dafny verify dfyconfig.toml` to check all of it.

* **Multi-precision integers** (`Mpi*.dfy`, `Divisors.dfy`): the digit loops of `mpi.c` on 16-bit digits with
  32-bit intermediates, in place, with the representation invariant the routines rely on (used digits, zeros
  behind them, a nonzero top digit, no negative zero). Addition to modular inverse and integer root are tied to
  the integers they compute.
* **Buddy allocator** (`Buddy*.dfy`): the packed list words of `buddy.c`, the free lists they form, and the
  tiling of the pages by blocks. Completeness of allocation and independence from history follow from maximal
  merging.
* **Region allocator** (`Region*.dfy`): the two levels of `mreg.c`, free regions of whole megabytes and buddy
  allocators on single megabytes and on the edges of attached memory. Every attached address is free or held by
  exactly one caller, after any sequence of operations; allocation fails only when the memory is not there.
* **Boundary-tag heap** (`Heap*.dfy`): marker words, the block list they tile the memory into, best fit, and
  release as the inverse of allocation.
* **Guest modes of the hypervisor** (`Hyper*.dfy`): handlers and hypercalls as methods on the virtual machine,
  each tied to a function on its state, and theorems about every run of guest code, calls, aborts and interrupts.
* **Streaming cryptography** (`Aes*.dfy`, `CbcSpec.dfy`, `StreamSpec.dfy`, `Sha256*.dfy`, `Bits.dfy`): CBC with
  ciphertext stealing, resumable CFB, OFB and CTR over an arbitrary block function, and incremental SHA-256, each
  tied to the definition in its standard.

Loops stay loops: a method proved against a specification function or predicate follows the C routine of the same
purpose, and lemmas about the specification state what the routine is for.

## Where code and documentation differ

The model follows the code. The members named state each difference:

* `s_mp_div` narrows the exponent of a power-of-two divisor to 16 bits (`MpiDivide.DivisionIsExactIff`); the same
  narrowing limits `s_mp_reduce` and `mp_exptmod` to moduli of fewer than 4095 digits
  (`MpiReduce.ReduceExactIff`, `MpiExpt.ExptmodExactIff`) and `mp_gcd` to fewer than 65536 factors of two
  (`MpiGcd.GcdExactIff`). `mp_sqrt` is right below 2^65535 and wherever no iterate meets such a divisor
  (`MpiSqrt.SmallIsTame`, `MpiSqrt.TameIsRight`); at 2^65535 it delivers a negative number (`MpiSqrt.SqrtBreaks`,
  `MpiSqrt.RightBelowIff`), and at 2^131072 - 2^65537 - 1 it divides by zero (`MpiSqrtZero.SqrtDividesByZero`).
* `mp_exptmod` returns 1 modulo 1 (`MpiExpt.ExptmodExactIff`).
* `mp_xgcd` works on absolute values, so that a x + b y = g holds for few negative arguments (`MpiBezout.BezoutIff`,
  `MpiBezout.BezoutCounterexample`), and does not end for a = 0: halving leaves zero even
  (`MpiCofactors.ZeroStaysEven`).
* `mp_invmod` leaves a negative zero for a < 0 and m = 1 (`MpiGcd.Invmod`). Its output must not be the modulus:
  written over m, the result is an inverse exactly when the cofactor is not negative or m is 1 or 3
  (`MpiGcd.Invmod`, `MpiGcd.InvmodOverModulus`).
* `mp_mod` with the output equal to the modulus and a < 0 returns minus twice the remainder's magnitude
  (`MpiSigned.ModResult`); `MpiSigned.ModExactIff` says when it is right.
* `s_mp_mul_d` looks at the top product alone when it decides whether to pad, so `MpiMagnitude.MulDigit` asks for
  room; long division always has it.
* `buddy_remove_free` leaves the free flag in merged-away entries; `BuddyTiles.BuddyIsHead` shows that they are
  never consulted.
* `mreg_alloc` rounds sizes above 2^32 - 1 MB down to nothing (`RegionAlign.RoundedHolds`,
  `RegionAlign.LargestRequest`, `RegionAlign.SizeWithoutMegabytes`).
* `mreg_region_attach` puts megabytes outside the range on the free list when the range does not reach a megabyte
  boundary inside the address space (`RegionAlign.MegabytesRight`, `RegionAlign.PagesInsideMegabyte`).
* `heap_free` accepts addresses up to eight times the heap's length as its own (`Heap.HeapCtxt.Free`).
* `hypercall_restore_linux_regs` tests word 15 of the frame, which for a system call is the task's stack pointer
  and not its pc (`HyperFrames.SyscallReturn`); a prefetch abort in kernel mode stores the moved stack pointer
  (`HyperFrames.FrameStackPointer`).
* The first 16 bytes `encfile` writes are the initialisation vector only for messages of a block or more
  (`CbcSpec.ShortFile`).

## Model

| member | source | states |
|---|---|---|
| MpiInt.MpInt.CopyFrom | guests/trusted/src/mpi/mpi.c:335-380 | the target has the value, sign and length of the source, also when both are the same object |
| MpiInt.MpInt.Exch | guests/trusted/src/mpi/mpi.c:394-405 | two numbers trade value, sign and digits |
| MpiInt.MpInt.Grow | guests/trusted/src/mpi/mpi.c:2663-2686 | room for `min` digits, value and used digits unchanged, zeros beyond |
| MpiInt.MpInt.Pad | guests/trusted/src/mpi/mpi.c:2693-2708 | `used` becomes at least `min` without changing the value, because digits beyond `used` are zero |
| MpiInt.MpInt.Clamp | guests/trusted/src/mpi/mpi.c:2782-2795 | leading zeros are dropped and zero loses its sign: the representation invariant is restored, the value kept |
| MpiInt.MpInt.Lshd | guests/trusted/src/mpi/mpi.c:2827-2853 | value times RADIX^p, for zero too |
| MpiInt.MpInt.Rshd | guests/trusted/src/mpi/mpi.c:2865-2894 | value over RADIX^p, rounded towards zero, zero when p reaches the length |
| MpiInt.MpInt.Mul2 | guests/trusted/src/mpi/mpi.c:2911-2939 | the carry loop doubles the value |
| MpiInt.MpInt.Mul2d | guests/trusted/src/mpi/mpi.c:2980-3022 | value times 2^k for every 16-bit k |
| MpiInt.MpInt.Div2d | guests/trusted/src/mpi/mpi.c:3033-3052 | magnitude over 2^k, rounded down |
| MpiInt.MpInt.Mod2d | guests/trusted/src/mpi/mpi.c:2950-2969 | magnitude modulo 2^k |
| MpiMagnitude.CmpMag | guests/trusted/src/mpi/mpi.c:3799-3823 | the sign of the difference of the magnitudes |
| MpiMagnitude.CmpDigit | guests/trusted/src/mpi/mpi.c:3830-3845 | the sign of magnitude minus digit |
| MpiMagnitude.CmpZero | guests/trusted/src/mpi/mpi.c:1776-1785 | the sign of the value |
| MpiMagnitude.IsEven | guests/trusted/src/mpi/mpi.c:1899-1903 | parity of the value |
| MpiMagnitude.AddMag | guests/trusted/src/mpi/mpi.c:3277-3327 | magnitudes are added; the carry loop ends and a last carry lands in a digit of its own |
| MpiMagnitude.AddDigit | guests/trusted/src/mpi/mpi.c:3100-3128 | magnitude plus digit |
| MpiMagnitude.SubMag | guests/trusted/src/mpi/mpi.c:3334-3376 | magnitudes are subtracted; RANGE exactly when the subtrahend is larger |
| MpiMagnitude.SubDigit | guests/trusted/src/mpi/mpi.c:3135-3163 | magnitude minus digit; RANGE exactly on a borrow out of the top |
| MpiMagnitude.MulMag | guests/trusted/src/mpi/mpi.c:3383-3427 | schoolbook product of the magnitudes, every intermediate below 2^32 |
| MpiMagnitude.MulDigit | guests/trusted/src/mpi/mpi.c:3170-3211 | magnitude times digit, given room for a carry the top product does not foretell |
| MpiSquare.SquareStep | guests/trusted/src/mpi/mpi.c:3508-3545 | one column of the square: the overflow flag and the 17-bit carry account for the doubled product exactly |
| MpiSquare.SquareRowInPlace | guests/trusted/src/mpi/mpi.c:3489-3564 | one row adds a_i^2 and the doubled products above it; the carry runs at most one digit further and nothing beyond 2*used is written |
| MpiSquare.SqrMag | guests/trusted/src/mpi/mpi.c:3471-3573 | the magnitude is squared, for every input |
| MpiDivide.PowerExponent | guests/trusted/src/mpi/mpi.c:3855-3884 | the exponent when the number is a power of two, -1 exactly when it is not |
| MpiDivide.TwoToThe | guests/trusted/src/mpi/mpi.c:3709-3725 | 2^k |
| MpiDivide.Normalize | guests/trusted/src/mpi/mpi.c:3072-3089 | dividend and divisor are scaled by one power of two that brings the top digit to RADIX/2 |
| MpiDivide.GuessDigit | guests/trusted/src/mpi/mpi.c:3642-3651 | the guess never undershoots the quotient digit |
| MpiDivide.NextDigit | guests/trusted/src/mpi/mpi.c:3642-3671 | the back-off loop ends on the true quotient digit and leaves the true remainder |
| MpiDivide.LongDivide | guests/trusted/src/mpi/mpi.c:3622-3679 | schoolbook division of a normalised pair: quotient and remainder of all digits |
| MpiDivide.DivMag | guests/trusted/src/mpi/mpi.c:3586-3703 | quotient and remainder of the magnitudes by the divisor the code uses; RANGE exactly for 0 |
| MpiDivide.DivisionIsExactIff | guests/trusted/src/mpi/mpi.c:3598-3604 | that is the true quotient and remainder exactly when the divisor is no power of two from 2^65536 up or the dividend is below the narrowed one |
| MpiDivide.DivisionCounterexample | guests/trusted/src/mpi/mpi.c:3598-3604 | 1 divided by 2^65536 comes out as 1 |
| MpiSigned.Cmp | guests/trusted/src/mpi/mpi.c:1812-1833 | the sign of the difference |
| MpiSigned.Add | guests/trusted/src/mpi/mpi.c:866-954 | the sum, for every combination of signs and every aliasing of output and inputs |
| MpiSigned.Sub | guests/trusted/src/mpi/mpi.c:966-1040 | the difference, likewise |
| MpiSigned.Mul | guests/trusted/src/mpi/mpi.c:1052-1080 | the signed product, likewise |
| MpiSigned.Sqr | guests/trusted/src/mpi/mpi.c:1113-1129 | the square |
| MpiSigned.SubSmall | guests/trusted/src/mpi/mpi.c:568-597 | value minus digit across zero |
| MpiSigned.Div | guests/trusted/src/mpi/mpi.c:1146-1224 | quotient and remainder truncated towards zero, either output optional |
| MpiSigned.QuotRemExactIff | guests/trusted/src/mpi/mpi.c:1146-1224 | quotient and remainder are the true ones exactly when the operands do not misdivide |
| MpiSigned.Mod | guests/trusted/src/mpi/mpi.c:1356-1405 | the residue the code leaves, for every sign and for output equal to the modulus |
| MpiSigned.ModExactIff | guests/trusted/src/mpi/mpi.c:1356-1405 | the result is a mod m exactly when m divides a; or the output is not the modulus of a negative a, and abs(a) is smaller than m or leaves a remainder below the divisor the code uses |
| MpiSigned.ModCounterexample | guests/trusted/src/mpi/mpi.c:1356-1405 | 2^65536 + 1 modulo 2^65536 comes out as 0 |
| MpiSigned.ModIsRemainder | guests/trusted/src/mpi/mpi.c:1356-1405 | in particular wherever the division is right and the output is not the modulus |
| MpiReduce.BarrettResidue | guests/trusted/src/mpi/mpi.c:3744-3788 | before the final loop the number is x minus a multiple of m and below 3m |
| MpiReduce.BarrettCorrect | guests/trusted/src/mpi/mpi.c:3744-3788 | for a modulus of fewer than 4095 digits the residue is right and m is subtracted at most twice |
| MpiReduce.ReduceExactIff | guests/trusted/src/mpi/mpi.c:3744-3788 | all x below RADIX^2k are reduced correctly exactly when k + 1 < 4096; each longer modulus loses some x |
| MpiReduce.Reduce | guests/trusted/src/mpi/mpi.c:3744-3788 | the loops compute that residue, and how often the final loop runs |
| MpiExpt.ExptBitsCorrect | guests/trusted/src/mpi/mpi.c:1663-1702 | the bit recursion with interleaved reductions is multiplication by a power modulo m |
| MpiExpt.Exptmod | guests/trusted/src/mpi/mpi.c:1634-1715 | the digit and bit loops compute that recursion; RANGE exactly for b < 0 or m <= 0; the output may be any input |
| MpiExpt.ExptmodCorrect | guests/trusted/src/mpi/mpi.c:1634-1715 | a^b mod m in [0, m) for any a, b >= 0 and 1 < m of fewer than 4095 digits |
| MpiExpt.ExptmodExactIff | guests/trusted/src/mpi/mpi.c:1634-1715 | all powers come out right exactly for those moduli |
| Divisors.GcdIsGcd | guests/trusted/src/mpi/mpi.c:1915-1918 | the Euclidean gcd is the greatest common divisor |
| Divisors.GcdUnique | guests/trusted/src/mpi/mpi.c:1915-1918 | a common divisor that every common divisor divides is the gcd |
| Divisors.BezoutIsGcd | guests/trusted/src/mpi/mpi.c:2058-2064 | a positive common divisor that is a combination of both numbers is the gcd |
| MpiGcd.CofactorParity | guests/trusted/src/mpi/mpi.c:2114-2138 | every halving of the cofactors is exact |
| MpiGcd.BinaryGcd | guests/trusted/src/mpi/mpi.c:2112-2153 | the loop ends with the gcd and both cofactor pairs intact |
| MpiGcd.Xgcd | guests/trusted/src/mpi/mpi.c:2066-2173 | abs(a) x + abs(b) y = g = gcd(abs(a), abs(b)), with any output left out |
| MpiGcd.NoInverse | guests/trusted/src/mpi/mpi.c:2187-2223 | without gcd 1 no inverse exists |
| MpiGcd.Invmod | guests/trusted/src/mpi/mpi.c:2187-2223 | an inverse modulo m exactly when the gcd is 1, UNDEF otherwise; which arguments give RANGE; with the output in place of m an inverse exactly when the cofactor is not negative or m is 1 or 3 |
| MpiGcd.InvmodOverModulus | guests/trusted/src/mpi/mpi.c:2187-2223 | the inverse of 4 modulo 5 written over the 5 comes out as 2; it is 4 |
| MpiGcd.GcdInto | guests/trusted/src/mpi/mpi.c:1919-2012 | the odd part of the gcd times the power of two that survives a 16-bit digit |
| MpiGcd.GcdExactIff | guests/trusted/src/mpi/mpi.c:1949-2001 | the gcd is right exactly when it has fewer than 65536 factors of two |
| MpiCofactors.PowerCofactor | guests/trusted/src/mpi/mpi.c:2066-2173 | against a power of two the first cofactor never leaves the range of residues, so that reducing it meets no divisor the division narrows |
| MpiCofactors.ZeroStaysEven | guests/trusted/src/mpi/mpi.c:2114-2125 | for a = 0 the first halving loop does not end |
| MpiCofactors.CofactorsOfFourAndFive | guests/trusted/src/mpi/mpi.c:2066-2173 | for 4 and 5 the loop delivers -1 and 1 |
| MpiBezout.BezoutIff | guests/trusted/src/mpi/mpi.c:2058-2153 | a x + b y = g, as the comment promises, exactly when both arguments are positive, or only a is negative and b divides it, or only b is negative and a is a power of two that divides b and is smaller |
| MpiBezout.FirstZero | guests/trusted/src/mpi/mpi.c:2112-2153 | the first cofactor is zero exactly when b divides a |
| MpiBezout.SecondZero | guests/trusted/src/mpi/mpi.c:2112-2153 | the second cofactor is zero exactly when a is 1 and b is not, factors of two taken out |
| MpiBezout.DeliveredBezout | guests/trusted/src/mpi/mpi.c:2092-2153 | the delivered cofactors combine the absolute values to their gcd |
| MpiBezout.BezoutCounterexample | guests/trusted/src/mpi/mpi.c:2058-2064 | for -1 and 2 the delivered combination is -1 |
| MpiSqrt.RootUnique | guests/trusted/src/mpi/mpi.c:1445-1457 | there is one integer root |
| MpiSqrt.Sqrt | guests/trusted/src/mpi/mpi.c:1458-1515 | wherever the loop ends the result is its last iterate less one; that is the root, b^2 <= a < (b+1)^2, where no iterate is misdivided; RANGE exactly for a < 0 or a last iterate of zero |
| MpiSqrt.TameIsRight | guests/trusted/src/mpi/mpi.c:1475-1501 | where no iterate is a power of two that the division narrows, the loop ends with the root |
| MpiSqrt.SmallIsTame | guests/trusted/src/mpi/mpi.c:1475-1501 | no iterate of a number below 2^65535 is |
| MpiSqrt.SqrtBreaks | guests/trusted/src/mpi/mpi.c:1458-1515 | for 2^65535 the loop ends and delivers a negative number |
| MpiSqrt.RightBelowIff | guests/trusted/src/mpi/mpi.c:1475-1501 | all numbers below a bound end with their root exactly when the bound is at most 2^65535 |
| MpiSqrtZero.SqrtDividesByZero | guests/trusted/src/mpi/mpi.c:1475-1501 | 2^131072 - 2^65537 - 1 has the iterate 2^65536 with itself as correction, so that the next round divides by zero and RANGE is returned for a positive number |
| BuddyTiles.BuddyIsHead | library/mem/src/buddy.c:341-348 | what `buddy_free` reads at the buddy index is the word of a block head of the same order, never one left over inside a merged block |
| BuddyTiles.RunInBlock | library/mem/src/buddy.c:289-311 | with all buddies merged, an aligned run of free pages lies in one free block |
| BuddyTiles.FreeBlocksDetermined | library/mem/src/buddy.c:339-360 | two coalesced tilings with the same free pages and live blocks are equal |
| BuddyTiles.RunExistsIff | library/mem/src/buddy.c:248-278 | a free block of order o or more exists exactly when an aligned run of 2^o free pages does |
| BuddyTiles.TakenThenFreed | library/mem/src/buddy.c:326-366 | freeing what was just taken restores every block |
| BuddyTiles.FreeingCommutes | library/mem/src/buddy.c:326-366 | blocks may be freed in either order |
| BuddyLists.LinkedAdd | library/mem/src/buddy.c:63-80 | the packed next and prev words again form the doubly linked list, with the new block in front |
| BuddyLists.LinkedRemove | library/mem/src/buddy.c:82-108 | unlinking any position leaves the remaining list linked, whatever flag the old words keep |
| BuddyAllocator.BuddyCtxt.Init | library/mem/src/buddy.c:187-236 | refused exactly for a misaligned base, a page size outside 2^5..2^24 or no page; otherwise exactly the pages of the free range are free, fully merged |
| BuddyAllocator.BuddyCtxt.AddFree | library/mem/src/buddy.c:63-80 | the words it writes |
| BuddyAllocator.BuddyCtxt.RemoveFree | library/mem/src/buddy.c:82-108 | the words it writes |
| BuddyAllocator.BuddyCtxt.Free | library/mem/src/buddy.c:326-366 | true exactly for a live block; its pages become free, everything merges, nothing else changes |
| BuddyAllocator.BuddyCtxt.AllocateSubset | library/mem/src/buddy.c:113-147 | the inner block becomes live and the rest of the outer one free and merged again |
| BuddyAllocator.BuddyCtxt.Alloc | library/mem/src/buddy.c:248-278 | succeeds exactly when some aligned run of 2^order pages is free; takes such a run and nothing else: the front of the first on its list of the smallest free blocks that hold it |
| BuddyAllocator.BuddyCtxt.AllocAt | library/mem/src/buddy.c:282-323 | succeeds exactly when the address is aligned and all its pages are free |
| BuddyAllocator.BestFitKeepsLarge | library/mem/src/buddy.c:248-278 | as long as a free block of a smaller order holds the request, every larger order that could be had before can be had afterwards |
| BuddyAllocator.InitiallyFreeIff | library/mem/src/buddy.c:187-236 | a page is freed at the start exactly when it lies between the limits as a whole, with the cases in which a limit is none |
| BuddyRuns.RunAccounted | library/mem/src/buddy.c:248-366 | after any run exactly the pages of outstanding blocks have changed hands |
| BuddyRuns.RunRestores | library/mem/src/buddy.c:248-366 | a run that gives everything back, in any order, restores the tiling it began with |
| BuddyRuns.RunDisjoint | library/mem/src/buddy.c:248-366 | outstanding blocks never overlap |
| BuddyAllocator.BuddyCtxt.OrderFromSize | library/mem/src/buddy.c:151-158 | the smallest order whose blocks hold the size |
| BuddyAllocator.BuddyCtxt.ContainsOrder | library/mem/src/buddy.c:161-177 | whether a free block of the order, or of a larger one, exists |
| RegionSpec.RunInOneRegion | library/mem/src/mreg.c:208-230 | because adjacent free regions have always been joined, free addresses in a row lie in one free region |
| RegionSpec.CoverDecides | library/mem/src/mreg.c:208-230 | two level-1 lists that cover the same addresses hold the same regions: the list does not depend on history |
| RegionLevel1.Level1.Split | library/mem/src/mreg.c:107-117 | a region is cut in two, one part returned and the other free; together they are the addresses it had |
| RegionLevel1.Level1.FindBest | library/mem/src/mreg.c:126-135 | the first of the smallest regions that are large enough, or none exactly when none is |
| RegionLevel1.Level1.Allocate | library/mem/src/mreg.c:120-148 | succeeds exactly when that many free addresses lie in a row; exactly the returned region leaves the free addresses; it is the front of the first of the smallest regions that hold it |
| RegionLevel1.Level1.AllocateAt | library/mem/src/mreg.c:150-184 | succeeds exactly for an aligned address with all addresses free; exactly those leave |
| RegionLevel1.Level1.FindStarting | library/mem/src/mreg.c:186-195 | a free region that starts there, or none exactly when there is none |
| RegionLevel1.Level1.FindEnding | library/mem/src/mreg.c:197-206 | a free region that ends there, or none exactly when there is none |
| RegionLevel1.Level1.Free | library/mem/src/mreg.c:208-230 | the addresses are free again and no two free regions are adjacent, whichever neighbours were free |
| RegionPartition.GiveOut | library/mem/src/mreg.c:427-427 | giving out a region of free megabytes keeps the partition of attached memory |
| RegionPartition.TakeBack | library/mem/src/mreg.c:489-491 | so does taking it back |
| RegionPartition.ToBuddies | library/mem/src/mreg.c:313-322 | so does handing a free megabyte to a buddy allocator |
| RegionPartition.FromBuddies | library/mem/src/mreg.c:303-305 | so does taking a megabyte back from its buddy allocator |
| RegionParents.NewParent | library/mem/src/mreg.c:72-92 | a buddy allocator for exactly the pages of the region, all of them free |
| RegionParents.Level2Allocate | library/mem/src/mreg.c:234-260 | null exactly when no buddy allocator has an aligned free run of the order the size needs; otherwise the first that has one gives it and the others keep their state |
| RegionParents.Level2AllocateAt | library/mem/src/mreg.c:262-286 | null exactly when no buddy allocator has the aligned run at the address free |
| RegionParents.FreeIn | library/mem/src/mreg.c:288-292 | the block goes back to its own buddy allocator; the others keep their state |
| RegionParents.IdleBlock | library/mem/src/mreg.c:298-301 | an untouched megabyte is one free block, so that the test by block order finds it |
| RegionParents.MegabyteBlock | library/mem/src/mreg.c:298-301 | a free block of a megabyte means that its buddy allocator holds nothing live |
| RegionParents.IdleRunAt | library/mem/src/mreg.c:469-473 | in a fresh megabyte the pages at an address are available exactly when the address is aligned to their block |
| RegionParents.CutRegions | library/mem/src/mreg.c:359-402 | the head, the megabytes and the tail of a range are whole pages and whole megabytes |
| RegionLive.LiveTaken | library/mem/src/mreg.c:246-257 | taking a free run adds one piece to the memory callers hold, and it is new |
| RegionLive.LiveFreed | library/mem/src/mreg.c:288-292 | freeing a block removes exactly that piece |
| RegionLive.LiveDrop | library/mem/src/mreg.c:300-309 | dissolving a megabyte with nothing live takes nothing from any caller |
| RegionLive.HolderIsBlock | library/mem/src/mreg.c:246-257 | a caller holds a small address exactly when its page belongs to the live block |
| RegionAlign.AlignUpIs | library/util/include/utillib_macros.h:17-17 | aligning a word up rounds it up exactly when that does not pass the end of the address space; otherwise it gives zero |
| RegionAlign.RoundedHolds | library/mem/src/mreg.c:423-426 | the rounded size holds the request exactly for requests up to 2^32 - 1 MB, and is zero above |
| RegionAlign.LargestRequest | library/mem/src/mreg.c:423-426 | the largest request rounds to zero |
| RegionAlign.SizeWithoutMegabytes | library/mem/src/mreg.c:423-427 | 0xFFF00001 passes the test for a megabyte and then rounds to zero megabytes |
| RegionAlign.WindowIs | library/mem/src/mreg.c:453-461 | the word arithmetic before `mreg_alloc_at` gives the pages around the range, and its test decides whether they lie in one megabyte |
| RegionAlign.MegabytesRight | library/mem/src/mreg.c:359-366 | the megabytes put on the free list lie inside the range exactly when it reaches a megabyte boundary inside the address space |
| RegionAlign.PagesInsideMegabyte | library/mem/src/mreg.c:359-366 | two pages inside one megabyte make it claim megabytes beyond them |
| RegionAlign.TailTest | library/mem/src/mreg.c:394-394 | the test for pages behind the last megabyte is right, around the end of the words too |
| RegionAllocator.Mreg.constructor | library/mem/src/mreg.c:327-345 | nothing attached, nothing held |
| RegionAllocator.Mreg.GiveToBuddy | library/mem/src/mreg.c:72-92 | memory handed to a new buddy allocator stays accounted for; callers keep what they hold |
| RegionAllocator.Mreg.Dissolve | library/mem/src/mreg.c:303-305 | one megabyte goes from level 2 to level 1, with the invariant kept |
| RegionAllocator.Mreg.Level2Shrink | library/mem/src/mreg.c:295-311 | afterwards level 1 covers exactly what was free there and all megabytes with nothing live; callers keep what they hold |
| RegionAllocator.Mreg.Level2Expand | library/mem/src/mreg.c:313-322 | a new buddy allocator on a whole free megabyte, from the best fitting region, exactly when level 1 has one |
| RegionAllocator.Mreg.Alloc | library/mem/src/mreg.c:417-442 | null exactly when size is zero or the memory is not there (small: no run in any buddy allocator and no free megabyte; large: no run of unused addresses); otherwise callers hold exactly one new piece more, of the rounded size, which is enough exactly up to 2^32 - 1 MB; no megabyte changes its level while the request can be served where it belongs |
| RegionAllocator.Mreg.AllocAt | library/mem/src/mreg.c:444-482 | null exactly when the range crosses megabytes or its pages cannot be had as one aligned block; otherwise one new piece that contains the range |
| RegionAllocator.Mreg.Free | library/mem/src/mreg.c:485-495 | exactly the given piece is no longer held; a large one is free at level 1 again, a small one does not touch it |
| RegionAllocator.Mreg.RegionAttach | library/mem/src/mreg.c:347-415 | exactly the whole pages of the range become attached and free, the whole megabytes among them at level 1; fails exactly below two pages |
| RegionAllocator.Mreg.Conservation | library/mem/src/mreg.c:234-495 | in every state an address is attached exactly when it is free or held, and never both |
| RegionAllocator.Mreg.NoOverlap | library/mem/src/mreg.c:234-495 | no address is held twice, across small and large pieces |
| RegionAllocator.Mreg.NothingLeaks | library/mem/src/mreg.c:295-311 | when nothing is held, all attached memory but the edges can be had as megabytes again |
| HeapSpec.AllocKeeps | library/mem/src/heap.c:88-121 | allocation leaves no two adjacent free blocks and loses no memory |
| HeapSpec.FreeKeeps | library/mem/src/heap.c:123-162 | so does release |
| HeapSpec.FreeUndoesAlloc | library/mem/src/heap.c:88-162 | releasing a block restores the block list from before its allocation |
| HeapSpec.LiveDecides | library/mem/src/heap.c:88-162 | the live blocks and the total size decide the whole block list, however it came about |
| HeapSpec.AllocedLive | library/mem/src/heap.c:88-121 | allocation adds exactly one live block, at the front of the free one and at most one unit larger than asked |
| HeapSpec.FreedLive | library/mem/src/heap.c:123-162 | release removes exactly the released one |
| HeapSpec.AllReleased | library/mem/src/heap.c:88-162 | with nothing live the heap is one free block |
| Heap.JoinMarks | library/mem/src/heap.c:37-46 | the words of a join are those of the merged block list |
| Heap.CutMarks | library/mem/src/heap.c:55-63 | the words of a split are those of the cut block list |
| Heap.HeapCtxt.constructor | library/mem/src/heap.c:69-81 | one free block of the size rounded down to 8 bytes |
| Heap.HeapCtxt.MarkerPrev | library/mem/src/heap.c:12-17 | the predecessor, or none for the first block |
| Heap.HeapCtxt.Join | library/mem/src/heap.c:25-47 | two free neighbours become one block and all markers stay right |
| Heap.HeapCtxt.Split | library/mem/src/heap.c:49-67 | a free block is cut where more than a marker would remain and all markers stay right |
| Heap.HeapCtxt.FindBest | library/mem/src/heap.c:97-110 | the first of the smallest sufficient free blocks, or none exactly when none is large enough |
| Heap.HeapCtxt.Alloc | library/mem/src/heap.c:88-121 | that block is given out; null exactly for sizes below 1 or when nothing fits |
| Heap.HeapCtxt.Free | library/mem/src/heap.c:123-162 | succeeds exactly on a used block, which is released and joined with its free neighbours; otherwise nothing changes |
| HyperState.FrameReadsBack | core/hypervisor/handlers.c:39-44 | words stored upwards on the stack are read back, across address wrap-around too |
| Hypervisor.VirtualMachine.ChangeGuestMode | core/hypervisor/hypercalls/hypercalls.c:9-19 | mode and domain register change together |
| Hypervisor.VirtualMachine.HypercallRpc | core/hypervisor/hypercalls/hyp_rpc.c:7-39 | the state after a call or a panic, which `HyperEntries.RpcDelivers` describes |
| Hypervisor.VirtualMachine.HypercallEndRpc | core/hypervisor/hypercalls/hyp_rpc.c:41-58 | the state after the end of a call or a panic |
| Hypervisor.VirtualMachine.HypercallInterruptSet | core/hypervisor/hypercalls/hyp_interrupt.c:9-24 | the state becomes the one `HyperStatus.InterruptSetMasks` describes |
| Hypervisor.VirtualMachine.HypercallEndInterrupt | core/hypervisor/hypercalls/hyp_interrupt.c:49-65 | the interrupted mode resumes, or a panic |
| Hypervisor.VirtualMachine.IrqHandler | core/hypervisor/handlers.c:238-259 | interrupt mode is entered with the kernel stack, or a nested interrupt is masked |
| Hypervisor.VirtualMachine.PushWords | core/hypervisor/handlers.c:39-44 | the copying loop stores the words of the frame |
| Hypervisor.VirtualMachine.EnterSyscall | core/hypervisor/handlers.c:22-73 | the frame and the kernel registers of a system call |
| Hypervisor.VirtualMachine.PrefetchAbortHandler | core/hypervisor/handlers.c:143-186 | the frame and the kernel registers of a prefetch abort |
| Hypervisor.VirtualMachine.DataAbortHandler | core/hypervisor/handlers.c:188-236 | the frame and the kernel registers of a data abort |
| Hypervisor.VirtualMachine.HypercallRestoreLinuxRegs | core/hypervisor/hypercalls/hypercalls.c:87-166 | which mode a frame is restored to, and what is restored |
| Hypervisor.VirtualMachine.HypercallRestoreRegs | core/hypervisor/hypercalls/hypercalls.c:64-81 | 17 words into the current mode, or a panic for a pointer outside kernel space |
| Hypervisor.VirtualMachine.SwiHandler | core/hypervisor/handlers.c:6-141 | the dispatch: what each mode may call |
| HyperRuns.StepKeeps | core/hypervisor/handlers.c:6-259 | every event keeps the invariant of the call bookkeeping and the domain register |
| HyperRuns.AlwaysSafe | core/hypervisor/hypercalls/hyp_rpc.c:7-58 | after any run: at most one call is outstanding; m.rpc_to = TRUSTED iff TRUSTED.rpc_for = m; TRUSTED runs or waits only within a call; the trusted domain is open exactly in TRUSTED |
| HyperRuns.RpcAcceptedIff | core/hypervisor/hypercalls/hyp_rpc.c:7-39 | a call is accepted exactly when none is outstanding and the operation is at most 4 |
| HyperRuns.EndRpcAcceptedIff | core/hypervisor/hypercalls/hyp_rpc.c:41-58 | the end of a call is accepted exactly in TRUSTED: the check of the caller never fails |
| HyperRuns.OnlyTrustedEnds | core/hypervisor/hypercalls/hyp_rpc.c:41-58 | nothing but an accepted end changes who the trusted mode works for |
| HyperRuns.EndResumesCaller | core/hypervisor/hypercalls/hyp_rpc.c:7-58 | whatever happens in between, the end of a call resumes the mode that made it and leaves no call behind |
| HyperRuns.InterruptIsTransparent | core/hypervisor/handlers.c:238-259 | a handler that stays in interrupt mode and ends leaves every other mode as it was and resumes the interrupted one |
| HyperRuns.RpcIsTransparent | core/hypervisor/hypercalls/hyp_rpc.c:7-58 | a service that stays in TRUSTED and ends leaves every other mode as it was |
| HyperEntries.RpcDelivers | core/hypervisor/hypercalls/hyp_rpc.c:7-39 | an accepted call starts TRUSTED with the operation in r0, the argument in r1, the entry point in pc and psr 0xD0; its other registers, all other modes and the memory are as before |
| HyperEntries.EndRpcDelivers | core/hypervisor/hypercalls/hyp_rpc.c:41-58 | the end of a call resumes the caller and changes no register and no memory |
| HyperEntries.InterruptDelivers | core/hypervisor/handlers.c:238-259 | the handler finds the interrupt in r0, the kernel stack and the vector entry at 24, with interrupts masked; all other modes are as before |
| HyperEntries.NestedInterrupt | core/hypervisor/handlers.c:238-259 | inside the handler an interrupt only masks |
| HyperEntries.EndInterruptDelivers | core/hypervisor/hypercalls/hyp_interrupt.c:49-65 | the interrupted mode resumes with all its registers |
| HyperEntries.SyscallDelivers | core/hypervisor/handlers.c:22-73 | stack pointer, return vector, mask and call number after a system call; all other modes are as before |
| HyperEntries.SyscallArguments | core/hypervisor/handlers.c:54-72 | a regular call finds its six arguments and its handler from the table; any other is handed over by number and frame |
| HyperEntries.AbortDelivers | core/hypervisor/handlers.c:143-236 | fault address, status and frame in r0 to r2, the vector entries at 12, 16 and 40, and the mask; all other modes are as before |
| HyperEntries.EntryMemory | core/hypervisor/handlers.c:22-236 | entries write memory in the 80 bytes below the kernel stack pointer only |
| HyperEntries.RestoreTouches | core/hypervisor/hypercalls/hypercalls.c:87-166 | a return touches the registers of kernel and task only, and no memory |
| HyperEntries.CallNumbers | core/hypervisor/handlers.c:74-140 | which call number does what outside the task; unknown numbers stop the machine |
| HyperStatus.InterruptSetMasks | core/hypervisor/hypercalls/hyp_interrupt.c:9-24 | a known operation changes nothing but the two mask bits of the current mode: 1 clears the chosen, 0 sets them, 2 copies the choice; any other stops the machine |
| HyperStatus.StepKeepsLow | core/hypervisor/handlers.c:6-259 | every event keeps the low four bits of all saved status registers clear, if guest code keeps its own so |
| HyperStatus.AlwaysLowClear | core/hypervisor/handlers.c:6-259 | so do all runs: the return paths clear them and the call entry writes a constant with them clear; bit 4 comes from the frame |
| HyperStatus.AbortIsTransparent | core/hypervisor/hypercalls/hypercalls.c:87-166 | in a reachable state an abort and the return from it give back all registers, the status register included |
| HyperFrames.SyscallPushesFrame | core/hypervisor/handlers.c:22-44 | after a system call the 20 words of the frame lie at the kernel stack pointer |
| HyperFrames.SyscallReturn | core/hypervisor/hypercalls/hypercalls.c:87-166 | from any later state with that frame the task gets its registers back, r0 replaced and the low psr bits cleared, exactly when its stack pointer passes the user range test; otherwise kernel mode resumes at that address |
| HyperFrames.AbortPushesFrame | core/hypervisor/handlers.c:143-236 | after an abort the 18 words of the frame lie at the kernel stack pointer |
| HyperFrames.RestoreRegsReadsBack | core/hypervisor/hypercalls/hypercalls.c:64-81 | a context in memory comes back to the current mode, the low status bits cleared, and nothing else changes; a pointer outside the kernel range stops the machine |
| HyperFrames.StoreThenRestoreRegs | core/hypervisor/hypercalls/hypercalls.c:64-81 | so a context that was stored comes back |
| HyperFrames.FrameStackPointer | core/hypervisor/handlers.c:156-210 | the frame holds the true stack pointer except after a prefetch abort in kernel mode |
| HyperFrames.AbortReturn | core/hypervisor/hypercalls/hypercalls.c:87-166 | registers, pc and kernel stack come back exactly when the interrupted pc lies in its own mode's range |
| CbcSpec.EncryptIsCs2 | guests/trusted/src/aescbc.c:246-309 | the block-by-block form is CBC-CS2 of the Addendum to NIST SP 800-38A, defined by padding, CBC and swapping |
| CbcSpec.DecryptUndoesEncrypt | guests/trusted/src/aescbc.c:352-416 | for every length from one block and every inverse pair of block functions |
| CbcSpec.FileRoundTrip | guests/trusted/src/aescbc.c:201-417 | `decfile` undoes `encfile` for every message length, the empty one and those under a block included |
| CbcSpec.ShortFile | guests/trusted/src/aescbc.c:232-237 | a message under a block is chained to the initialisation vector and the last 16 bytes are encrypted in place |
| CbcSpec.ShortPlaintext | guests/trusted/src/aescbc.c:313-417 | byte by byte what decryption makes of such a file, whatever it holds |
| CbcSpec.LongFile | guests/trusted/src/aescbc.c:201-310 | a longer file is the initialisation vector followed by CBC-CS2 |
| CbcSpec.CbcChain | guests/trusted/src/aescbc.c:201-310 | each ciphertext block is the encryption of the plaintext block xored with the ciphertext block before |
| AesCbc.Encfile | guests/trusted/src/aescbc.c:201-310 | the rotating buffers write that ciphertext and nothing behind it |
| AesCbc.Decfile | guests/trusted/src/aescbc.c:313-417 | the rotating buffers write the plaintext of the decrypting recursion and nothing behind it |
| AesCbc.StealBlock | guests/trusted/src/aescbc.c:281-290 | the partial block is filled up with ciphertext and encrypted in place |
| AesCbc.Unsteal | guests/trusted/src/aescbc.c:381-397 | the stolen ciphertext is put back, the last two plaintext blocks come out |
| StreamSpec.Split | guests/trusted/src/aes/aes_modes.c:456-845 | a stream may be broken off anywhere: output and state compose |
| StreamSpec.CallsAreOneCall | guests/trusted/src/aes/aes_modes.c:456-845 | any sequence of calls gives the output of one call |
| StreamSpec.Undo | guests/trusted/src/aes/aes_modes.c:581-720 | decryption undoes encryption and ends in the same state |
| StreamSpec.SplitsUndo | guests/trusted/src/aes/aes_modes.c:581-720 | also when both sides cut the message up differently |
| StreamSpec.CfbIsStandard | guests/trusted/src/aes/aes_modes.c:456-579 | from a fresh block this is CFB of section 6.3 of NIST SP 800-38A |
| StreamSpec.OfbIsStandard | guests/trusted/src/aes/aes_modes.c:722-845 | and OFB of its section 6.4 |
| AesModes.StreamContext.CfbEncrypt | guests/trusted/src/aes/aes_modes.c:456-579 | partial block, whole blocks and rest refine the byte stream; saved position and feedback block are the stream state; in place too |
| AesModes.StreamContext.CfbDecrypt | guests/trusted/src/aes/aes_modes.c:581-720 | likewise |
| AesModes.StreamContext.OfbCrypt | guests/trusted/src/aes/aes_modes.c:722-845 | likewise |
| AesCtr.SavedSixteen | guests/trusted/src/aes/aes_modes.c:862-876 | a saved position of 16 with counter c is position 0 with the counter moved on |
| AesCtr.CtrSplit | guests/trusted/src/aes/aes_modes.c:849-941 | output composes over splits |
| AesCtr.CtrCallsAreOneCall | guests/trusted/src/aes/aes_modes.c:849-941 | any sequence of calls, each from any representation of the last one's end, gives the output of one call |
| AesCtr.CtrUndo | guests/trusted/src/aes/aes_modes.c:849-941 | counter mode is its own inverse |
| AesCtr.CtrIsStandard | guests/trusted/src/aes/aes_modes.c:849-941 | it is CTR of section 6.5 of NIST SP 800-38A |
| AesCtr.KeyBatch | guests/trusted/src/aes/aes_modes.c:880-901 | a batch of eight counter blocks encrypted in place is the key stream |
| AesCtr.CtrContext.Crypt | guests/trusted/src/aes/aes_modes.c:849-941 | the batches refine that stream; saved position and counter are its state up to the two forms of a used-up block; in place too |
| AesBlocks.XorIsBitwise | guests/trusted/src/aescbc.c:201-310 | xor of bytes, bit by bit |
| Sha256Bits.ShrBit | guests/trusted/src/aes/sha2.c:150-151 | a shift to the right moves every bit down and fills with zeros |
| Sha256Bits.RotrBit | guests/trusted/src/aes/sha2.c:99-99 | a rotation to the right: bit i is what was n places above, around the end |
| Sha256Bits.SigmaBits | guests/trusted/src/aes/sha2.c:148-151 | the four sigma functions of section 4.1.2 of FIPS 180-4, bit by bit |
| Sha256Bits.WordOperations | guests/trusted/src/aes/sha2.c:114-120 | Ch selects, Maj is the majority, bit by bit |
| Sha256Bits.ConstantsAreRoots | guests/trusted/src/aes/sha2.c:166-184 | the round constants are the fractions of the cube roots of the first 64 primes |
| Sha256Bits.InitialIsRoots | guests/trusted/src/aes/sha2.c:401-405 | the initial hash value is the fractions of the square roots of the first eight |
| Sha256Bits.PadShape | guests/trusted/src/aes/sha2.c:330-360 | the padding: 0x80, as few zeros as make whole blocks, the length in bits |
| Sha256Bits.DigestWords | guests/trusted/src/aes/sha2.c:362-366 | four bytes of the digest stand for one word, most significant first |
| Sha256Bits.WordIsNumber | guests/trusted/src/aes/sha2.c:330-337 | a message word is the number its four bytes stand for, most significant first |
| Sha256Compile.ChFastIsCh | guests/trusted/src/aes/sha2.c:119-120 | the shorter form of Ch is the standard's |
| Sha256Compile.MajFastIsMaj | guests/trusted/src/aes/sha2.c:119-120 | the shorter form of Maj is the standard's |
| Sha256Compile.CycleIsRound | guests/trusted/src/aes/sha2.c:126-135 | a round on rotated names is the round of section 6.2.2 of FIPS 180-4 |
| Sha256Compile.NextWordIsNext | guests/trusted/src/aes/sha2.c:128-129 | the in-place sum is the next word of the message schedule |
| Sha256Compile.WindowMoves | guests/trusted/src/aes/sha2.c:128-129 | sixteen words suffice for the schedule |
| Sha256Compile.Compile | guests/trusted/src/aes/sha2.c:191-298 | 64 rounds in place are the standard's compression function |
| Sha256Words.SwappedIsBlock | guests/trusted/src/aes/sha2.c:141-146 | swapping turns the bytes of the buffer into big-endian words |
| Sha256Words.PadWordKeeps | guests/trusted/src/aes/sha2.c:336-337 | mask and or keep the valid bytes and put 0x80 behind them |
| Sha256Words.PaddedWords | guests/trusted/src/aes/sha2.c:330-337 | the swapped and padded words are the message's last bytes with their padding |
| Sha256Words.LengthWords | guests/trusted/src/aes/sha2.c:358-359 | the two count words give the 64-bit length in bits |
| Sha256.Count | guests/trusted/src/aes/sha2.c:308-309 | the carry between the count words |
| Sha256.PadOneBlock | guests/trusted/src/aes/sha2.c:342-360 | padding that fits |
| Sha256.PadTwoBlocks | guests/trusted/src/aes/sha2.c:342-360 | padding that needs a block more |
| Sha256.Sha256Ctx.constructor | guests/trusted/src/aes/sha2.c:407-411 | a context that has absorbed nothing |
| Sha256.Sha256Ctx.Hash | guests/trusted/src/aes/sha2.c:303-320 | absorbing a piece after m is absorbing m followed by the piece, for any lengths |
| Sha256.Sha256Ctx.End | guests/trusted/src/aes/sha2.c:324-366 | the digest is SHA-256 of everything absorbed, padded as in section 5.1.1 of FIPS 180-4 |

## Left out

- MpiSqrt.Sqrt: asks that the loop ends for a, and calls the result the root where no iterate is misdivided; iterates that stray and find back are delivered as the code leaves them, without a claim that they are right.
- MpiGcd.Xgcd: excludes a = 0 with b nonzero, for which the loop of the source never ends (`MpiCofactors.ZeroStaysEven`).
- MpiGcd.Invmod: with the output in place of the modulus the promise is the exact condition under which the result is an inverse.
- MpiMagnitude.MulDigit: asks for room for the carry; the source has no such check.
- MpiMagnitude.SubMag: the subtrahend has no more used digits than the minuend, as all callers ensure; the source would run past the minuend's digits.
- AesCbc.Encfile: the random initialisation vector is a parameter.
- Heap.HeapCtxt.Free: excludes pointers into the data of a block, into a unit whose stale marker has been written over, and from the end of the heap up to eight times its length, for which the source reads words that no operation of the heap wrote.
- Heap.HeapCtxt.constructor: the memory holds at least one marker and lies in the address space above address 7.
- Heap.HeapCtxt.Alloc: sizes up to 0x7FFFFFF8, as rounding a larger one overflows a signed integer.
- BuddyAllocator.BuddyCtxt.Init: at most 2^26 pages, the indices that the packed list words can hold.
- BuddyAllocator.BuddyCtxt.Free: an address in the range is the first one of a block; for others the source reads a word left over from an earlier block.
- RegionAllocator.Mreg.Alloc: excludes sizes above 2^32 - 1 MB and at most 2^32 - one page, which round to a region of no megabytes (`RegionAlign.SizeWithoutMegabytes`): the source returns one that ends before it starts, and giving that back can make `mreg_level1_free` join it with itself and use it after its release.
- RegionAllocator.Mreg.AllocAt: excludes sizes that end less than a megabyte before 2^32 counted from the page of the address, for which the rounded length may wrap around.
- RegionAllocator.Mreg.RegionAttach: the range lies in the address space, is new, reaches a megabyte boundary below 2^32, and does not make both ends of the address space attached.
- RegionAllocator.Mreg.constructor: pages of 32 bytes to 1 MB; buddy allocators refuse smaller ones.
- RegionLevel1.Level1.Allocate: a positive number of megabytes; for none see `RegionAllocator.Mreg.Alloc`.
- RegionLevel1.Level1.AllocateAt: a positive number of megabytes inside the address space; its one caller asks for one megabyte at an aligned address.
- RegionLevel1.Level1.Free: the two ends of the address space are not both free, where the source would join regions around it.
- RegionParents.NewParent: pages of 32 bytes to 1 MB, as for the allocator.
- BuddyAllocator.BuddyCtxt.OrderFromSize: sizes up to 2^31, above which the source shifts a word out of range.
- Region statistics (`start` and `end` of the allocator) and the dump routines of mreg.c.
- Hypervisor.VirtualMachine.SwiHandler: cache, page-table, coprocessor and guest-information calls leave the modelled state alone and their own panics are not modelled; what they change that handlers read later enters runs as `Boot` and `Guest` events.
- Memory exhaustion: every allocation from the C library succeeds, so the MP_MEM paths do not occur.
- Sizes: lengths, page counts and digit counts are unbounded naturals where the source has machine integers, except where a width decides the result (digits, words, list words, counters, addresses, the 16-bit exponents).
- Precision setting, radix conversion, binary import and export, `mp_expt`, `mp_div_d` and the other small wrappers of mpi.c.
- Bit operations on digits, list words and flags are written as arithmetic of the same effect; in SHA-256 they are bitwise.
- Contexts of guest modes and the guest's memory are separate: no frame overlaps the virtual machine's own structures.
- Memory is words at addresses: stack pointers are taken to be word aligned.
- Hypervisor panics stop the machine; the printed messages are not modelled.
- Block ciphers, key schedules and tables: the block function is arbitrary, or one of an inverse pair.
- Accelerated and aligned fast paths of the cipher modes, SHA-224, SHA-384 and SHA-512.
- Big-endian machines: the byte swap of SHA-256 is modelled as on a little-endian one.
- Drivers, page-table setup, assembly, the simulation and the demonstration programs.
