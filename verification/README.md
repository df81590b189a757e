# Verified models of the algorithms in collected_sources

The repository is a collection of small independent programs. This project models
the ones that hold an algorithm and proves what each of them is for, over every
input, every run or every sequence of operations. C and C++ code that works step by
step is modelled by methods, loops, arrays and classes; the specifications are
functions and predicates that do not follow the code.

- `Bits.dfy`: machine words as naturals, with powers of two, shifts and the bitwise
  operators defined bit by bit, for any word width.
- `Sequences.dfy`: repeats, concatenation and occurrences, for sequences of anything.
- `Binary64.dfy`: doubles as the two 32-bit words gon.c works on. Every finite double
  is an integer multiple of 2^-1074, so exact values are integers in that unit and the
  arithmetic needs no floating point. Comparing bit patterns is proved to compare
  magnitudes, and a step of the pattern to add one unit in the last place.
- `Fmod.dfy`, `Floor.dfy`, `Scalbn.dfy`, `RemPio2.dfy`: gon.c. `fmod` against section 7.12.10.1 and
  `floor` against section 7.12.9.2 of ISO/IEC 9899:1999 on all doubles, subnormals,
  infinities and NaNs included; `scalbn` against the product rounded once, to nearest
  with ties to even (section 4.3.1 of IEEE 754-2008); the radix-2^24 digit loops of
  `__rem_pio2` on the integers their doubles hold, down to the nearest integer modulo 8
  and the digits of the exact distance to it.
- `Rfc1321.dfy`, `Md5Step.dfy`, `Md5.dfy`: cr/md5.c against section 3 of RFC 1321. The
  model runs on words of any width of at least 32 bits, as the comments of the source
  allow, so one proof gives both the digest and its independence of the width. `Md5Vectors.dfy`
  computes the digest that section A.5 of the RFC lists for 62 letters and digits, on
  bit-vectors, which fixes every table, order and constant of the definition.
- `Renames.dfy`: the backward folding of renames in git_renames/log-raw.cpp against
  tracing every file forwards.
- `Variants.dfy`: cr/cr.c built with `VARIANTS`: the in-place enumeration of substituted
  words, the sizes `main` computes, and the search over their digests.
- `Diasel.dfy`: the one-pass selection of the most frequent characters.
- `Jscal.dfy`: the printer and parser of joystick corrections, on strings.
- `Kfifo.dfy`: the writer, the FIFO and the checking reader of kfifo-test.c under any
  interleaving.
- `Holders.dfy`: Holder.h, objects and any sequence of operations on them.
- `Komb.dfy`: the recursive word enumerator.

What the proofs show about the code:

- `fmod` and `floor` are exact: together with the sign bit, the contracts leave one
  pair of words (`OnlyOneAnswer`, `OnlyOneFloor`).
- `scalbn` rounds correctly for every double and every 32-bit `n`, although it reaches
  subnormal results by two multiplications and lets `n + k` wrap: the test `n > 50000`
  catches exactly the wrapped sums, if signed addition wraps.
- In `__rem_pio2` more terms are asked for exactly when the distance to the nearest
  integer is below one unit of digit `jk`, and for `e0` >= 0 the top of `z` never
  needs the second 24-bit digit that lines 265-270 provide for.
- cr.c counts variants and bytes in 32 bits. The buffer is large enough exactly when
  the true size is below 2^32; a line of 39 letters `s`, which fits in `buf`, is past
  that. Its table `subs` has no slot for `z`, so words with `z` or `Z` index outside it.
- `set_correction` reads a number into a variable that keeps its value when the field
  is empty, so it accepts more than well-formed lists of numbers. What it accepts is
  stated exactly for every string, and in simpler terms for lists of numbers.
- A negative type passes the test against `MAX_CORR`; unless 16 bits turn it into 0 or
  1, it indexes outside `corr_coef_num`, which the model reports as `Undefined`. That
  happens exactly when such a type and a precision follow complete good groups; the
  list "1,-1,0" for one axis is an example.
- The similarity of a rename entry is composed of the links up to the file's first
  visit to its final path, so of its whole chain exactly when that path occurs once.
  A file renamed A to B at 100 percent, then to C and back to B at 10 percent each, is
  reported at 100.
- `release` on a holder that is not valid hands out the last handle again. A run keeps
  every handle in as many places as it was given exactly when it contains no such
  release: no later operation makes up for it. No handle is ever lost.

## Model

| member | source | states |
|---|---|---|
| Binary64.MagnitudeMonotone | gon.c:502-507 | a greater exponent-and-fraction pattern is a greater magnitude, so the word comparisons of fmod compare \|x\| and \|y\| |
| Binary64.MagnitudeAdvance | gon.c:97-98 | adding d to the bit pattern adds d units in the last place, also when the carry runs into the exponent |
| Binary64.SameBits | gon.c:1-12 | sign and magnitude determine both words |
| Fmod.FMod | gon.c:484-614 | NaN exactly for y = 0, x not finite or y NaN; x itself for infinite y; otherwise a finite result with the sign bit of x whose magnitude is \|x\| mod \|y\| and whose value meets the remainder condition of the C standard |
| Fmod.OnlyOneAnswer | gon.c:484-614 | two doubles with the same sign bit that both meet the standard's remainder condition for x and y are the same words |
| Fmod.RemainderExists | gon.c:484-614 | sign(x) (\|x\| mod \|y\|) is x minus a multiple of y, has the sign of x and is smaller than y in magnitude |
| Fmod.RemainderUnique | gon.c:484-614 | no other value meets those three conditions |
| Fmod.Shortcut | gon.c:498-507 | the early returns are right, and the division is reached only with \|x\| > \|y\| > 0 and x finite |
| Fmod.NaNTest | gon.c:499-501 | the or of the high word with bit 31 of ly\|-ly exceeds 0x7ff00000 exactly for NaNs |
| Fmod.Divide | gon.c:509-613 | for \|x\| > \|y\| > 0 every loop ends and the result is the finite double of magnitude \|x\| mod \|y\| with the given sign |
| Fmod.CountDown | gon.c:511-516 | the shift loop stops with the leading bit in bit 31, at most 31 turns after its start |
| Fmod.Ilogb | gon.c:509-518 | ix is floor(log2 \|x\|) for normal and subnormal x |
| Fmod.SetUp | gon.c:531-556 | the mantissa has 53 bits and, at exponent ix, exactly the value of the input: nothing is shifted out |
| Fmod.ExponentsOrdered | gon.c:558-560 | \|x\| >= \|y\| forces ix >= iy, so the loop count is not negative |
| Fmod.Subtract | gon.c:561-564 | the two-word difference with its borrow is the difference of the 64-bit numbers |
| Fmod.Reduce | gon.c:558-588 | the loop returns {hx,lx} * 2^n mod {hy,ly}, and returns early only when that is zero |
| Fmod.RemainderScales | gon.c:558-584 | the remainder of the aligned mantissas, at the exponent of y, is the remainder of the values |
| Fmod.Pack | gon.c:589-612 | normalising and packing a nonzero remainder gives the finite double of exactly its value |
| Fmod.PackSubnormal | gon.c:597-611 | in all three shift ranges the subnormal words hold exactly the value |
| Fmod.DenormaliseExact | gon.c:597-608 | the mantissa of a subnormal result is its value times 2^n, so only zero bits are shifted out |
| Floor.Floor | gon.c:72-128 | NaN for NaN, x for infinities; otherwise a finite result with the sign bit of x that is the largest integer not above x |
| Floor.RoundingBitsIsExact | gon.c:92-124 | for 1 <= \|x\| < 2^52 rounding the bit pattern at bit 52-j0 rounds the value to a multiple of 1.0, through carries into the exponent |
| Floor.BelowOne | gon.c:83-91 | for \|x\| < 1 the result is 0, -0 or -1 as rounding down demands |
| Floor.ClearHigh | gon.c:93-101 | the high-word case rounds the value down |
| Floor.ClearLow | gon.c:108-124 | the low-word case, with its carry into the high word, rounds the value down |
| Floor.LowCarry | gon.c:117-120 | j < i1 after the 32-bit addition exactly when it carried; j is then the sum less 2^32 |
| Floor.HugeGuardHolds | gon.c:84-96 | huge + x > 0.0 is true wherever it is tested, that is for \|x\| < 2^52 |
| Floor.FloorByDivision | gon.c:72-128 | division rounding down gives the largest multiple of 1.0 that is not above the value |
| Floor.OnlyOneFloor | gon.c:72-128 | two doubles with the same sign bit that are both the largest integer not above a value are the same words |
| Scalbn.Scalbn | gon.c:33-70 | for every double and every 32-bit n: NaN for NaN, x for infinities, otherwise the product with 2^n rounded once to nearest, ties to even, infinite when too large |
| Scalbn.RoundedIsNearest | gon.c:33-70 | the rounding meant: no bit pattern's magnitude is nearer to m/2^s, and of two that are equally near the even one is chosen |
| Scalbn.Normalise | gon.c:43-54 | x is a 53-bit word at exponent k, subnormals scaled by 2^54 without error; the early returns are right |
| Scalbn.NormalResult | gon.c:55-59 | for k + n > 0 the correctly rounded product is the same word at exponent k + n, too large exactly when k + n > 0x7fe |
| Scalbn.SubnormalResult | gon.c:67-69 | for -54 < k + n <= 0 scaling up by 54 and multiplying by 2^-54 rounds the product only once |
| Scalbn.VanishingResult | gon.c:60-64 | for k + n <= -54 the product rounds to zero |
| Scalbn.HugeOverflows | gon.c:57-62 | huge times huge rounds to the infinity of the right sign |
| Scalbn.TinyVanishes | gon.c:51-64 | tiny times anything below 2^-874 in magnitude rounds to the zero of the right sign |
| Scalbn.SetExponent | gon.c:59-69 | masking and or-ing replace the exponent field and nothing else |
| Scalbn.CopySign | gon.c:26-30 | the bits of one double under the sign of the other |
| Scalbn.RoundedScale | gon.c:47-69 | rounding commutes with scaling number and unit alike, so splitting a power of two over two steps is sound |
| Scalbn.ScalingIsExact | gon.c:33-70 | numbers of 53 bits are scaled without error while the result neither overflows nor reaches below 2^-1074 |
| Scalbn.IntegersScaleExactly | gon.c:189-276 | so scalbn is exact on the integers and scaled integers below 2^53 of the digit loops |
| RemPio2.ScaleOfLastDigit | gon.c:159-164 | q0 is congruent to e0 mod 24 for every e0; it is in -21..2 for e0 >= 3 and e0 - 24 below |
| RemPio2.Distill | gon.c:181-186 | the digits are in [0,2^24), weigh together with z exactly what q[] did, and every intermediate stays below 2^53 |
| RemPio2.TrimInteger | gon.c:188-192 | n and z are the integer part modulo 8 and the fraction of the scaled z |
| RemPio2.SplitInteger | gon.c:188-202 | integer part modulo 8 and remaining fraction add up to the input; ih > 0 exactly when that fraction is at least one half |
| RemPio2.ComplementDigits | gon.c:206-216 | the digits are replaced by those of 2^(24 jz) minus their number, unless all are zero; carry tells which |
| RemPio2.RoundToNearest | gon.c:204-232 | for ih > 0 n grows by one and z and the digits hold exactly one minus the fraction, for every q0 <= 2; otherwise nothing changes |
| RemPio2.MaskTop | gon.c:217-226 | masking the top digit takes the complement modulo 1.0 |
| RemPio2.Quadrant | gon.c:181-331 | lines 181-232 and 331: n in 0..7 is the integer nearest to the represented number modulo 8 and z and iq[] hold the exact distance to it |
| RemPio2.NeedsTerms | gon.c:235-239 | recomputation is asked for exactly when the distance is below 2^(24 jk) units of the last digit |
| RemPio2.MissingTerms | gon.c:240-241 | k - 1 is the number of leading zeros of the first jk digits, given as bounds on the number they form; the loop ends when that is not zero |
| RemPio2.TopDigits | gon.c:256-274 | dropping zero digits or breaking z up keeps the number and the unit of its last digit and leaves a top digit that is not zero; the dropping loop ends |
| RemPio2.Fraction | gon.c:160-331 | lines 160-164, 181-274 and 331 for the terms at hand: with q0 computed from e0, either the distance to the nearest integer is below one unit of digit jk, or iq[0..jz] are exactly its digits |
| Md5Step.Select | cr/md5.c:51-52 | z ^ (x & (y ^ z)) is (x & y) \| (~x & z) on words of any width |
| Md5Step.XorAssociates | cr/md5.c:53-54 | the two groupings H and H2 agree |
| Md5Step.MacroIsAuxiliary | cr/md5.c:51-55 | on 32-bit words F, G, H, H2 and I are the functions of RFC 1321 |
| Md5Step.ApplyLow | cr/md5.c:51-55 | on wider words the low 32 bits of each macro are the RFC function of the low 32 bits |
| Md5Step.RotateLow | cr/md5.c:60-62 | the masked rotation of a word of w >= 32 bits rotates its low 32 bits |
| Md5Step.Step | cr/md5.c:60-63 | the i-th STEP turns registers whose low halves are i operations of RFC 1321 into registers whose low halves are i + 1 |
| Md5.Context.Set | cr/md5.c:79-84 | the four bytes form word n of the block, low order first, and only block[n] changes |
| Md5.Context.Round1 | cr/md5.c:112-128 | the 16 steps of round 1 are operations 0 to 15 and block[] holds the decoded block |
| Md5.Context.Round2 | cr/md5.c:130-146 | the 16 steps of round 2 are operations 16 to 31 |
| Md5.Context.Round3 | cr/md5.c:148-164 | the 16 steps of round 3 are operations 32 to 47 |
| Md5.Context.Round4 | cr/md5.c:166-182 | the 16 steps of round 4 are operations 48 to 63 |
| Md5.Context.Body | cr/md5.c:93-198 | for any positive multiple of 64 bytes the registers become the fold of the RFC compression over the blocks |
| Md5.Context.Init | cr/md5.c:200-209 | the context has absorbed the empty message |
| Md5.Context.Count | cr/md5.c:216-219 | lo and hi count the bytes with the carry at 2^29, for any size below 2^64 |
| Md5.Context.Take | cr/md5.c:221-242 | buffered tail and new data are hashed block by block and the rest is buffered |
| Md5.Context.Update | cr/md5.c:211-243 | a context that has absorbed msg has then absorbed msg followed by data |
| Md5.Context.PadBlock | cr/md5.c:249-260 | the one bit is appended and, when the length does not fit, a block of its own is padded and hashed |
| Md5.Context.PutLength | cr/md5.c:262-272 | the last block is the rest, zeros and the 64-bit count of bits, low order first |
| Md5.LengthWords | cr/md5.c:264-272 | lo << 3 and hi are the two halves of the bit count modulo 2^64 |
| Md5.Context.Result | cr/md5.c:276-291 | the sixteen bytes shifted out of words of any width are the registers' low halves, low byte first |
| Md5.Context.Wipe | cr/md5.c:293 | every field, buffer byte and block word is zero |
| Md5.Context.Final | cr/md5.c:245-294 | the result is the MD5 digest of the absorbed message and the context is left all zero |
| Md5.DigestInChunks | cr/md5.c:200-294 | init, any updates of any sizes and final give the digest of the concatenation, for every word width of at least 32 bits |
| Sequences.ConcatFromFront | cr/md5.c:211-243 | the chunks of a stream follow one another in order |
| Rfc1321.FoldAppend | cr/md5.c:106-190 | folding over blocks in two parts is folding over all of them |
| Md5Vectors.DigestOfLettersAndDigits | cr/md5.c:51-294 | the digest of "ABC...xyz012...789" is d174ab98d277d9f5a5611c2c9f419d9f, as RFC 1321 lists it: two blocks, all 64 operations, 16 different words |
| Md5Vectors.QuadBits | cr/md5.c:51-55 | and, or, xor as defined bit by bit are those of machine words |
| Rfc1321.PaddingIsShortest | cr/md5.c:249-262 | the zeros are as few as leave room for eight bytes in the last block |
| Rfc1321.PadEndsInLength | cr/md5.c:249-272 | a padded message is the message, a byte 0x80, zeros and eight bytes that spell its length in bits modulo 2^64, low order first |
| Renames.Between | git_renames/log-raw.cpp:191-225 | a zero similarity is reported; otherwise the loop leaves the map of the history read backwards |
| Renames.SummaryAgrees | git_renames/log-raw.cpp:211-224 | for every rename-only history the map has exactly the initial paths whose traced final path differs, each with that path |
| Renames.LogReportsMoves | git_renames/log-raw.cpp:191-229 | the same for the log of the history, newest line first |
| Renames.CommitOrderIsImmaterial | git_renames/log-raw.cpp:189-225 | lines of one commit that share no path may come in any order: every permutation is a history too and gives the same map |
| Renames.CommitIsSimultaneous | git_renames/log-raw.cpp:189-225 | for such lines one after the other is the same as all at once: they apply exactly when all sources exist and no target does, and move each source to its target |
| Renames.NeighboursSwap | git_renames/log-raw.cpp:211-224 | two neighbouring lines without a common path may be swapped anywhere in a history |
| Renames.TraceInjective | git_renames/log-raw.cpp:211-224 | different files end at different paths |
| Renames.SummaryInjective | git_renames/log-raw.cpp:189-225 | no two entries have the same final path |
| Renames.EmplaceFindsFreeKey | git_renames/log-raw.cpp:217-224 | at every step of a history the key to be emplaced is not in the map |
| Renames.SummarySimilarity | git_renames/log-raw.cpp:212-223 | an entry's similarity is the truncated composition of the links the loop keeps of its chain |
| Renames.LinksUpToFirstArrival | git_renames/log-raw.cpp:212-223 | the kept links are exactly those up to the file's first visit to its final path, for every history and file |
| Renames.ChainComposedWhole | git_renames/log-raw.cpp:216-223 | every link is kept if and only if the final path occurs once in the chain |
| Renames.EntryNearItsLinks | git_renames/log-raw.cpp:212-223 | with percentages, every entry is the composition of its k >= 1 links up to that visit: no more than any of them, at most their exact product and less than k-1 below it when k > 1 |
| Renames.EntryNearWholeChain | git_renames/log-raw.cpp:212-223 | the same against the whole chain when the final path occurs once |
| Renames.RoundTripIsDropped | git_renames/log-raw.cpp:216-223 | a file that leaves its final path and comes back: links of 10 percent are dropped and the entry says 100 |
| Renames.SimpleChainKeepsLinks | git_renames/log-raw.cpp:216-223 | in particular a file that never has a path twice keeps every link |
| Renames.ScaleIsExactDivision | git_renames/log-raw.cpp:218-219 | for percentages the product does not wrap and only the division by 100 truncates |
| Renames.ComposeNearProduct | git_renames/log-raw.cpp:218-220 | k links compose to at most s1...sk/100^(k-1) and, for k > 1, to less than k-1 below it |
| Renames.ComposeBelowLinks | git_renames/log-raw.cpp:218-220 | the composed similarity exceeds no link |
| Variants.EnumerateIsComplete | cr/cr.c:54-67 | the enumeration holds a word exactly when every position is kept or substituted from the table |
| Variants.EnumerateNoRepeats | cr/cr.c:54-67 | no word is enumerated twice |
| Variants.SubstitutesAreTheTable | cr/cr.c:15-24 | which character may stand for which, by letters of either case |
| Variants.OrderOfSubstitutes | cr/cr.c:15-24 | the two letters with two substitutes have them in the order of the table |
| Variants.CaseIsIgnored | cr/cr.c:100-102 | a capital letter has the substitutes of the small one |
| Variants.VariantsByLetters | cr/cr.c:54-67 | a variant is a word of the same length whose characters are those of the word or stand for them |
| Variants.VariantsOfBob | cr/cr.c:54-67 | the variants of "Bob" are exactly eight, "8ob" among them |
| Variants.GetVariants | cr/cr.c:47-67 | the array holds the enumeration, slot after slot, in exactly the slots the count calls for, and is unchanged behind them |
| Variants.StrCpy | cr/cr.c:59-62 | the word and its zero are copied, nothing else changes |
| Variants.AddVariant | cr/cr.c:58-64 | the next slot becomes slot j with one character changed |
| Variants.TryPosition | cr/cr.c:54-66 | one position extends the array from the variants of i positions to those of i + 1 |
| Variants.CountVariants | cr/cr.c:95-107 | count and size are the number of variants and the bytes they need, modulo 2^32 |
| Variants.SizeIsEnough | cr/cr.c:107-114 | the computed size holds all variants exactly when the true size is below 2^32 |
| Variants.LongWordOverflows | cr/cr.c:77-107 | a line of 39 letters s has at least 2^32 variants |
| Variants.TableCovers | cr/cr.c:15-24 | a character has a slot in subs after lowering exactly when it is below z and not Z |
| Variants.Compute | cr/cr.c:27-45 | the slot found has the wanted digest; when none is found no slot has it |
| Variants.TryWord | cr/cr.c:95-127 | a variant of the word with the wanted digest is found exactly when there is one |
| Diasel.Histogram | diasel/diasel.c:14-23 | counts are exact for the scanned prefix and at most 255; the prefix is the whole string unless a count has just reached 255 |
| Diasel.FindMin | diasel/diasel.c:29-34 | the position of a least count |
| Diasel.ReplaceMin | diasel/diasel.c:28-39 | replacing the least slot by a more frequent character, or leaving it, keeps the slots a top selection |
| Diasel.Diasel | diasel/diasel.c:11-41 | slots hold distinct characters with their counts, and no character left out is more frequent than any slot |
| Diasel.SelectedAreMostFrequent | diasel/diasel.c:27-40 | stated on the string: selected characters occur, and none is rarer than one left out |
| Diasel.FewAreAllSelected | diasel/diasel.c:25-40 | with at most cnt distinct characters all are selected |
| Sequences.OccurrencesAreMultiplicity | diasel/diasel.c:14-23 | occurrences are multiplicities in the multiset of the string |
| Jscal.ScanReadsOneField | ev/ff-utils/jscal.c:376-377 | reading a number at a field never looks past its comma |
| Jscal.ScanReadsNumber | ev/ff-utils/jscal.c:359-400 | blanks, at most one sign and digits are read as the signed decimal number, whatever follows that is not a digit |
| Jscal.ScanFindsNothing | ev/ff-utils/jscal.c:359-400 | no number is read exactly when the text does not start with blanks, at most one sign and a digit |
| Jscal.PiecesRejoin | ev/ff-utils/jscal.c:360-401 | the fields hold no comma and are the list again with commas between them |
| Jscal.DecimalIsCanonical | ev/ff-utils/jscal.c:335-340 | %d prints a minus for negative numbers only and no needless zero |
| Jscal.SetCorrection | ev/ff-utils/jscal.c:344-414 | for every string the cursor parser has the outcome and the array of the field-by-field definition on the pieces between commas |
| Jscal.PrintSettings | ev/ff-utils/jscal.c:335-340 | the printed list splits into the decimal fields of the axes |
| Jscal.DecimalScans | ev/ff-utils/jscal.c:337-339 | a number printed with %d is read back by %d |
| Jscal.PrintThenSet | ev/ff-utils/jscal.c:335-403 | setting what was printed is accepted, restores every printed field and leaves the rest |
| Jscal.PrintAndSet | ev/ff-utils/jscal.c:318-414 | the two programs one after the other restore the corrections of any array |
| Jscal.AcceptsExactlyCompleteLists | ev/ff-utils/jscal.c:344-414 | every string: accepted if and only if the first field gives the axis count and that many complete groups of good types follow and nothing more, where a field without a number stands for the number last read |
| Jscal.UndefinedExactlyOnBadKinds | ev/ff-utils/jscal.c:360-393 | every string: corr_coef_num is read outside its entries if and only if the axis count is right and a type that passes the test but is not 0 or 1 in 16 bits is met, with a precision field, after complete groups |
| Jscal.AcceptedFieldCount | ev/ff-utils/jscal.c:360-408 | every string: an accepted list has one field and, for each axis, two and as many as the type now stored takes coefficients |
| Jscal.AcceptedListSetsAxes | ev/ff-utils/jscal.c:360-403 | every accepted string: axis k has the type, precision and, for type 1, four coefficients that its own fields read; a field without a number stands for the number before it or leaves the coefficient; further axes stay |
| Jscal.BadKindsAreNegative | ev/ff-utils/jscal.c:376-393 | those types are the negative numbers that are neither 0 nor 1 modulo 2^16 |
| Jscal.NegativeTypeIsUndefined | ev/ff-utils/jscal.c:360-393 | the list "1,-1,0" for one axis is such a list |
| Jscal.AcceptsExactlyWellFormedLists | ev/ff-utils/jscal.c:360-408 | on lists of numbers both conditions are conditions on the numbers alone |
| Jscal.EmptyFieldsAreAccepted | ev/ff-utils/jscal.c:360-403 | the list "1,,,,,," is accepted for one axis, although its later fields hold no number |
| Kfifo.Dump.Run | kfifo-test/kfifo-test.c:25-59 | the offsets warned about are the breaks of the stream seen so far; the fourth one ends the program |
| Kfifo.CheckStream | kfifo-test/kfifo-test.c:25-103 | in chunks of any sizes an arbitrary stream is reported at exactly its breaks, up to the fourth, which exits |
| Kfifo.BreaksPrefix | kfifo-test/kfifo-test.c:34-51 | more data adds breaks only at the end |
| Kfifo.BreaksOfDigits | kfifo-test/kfifo-test.c:39-50 | in a stream of digits an offset is a break exactly when the digit there is not the one after its predecessor, or not 0 at the start |
| Kfifo.BreaksByPosition | kfifo-test/kfifo-test.c:39-50 | in any stream an offset is a break exactly when the character there is not the one its predecessor calls for |
| Kfifo.AfterAnyChar | kfifo-test/kfifo-test.c:46-50 | what a character calls for, in closed form for all 256, with the wrap-around of char and the sign of % |
| Kfifo.BreaksIncrease | kfifo-test/kfifo-test.c:34-51 | the breaks are offsets into the stream in increasing order |
| Kfifo.RoundUpToTen | kfifo-test/kfifo-test.c:20-23 | the prefill size is the least multiple of ten that is not below the FIFO size |
| Kfifo.Writer.constructor | kfifo-test/kfifo-test.c:107-114 | the prefill buffer is the digit stream, a multiple of ten long, ending in 9 |
| Kfifo.Writer.Write | kfifo-test/kfifo-test.c:116-137 | the bytes offered are the rest of the buffer, or all of it after the wrap; those accepted are the next part of the periodic stream |
| Kfifo.DigitsDoNotBreak | kfifo-test/kfifo-test.c:39-50 | the periodic stream has no break and leaves last at the next digit |
| Kfifo.RunBoth | kfifo-test/kfifo-test.c:85-138 | for every interleaving the reader never warns, what was received plus what is in the FIFO is the beginning of the periodic stream, and both sides have moved exactly the bytes the schedule allows |
| Kfifo.ReadAdvances | kfifo-test/kfifo-test.c:85-101 | after any schedule a turn of the reader moves exactly the least of what it asks for, what is queued and an eighth of the FIFO size |
| Kfifo.WriteAdvances | kfifo-test/kfifo-test.c:116-137 | after any schedule a turn of the writer moves exactly the least of what it is allowed and what is left of the prefill buffer, at least one byte |
| Kfifo.ReadsDrain | kfifo-test/kfifo-test.c:85-101 | as many turns of the reader as bytes are queued leave the FIFO empty |
| Holders.Holder.Move | Holder.h:12-14 | the new holder has the state of the old one, which is no longer valid |
| Holders.Holder.Assign | Holder.h:16-22 | self-assignment changes nothing; otherwise validity and handle move over, the old handle is destroyed if valid, the source is not valid |
| Holders.Holder.Set | Holder.h:29-34 | the old handle is destroyed if valid and replaced |
| Holders.Holder.Release | Holder.h:36-39 | the handle is returned and the holder is not valid, whether it was valid or not |
| Holders.Holder.Destroy | Holder.h:47-50 | a valid holder's handle is destroyed once and the holder is not valid |
| Holders.Run | Holder.h:6-58 | any sequence of operations on objects ends in the state of the value-level definition |
| Holders.NewHolderOwns | Holder.h:8-10 | after any operations a holder built from a handle owns it, one built without owns nothing |
| Holders.MoveTransfers | Holder.h:12-14 | after any operations the holder built by moving is what the other one was, which is not valid now; all others stay |
| Holders.AssignTransfers | Holder.h:16-22 | the target is what the source was and its own handle is destroyed if it was valid; the source is not valid; self-assignment changes nothing |
| Holders.SetReplaces | Holder.h:29-34 | the holder owns the new handle and the old one is destroyed if it was owned |
| Holders.ReleaseHandsBack | Holder.h:36-39 | the handle goes back to the caller and the holder is not valid |
| Holders.EndDestroys | Holder.h:27-50 | the end of a holder's life destroys the handle it owns and leaves the other holders |
| Holders.MovedThenDestroyed | Holder.h:12-27 | a handle given, moved and dropped with its new holder is destroyed once |
| Holders.OperationCounts | Holder.h:8-54 | in any state an operation leaves the excess of every handle over its gifts as it was, and the release of a holder that is not valid adds one to the handle it hands out |
| Holders.OperationBalances | Holder.h:8-54 | from a balanced state an operation ends balanced if and only if it does not release a holder that is not valid |
| Holders.RunsBalance | Holder.h:8-54 | a whole run ends balanced if and only if none of its operations releases a holder that is not valid |
| Holders.NothingIsLost | Holder.h:8-54 | in every run each handle is owned, released or destroyed at least as often as it was given |
| Holders.ReleasedTwice | Holder.h:36-39 | a holder of handle 1 released twice hands it out twice, and the run is unbalanced |
| Holders.EachHandleIsInOnePlace | Holder.h:8-54 | in a run without such a release a handle given once is owned by one valid holder, or was released once, or was destroyed once |
| Komb.Funkce | komb.c:10-28 | the call prints the specified words after what was printed before, within the 20-byte buffers |
| Komb.WordsAreExactly | komb.c:10-28 | a word is printed exactly when it is the prefix followed by c capital letters |
| Komb.WordsAreAllNumerals | komb.c:10-28 | there are 26^c words, the k-th is the prefix and the c-digit numeral of k, and they increase lexicographically |
| Komb.NumeralValue | komb.c:17-26 | read in base 26, the k-th numeral is k, in letters A to Z |

## Left out

- gon.c: `sin`, `cos`, `rem_pio2`, and in `__rem_pio2` the sums with the digits of 2/pi (lines 167-178 and 243-252) and with those of pi/2 (lines 276-330): claims about rounding errors and about these constants.
- RemPio2.MissingTerms: when the distance is exactly zero the loop of line 240 would run below `iq[0]`; that no double but zero is a multiple of pi/2 is not part of this model.
- gon.c: in the digit loops products with powers of two, `floor` and casts are taken on the integers they are exact for; `Scalbn.IntegersScaleExactly` says so for `scalbn`.
- gon.c: products of doubles are taken to round directly to binary64, to nearest with ties to even.
- gon.c: status flags, the payload of NaNs and the memory order of the two words.
- gon.c: left shifts of signed ints are taken to wrap to 32 bits where C leaves them undefined.
- cr/md5.c: the unaligned load that replaces `SET` on some machines; on a little-endian machine with 32-bit words it loads the same word.
- cr/md5.c: `MD5_Update` adds `saved_lo` and `size` in 64 bits for every word width; the mask to 29 bits makes that immaterial.
- git_renames/log-raw.cpp: spawning git, splitting lines and the disabled variants; histories with creations or deletions that the log does not show.
- git_renames/log-raw.cpp: a commit whose lines share paths, such as a swap. Rename detection without breaking up pairs, as the program asks for, pairs deleted paths with added ones, so the lines of one commit share none; `Renames.CommitOrderIsImmaterial` is about those.
- cr/cr.c: reading the dictionary, `realloc` and reuse of a larger buffer, progress output, and the build without `VARIANTS`.
- Variants.GetVariants: assumes a buffer of the true size, which `Variants.SizeIsEnough` says when `main` provides, and counts words and offsets without wrapping at 2^32; for sizes from 2^32 on it describes no run of the program.
- diasel/diasel.c: cnt = 0, for which the minimum search reads an empty array.
- ev/ff-utils/jscal.c: the ioctl calls, the fixed words around the printed list, and `%d` on numbers outside the int range, which C leaves undefined.
- kfifo-test/kfifo-test.c: poll, ioctl, fork and the texts of warnings; errors of read and write; a schedule step that moves nothing is skipped. Offsets are unbounded where C wraps at 2^64.
- Holder.h: handles are plain values; `set` with `valid` false from outside, which drops a handle on purpose, occurs only inside move assignment.
- komb.c: argument parsing and negative counts, on which the recursion does not end.
- Games, graphics, drivers and the other small programs: input and output with little logic of their own.
