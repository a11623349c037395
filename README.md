# PCG engine core of `Random.hpp`

This project is a Dafny model of the permuted congruential generator (PCG)
library that `single_include/Random.hpp` vendors. That library is the engine
behind the `Random` utility type, whose generator is `pcg32`. The model
covers these parts:

- **Fixed-width arithmetic** (`carry.dfy`, `uint128.dfy`, `bitcount.dfy`).
  This covers add and subtract with carry, and the emulated 128-bit
  `uint_x4` with its comparisons, `+`, `-`, `*`, `divmod`, `/`, `%`,
  shifts and bitwise operators. It also covers the `flog2`,
  `trailingzeros` and `clog2` fallbacks. Each operator is specified by the
  number it computes, modulo 2^128.
- **Bit permutations** (`permute.dfy`, `output.dfy`). These are `rotl`,
  `rotr` and `unxorshift`, the XSH RR output function of `pcg32`, and the
  RXS M XS output with its inverse `unoutput` and the
  `mcg_multiplier`/`mcg_unmultiplier` constants.
- **The linear congruential engine** (`lcg.dfy`, `engine.dfy`).
  - The state step `bump`.
  - The jump-ahead `advance`, which follows Brown's arbitrary-stride method,
    and `distance`, which counts the steps from one state to another and
    undoes `advance` on a full-period generator.
  - The `engine` class at a 64-bit state, with three stream mixins: one
    fixed sequence, no stream (a multiplicative generator) and a
    caller-chosen stream.
  - Its constructors and `operator()`, plus `advance`, `backstep`,
    `discard`, `wrapped`, `operator==` and `operator-`.
- **Helpers** (`extras.dfy`, `repack.dfy`, `decimal.dfy`). These are the
  rejection sampler `bounded_rand`, the Fisher–Yates `shuffle`, the word
  repacking `uneven_copy_impl`, and the decimal print and parse loops for
  128-bit values.

Words are natural numbers below 2^W (`u8` … `u128` in `words.dfy`). Wrap-around
is written out as `% 2^W`. Bitwise operators are defined bit by bit in
`bits.dfy`. The engine is a class whose methods update `inc` and `state`
in place. The `uint_x4` carry chains and products are straight-line
methods, as in the source. `divmod`, `advance`, `distance`,
`bounded_rand`, `shuffle`, `uneven_copy_impl` and the decimal loops are
methods with loop invariants. Each method is proved against a
specification function: the value modulo 2^128, `Iterate`, `Shuffled`
with the record of draws `Draws`, `Narrowed`/`Widened`, `Spelled` and
`Read`.

The library's own description presents the facade as the centre of the
repository. The facade only delegates to standard-library distributions,
so the model follows the code of the PCG engine underneath it.

## Model

| member | source | states |
|---|---|---|
| Carry.AddWithCarry | single_include/Random.hpp:490-497 | the sum word and carry out hold x + y + carryin exactly: x + y + cin == r + 2^W·cout |
| Carry.SubWithCarry | single_include/Random.hpp:499-506 | the difference word and borrow out hold x − y − carryin exactly: x − y − cin == r − 2^W·cout |
| UInt128.FromHalves | single_include/Random.hpp:509-533 | the value built from two 64-bit halves is high·2^64 + low, and the halves read back |
| UInt128.IsNonZero | single_include/Random.hpp:509-533 | `operator bool` is true exactly when the value is non-zero |
| UInt128.Equal | single_include/Random.hpp:1070-1075 | `==` holds iff the values are equal (iff the words are equal) |
| UInt128.NotEqual | single_include/Random.hpp:1077-1081 | `!=` holds iff the values differ |
| UInt128.Less | single_include/Random.hpp:1084-1089 | comparing high halves first, then low halves, agrees with numeric `<` on the values (both directions) |
| UInt128.Greater | single_include/Random.hpp:1091-1095 | `>` agrees with numeric order |
| UInt128.LessEq | single_include/Random.hpp:1097-1101 | `<=` agrees with numeric order |
| UInt128.GreaterEq | single_include/Random.hpp:1103-1107 | `>=` agrees with numeric order |
| UInt128.AddWord | single_include/Random.hpp:966-985 | one link of the 32-bit carry chain: x + y + cin == r + 2^32·cout |
| UInt128.SubWord | single_include/Random.hpp:987-1003 | one link of the 32-bit borrow chain: x − y − cin == r − 2^32·cout |
| UInt128.Add | single_include/Random.hpp:966-985 | the four-word carry chain computes a + b modulo 2^128 |
| UInt128.Sub | single_include/Random.hpp:987-1003 | the four-word borrow chain computes a − b modulo 2^128 |
| UInt128.Add64 | single_include/Random.hpp:1006-1019 | the two-halves specialisation computes a + b modulo 2^128 |
| UInt128.Sub64 | single_include/Random.hpp:1021-1035 | the two-halves specialisation computes a − b modulo 2^128 |
| UInt128.Negate | single_include/Random.hpp:1065-1069 | unary minus gives 2^128 − v (0 for 0); v + (−v) is 0 modulo 2^128 |
| UInt128.Mul | single_include/Random.hpp:853-896 | the schoolbook word product computes a · b modulo 2^128 |
| UInt128.MulHalf | single_include/Random.hpp:898-940 | multiplying by a 64-bit word computes a · b modulo 2^128 |
| UInt128.Mul64 | single_include/Random.hpp:942-963 | the 64-bit-halves product computes a · b modulo 2^128 |
| UInt128.Flog2X4 | single_include/Random.hpp:777-783 | the index of the highest set bit of a non-zero value (0 for zero) |
| UInt128.TrailingZerosX4 | single_include/Random.hpp:785-790 | the number of trailing zero bits of a non-zero value; 96 for zero, as the 32-bit fallback yields on each half |
| UInt128.Flog2Words | single_include/Random.hpp:746-760 | the word loop finds the highest set bit of a non-zero value (zero aborts, so it is excluded) |
| UInt128.TrailingZerosWords | single_include/Random.hpp:762-775 | the word loop finds the trailing zero count of a non-zero value and gives 128 for zero |
| UInt128.Shl64 | single_include/Random.hpp:1180-1193 | `<<` by fewer than 128 bits multiplies by 2^shift modulo 2^128, bit by bit as a left shift |
| UInt128.Shr64 | single_include/Random.hpp:1195-1208 | `>>` by fewer than 128 bits divides by 2^shift, bit by bit as a right shift |
| UInt128.DivMod | single_include/Random.hpp:793-834 | for b ≠ 0: q·b + r == a and r < b, so q and r are the quotient and remainder (0 and a when a < b) |
| UInt128.Div | single_include/Random.hpp:837-843 | `/` is the quotient of divmod |
| UInt128.Mod | single_include/Random.hpp:844-850 | `%` is the remainder of divmod |
| UInt128.BitwiseX4 | single_include/Random.hpp:1038-1057 | a word-wise bitwise operator computes the same operator on the 128-bit values |
| UInt128.AndX4 | single_include/Random.hpp:1038-1043 | `&` is the bitwise and of the values |
| UInt128.OrX4 | single_include/Random.hpp:1045-1050 | `\|` is the bitwise or of the values |
| UInt128.XorX4 | single_include/Random.hpp:1052-1057 | `^` is the bitwise exclusive or of the values |
| UInt128.NotX4 | single_include/Random.hpp:1059-1063 | `~` gives 2^128 − 1 − v |
| BitCount.Flog2TableCorrect | single_include/Random.hpp:398-415 | the De Bruijn table maps each of the 32 smeared words 2^(k+1) − 1 to k |
| BitCount.TrailingTableCorrect | single_include/Random.hpp:417-425 | the De Bruijn table maps each power of two 2^k to k |
| BitCount.Flog2U32 | single_include/Random.hpp:398-415 | the 32-bit fallback gives the floor of log2 of a non-zero word (0 for zero) |
| BitCount.TrailingZerosU32 | single_include/Random.hpp:417-425 | the 32-bit fallback gives the number of trailing zero bits of a non-zero word: 2^r divides v and v / 2^r is odd (0 for zero) |
| BitCount.Flog2U64 | single_include/Random.hpp:427-433 | the 64-bit fallback, from its two 32-bit halves, gives the floor of log2 |
| BitCount.TrailingZerosU64 | single_include/Random.hpp:435-441 | the 64-bit fallback gives the trailing zero count of a non-zero word and 32 for zero |
| BitCount.Flog2U128 | single_include/Random.hpp:455-462 | the 128-bit version, from its 64-bit halves, gives the floor of log2 |
| BitCount.TrailingZerosU128 | single_include/Random.hpp:476-481 | the 128-bit version gives the trailing zero count of a non-zero value and 96 for zero |
| BitCount.Flog2 | single_include/Random.hpp:445-462 | `flog2` at any word width from 8 to 128 bits gives the floor of log2 of a non-zero value |
| BitCount.PowerOfTwoTest | single_include/Random.hpp:484-488 | `v & -v` equals v exactly when v is zero or a power of two (both directions) |
| BitCount.Clog2 | single_include/Random.hpp:484-488 | `clog2` gives the ceiling of log2: v ≤ 2^r and, when r > 0, 2^(r−1) < v |
| Permute.Rotl | single_include/Random.hpp:1421-1431 | bit i of the result is bit i − rot of the value, wrapping around the word |
| Permute.Rotr | single_include/Random.hpp:1433-1443 | bit i of the result is bit i + rot of the value, wrapping around the word |
| Permute.RotrRotl | single_include/Random.hpp:1421-1443 | `rotr(rotl(v, k), k) == v` |
| Permute.RotlRotr | single_include/Random.hpp:1421-1443 | `rotl(rotr(v, k), k) == v` |
| Permute.Xorshift | single_include/Random.hpp:1386-1396 | bit i of x ^ (x >> s) is the exclusive or of bits i and i + s of x |
| Permute.Unxorshift | single_include/Random.hpp:1392-1410 | the recursive unxorshift stays below 2^bits; what it computes is stated by `UnxorshiftInverts` |
| Permute.UnxorshiftInverts | single_include/Random.hpp:1392-1410 | `unxorshift(x ^ (x >> s), bits, s) == x` for every x below 2^bits and every s > 0 |
| Permute.XorshiftTwice | single_include/Random.hpp:1395-1396 | when 2·s ≥ bits, one more xorshift undoes a xorshift (the recursion's base case) |
| Output.XshRrShapeOf | single_include/Random.hpp:2529-2545 | the derived constants: the rotation and amplifier bits span log2 of the result width, and the rotation bits plus the dropped low bits fill the spare bits |
| Output.XshRr | single_include/Random.hpp:2525-2554 | the XSH RR output of a state fits the result width |
| Output.XshRrPcg32 | single_include/Random.hpp:2525-2554 | for a 64-bit state and 32-bit result, the output is rotr((x ^ (x >> 18)) >> 27, x >> 59) |
| Output.XshRrLargeOutput | single_include/Random.hpp:2525-2554 | a concrete state, 2^58 + 3, has output 0x80002000 |
| Output.McgMultiplier | single_include/Random.hpp:2598-2623 | the multiplier constant for each width fits the width |
| Output.McgUnmultiplier | single_include/Random.hpp:2598-2623 | the unmultiplier constant for each width fits the width |
| Output.McgInverse | single_include/Random.hpp:2608-2623 | `mcg_multiplier · mcg_unmultiplier ≡ 1 (mod 2^bits)` at 8, 16, 32, 64 and 128 bits |
| Output.RxsMXs | single_include/Random.hpp:2626-2646 | the RXS M XS output fits the result width |
| Output.RxsMXsUnoutput | single_include/Random.hpp:2648-2666 | `unoutput` stays within the state width |
| Output.RxsMXsInverts | single_include/Random.hpp:2626-2667 | when state and result widths are equal, `unoutput(output(x)) == x` |
| Output.UnscrambleInverts | single_include/Random.hpp:2639-2642 | undoing the multiply and then the random xorshift recovers the input, given a multiplicative inverse |
| Output.FullWidthOutput | single_include/Random.hpp:2637-2644 | at full width the final step is a plain xorshift by (2·bits + 2) / 3 |
| Lcg.StepInjective | single_include/Random.hpp:2094-2097 | `bump` with a multiplier ≡ 1 (mod 4) is one-to-one: two states bump to the same state only if they are equal |
| Lcg.IterateAdd | single_include/Random.hpp:2094-2097 | stepping a steps and then b steps is stepping a + b steps |
| Lcg.Advance | single_include/Random.hpp:2321-2350 | the arbitrary-stride loop yields the state reached by exactly `delta` bumps, modulo 2^64 |
| Lcg.StrideCompose | single_include/Random.hpp:2340-2348 | the affine maps of a and b steps compose into that of a + b steps (the invariant of the stride loop) |
| Lcg.LcgPeriod | single_include/Random.hpp:2075-2078 | with multiplier ≡ 1 (mod 4), 2^64 steps bring every state back |
| Lcg.McgPeriod | single_include/Random.hpp:2075-2078 | with a multiplier ≡ 1 (mod 4) and no increment, 2^62 steps bring every state back |
| Lcg.Reach | single_include/Random.hpp:2352-2374 | for a full-period LCG every target is reached within 2^64 steps, and an MCG started from an odd state reaches every state with the same two low bits within 2^62 steps |
| Lcg.IterateInjective | single_include/Random.hpp:2352-2374 | a full-period LCG passes each state once per period: two step counts below 2^64 that reach the same state are equal |
| Lcg.Distance | single_include/Random.hpp:2352-2374 | advancing by the result reaches the new state on the masked bits; for an MCG the result is already shifted down by 2; equal states give 0 |
| Pcg.PeriodLength | single_include/Random.hpp:2075-2078 | the period is 2^period_pow2(): 2^64, or 2^62 without increment |
| Pcg.SetLowBits | single_include/Random.hpp:2165-2167 | `state \| 3` sets the two low bits and keeps the rest |
| Pcg.StreamIncrement | single_include/Random.hpp:2015-2018 | `(seq << 1) \| 1` is odd and halves back to the chosen stream without its top bit |
| Pcg.Engine.constructor | single_include/Random.hpp:2165-2170 | the increment of the stream mixin; the state is one bump from seed + increment, or seed \| 3 for a multiplicative generator; the engine is valid |
| Pcg.Engine.Unseeded | single_include/Random.hpp:2165-2170 | `engine()` seeds with the default `0xcafef00dd15ea5e5`: the state is one bump from it plus the increment, or the seed with its low bits set (seed + 2) for a multiplicative generator |
| Pcg.Engine.WithStream | single_include/Random.hpp:2176-2181 | a specific-stream engine whose stream reads back as the seed's low 63 bits, seeded as above |
| Pcg.Engine.Stream | single_include/Random.hpp:2010-2013 | `stream()` is the increment halved; on a valid specific-stream engine, twice the stream plus one gives the increment back |
| Pcg.Engine.SetStream | single_include/Random.hpp:2010-2018 | the increment becomes odd, `stream()` reads back the chosen stream, and the state is unchanged |
| Pcg.Output32Formula | single_include/Random.hpp:2111-2118 | the output of `operator()` for a state is rotr((x ^ (x >> 18)) >> 27, x >> 59) on 32 bits |
| Pcg.Engine.BaseGenerate | single_include/Random.hpp:2099-2102 | one bump; returns the new state; validity is kept |
| Pcg.Engine.BaseGenerate0 | single_include/Random.hpp:2104-2109 | one bump; returns the old state; validity is kept |
| Pcg.Engine.Next | single_include/Random.hpp:2111-2118 | one bump; the result is XSH RR of the state before the step |
| Pcg.Engine.Advance | single_include/Random.hpp:2138-2141 | the state becomes the one `delta` bumps ahead; the increment is unchanged |
| Pcg.Engine.Backstep | single_include/Random.hpp:2143-2146 | advancing by −delta lands where `delta` more bumps return to the old state |
| Pcg.Engine.Discard | single_include/Random.hpp:2148-2151 | the same as `advance(delta)` |
| Pcg.Engine.Distance | single_include/Random.hpp:2129-2135 | from a valid engine, the number of bumps to reach `newstate`, below 2^62 without increment; with an increment it is the only such count below 2^64, so `distance` undoes `advance` |
| Pcg.Engine.Wrapped | single_include/Random.hpp:2153-2163 | `wrapped()` holds exactly at the wrap state: 3 for a multiplicative generator, 0 otherwise |
| Pcg.BackstepAdvance | single_include/Random.hpp:2138-2151 | `advance(−d)` and `advance(d)` undo each other in either order |
| Pcg.StepValid | single_include/Random.hpp:2155-2159 | bumps keep the increment's kind and keep a multiplicative generator's low bits at 3 |
| Pcg.Period | single_include/Random.hpp:2075-2078 | a whole period returns every valid engine to its state |
| Pcg.WrapReached | single_include/Random.hpp:2153-2163 | every valid engine reaches its wrap state (0, or 3 without increment) within one period, so `wrapped()` eventually holds |
| Pcg.Equal | single_include/Random.hpp:2405-2419 | engines are equal exactly when they generate the same states from then on (both directions) |
| Pcg.DiffIterate | single_include/Random.hpp:2391-2400 | the step difference increment + (multiplier − 1)·state moves as the multiplicative generator |
| Pcg.Difference | single_include/Random.hpp:2380-2401 | on one stream, `rhs` advanced by the result equals `lhs`, and the result is 0 exactly when the engines are equal; across streams, the aligned step differences are that far apart |
| Extras.Threshold | single_include/Random.hpp:1674-1675 | `(max − min + 1 − upper_bound) % upper_bound` on 32 bits is below the bound |
| Extras.ThresholdUniform | single_include/Random.hpp:1674-1675 | 2^32 − threshold is a multiple of the bound, so accepted outputs are spread evenly over the residues; the threshold is below the bound and below 2^31 |
| Extras.LandmarkAccepted | single_include/Random.hpp:1676-1679 | one state of every period has an output above any threshold, so the loop ends |
| Extras.BoundedRand | single_include/Random.hpp:1669-1681 | the result is below the bound; it is the first output at or above the threshold, reduced modulo the bound; every earlier output was rejected |
| Extras.ShuffledPermutes | single_include/Random.hpp:1683-1696 | every sequence of swaps leaves a permutation (the same multiset) |
| Extras.DrawUnique | single_include/Random.hpp:1669-1681 | the draw `bounded_rand` makes is fixed by the state it starts from: the number of rejected outputs and the result are unique |
| Extras.DrawsUnique | single_include/Random.hpp:1683-1696 | the draws of a shuffle are fixed by the generator's state at the start: two records of the same length agree |
| Extras.DrawsConsumed | single_include/Random.hpp:1683-1696 | after the recorded draws, the generator is as many bumps on as the draws consumed (rejected outputs plus one each) |
| Extras.ShuffleRound | single_include/Random.hpp:1689-1694 | one pass of the loop: `bounded_rand(count)` is recorded as the next draw, the chosen element is swapped with the last unfixed one, and the generator stands where the draw left it |
| Extras.Shuffle | single_include/Random.hpp:1683-1696 | the range becomes the shuffle by the draws, a permutation of the old range, with nothing outside it changed; draw k is `bounded_rand(n − k)` from the state the previous draw left, and the generator ends the total number of consumed bumps past its start |
| Repack.PieceOfJoin | single_include/Random.hpp:1551-1558 | taking piece k of words joined little-end first gives word k back |
| Repack.JoinOfPieces | single_include/Random.hpp:1577-1587 | joining the pieces of a value gives the value back modulo 2^(bits·n) |
| Repack.CopyNarrower | single_include/Random.hpp:1535-1560 | the narrowing copy writes, in order, the low pieces of the source words it consumes, and returns the source position after them; nothing else in the destination changes |
| Repack.JoinRun | single_include/Random.hpp:1581-1584 | the inner loop ORs shifted words into the joined value |
| Repack.WideUsedProduct | single_include/Random.hpp:1575-1588 | filling n destination words reads n · `SCALE` source words, `SCALE` per destination word |
| Repack.CopyWider | single_include/Random.hpp:1564-1589 | the widening copy writes words joined from `SCALE` consecutive source words and returns the source position after them; nothing else in the destination changes |
| Decimal.SpelledValue | single_include/Random.hpp:1284-1290 | the shortest decimal spelling reads back as the value and has no leading zero except for 0 |
| Decimal.SpelledFitsBuffer | single_include/Random.hpp:1279-1283 | a 128-bit value needs at most 39 digits, so the 40-character buffer fits them and the terminator |
| Decimal.Format | single_include/Random.hpp:1279-1291 | the do-while digit loop produces the shortest decimal spelling of the value |
| Decimal.DigitRun | single_include/Random.hpp:1307-1315 | the digits read are the longest digit prefix of the input, stopping before the first non-digit |
| Decimal.Read | single_include/Random.hpp:1294-1333 | as intended: no digits, or a value of 2^128 or more, fails; the value is the digits' number, or all ones on overflow |
| Decimal.ReadSpelled | single_include/Random.hpp:1279-1333 | parsing a printed value followed by a non-digit gives the value back without failure |
| Decimal.Parse | single_include/Random.hpp:1294-1333 | the digit loop, with the overflow test corrected, computes `Read` |
| Decimal.ScanAsWritten | single_include/Random.hpp:1316-1321 | the loop as written holds the digits' value modulo 2^128, whatever its overflow flag says |
| Decimal.ScanFits | single_include/Random.hpp:1316-1321 | the loop as written is right whenever the digits' value is below 2^128 |
| Decimal.MissedOverflow | single_include/Random.hpp:1316-1321 | the loop as written accepts "4" followed by 38 zeros, which is at least 2^128, without flagging overflow |

## Left out

- The `Random` facade, its copy at the end of `single_include/Random.hpp`,
  and `Random.cpp`. They forward to standard-library distributions,
  involve floating point, and seed from the operating system's entropy.
- The iostream flag, width, fill and base handling of the `operator<<` and
  `operator>>` wrappers, including the hexadecimal path of 128-bit
  printing. Only the decimal digit loops are modelled.
- The sentry's whitespace skipping and the stream state that `get()` sets
  at the end of input. `Decimal.Parse` reads a character sequence and
  returns the failure flag.
- The engine's stream `operator<<`/`operator>>`, because they are
  formatting only.
- `printable_typename`, because it is demangling.
- `static_arbitrary_seed`, because it depends on the compile date.
- `unique_stream`, because its increment is an object address.
- `seed_seq_from`, because it uses `random_device`.
- `generate_to_impl`, because it allocates on the heap.
- The placement-new `seed`.
- The compiler-intrinsic and inline-assembly versions of `flog2`,
  `trailingzeros` and `rotr`. Each semantic function is modelled once.
- The endian-dependent union layout of `uint_x4`. The words are a datatype
  with their value. `wa[i]` is read as on a little-endian machine.
- The generic word-array `<<` and `>>` loops of `uint_x4`
  (single_include/Random.hpp:1111-1177). They depend on the union layout.
  The 64-bit specialisation (`Shl64`/`Shr64`) is modelled instead.
- The `extended` generator tables, and the output mixins other than XSH RR
  and RXS M XS.
- Engines other than the 64-bit state: 8-, 16-, 32- and 128-bit states are
  not instantiated. Engine results are XSH RR 64→32 with
  `output_previous`, the `pcg32` configuration.
- `unique_stream` engines are not a `StreamKind`, because their increment
  is an address.
- Permute.Rotl: rotation amounts of the word width or more are excluded.
  No call site uses them, and the source's result there is not a
  rotation: for 8- and 16-bit words the shifts act on the promoted `int`,
  so `rotl<uint8_t>(v, 9)` yields `v >> 7`, and for wider words the shift
  is undefined in C++.
- Permute.Unxorshift: a shift of 0 is excluded. The source recursion
  never ends there, and every call site passes a shift of at least 2.
- Permute.Unxorshift: its own contract only bounds the result. What it
  computes is stated by `UnxorshiftInverts`.
- Output.XshRr: its own contract only bounds the result. The exact 64→32
  formula is `XshRrPcg32`.
- Lcg.Distance: requires a full-period LCG (multiplier ≡ 1 mod 4, odd
  increment) or an MCG (multiplier ≡ 5 mod 8, an odd state, two matching low bits). The
  source loop does not terminate outside these, and the engines never call
  it there.
- Pcg.Engine.Distance: a multiplicative generator's target must keep the
  two low bits at 3. Otherwise the source loop never ends.
- Pcg.Engine.Distance: the `mask` parameter of the engine's `distance` is
  left at its default, all ones. `Lcg.Distance` keeps the mask.
- Pcg.Engine.Distance: uniqueness of the count is stated for engines with
  an increment only. For a multiplicative generator, only the bound 2^62
  is stated.
- Repack.CopyWider, Repack.CopyNarrower: words are natural numbers with
  the widths passed as parameters, not C++ iterator value types.
  `CopyWider` requires the source words it reads to be below 2^srcBits,
  which their narrower type guarantees in the source.
- Extras.BoundedRand, Extras.Shuffle: the generator is the 64-bit XSH RR
  engine, not an arbitrary `RngType`.
- Extras.Shuffle: the range is shorter than 2^32, so every count fits the
  32-bit `result_type`.

## Findings

| source | as written | input that shows it | evidently intended | confidence | as-written member | corrected member |
|---|---|---|---|---|---|---|
| single_include/Random.hpp:1316-1321 | overflow is flagged only when `current*10 < current` or `current + digit < digit` after wrapping modulo 2^128 | "4" followed by 38 zeros (4·10^38 ≥ 2^128): 4·10^37 times 10 wraps to a value above 4·10^37, so no flag is set and the text is read as 4·10^38 − 2^128 | any digit string whose value is 2^128 or more sets the failbit and yields all ones | not executed | Decimal.MissedOverflow | Decimal.Parse |
