/** The PCG `engine` at a 64-bit state with the default multiplier: a
    linear congruential state that `bump` advances, one of three stream
    flavours (a single fixed sequence, a multiplicative generator without
    increment, or a caller-chosen odd increment), and the XSH RR output of
    `pcg32`, taken from the state before the step (`output_previous`). */
module Pcg {
  import opened Words
  import opened Bits
  import opened Lcg
  import Output
  import Permute

  /** `default_multiplier<uint64_t>`. */
  const Multiplier: u64 := 6364136223846793005
  /** `default_increment<uint64_t>`. */
  const DefaultIncrement: u64 := 1442695040888963407
  /** The seed the engine constructor uses when given none. */
  const DefaultSeed: u64 := 0xcafef00dd15ea5e5

  /** The stream mixins: `oneseq_stream` (the default increment),
      `no_stream` (a multiplicative generator, increment 0) and
      `specific_stream` (an increment the caller may set). */
  datatype StreamKind = OneSeq | NoStream | Specific

  /** `period_pow2()`: the period is 2^64, or 2^62 for a multiplicative
      generator. */
  function PeriodPow2(kind: StreamKind): nat
  {
    64 - 2 * (if kind == NoStream then 1 else 0)
  }

  /** 2^period_pow2(). */
  function PeriodLength(kind: StreamKind): (r: nat)
    ensures r == Pow2(PeriodPow2(kind))
  {
    Pow2Of64();
    Pow2Add(62, 2);
    assert Pow2(2) == 4;
    if kind == NoStream then 0x4000_0000_0000_0000 else W64
  }

  /** The state `wrapped()` looks for: 0, or 3 for a multiplicative
      generator, whose two low bits are kept at 3. */
  function WrapPoint(kind: StreamKind): u64
  {
    if kind == NoStream then 3 else 0
  }

  /** What every engine of a kind keeps: the increment its stream mixin
      gives (odd unless there is none) and, without one, a state whose two
      low bits are 3. */
  ghost predicate ValidState(kind: StreamKind, inc: u64, state: u64)
  {
    match kind
    case OneSeq => inc == DefaultIncrement
    case NoStream => inc == 0 && state % 4 == 3
    case Specific => inc % 2 == 1
  }

  /** The 32-bit result of `pcg32` for a state: XSH RR. */
  function Output32(state: u64): u32
  {
    WordWidths();
    Pow2Widths();
    Output.XshRr(state, 64, 32)
  }

  /** What `pcg32` outputs: the state xorshifted by 18, its bits 27 to 58
      rotated right by the top five bits of the state. */
  lemma Output32Formula(state: u64)
    ensures IsWordWidth(32) && Pow2(32) == W32 && Pow2(59) == 0x800_0000_0000_0000
    ensures state / Pow2(59) < 32
    ensures Output32(state) == Permute.Rotr((Permute.Xorshift(state, 18) / Pow2(27)) % W32, state / Pow2(59), 32)
  {
    Output.XshRrPcg32(state);
  }

  /** `-delta` in 64-bit arithmetic. */
  function Minus(delta: u64): u64
  {
    (W64 - delta) % W64
  }

  /** `bump(state + increment())`, what the constructor starts from, or
      `state | 3` for a multiplicative generator. */
  function Seeded(kind: StreamKind, inc: u64, seed: u64): u64
  {
    if kind == NoStream then SetLowBits(seed) else Step((seed + inc) % W64, Multiplier, inc)
  }

  /** `state | 3`. */
  function SetLowBits(seed: u64): (r: u64)
    ensures r % 4 == 3 && r / 4 == seed / 4
  {
    OrThree(seed);
    Or(seed, 3)
  }

  /** `(specific_seq << 1) | 1`: the increment of a chosen stream. */
  function StreamIncrement(specificSeq: u64): (r: u64)
    ensures r % 2 == 1 && r / 2 == specificSeq % 0x8000_0000_0000_0000
  {
    StreamIncrementValue(specificSeq);
    Or(Shl(specificSeq, 1, 64), 1)
  }

  lemma StreamIncrementValue(x: u64)
    ensures var h := x % 0x8000_0000_0000_0000;
      Or(Shl(x, 1, 64), 1) == 2 * h + 1 && 2 * h + 1 < W64 && (2 * h + 1) % 2 == 1 && (2 * h + 1) / 2 == h
  {
    var h := x % 0x8000_0000_0000_0000;
    var y := Shl(x, 1, 64);
    assert y == 2 * h by {
      StreamShift(x);
    }
    assert y % 2 == 0 by {
      DivModUnique(y, 2, h, 0);
    }
    OrOneEven(y);
    DivModUnique(2 * h + 1, 2, h, 1);
  }

  /** `specific_seq << 1` drops the top bit. */
  lemma StreamShift(x: u64)
    ensures Shl(x, 1, 64) == 2 * (x % 0x8000_0000_0000_0000)
  {
    ShlIsMul(x, 1, 64);
    Pow2Of64();
    assert Pow2(1) == 2;
    var q, r := x / 0x8000_0000_0000_0000, x % 0x8000_0000_0000_0000;
    DivModUnique(x * 2, W64, q, 2 * r);
  }

  class Engine {
    const kind: StreamKind
    var inc: u64
    var state: u64

    ghost predicate Valid()
      reads this
    {
      ValidState(kind, inc, state)
    }

    /** `engine(state)`: the stream mixin's increment, and the seed set up
        by `bump(seed + increment())` (`seed | 3` without an increment). */
    constructor (kind: StreamKind, seed: u64)
      ensures this.kind == kind && Valid()
      ensures inc == (if kind == NoStream then 0 else DefaultIncrement)
      ensures state == Seeded(kind, inc, seed)
      ensures kind != NoStream ==> state == Iterate((seed + inc) % W64, 1, Multiplier, inc)
      ensures kind == NoStream ==> state / 4 == seed / 4
    {
      this.kind := kind;
      var i: u64 := if kind == NoStream then 0 else DefaultIncrement;
      inc := i;
      state := Seeded(kind, i, seed);
    }

    /** `engine()`: the same with the default seed `0xcafef00dd15ea5e5`. */
    constructor Unseeded(kind: StreamKind)
      ensures this.kind == kind && Valid()
      ensures inc == (if kind == NoStream then 0 else DefaultIncrement)
      ensures state == Seeded(kind, inc, DefaultSeed)
      ensures kind != NoStream ==> state == Iterate((DefaultSeed + inc) % W64, 1, Multiplier, inc)
      ensures kind == NoStream ==> state == DefaultSeed + 2
    {
      this.kind := kind;
      var i: u64 := if kind == NoStream then 0 else DefaultIncrement;
      inc := i;
      state := Seeded(kind, i, DefaultSeed);
    }

    /** `engine(state, stream_seed)` of a `specific_stream` engine. */
    constructor WithStream(seed: u64, streamSeed: u64)
      ensures kind == Specific && Valid()
      ensures Stream() == streamSeed % 0x8000_0000_0000_0000
      ensures state == Iterate((seed + inc) % W64, 1, Multiplier, inc)
    {
      kind := Specific;
      var i := StreamIncrement(streamSeed);
      inc := i;
      state := Seeded(Specific, i, seed);
    }

    /** `stream()`: the increment without its low bit. */
    function Stream(): (r: nat)
      reads this
      ensures r == inc / 2
      ensures Valid() && kind == Specific ==> inc == 2 * r + 1
    {
      ShrIsDiv(inc, 1);
      Shr(inc, 1)
    }

    /** `specific_stream::set_stream`: the increment becomes
        `(specific_seq << 1) | 1`, so the stream reads back as the chosen
        one without its top bit. */
    method SetStream(specificSeq: u64)
      requires kind == Specific
      modifies this
      ensures Valid() && state == old(state)
      ensures Stream() == specificSeq % 0x8000_0000_0000_0000
    {
      inc := StreamIncrement(specificSeq);
      ShrIsDiv(inc, 1);
    }

    /** `base_generate()`: step, and return the new state. */
    method BaseGenerate() returns (r: u64)
      modifies this
      ensures inc == old(inc) && state == Iterate(old(state), 1, Multiplier, inc) && r == state
      ensures old(Valid()) ==> Valid()
    {
      ghost var s0 := state;
      state := Step(state, Multiplier, inc);
      r := state;
      if ValidState(kind, inc, s0) {
        StepValid(kind, inc, s0, 1);
      }
    }

    /** `base_generate0()`: step, and return the old state. */
    method BaseGenerate0() returns (r: u64)
      modifies this
      ensures inc == old(inc) && state == Iterate(old(state), 1, Multiplier, inc) && r == old(state)
      ensures old(Valid()) ==> Valid()
    {
      r := state;
      state := Step(state, Multiplier, inc);
      if ValidState(kind, inc, r) {
        StepValid(kind, inc, r, 1);
      }
    }

    /** `operator()()`: the output of the state before the step. */
    method Next() returns (r: u32)
      modifies this
      ensures inc == old(inc) && state == Iterate(old(state), 1, Multiplier, inc)
      ensures r == Output32(old(state))
      ensures old(Valid()) ==> Valid()
    {
      var s := BaseGenerate0();
      r := Output32(s);
    }

    /** `advance(delta)`: jump `delta` steps ahead. */
    method Advance(delta: u64)
      modifies this
      ensures inc == old(inc) && state == Iterate(old(state), delta, Multiplier, inc)
      ensures old(Valid()) ==> Valid()
    {
      ghost var s0 := state;
      state := Lcg.Advance(state, delta, Multiplier, inc);
      if ValidState(kind, inc, s0) {
        StepValid(kind, inc, s0, delta);
      }
    }

    /** `backstep(delta)`: `advance(-delta)`, which goes the long way round
        the period and lands `delta` steps back. */
    method Backstep(delta: u64)
      modifies this
      ensures inc == old(inc) && state == Iterate(old(state), Minus(delta), Multiplier, inc)
      ensures Iterate(state, delta, Multiplier, inc) == old(state)
      ensures old(Valid()) ==> Valid()
    {
      ghost var s0 := state;
      Advance(Minus(delta));
      MultiplierParams();
      BackstepAdvance(s0, delta, Multiplier, inc);
    }

    /** `discard(delta)`: the same as `advance(delta)`. */
    method Discard(delta: u64)
      modifies this
      ensures inc == old(inc) && state == Iterate(old(state), delta, Multiplier, inc)
      ensures old(Valid()) ==> Valid()
    {
      Advance(delta);
    }

    /** `wrapped()`: the state is back at the wrap point. */
    function Wrapped(): (r: bool)
      reads this
      ensures r <==> state == WrapPoint(kind)
    {
      if kind == NoStream then state == 3 else state == 0
    }

    /** `distance(newstate)`: how many steps from here to `newstate`, the
        only such count below the period when there is an increment; a
        multiplicative generator only reaches states with the same two low
        bits (the loop would not end otherwise). */
    method Distance(newState: u64) returns (r: u64)
      requires Valid() && (kind == NoStream ==> newState % 4 == 3)
      ensures Iterate(state, r, Multiplier, inc) == newState
      ensures state == newState ==> r == 0
      ensures kind == NoStream ==> r < 0x4000_0000_0000_0000
      ensures kind != NoStream ==> forall d: nat :: d < W64 && Iterate(state, d, Multiplier, inc) == newState ==> d == r
    {
      ValidParams(kind, inc, state, newState);
      r := Lcg.Distance(state, newState, Multiplier, inc, W64 - 1);
      FullMask(Iterate(state, r, Multiplier, inc));
      FullMask(newState);
      FullMask(state);
      if kind != NoStream {
        forall d: nat | d < W64 && Iterate(state, d, Multiplier, inc) == newState
          ensures d == r
        {
          IterateInjective(state, Multiplier, inc, d, r);
        }
      }
    }
  }

  /** `operator==`: same multiplier (always, here), increment and state. */
  function Equal(lhs: Engine, rhs: Engine): (r: bool)
    reads lhs, rhs
    ensures r ==> forall n :: Iterate(lhs.state, n, Multiplier, lhs.inc) == Iterate(rhs.state, n, Multiplier, rhs.inc)
    ensures (forall n :: Iterate(lhs.state, n, Multiplier, lhs.inc) == Iterate(rhs.state, n, Multiplier, rhs.inc)) ==> r
  {
    SameFuture(lhs.state, lhs.inc, rhs.state, rhs.inc);
    lhs.inc == rhs.inc && lhs.state == rhs.state
  }

  /** Two generators whose states agree at every step have the same state
      and the same increment: the first two steps already tell them apart. */
  lemma SameFuture(s1: u64, inc1: u64, s2: u64, inc2: u64)
    ensures (forall n :: Iterate(s1, n, Multiplier, inc1) == Iterate(s2, n, Multiplier, inc2))
            ==> s1 == s2 && inc1 == inc2
  {
    if forall n :: Iterate(s1, n, Multiplier, inc1) == Iterate(s2, n, Multiplier, inc2) {
      assert Iterate(s1, 1, Multiplier, inc1) == Iterate(s2, 1, Multiplier, inc2);
      SameFirstStep(s1, inc1, s2, inc2);
    }
  }

  /** One step from the same state with different increments leads to
      different states. */
  lemma SameFirstStep(s1: u64, inc1: u64, s2: u64, inc2: u64)
    requires Iterate(s1, 0, Multiplier, inc1) == Iterate(s2, 0, Multiplier, inc2)
    requires Iterate(s1, 1, Multiplier, inc1) == Iterate(s2, 1, Multiplier, inc2)
    ensures s1 == s2 && inc1 == inc2
  {
    assert s1 == s2;
    assert Iterate(s1, 1, Multiplier, inc1) == (s1 * Multiplier + inc1) % W64;
    assert Iterate(s2, 1, Multiplier, inc2) == (s1 * Multiplier + inc2) % W64;
    OffsetCancel(s1 * Multiplier, inc1, inc2, W64);
  }

  /** Two offsets below the modulus that give the same sum modulo it are
      the same. */
  lemma OffsetCancel(x: nat, inc1: nat, inc2: nat, m: nat)
    requires m > 0 && inc1 < m && inc2 < m && (x + inc1) % m == (x + inc2) % m
    ensures inc1 == inc2
  {
    AddMod(x, inc1, m);
    AddMod(x, inc2, m);
    ModOnce(inc1, m);
    ModOnce(inc2, m);
    ModOnce(x % m + inc1, m);
    ModOnce(x % m + inc2, m);
  }

  /** The quantity `operator-` compares when two engines are on different
      streams: `increment + (multiplier - 1) * state`, the step the
      generator is about to take. */
  function StepDiff(inc: u64, state: u64): u64
  {
    (inc + (Multiplier - 1) * state) % W64
  }

  /** `operator-(lhs, rhs)`: on the same stream, the distance from `rhs` to
      `lhs`; across streams, the distance between their step differences,
      which move as a multiplicative generator, after negating `rhs`'s when
      their two low bits differ. */
  method Difference(lhs: Engine, rhs: Engine) returns (r: u64)
    requires lhs.Valid() && rhs.Valid() && lhs.kind == rhs.kind
    ensures lhs.inc == rhs.inc ==> Iterate(rhs.state, r, Multiplier, rhs.inc) == lhs.state
    ensures lhs.inc != rhs.inc ==>
      var l := StepDiff(lhs.inc, lhs.state);
      Iterate(Aligned(l, StepDiff(rhs.inc, rhs.state)), r, Multiplier, 0) == l && r < 0x4000_0000_0000_0000
    ensures Equal(lhs, rhs) ==> r == 0
    ensures lhs.inc == rhs.inc ==> (r == 0 <==> Equal(lhs, rhs))
  {
    if lhs.inc == rhs.inc {
      r := rhs.Distance(lhs.state);
    } else {
      var lhsDiff := StepDiff(lhs.inc, lhs.state);
      var rhsDiff := StepDiff(rhs.inc, rhs.state);
      AndThree(lhsDiff);
      AndThree(rhsDiff);
      if And(lhsDiff, 3) != And(rhsDiff, 3) {
        rhsDiff := Minus(rhsDiff);
      }
      AlignedParams(lhs.kind, lhs.inc, lhs.state, rhs.inc, rhs.state);
      r := Lcg.Distance(rhsDiff, lhsDiff, Multiplier, 0, W64 - 1);
      FullMask(Iterate(rhsDiff, r, Multiplier, 0));
      FullMask(lhsDiff);
    }
  }

  /** `rhs_diff`, negated when its two low bits differ from `lhs_diff`'s. */
  function Aligned(lhsDiff: u64, rhsDiff: u64): u64
  {
    if lhsDiff % 4 == rhsDiff % 4 then rhsDiff else Minus(rhsDiff)
  }

  /** Two engines on different streams have odd step differences, which
      agree on their two low bits once aligned: the multiplicative distance
      loop can measure them. */
  lemma AlignedParams(kind: StreamKind, lhsInc: u64, lhsState: u64, rhsInc: u64, rhsState: u64)
    requires ValidState(kind, lhsInc, lhsState) && ValidState(kind, rhsInc, rhsState) && lhsInc != rhsInc
    ensures var l := StepDiff(lhsInc, lhsState);
      DistanceParams(Aligned(l, StepDiff(rhsInc, rhsState)), l, Multiplier, 0)
  {
    var l, d := StepDiff(lhsInc, lhsState), StepDiff(rhsInc, rhsState);
    assert l % 2 == 1 && d % 2 == 1 by {
      DiffLowBits(kind, lhsInc, lhsState);
      DiffLowBits(kind, rhsInc, rhsState);
    }
    OddMod4(l);
    OddMod4(d);
    var a := Aligned(l, d);
    assert a % 2 == 1 && a % 4 == l % 4 by {
      if l % 4 != d % 4 {
        MinusLowBits(d);
      }
    }
    MultiplierParams();
  }

  // ---------------------------------------------------------------------
  // Properties

  /** The default multiplier gives a full-period LCG with any odd
      increment and a multiplicative generator of period 2^62. */
  lemma MultiplierParams()
    ensures Multiplier % 4 == 1 && McgParams(Multiplier, 0)
  {
  }

  /** A valid engine meets what the distance loop needs to reach `target`. */
  lemma ValidParams(kind: StreamKind, inc: u64, state: u64, target: u64)
    requires ValidState(kind, inc, state) && (kind == NoStream ==> target % 4 == 3)
    ensures DistanceParams(state, target, Multiplier, inc)
    ensures (inc == 0) == (kind == NoStream)
  {
    MultiplierParams();
  }

  /** Steps keep an engine valid: a multiplicative generator's multiplier
      is 1 modulo 4, so the two low bits stay 3. */
  lemma {:induction false} StepValid(kind: StreamKind, inc: u64, state: u64, n: nat)
    requires ValidState(kind, inc, state)
    ensures ValidState(kind, inc, Iterate(state, n, Multiplier, inc))
    decreases n
  {
    if n > 0 {
      StepValid(kind, inc, state, n - 1);
      if kind == NoStream {
        var s := Iterate(state, n - 1, Multiplier, inc);
        assert W64 == 4 * 0x4000_0000_0000_0000;
        ModOfMultiple(s * Multiplier, 4, 0x4000_0000_0000_0000);
        MulMod(s, Multiplier, 4);
      }
    }
  }

  /** `backstep(d)` and `advance(d)` undo each other, in either order: d
      and -d add up to a whole period of 2^64 steps (or none). */
  lemma BackstepAdvance(s: u64, d: u64, mult: u64, plus: u64)
    requires mult % 4 == 1
    ensures Iterate(Iterate(s, Minus(d), mult, plus), d, mult, plus) == s
    ensures Iterate(Iterate(s, d, mult, plus), Minus(d), mult, plus) == s
  {
    IterateAdd(s, Minus(d), d, mult, plus);
    IterateAdd(s, d, Minus(d), mult, plus);
    Pow2Of64();
    MinusValue(d);
    if d != 0 {
      LcgPeriod(s, mult, plus);
    }
  }

  /** -d is 2^64 - d, or 0. */
  lemma MinusValue(d: u64)
    ensures Minus(d) == if d == 0 then 0 else W64 - d
  {
    if d == 0 {
      DivModUnique(W64, W64, 1, 0);
    } else {
      DivModUnique(W64 - d, W64, 0, W64 - d);
    }
  }

  /** A whole period brings every valid engine back to its state. */
  lemma Period(kind: StreamKind, inc: u64, state: u64)
    requires ValidState(kind, inc, state)
    ensures Iterate(state, PeriodLength(kind), Multiplier, inc) == state
  {
    MultiplierParams();
    if kind == NoStream {
      McgPeriod(state, Multiplier);
    } else {
      LcgPeriod(state, Multiplier, inc);
    }
  }

  /** Every valid engine wraps within one period: `wrapped()` becomes true
      after fewer than 2^period_pow2() steps. */
  lemma WrapReached(kind: StreamKind, inc: u64, state: u64) returns (n: nat)
    requires ValidState(kind, inc, state)
    ensures n < PeriodLength(kind) && Iterate(state, n, Multiplier, inc) == WrapPoint(kind)
  {
    ValidParams(kind, inc, state, WrapPoint(kind));
    n := Reach(state, WrapPoint(kind), Multiplier, inc);
  }

  /** The step difference of the next state is the multiplier times this
      one's: across a stream, step differences follow the multiplicative
      generator, which is why `operator-` measures them with it. */
  lemma DiffStep(inc: u64, state: u64)
    ensures StepDiff(inc, Step(state, Multiplier, inc)) == Step(StepDiff(inc, state), Multiplier, 0)
  {
    AffineDiff(Multiplier - 1, inc, state, W64);
  }

  /** The ring identity behind DiffStep, for a multiplier k + 1 and a
      modulus w. */
  lemma AffineDiff(k: nat, c: nat, s: nat, w: nat)
    requires w > 0
    ensures (c + k * ((s * (k + 1) + c) % w)) % w == ((c + k * s) % w * (k + 1) + 0) % w
  {
    var next := s * (k + 1) + c;
    var d := c + k * s;
    assert c + k * next == (k + 1) * d by {
      RingAffineDiff(k, c, s);
    }
    var a := k * next;
    var b := k * (next % w);
    assert a % w == b % w by {
      MulModLeft(next, k, w);
      assert a == next * k && b == (next % w) * k;
    }
    assert (c + b) % w == (c + a) % w by {
      AddMod(c, a, w);
      AddMod(c, b, w);
    }
    assert ((k + 1) * d) % w == ((d % w) * (k + 1)) % w by {
      MulModLeft(d, k + 1, w);
      assert (k + 1) * d == d * (k + 1);
    }
  }

  lemma RingAffineDiff(k: int, c: int, s: int)
    ensures c + k * (s * (k + 1) + c) == (k + 1) * (c + k * s)
  {
  }

  /** ... and so over any number of steps. */
  lemma {:induction false} DiffIterate(inc: u64, state: u64, n: nat)
    ensures StepDiff(inc, Iterate(state, n, Multiplier, inc)) == Iterate(StepDiff(inc, state), n, Multiplier, 0)
    decreases n
  {
    if n > 0 {
      DiffIterate(inc, state, n - 1);
      DiffStep(inc, Iterate(state, n - 1, Multiplier, inc));
    }
  }

  /** An engine with an increment has an odd step difference with the
      increment's two low bits. */
  lemma DiffLowBits(kind: StreamKind, inc: u64, state: u64)
    requires ValidState(kind, inc, state) && kind != NoStream
    ensures StepDiff(inc, state) % 4 == inc % 4 && inc % 2 == 1 && StepDiff(inc, state) % 2 == 1
  {
    var k := (Multiplier - 1) / 4;
    assert (Multiplier - 1) * state == 4 * k * state;
    DiffMod4(k, inc, state, 0x4000_0000_0000_0000);
  }

  lemma DiffMod4(k: nat, c: nat, s: nat, h: nat)
    requires h > 0 && c % 2 == 1
    ensures var x := (c + 4 * k * s) % (4 * h);
      x % 4 == c % 4 && x % 2 == 1
  {
    var x := (c + 4 * k * s) % (4 * h);
    MulNonNegative(k, s);
    ModOfMultiple(c + 4 * k * s, 4, h);
    assert 4 * k * s == (k * s) * 4;
    ModAddMultiple(c, k * s, 4);
    ModOfMultiple(x, 2, 2);
    ModOfMultiple(c, 2, 2);
  }

  /** Negating an odd word swaps its two low bits between 01 and 11. */
  lemma MinusLowBits(d: u64)
    requires d % 2 == 1
    ensures Minus(d) % 4 == 4 - d % 4 && Minus(d) % 2 == 1
  {
    DivModUnique(W64 - d, W64, 0, W64 - d);
    SubOddMod4(W64 / 4, d);
  }

  lemma SubOddMod4(h: nat, d: nat)
    requires 0 < d <= 4 * h && d % 2 == 1
    ensures (4 * h - d) % 4 == 4 - d % 4 && (4 * h - d) % 2 == 1
  {
    var q, r := d / 4, d % 4;
    DivModUnique(4 * h - d, 4, h - q - 1, 4 - r);
    DivModUnique(4 * h - d, 2, 2 * (h - q - 1) + (4 - r) / 2, 1);
  }

  /** An odd number is 1 or 3 modulo 4. */
  lemma OddMod4(x: nat)
    requires x % 2 == 1
    ensures x % 4 == 1 || x % 4 == 3
  {
    ModOfMultiple(x, 2, 2);
  }

  /** `x & 3` is x modulo 4. */
  lemma AndThree(x: nat)
    ensures And(x, 3) == x % 4
  {
    AndOnes(x, 2);
    assert Pow2(2) == 4;
  }

  /** The default mask `~0` keeps every bit of a word. */
  lemma FullMask(x: u64)
    ensures And(x, W64 - 1) == x
  {
    AndOnes(x, 64);
    Pow2Of64();
    DivModUnique(x, W64, 0, x);
  }
}
