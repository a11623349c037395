/** The linear congruential core of the engine on a 64-bit state: one step
    `state * mult + plus`, Brown's arbitrary-stride jump `advance` (fast
    exponentiation of the affine step), and its inverse `distance`, which
    recovers the number of steps between two states one bit at a time (on a
    full-period generator that number is unique: `IterateInjective`).

    The number theory behind `distance` and the period: when `mult % 4 == 1`
    the 2^k-step map multiplies by `1 + a * 2^(k+2)`, and when the increment
    is odd it adds an odd multiple of 2^k, so it flips bit k and keeps the
    bits below it. A multiplicative generator (`plus == 0`) with
    `mult % 8 == 5` does the same for bit k + 2 of an odd state. */
module Lcg {
  import opened Words
  import opened Bits

  /** `bump(state)`: `state * multiplier() + increment()` in 64-bit arithmetic. */
  function Step(s: u64, mult: u64, plus: u64): u64
  {
    (s * mult + plus) % W64
  }

  /** n steps of the generator. */
  function Iterate(s: u64, n: nat, mult: u64, plus: u64): u64
    decreases n
  {
    if n == 0 then s else Step(Iterate(s, n - 1, mult, plus), mult, plus)
  }

  /** A full-period LCG: the multiplier is 1 modulo 4 and the increment odd. */
  predicate LcgParams(mult: nat, plus: nat)
  {
    mult % 4 == 1 && plus % 2 == 1
  }

  /** A multiplicative generator whose odd states have period 2^62. */
  predicate McgParams(mult: nat, plus: nat)
  {
    mult % 8 == 5 && plus == 0
  }

  // ---------------------------------------------------------------------
  // The affine map of n steps, on unbounded integers

  /** m^n */
  ghost function Pow(m: nat, n: nat): nat
  {
    if n == 0 then 1 else Pow(m, n - 1) * m
  }

  /** 1 + m + ... + m^(n-1): n steps add `Geo(m, n) * plus`. */
  ghost function Geo(m: nat, n: nat): nat
  {
    if n == 0 then 0 else Geo(m, n - 1) * m + 1
  }

  /** n steps are the affine map `s -> m^n * s + Geo(m, n) * plus`, modulo 2^64. */
  lemma {:induction false} IterateAffine(s: u64, n: nat, mult: u64, plus: u64)
    ensures Iterate(s, n, mult, plus) == (Pow(mult, n) * s + Geo(mult, n) * plus) % W64
  {
    if n > 0 {
      IterateAffine(s, n - 1, mult, plus);
      var a, g := Pow(mult, n - 1), Geo(mult, n - 1);
      MulNonNegative(a, s);
      MulNonNegative(g, plus);
      ResidueStep(a * s + g * plus, mult, plus);
      AffineCompose(a, s, g, plus, mult);
    }
  }

  /** Reducing before a step does not change the result. */
  lemma ResidueStep(x: nat, mult: nat, plus: nat)
    ensures ((x % W64) * mult + plus) % W64 == (x * mult + plus) % W64
  {
    MulNonNegative(x, mult);
    MulNonNegative(x % W64, mult);
    MulModLeft(x, mult, W64);
    AddMod(x * mult, plus, W64);
    AddMod((x % W64) * mult, plus, W64);
  }

  /** Steps compose. */
  lemma {:induction false} IterateAdd(s: u64, a: nat, b: nat, mult: u64, plus: u64)
    ensures Iterate(Iterate(s, a, mult, plus), b, mult, plus) == Iterate(s, a + b, mult, plus)
    decreases b
  {
    if b > 0 {
      IterateAdd(s, a, b - 1, mult, plus);
    }
  }

  lemma {:induction false} PowAdd(m: nat, a: nat, b: nat)
    ensures Pow(m, a + b) == Pow(m, a) * Pow(m, b)
    decreases b
  {
    if b > 0 {
      PowAdd(m, a, b - 1);
      MulAssoc(Pow(m, a), Pow(m, b - 1), m);
    }
  }

  /** Running a steps and then b steps: the increments of the first a steps
      are multiplied by m^b. */
  lemma {:induction false} GeoAdd(m: nat, a: nat, b: nat)
    ensures Geo(m, a + b) == Geo(m, a) * Pow(m, b) + Geo(m, b)
    decreases b
  {
    if b > 0 {
      GeoAdd(m, a, b - 1);
      GeoCompose(Geo(m, a), Pow(m, b - 1), Geo(m, b - 1), m);
    }
  }

  /** Doubling the stride squares the multiplier and multiplies the
      increment by `multiplier + 1`. */
  lemma Doubling(m: nat, n: nat)
    ensures Pow(m, 2 * n) == Pow(m, n) * Pow(m, n)
    ensures Geo(m, 2 * n) == (Pow(m, n) + 1) * Geo(m, n)
  {
    PowAdd(m, n, n);
    GeoAdd(m, n, n);
    Distrib(Pow(m, n), 1, Geo(m, n));
  }

  // ---------------------------------------------------------------------
  // Ring identities, each stated on its own so that the solver sees no
  // other fact while proving it

  lemma MulAssoc(a: int, b: int, c: int)
    ensures a * (b * c) == (a * b) * c
  {
  }

  lemma Distrib(a: int, b: int, c: int)
    ensures (a + b) * c == a * c + b * c
  {
  }

  lemma AffineCompose(a: int, s: int, g: int, p: int, m: int)
    ensures (a * s + g * p) * m + p == (a * m) * s + (g * m + 1) * p
  {
  }

  lemma GeoCompose(x: int, y: int, z: int, m: int)
    ensures (x * y + z) * m + 1 == x * (y * m) + (z * m + 1)
  {
  }

  lemma ScaleSum(x: int, y: int, z: int, p: int)
    ensures (x * y + z) * p == (x * p) * y + z * p
  {
  }

  lemma SquareForm(a0: nat, q: nat) returns (a: nat)
    ensures (1 + a0 * (2 * q)) * (1 + a0 * (2 * q)) == 1 + a * (4 * q)
  {
    a := a0 + a0 * a0 * q;
  }

  lemma GeoForm(a: nat, h: nat, b0: nat) returns (b: nat)
    ensures (1 + a * (4 * h) + 1) * (h * (2 * b0 + 1)) == (2 * h) * (2 * b + 1)
  {
    b := 2 * b0 * (a * h) + b0 + a * h;
  }

  lemma McgSquare(u0: nat, h: nat) returns (u: nat)
    ensures (1 + (4 * h) * (2 * u0 + 1)) * (1 + (4 * h) * (2 * u0 + 1)) == 1 + (8 * h) * (2 * u + 1)
  {
    u := u0 + h * (2 * u0 + 1) * (2 * u0 + 1);
  }

  lemma LcgJumpSum(x: nat, a: nat, q: nat, b: nat, c: nat) returns (t: nat)
    ensures (1 + a * (4 * q)) * x + (q * (2 * b + 1)) * (2 * c + 1) == x + q + t * (2 * q)
  {
    t := 2 * a * x + 2 * b * c + b + c;
  }

  lemma McgJumpSum(v: nat, q: nat, u: nat) returns (w: nat)
    ensures (1 + q * (2 * u + 1)) * (2 * v + 1) == 2 * v + 1 + q + w * (2 * q)
  {
    w := 2 * u * v + u + v;
  }

  lemma PeriodSum(s: nat, a: nat, b: nat, p: nat, w: nat) returns (t: nat)
    ensures (1 + a * w) * s + (w * (2 * b + 1)) * p == s + t * w
  {
    t := a * s + (2 * b + 1) * p;
  }

  /** Reducing twice is reducing once. */
  lemma ModTwice(x: nat, m: nat)
    requires m > 0
    ensures (x % m) % m == x % m
  {
    ModOnce(x % m, m);
  }

  // ---------------------------------------------------------------------
  // advance

  /** The multiplier of the n-step map, reduced to 64 bits: the map sends
      1 to it when the increment is 0. */
  ghost function StrideMult(m: u64, n: nat): u64
  {
    Iterate(1, n, m, 0)
  }

  /** The increment of the n-step map, reduced to 64 bits: the map sends 0
      to it. */
  ghost function StridePlus(m: u64, p: u64, n: nat): u64
  {
    Iterate(0, n, m, p)
  }

  /** The static `advance(state, delta, cur_mult, cur_plus)`: Brown's
      algorithm. `cur_mult`/`cur_plus` hold the map of 2^j steps, squared at
      each round; when bit j of `delta` is set it is composed into the
      accumulated map `acc_mult`/`acc_plus`. The source tests `delta & 1`
      and shifts `delta >>= 1`; on naturals these are `% 2` and `/ 2`. */
  method Advance(state: u64, delta: u64, mult: u64, plus: u64) returns (r: u64)
    ensures r == Iterate(state, delta, mult, plus)
  {
    var accMult: u64 := 1;
    var accPlus: u64 := 0;
    var curMult: u64, curPlus: u64, d: u64 := mult, plus, delta;
    ghost var j: nat := 0;
    StrideOne(mult, plus);
    while d > 0
      invariant d == delta / Pow2(j)
      invariant accMult == StrideMult(mult, delta % Pow2(j))
      invariant accPlus == StridePlus(mult, plus, delta % Pow2(j))
      invariant curMult == StrideMult(mult, Pow2(j))
      invariant curPlus == StridePlus(mult, plus, Pow2(j))
      decreases d
    {
      DigitStep(delta, j);
      if d % 2 == 1 {
        StrideCompose(mult, plus, delta % Pow2(j), Pow2(j));
        accMult := (accMult * curMult) % W64;
        accPlus := (accPlus * curMult + curPlus) % W64;
      }
      StrideDouble(mult, plus, Pow2(j));
      curPlus := ((curMult + 1) * curPlus) % W64;
      curMult := (curMult * curMult) % W64;
      d := d / 2;
      j := j + 1;
    }
    DivModUnique(delta, Pow2(j), 0, delta % Pow2(j));
    StrideApply(state, delta, mult, plus);
    r := (accMult * state + accPlus) % W64;
  }

  lemma StrideOne(m: u64, p: u64)
    ensures StrideMult(m, 1) == m && StridePlus(m, p, 1) == p
  {
    assert Iterate(1, 1, m, 0) == (1 * m + 0) % W64;
    DivModUnique(m, W64, 0, m);
    DivModUnique(p, W64, 0, p);
  }

  lemma StrideForm(m: u64, p: u64, n: nat)
    ensures StrideMult(m, n) == Pow(m, n) % W64
    ensures StridePlus(m, p, n) == (Geo(m, n) * p) % W64
  {
    IterateAffine(1, n, m, 0);
    IterateAffine(0, n, m, p);
  }

  /** A multiplicative generator's stride adds nothing. */
  lemma {:induction false} StrideNoPlus(m: u64, n: nat)
    ensures StridePlus(m, 0, n) == 0
  {
    if n > 0 {
      StrideNoPlus(m, n - 1);
    }
  }

  /** a steps then b steps. */
  lemma StrideCompose(m: u64, p: u64, a: nat, b: nat)
    ensures StrideMult(m, a + b) == (StrideMult(m, a) * StrideMult(m, b)) % W64
    ensures StridePlus(m, p, a + b) == (StridePlus(m, p, a) * StrideMult(m, b) + StridePlus(m, p, b)) % W64
  {
    StrideForm(m, p, a);
    StrideForm(m, p, b);
    StrideForm(m, p, a + b);
    ComposeStep(StrideMult(m, a), StridePlus(m, p, a), StrideMult(m, b), StridePlus(m, p, b), m, p, a, b);
  }

  /** Twice n steps. */
  lemma StrideDouble(m: u64, p: u64, n: nat)
    ensures StrideMult(m, 2 * n) == (StrideMult(m, n) * StrideMult(m, n)) % W64
    ensures StridePlus(m, p, 2 * n) == ((StrideMult(m, n) + 1) * StridePlus(m, p, n)) % W64
  {
    StrideForm(m, p, n);
    StrideForm(m, p, 2 * n);
    DoubleStep(StrideMult(m, n), StridePlus(m, p, n), m, p, n);
  }

  /** The n-step map applied to a state is n steps. */
  lemma StrideApply(s: u64, n: nat, m: u64, p: u64)
    ensures (StrideMult(m, n) * s + StridePlus(m, p, n)) % W64 == Iterate(s, n, m, p)
  {
    StrideForm(m, p, n);
    AdvanceResult(s, n, m, p, StrideMult(m, n), StridePlus(m, p, n));
  }

  /** Consuming one more bit of delta. */
  lemma DigitStep(delta: nat, j: nat)
    ensures delta / Pow2(j + 1) == (delta / Pow2(j)) / 2
    ensures delta % Pow2(j + 1)
         == delta % Pow2(j) + (if (delta / Pow2(j)) % 2 == 1 then Pow2(j) else 0)
  {
    assert Pow2(j + 1) == Pow2(j) * 2;
    DivOfProduct(delta, Pow2(j), 2);
  }

  /** Composing the accumulated map of `done` steps with the map of `jump` steps. */
  lemma ComposeStep(am: nat, ap: nat, cm: nat, cp: nat, m: nat, p: nat, done: nat, jump: nat)
    requires am == Pow(m, done) % W64 && ap == (Geo(m, done) * p) % W64
    requires cm == Pow(m, jump) % W64 && cp == (Geo(m, jump) * p) % W64
    ensures (am * cm) % W64 == Pow(m, done + jump) % W64
    ensures (ap * cm + cp) % W64 == (Geo(m, done + jump) * p) % W64
  {
    PowAdd(m, done, jump);
    GeoAdd(m, done, jump);
    var a, c := Pow(m, done), Pow(m, jump);
    var gd, gj := Geo(m, done) * p, Geo(m, jump) * p;
    MulMod(a, c, W64);
    ScaleSum(Geo(m, done), c, Geo(m, jump), p);
    MulNonNegative(gd, c);
    MulNonNegative(ap, cm);
    MulMod(gd, c, W64);
    AddMod(gd * c, gj, W64);
    AddMod(ap * cm, cp, W64);
    ModTwice(gj, W64);
    ModTwice(c, W64);
  }

  /** Squaring the map of `jump` steps. */
  lemma DoubleStep(cm: nat, cp: nat, m: nat, p: nat, jump: nat)
    requires cm == Pow(m, jump) % W64 && cp == (Geo(m, jump) * p) % W64
    ensures (cm * cm) % W64 == Pow(m, 2 * jump) % W64
    ensures ((cm + 1) * cp) % W64 == (Geo(m, 2 * jump) * p) % W64
  {
    Doubling(m, jump);
    var a, g := Pow(m, jump), Geo(m, jump) * p;
    MulMod(a, a, W64);
    MulAssoc(a + 1, Geo(m, jump), p);
    AddMod(a, 1, W64);
    MulMod(a + 1, g, W64);
    MulMod(cm + 1, cp, W64);
    ModTwice(g, W64);
  }

  /** The accumulated map applied to the state. */
  lemma AdvanceResult(state: u64, delta: nat, mult: u64, plus: u64, am: nat, ap: nat)
    requires am == Pow(mult, delta) % W64 && ap == (Geo(mult, delta) * plus) % W64
    ensures (am * state + ap) % W64 == Iterate(state, delta, mult, plus)
  {
    IterateAffine(state, delta, mult, plus);
    var a, g := Pow(mult, delta), Geo(mult, delta) * plus;
    MulNonNegative(a, state);
    MulNonNegative(am, state);
    MulModLeft(a, state, W64);
    AddMod(a * state, g, W64);
    AddMod(am * state, ap, W64);
    ModTwice(g, W64);
  }

  // ---------------------------------------------------------------------
  // Full period

  /** m^(2^k) is 1 modulo 2^(k+2) when m is 1 modulo 4. */
  lemma {:induction false} PowPow2Form(m: nat, k: nat) returns (a: nat)
    requires m % 4 == 1
    ensures Pow(m, Pow2(k)) == 1 + a * Pow2(k + 2)
    decreases k
  {
    if k == 0 {
      a := m / 4;
      assert Pow2(2) == 4;
    } else {
      var a0 := PowPow2Form(m, k - 1);
      var h, q := Pow2(k - 1), Pow2(k);
      Doubling(m, h);
      assert q == 2 * h && Pow2(k + 1) == 2 * q && Pow2(k + 2) == 4 * q;
      a := SquareForm(a0, q);
    }
  }

  /** 1 + m + ... + m^(2^k - 1) is 2^k times an odd number. */
  lemma {:induction false} GeoPow2Form(m: nat, k: nat) returns (b: nat)
    requires m % 4 == 1
    ensures Geo(m, Pow2(k)) == Pow2(k) * (2 * b + 1)
    decreases k
  {
    if k == 0 {
      b := 0;
    } else {
      var b0 := GeoPow2Form(m, k - 1);
      var a := PowPow2Form(m, k - 1);
      var h := Pow2(k - 1);
      Doubling(m, h);
      assert Pow2(k) == 2 * h && Pow2(k + 1) == 4 * h;
      b := GeoForm(a, h, b0);
    }
  }

  /** For a multiplier that is 5 modulo 8, m^(2^j) is 1 + 2^(j+2) times an
      odd number. */
  lemma {:induction false} McgPowForm(m: nat, j: nat) returns (u: nat)
    requires m % 8 == 5
    ensures Pow(m, Pow2(j)) == 1 + Pow2(j + 2) * (2 * u + 1)
    decreases j
  {
    if j == 0 {
      u := m / 8;
      assert Pow2(2) == 4;
    } else {
      var u0 := McgPowForm(m, j - 1);
      var h := Pow2(j - 1);
      Doubling(m, h);
      assert Pow2(j) == 2 * h && Pow2(j + 1) == 4 * h && Pow2(j + 2) == 8 * h;
      u := McgSquare(u0, h);
    }
  }

  /** The 2^k-step map of a full-period LCG adds 2^k modulo 2^(k+1). */
  lemma LcgJump(x: nat, k: nat, m: nat, p: nat)
    requires LcgParams(m, p)
    ensures (Pow(m, Pow2(k)) * x + Geo(m, Pow2(k)) * p) % Pow2(k + 1) == (x + Pow2(k)) % Pow2(k + 1)
  {
    var a := PowPow2Form(m, k);
    var b := GeoPow2Form(m, k);
    var q := Pow2(k);
    assert Pow2(k + 1) == 2 * q && Pow2(k + 2) == 4 * q;
    assert p == 2 * (p / 2) + 1;
    var t := LcgJumpSum(x, a, q, b, p / 2);
    ModAddMultiple(x + q, t, 2 * q);
  }

  /** The 2^j-step map of a multiplicative generator adds 2^(j+2) modulo
      2^(j+3) to an odd state. */
  lemma McgJump(x: nat, j: nat, m: nat)
    requires m % 8 == 5 && x % 2 == 1
    ensures (Pow(m, Pow2(j)) * x) % Pow2(j + 3) == (x + Pow2(j + 2)) % Pow2(j + 3)
  {
    var u := McgPowForm(m, j);
    var q := Pow2(j + 2);
    assert Pow2(j + 3) == 2 * q;
    assert x == 2 * (x / 2) + 1;
    var w := McgJumpSum(x / 2, q, u);
    ModAddMultiple(x + q, w, 2 * q);
  }

  /** `bump` loses nothing: with a multiplier that is 1 modulo 4, distinct
      states step to distinct states, since 2^64 − 1 further steps lead
      from the next state back to this one. */
  lemma StepInjective(a: u64, b: u64, mult: u64, plus: u64)
    requires mult % 4 == 1
    ensures Step(a, mult, plus) == Step(b, mult, plus) <==> a == b
  {
    LcgPeriod(a, mult, plus);
    LcgPeriod(b, mult, plus);
    IterateAdd(a, 1, W64 - 1, mult, plus);
    IterateAdd(b, 1, W64 - 1, mult, plus);
  }

  /** The whole period: 2^64 steps of an LCG whose multiplier is 1 modulo 4
      (any increment) come back to the start. */
  lemma LcgPeriod(s: u64, mult: u64, plus: u64)
    requires mult % 4 == 1
    ensures Iterate(s, W64, mult, plus) == s
  {
    Pow2Of64();
    PeriodAt(s, mult, plus, 64);
  }

  lemma PeriodAt(s: u64, mult: u64, plus: u64, e: nat)
    requires mult % 4 == 1 && Pow2(e) == W64
    ensures Iterate(s, Pow2(e), mult, plus) == s
  {
    IterateAffine(s, Pow2(e), mult, plus);
    var a := PowPow2Form(mult, e);
    var b := GeoPow2Form(mult, e);
    assert Pow2(e + 2) == 4 * W64;
    var t := PeriodSum(s, 4 * a, b, plus, W64);
    ModAddMultiple(s, t, W64);
    DivModUnique(s, W64, 0, s);
  }

  /** ... and 2^62 steps of a multiplicative generator do (in fact of any
      generator whose multiplier is 1 modulo 4, when the increment is 0). */
  lemma McgPeriod(s: u64, mult: u64)
    requires mult % 4 == 1
    ensures Iterate(s, 0x4000_0000_0000_0000, mult, 0) == s
  {
    Pow2Of64();
    Pow2Add(62, 2);
    assert Pow2(2) == 4;
    McgPeriodAt(s, mult, 62);
  }

  lemma McgPeriodAt(s: u64, mult: u64, e: nat)
    requires mult % 4 == 1 && Pow2(e + 2) == W64
    ensures Iterate(s, Pow2(e), mult, 0) == s
  {
    IterateAffine(s, Pow2(e), mult, 0);
    var a := PowPow2Form(mult, e);
    var t := PeriodSum(s, a, 0, 0, W64);
    ModAddMultiple(s, t, W64);
    DivModUnique(s, W64, 0, s);
  }

  // ---------------------------------------------------------------------
  // distance

  /** Bit k of x is the parity of x / 2^k. */
  lemma BitOfQuotient(x: nat, k: nat)
    ensures Bit(x, k) == ((x / Pow2(k)) % 2 == 1)
  {
    ShrBits(x, k);
    ShrIsDiv(x, k);
    assert Bit(Shr(x, k), 0) == Bit(x, k + 0);
  }

  /** x modulo 2^(k+1) is x modulo 2^k plus bit k. */
  lemma ModSplitBit(x: nat, k: nat)
    ensures x % Pow2(k + 1) == x % Pow2(k) + (if Bit(x, k) then Pow2(k) else 0)
  {
    DigitStep(x, k);
    BitOfQuotient(x, k);
  }

  /** `x & (1 << k)` is bit k in place. */
  lemma AndPow2(x: nat, k: nat)
    ensures And(x, Pow2(k)) == if Bit(x, k) then Pow2(k) else 0
  {
    AndBits(x, Pow2(k));
    Pow2Bits(k);
    ZeroBits();
    BitsEqual(And(x, Pow2(k)), if Bit(x, k) then Pow2(k) else 0);
  }

  /** Two values that agree below bit k agree below bit k + 1 once bit k is
      made to agree: either it already does, or adding 2^k flips it. */
  lemma MatchNextBit(x: nat, y: nat, k: nat)
    requires x % Pow2(k) == y % Pow2(k)
    ensures Bit(x, k) == Bit(y, k) ==> x % Pow2(k + 1) == y % Pow2(k + 1)
    ensures Bit(x, k) != Bit(y, k) ==> (x + Pow2(k)) % Pow2(k + 1) == y % Pow2(k + 1)
  {
    ModSplitBit(x, k);
    ModSplitBit(y, k);
    assert Pow2(k + 1) == 2 * Pow2(k);
    AddHalf(x, Pow2(k));
  }

  /** Adding half the modulus moves the residue by half the modulus. */
  lemma AddHalf(x: nat, q: nat)
    requires q > 0
    ensures (x + q) % (2 * q) == if x % (2 * q) < q then x % (2 * q) + q else x % (2 * q) - q
  {
    var t, r := x / (2 * q), x % (2 * q);
    if r < q {
      DivModUnique(x + q, 2 * q, t, r + q);
    } else {
      DivModUnique(x + q, 2 * q, t + 1, r - q);
    }
  }

  /** A residue modulo 2^64 keeps every residue modulo a smaller power of two. */
  lemma ResidueLow(x: nat, k: nat)
    requires k <= 64
    ensures (x % W64) % Pow2(k) == x % Pow2(k)
  {
    Pow2Of64();
    Pow2Add(k, 64 - k);
    ModOfMultiple(x, Pow2(k), Pow2(64 - k));
  }

  /** The jump the loop performs in 64-bit arithmetic, seen modulo 2^(k+1). */
  lemma JumpLow(x: nat, cm: nat, cp: nat, a: nat, g: nat, k: nat)
    requires cm == a % W64 && cp == g % W64 && k < 64
    ensures ((x * cm + cp) % W64) % Pow2(k + 1) == (a * x + g) % Pow2(k + 1)
  {
    MulNonNegative(x, cm);
    MulNonNegative(a, x);
    assert (x * cm + cp) % W64 == (a * x + g) % W64 by {
      MulModLeft(a, x, W64);
      AddMod(a * x, g, W64);
      AddMod(x * cm, cp, W64);
      ModTwice(g, W64);
      assert cm * x == x * cm;
    }
    ResidueLow(x * cm + cp, k + 1);
    ResidueLow(a * x + g, k + 1);
  }

  /** A value below 2^k has no bit in common with 2^k, so `d | 2^k == d + 2^k`. */
  lemma OrHighBit(d: nat, k: nat)
    requires d < Pow2(k)
    ensures Or(d, Pow2(k)) == d + Pow2(k)
  {
    BitsAbove(d, k);
    Pow2Bits(k);
    DisjointSum(d, Pow2(k));
  }

  /** The distance loop may start: what the static `distance` requires. */
  predicate DistanceParams(cur: u64, target: u64, mult: u64, plus: u64)
  {
    LcgParams(mult, plus) || (McgParams(mult, plus) && cur % 2 == 1 && cur % 4 == target % 4)
  }

  /** The static `distance(cur_state, newstate, cur_mult, cur_plus, mask)`:
      walks up the bits of the state, jumping 2^k steps (2^(k-2) for a
      multiplicative generator) whenever bit k of the current state differs
      from the target, until the masked bits agree. For a multiplicative
      generator the two low bits never change and the count is shifted
      right by 2. */
  method Distance(curState: u64, newState: u64, mult: u64, plus: u64, mask: u64) returns (r: u64)
    requires DistanceParams(curState, newState, mult, plus)
    ensures And(Iterate(curState, r, mult, plus), mask) == And(newState, mask)
    ensures plus == 0 ==> r < 0x4000_0000_0000_0000
    ensures And(curState, mask) == And(newState, mask) ==> r == 0
  {
    var isMcg := plus == 0;
    var theBit: u64 := if isMcg then 4 else 1;
    var distance: u64 := 0;
    var cur: u64, curMult: u64, curPlus: u64 := curState, mult, plus;
    ghost var k: nat := if isMcg then 2 else 0;
    ghost var steps: nat := 0;
    DistanceStart(curState, newState, mult, plus);
    while And(cur, mask) != And(newState, mask)
      invariant DistanceInv(curState, newState, mult, plus, isMcg, k, theBit, distance, cur, curMult, curPlus, steps)
      invariant And(curState, mask) == And(newState, mask) ==> cur == curState && distance == 0
      decreases 64 - k
    {
      DistanceRound(curState, newState, mult, plus, isMcg, k, theBit, distance, cur, curMult, curPlus, steps);
      if And(cur, theBit) != And(newState, theBit) {
        cur := (cur * curMult + curPlus) % W64;
        distance := Or(distance, theBit);
        steps := steps + Pow2(k - if isMcg then 2 else 0);
      }
      theBit := (theBit * 2) % W64;
      curPlus := ((curMult + 1) * curPlus) % W64;
      curMult := (curMult * curMult) % W64;
      k := k + 1;
    }
    if isMcg {
      r := Shr(distance, 2);
      McgCount(distance, steps);
    } else {
      r := distance;
    }
  }

  /** What holds before each round of the distance loop: the state has
      been advanced `steps` steps and agrees with the target below bit k;
      `distance` counts those steps (in units of 4 for a multiplicative
      generator); `the_bit` is bit k and `cur_mult`/`cur_plus` are the map
      of one jump. */
  ghost predicate DistanceInv(curState: u64, newState: u64, mult: u64, plus: u64, isMcg: bool, k: nat,
                              theBit: u64, distance: u64, cur: u64, curMult: u64, curPlus: u64, steps: nat)
  {
    var k0 := if isMcg then 2 else 0;
    DistanceParams(curState, newState, mult, plus) && isMcg == (plus == 0)
    && (isMcg ==> newState % 2 == 1)
    && k0 <= k
    && BitsAgree(newState, k, theBit, cur)
    && Counted(curState, mult, plus, isMcg, k, distance, cur, steps)
    && Strides(mult, plus, Pow2(k - k0), curMult, curPlus)
  }

  /** The state agrees with the target below bit k, and `the_bit` is bit k. */
  ghost predicate BitsAgree(newState: u64, k: nat, theBit: u64, cur: u64)
  {
    k <= 64
    && (k < 64 ==> theBit == Pow2(k))
    && cur % Pow2(k) == newState % Pow2(k)
    && (k == 64 ==> cur == newState)
  }

  /** The state is `steps` steps on, and `distance` counts them. */
  ghost predicate Counted(curState: u64, mult: u64, plus: u64, isMcg: bool, k: nat, distance: u64, cur: u64, steps: nat)
  {
    cur == Iterate(curState, steps, mult, plus)
    && (if isMcg then distance == 4 * steps else distance == steps)
    && distance < Pow2(k)
  }

  /** `cur_mult` and `cur_plus` are the map of n steps. */
  ghost predicate Strides(mult: u64, plus: u64, n: nat, curMult: u64, curPlus: u64)
  {
    curMult == StrideMult(mult, n) && curPlus == StridePlus(mult, plus, n)
  }

  lemma DistanceStart(curState: u64, newState: u64, mult: u64, plus: u64)
    requires DistanceParams(curState, newState, mult, plus)
    ensures var isMcg := plus == 0;
      DistanceInv(curState, newState, mult, plus, isMcg, if isMcg then 2 else 0,
                  if isMcg then 4 else 1, 0, curState, mult, plus, 0)
  {
    assert Pow2(2) == 4;
    StrideOne(mult, plus);
    if plus == 0 {
      ModOfMultiple(curState, 2, 2);
      ModOfMultiple(newState, 2, 2);
    }
  }

  /** One round of the distance loop keeps its invariant. */
  lemma DistanceRound(curState: u64, newState: u64, mult: u64, plus: u64, isMcg: bool, k: nat,
                      theBit: u64, distance: u64, cur: u64, curMult: u64, curPlus: u64, steps: nat)
    requires DistanceInv(curState, newState, mult, plus, isMcg, k, theBit, distance, cur, curMult, curPlus, steps)
    requires cur != newState
    ensures k < 64
    ensures var k0 := if isMcg then 2 else 0;
      var jump := And(cur, theBit) != And(newState, theBit);
      (jump ==> Or(distance, theBit) < W64) &&
      DistanceInv(curState, newState, mult, plus, isMcg, k + 1, (theBit * 2) % W64,
        if jump then Or(distance, theBit) else distance,
        if jump then (cur * curMult + curPlus) % W64 else cur,
        (curMult * curMult) % W64, ((curMult + 1) * curPlus) % W64,
        if jump then steps + Pow2(k - k0) else steps)
  {
    if And(cur, theBit) != And(newState, theBit) {
      RoundJump(curState, newState, mult, plus, isMcg, k, theBit, distance, cur, curMult, curPlus, steps);
    } else {
      RoundStay(curState, newState, mult, plus, isMcg, k, theBit, distance, cur, curMult, curPlus, steps);
    }
  }

  /** A round that jumps: bit k of the state differed from the target. */
  lemma RoundJump(curState: u64, newState: u64, mult: u64, plus: u64, isMcg: bool, k: nat,
                  theBit: u64, distance: u64, cur: u64, curMult: u64, curPlus: u64, steps: nat)
    requires DistanceInv(curState, newState, mult, plus, isMcg, k, theBit, distance, cur, curMult, curPlus, steps)
    requires cur != newState && And(cur, theBit) != And(newState, theBit)
    ensures k < 64 && Or(distance, theBit) < W64
    ensures var k0 := if isMcg then 2 else 0;
      DistanceInv(curState, newState, mult, plus, isMcg, k + 1, (theBit * 2) % W64, Or(distance, theBit),
        (cur * curMult + curPlus) % W64, (curMult * curMult) % W64, ((curMult + 1) * curPlus) % W64,
        steps + Pow2(k - k0))
  {
    var k0 := if isMcg then 2 else 0;
    assert k < 64;
    var next := (cur * curMult + curPlus) % W64;
    JumpArrives(cur, newState, curMult, curPlus, mult, plus, k, k0);
    NextAgree(newState, k, theBit, next);
    JumpCounted(curState, mult, plus, isMcg, k, distance, cur, steps, curMult, curPlus);
    RoundStrides(mult, plus, k, k0, curMult, curPlus);
  }

  /** A round that does not jump: bit k already agreed. */
  lemma RoundStay(curState: u64, newState: u64, mult: u64, plus: u64, isMcg: bool, k: nat,
                  theBit: u64, distance: u64, cur: u64, curMult: u64, curPlus: u64, steps: nat)
    requires DistanceInv(curState, newState, mult, plus, isMcg, k, theBit, distance, cur, curMult, curPlus, steps)
    requires cur != newState && And(cur, theBit) == And(newState, theBit)
    ensures k < 64
    ensures DistanceInv(curState, newState, mult, plus, isMcg, k + 1, (theBit * 2) % W64, distance,
        cur, (curMult * curMult) % W64, ((curMult + 1) * curPlus) % W64, steps)
  {
    var k0 := if isMcg then 2 else 0;
    assert k < 64;
    AgreeNextBit(cur, newState, k);
    NextAgree(newState, k, theBit, cur);
    Pow2Strict(k, k + 1);
    RoundStrides(mult, plus, k, k0, curMult, curPlus);
  }

  /** Agreeing below bit k and on bit k is agreeing below bit k + 1. */
  lemma AgreeNextBit(x: nat, y: nat, k: nat)
    requires x % Pow2(k) == y % Pow2(k) && And(x, Pow2(k)) == And(y, Pow2(k))
    ensures x % Pow2(k + 1) == y % Pow2(k + 1)
  {
    AndPow2(x, k);
    AndPow2(y, k);
    MatchNextBit(x, y, k);
  }

  /** Agreement below bit k + 1 moves the loop to the next bit. */
  lemma NextAgree(newState: u64, k: nat, theBit: u64, cur: u64)
    requires k < 64 && theBit == Pow2(k) && cur % Pow2(k + 1) == newState % Pow2(k + 1)
    ensures BitsAgree(newState, k + 1, (theBit * 2) % W64, cur)
  {
    NextBit(theBit, k);
    AgreeAll(cur, newState, k + 1);
  }

  /** Doubling the jump: the map of 2n steps is the n-step map squared. */
  lemma RoundStrides(mult: u64, plus: u64, k: nat, k0: nat, curMult: u64, curPlus: u64)
    requires k0 <= k && Strides(mult, plus, Pow2(k - k0), curMult, curPlus)
    ensures Strides(mult, plus, Pow2(k + 1 - k0), (curMult * curMult) % W64, ((curMult + 1) * curPlus) % W64)
  {
    var n := Pow2(k - k0);
    assert Pow2(k + 1 - k0) == 2 * n;
    StrideDouble(mult, plus, n);
  }

  /** A jump of 2^(k-k0) steps sets bit k of the count. */
  lemma JumpCounted(curState: u64, mult: u64, plus: u64, isMcg: bool, k: nat, distance: u64, cur: u64, steps: nat,
                    curMult: u64, curPlus: u64)
    requires k < 64 && (isMcg ==> 2 <= k)
    requires Counted(curState, mult, plus, isMcg, k, distance, cur, steps)
    requires Strides(mult, plus, Pow2(k - if isMcg then 2 else 0), curMult, curPlus)
    ensures var d := Or(distance, Pow2(k));
      d < W64 &&
      Counted(curState, mult, plus, isMcg, k + 1, d, (cur * curMult + curPlus) % W64,
              steps + Pow2(k - if isMcg then 2 else 0))
  {
    IterateJump(curState, steps, Pow2(k - if isMcg then 2 else 0), mult, plus, cur, curMult, curPlus);
    DistanceGrows(distance, steps, k, isMcg);
  }

  /** Setting bit k of a count below 2^k adds 2^k, which is 2^(k-2) steps
      of a multiplicative generator counted in units of 4. */
  lemma DistanceGrows(distance: nat, steps: nat, k: nat, isMcg: bool)
    requires k < 64 && distance < Pow2(k)
    requires if isMcg then 2 <= k && distance == 4 * steps else distance == steps
    ensures var d := Or(distance, Pow2(k));
      d < Pow2(k + 1) && d < W64 &&
      if isMcg then d == 4 * (steps + Pow2(k - 2)) else d == steps + Pow2(k)
  {
    OrHighBit(distance, k);
    Pow2Strict(k, 64);
    Pow2Of64();
    if isMcg {
      Pow2Add(k - 2, 2);
      assert Pow2(2) == 4;
    }
  }

  /** `the_bit <<= 1` in 64-bit arithmetic. */
  lemma NextBit(theBit: nat, k: nat)
    requires k < 64 && theBit == Pow2(k)
    ensures k + 1 < 64 ==> (theBit * 2) % W64 == Pow2(k + 1)
  {
    if k + 1 < 64 {
      Pow2Strict(k + 1, 64);
      Pow2Of64();
      DivModUnique(theBit * 2, W64, 0, Pow2(k + 1));
    }
  }

  /** Agreeing on all 64 bits is being equal. */
  lemma AgreeAll(x: u64, y: u64, k: nat)
    requires x % Pow2(k) == y % Pow2(k)
    ensures k == 64 ==> x == y
  {
    if k == 64 {
      Pow2Of64();
      DivModUnique(x, W64, 0, x);
      DivModUnique(y, W64, 0, y);
    }
  }

  /** A multiplicative generator counts in units of 4 below 2^64: `>> 2`
      recovers the number of steps. */
  lemma McgCount(distance: nat, steps: nat)
    requires distance == 4 * steps && distance < W64
    ensures Shr(distance, 2) == steps && steps < 0x4000_0000_0000_0000
  {
    ShrIsDiv(distance, 2);
    assert Pow2(2) == 4;
    DivModUnique(distance, 4, steps, 0);
  }

  /** The jump taken by the distance loop flips bit k of the state and keeps
      the bits below it, so afterwards the state agrees with the target
      below bit k + 1. */
  lemma JumpArrives(cur: u64, target: u64, cm: nat, cp: nat, mult: u64, plus: u64, k: nat, k0: nat)
    requires k0 <= k < 64
    requires (plus == 0 && k0 == 2 && McgParams(mult, plus) && target % 2 == 1) || (k0 == 0 && LcgParams(mult, plus))
    requires cm == StrideMult(mult, Pow2(k - k0)) && cp == StridePlus(mult, plus, Pow2(k - k0))
    requires cur % Pow2(k) == target % Pow2(k) && And(cur, Pow2(k)) != And(target, Pow2(k))
    ensures ((cur * cm + cp) % W64) % Pow2(k + 1) == target % Pow2(k + 1)
  {
    AndPow2(cur, k);
    AndPow2(target, k);
    if k0 == 0 {
      assert k - k0 == k;
      JumpArrivesLcg(cur, target, cm, cp, mult, plus, k);
    } else {
      JumpArrivesMcg(cur, target, cm, cp, mult, k);
    }
  }

  /** The full-period case of JumpArrives: a jump of 2^k steps. */
  lemma JumpArrivesLcg(cur: u64, target: u64, cm: nat, cp: nat, mult: u64, plus: u64, k: nat)
    requires k < 64 && LcgParams(mult, plus)
    requires cm == StrideMult(mult, Pow2(k)) && cp == StridePlus(mult, plus, Pow2(k))
    requires cur % Pow2(k) == target % Pow2(k) && Bit(cur, k) != Bit(target, k)
    ensures ((cur * cm + cp) % W64) % Pow2(k + 1) == target % Pow2(k + 1)
  {
    var n := Pow2(k);
    var q := Pow2(k + 1);
    StrideForm(mult, plus, n);
    var a := Pow(mult, n);
    MulNonNegative(Geo(mult, n), plus);
    var g: nat := Geo(mult, n) * plus;
    assert ((cur * cm + cp) % W64) % q == (a * cur + g) % q by {
      JumpLow(cur, cm, cp, a, g, k);
    }
    assert (a * cur + g) % q == (cur + n) % q by {
      LcgJump(cur, k, mult, plus);
    }
    assert (cur + n) % q == target % q by {
      MatchNextBit(cur, target, k);
    }
  }

  /** The multiplicative case of JumpArrives: a jump of 2^(k-2) steps. */
  lemma JumpArrivesMcg(cur: u64, target: u64, cm: nat, cp: nat, mult: u64, k: nat)
    requires 2 <= k < 64 && McgParams(mult, 0) && target % 2 == 1
    requires cm == StrideMult(mult, Pow2(k - 2)) && cp == StridePlus(mult, 0, Pow2(k - 2))
    requires cur % Pow2(k) == target % Pow2(k) && Bit(cur, k) != Bit(target, k)
    ensures ((cur * cm + cp) % W64) % Pow2(k + 1) == target % Pow2(k + 1)
  {
    var j := k - 2;
    var n := Pow2(j);
    var q := Pow2(k + 1);
    StrideForm(mult, 0, n);
    var a := Pow(mult, n);
    StrideNoPlus(mult, n);
    OddBelow(cur, target, k);
    assert ((cur * cm + cp) % W64) % q == (a * cur + 0) % q by {
      JumpLow(cur, cm, cp, a, 0, k);
    }
    assert (a * cur) % q == (cur + Pow2(k)) % q by {
      McgJump(cur, j, mult);
      assert j + 3 == k + 1 && j + 2 == k;
    }
    assert (cur + Pow2(k)) % q == target % q by {
      MatchNextBit(cur, target, k);
    }
  }

  /** Values agreeing below bit k >= 2 have the same parity. */
  lemma OddBelow(x: nat, y: nat, k: nat)
    requires 2 <= k && x % Pow2(k) == y % Pow2(k) && y % 2 == 1
    ensures x % 2 == 1
  {
    var n := Pow2(k - 1);
    assert Pow2(k) == 2 * n;
    ModOfMultiple(x, 2, n);
    ModOfMultiple(y, 2, n);
  }

  /** The jump taken by the distance loop is `jump` more steps. */
  lemma IterateJump(s: u64, steps: nat, jump: nat, mult: u64, plus: u64, cur: u64, cm: u64, cp: u64)
    requires cur == Iterate(s, steps, mult, plus)
    requires cm == StrideMult(mult, jump) && cp == StridePlus(mult, plus, jump)
    ensures (cur * cm + cp) % W64 == Iterate(s, steps + jump, mult, plus)
  {
    assert Iterate(s, steps + jump, mult, plus) == Iterate(cur, jump, mult, plus) by {
      IterateAdd(s, steps, jump, mult, plus);
    }
    assert (cm * cur + cp) % W64 == Iterate(cur, jump, mult, plus) by {
      StrideApply(cur, jump, mult, plus);
    }
    assert cur * cm == cm * cur;
  }

  // ---------------------------------------------------------------------
  // Every state is reached

  /** From any state an LCG reaches a state agreeing with `t` on its k low
      bits within 2^k steps. */
  lemma {:induction false} LcgMatchBits(s: u64, t: u64, mult: u64, plus: u64, k: nat) returns (n: nat)
    requires LcgParams(mult, plus) && k <= 64
    ensures n < Pow2(k) && Iterate(s, n, mult, plus) % Pow2(k) == t % Pow2(k)
    decreases k
  {
    if k == 0 {
      n := 0;
    } else {
      var n0 := LcgMatchBits(s, t, mult, plus, k - 1);
      var x := Iterate(s, n0, mult, plus);
      MatchNextBit(x, t, k - 1);
      Pow2Strict(k - 1, k);
      if Bit(x, k - 1) == Bit(t, k - 1) {
        n := n0;
      } else {
        LcgBitJump(s, t, n0, mult, plus, k - 1);
        n := n0 + Pow2(k - 1);
      }
    }
  }

  /** 2^k more steps of an LCG fix bit k once the bits below it agree. */
  lemma LcgBitJump(s: u64, t: u64, n0: nat, mult: u64, plus: u64, k: nat)
    requires LcgParams(mult, plus) && k < 64
    requires (Iterate(s, n0, mult, plus) + Pow2(k)) % Pow2(k + 1) == t % Pow2(k + 1)
    ensures Iterate(s, n0 + Pow2(k), mult, plus) % Pow2(k + 1) == t % Pow2(k + 1)
  {
    var x := Iterate(s, n0, mult, plus);
    var h := Pow2(k);
    var y := Iterate(s, n0 + h, mult, plus);
    MulNonNegative(Pow(mult, h), x);
    MulNonNegative(Geo(mult, h), plus);
    var z: nat := Pow(mult, h) * x + Geo(mult, h) * plus;
    assert y == z % W64 by {
      IterateAffine(x, h, mult, plus);
      IterateAdd(s, n0, h, mult, plus);
    }
    assert y % Pow2(k + 1) == z % Pow2(k + 1) by {
      ResidueLow(z, k + 1);
    }
    assert z % Pow2(k + 1) == (x + h) % Pow2(k + 1) by {
      LcgJump(x, k, mult, plus);
    }
  }

  /** From an odd state a multiplicative generator reaches a state agreeing
      with `t` on its j + 2 low bits within 2^j steps, when the two agree on
      their two low bits. */
  lemma {:induction false} McgMatchBits(s: u64, t: u64, mult: u64, j: nat) returns (n: nat)
    requires McgParams(mult, 0) && s % 2 == 1 && s % 4 == t % 4 && j <= 62
    ensures n < Pow2(j) && Iterate(s, n, mult, 0) % Pow2(j + 2) == t % Pow2(j + 2)
    decreases j
  {
    if j == 0 {
      n := 0;
      assert Pow2(2) == 4;
    } else {
      var n0 := McgMatchBits(s, t, mult, j - 1);
      var x := Iterate(s, n0, mult, 0);
      MatchNextBit(x, t, j + 1);
      Pow2Strict(j - 1, j);
      if Bit(x, j + 1) != Bit(t, j + 1) {
        assert t % 2 == 1 by {
          assert Pow2(2) == 4;
          ModOfMultiple(s, 2, 2);
          ModOfMultiple(t, 2, 2);
        }
        McgBitJump(s, t, n0, mult, j - 1);
        n := n0 + Pow2(j - 1);
      } else {
        n := n0;
      }
    }
  }

  /** 2^i more steps of a multiplicative generator fix bit i + 2 of an odd
      state once the bits below it agree. */
  lemma McgBitJump(s: u64, t: u64, n0: nat, mult: u64, i: nat)
    requires McgParams(mult, 0) && i <= 61 && t % 2 == 1
    requires Iterate(s, n0, mult, 0) % Pow2(i + 2) == t % Pow2(i + 2)
    requires (Iterate(s, n0, mult, 0) + Pow2(i + 2)) % Pow2(i + 3) == t % Pow2(i + 3)
    ensures Iterate(s, n0 + Pow2(i), mult, 0) % Pow2(i + 3) == t % Pow2(i + 3)
  {
    var x := Iterate(s, n0, mult, 0);
    var h := Pow2(i);
    var y := Iterate(s, n0 + h, mult, 0);
    MulNonNegative(Pow(mult, h), x);
    var z: nat := Pow(mult, h) * x;
    assert y == z % W64 by {
      IterateAffine(x, h, mult, 0);
      IterateAdd(s, n0, h, mult, 0);
    }
    assert y % Pow2(i + 3) == z % Pow2(i + 3) by {
      ResidueLow(z, i + 3);
    }
    OddBelow(x, t, i + 2);
    assert z % Pow2(i + 3) == (x + Pow2(i + 2)) % Pow2(i + 3) by {
      McgJump(x, i, mult);
    }
  }

  /** Every state is reached from every other within one period: all of
      them for an LCG, and those with the same two low bits for a
      multiplicative generator started from an odd state. */
  lemma Reach(s: u64, t: u64, mult: u64, plus: u64) returns (n: nat)
    requires DistanceParams(s, t, mult, plus)
    ensures n < W64 && Iterate(s, n, mult, plus) == t
    ensures plus == 0 ==> n < 0x4000_0000_0000_0000
  {
    Pow2Of64();
    Pow2Add(62, 2);
    assert Pow2(2) == 4;
    var x;
    if LcgParams(mult, plus) {
      n := LcgMatchBits(s, t, mult, plus, 64);
    } else {
      n := McgMatchBits(s, t, mult, 62);
      Pow2Strict(62, 64);
    }
    x := Iterate(s, n, mult, plus);
    DivModUnique(x, Pow2(64), 0, x);
    DivModUnique(t, Pow2(64), 0, t);
  }

  // ---------------------------------------------------------------------
  // Each state once per period

  /** The numbers below n. */
  ghost function Below(n: nat): set<nat>
  {
    if n == 0 then {} else Below(n - 1) + {n - 1}
  }

  lemma {:induction false} BelowSize(n: nat)
    ensures |Below(n)| == n
  {
    if n > 0 {
      BelowSize(n - 1);
      BelowMember(n - 1, n - 1);
    }
  }

  lemma {:induction false} BelowMember(n: nat, t: nat)
    ensures t in Below(n) <==> t < n
  {
    if n > 0 {
      BelowMember(n - 1, t);
    }
  }

  /** Some number below n is sent to t. */
  ghost predicate Hit(f: nat -> nat, n: nat, t: nat)
  {
    exists i: nat :: i < n && f(i) == t
  }

  /** A set has at least as many elements as its image. */
  lemma {:induction false} ImageSize(f: nat -> nat, s: set<nat>)
    ensures |set i | i in s :: f(i)| <= |s|
    decreases |s|
  {
    if s != {} {
      var x :| x in s;
      ImageSize(f, s - {x});
      assert (set i | i in s :: f(i)) == (set i | i in s - {x} :: f(i)) + {f(x)};
    }
  }

  lemma SubsetSize(a: set<nat>, b: set<nat>)
    requires a <= b
    ensures |a| <= |b|
  {
    assert b == a + (b - a);
  }

  /** A map of the numbers below n onto the numbers below n is one-to-one
      there. */
  lemma OntoIsInjective(f: nat -> nat, n: nat, a: nat, b: nat)
    requires forall t :: t in Below(n) ==> Hit(f, n, t)
    requires a < n && b < n && f(a) == f(b)
    ensures a == b
  {
    if a != b {
      var rest := Below(n) - {b};
      var image := set i | i in rest :: f(i);
      forall t | t in Below(n)
        ensures t in image
      {
        var i: nat :| i < n && f(i) == t;
        BelowMember(n, i);
        BelowMember(n, a);
        if i == b {
          assert a in rest && f(a) == t;
        } else {
          assert i in rest;
        }
      }
      SubsetSize(Below(n), image);
      ImageSize(f, rest);
      BelowSize(n);
      BelowMember(n, b);
    }
  }

  /** A full-period LCG passes each state once per period: two step counts
      below 2^64 that lead to the same state are equal, so the count
      `distance` finds is the only one. */
  lemma IterateInjective(s: u64, mult: u64, plus: u64, a: nat, b: nat)
    requires LcgParams(mult, plus) && a < W64 && b < W64
    requires Iterate(s, a, mult, plus) == Iterate(s, b, mult, plus)
    ensures a == b
  {
    var f := (i: nat) => Iterate(s, i, mult, plus) as nat;
    var n: nat := W64;
    forall t | t in Below(n)
      ensures Hit(f, n, t)
    {
      BelowMember(n, t);
      var i := Reach(s, t as u64, mult, plus);
      assert f(i) == t;
    }
    OntoIsInjective(f, n, a, b);
  }
}
