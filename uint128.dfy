/** `uint_x4<uint32_t, uint64_t>`, the emulated 128-bit unsigned integer the
    library falls back on when the compiler has no native 128-bit type: four
    32-bit words, or two 64-bit halves, that together stand for one number
    below 2^128. Every operator is specified by the number it computes. */
module UInt128 {
  import opened Words
  import opened Bits
  import opened Carry
  import opened BitCount

  /** The four words, most significant first (`v3` .. `v0`); the two halves
      are `d.v23 == High()` and `d.v01 == Low()`. The layout of the words in
      memory, which depends on the machine's byte order, is not modelled. */
  datatype UIntX4 = UIntX4(v3: u32, v2: u32, v1: u32, v0: u32)
  {
    /** The number the words stand for. */
    function Value(): (r: nat)
    {
      ((v3 * 0x1_0000_0000 + v2) * 0x1_0000_0000 + v1) * 0x1_0000_0000 + v0
    }

    /** `d.v23` */
    function High(): u64
    {
      v3 * 0x1_0000_0000 + v2
    }

    /** `d.v01`, which is also what `operator UIntX2()` returns. */
    function Low(): u64
    {
      v1 * 0x1_0000_0000 + v0
    }

    /** `wa[i]` on a little-endian machine: word `i` counted from the least
        significant. */
    function Word(i: nat): u32
      requires i < 4
    {
      if i == 0 then v0 else if i == 1 then v1 else if i == 2 then v2 else v3
    }
  }

  /** `uint_x4(UIntX2 v23, UIntX2 v01)`. */
  function FromHalves(high: u64, low: u64): (r: UIntX4)
    ensures r.High() == high && r.Low() == low
    ensures r.Value() == high * 0x1_0000_0000_0000_0000 + low
  {
    SplitHalves(high, 0x1_0000_0000);
    SplitHalves(low, 0x1_0000_0000);
    UIntX4(high / 0x1_0000_0000, high % 0x1_0000_0000, low / 0x1_0000_0000, low % 0x1_0000_0000)
  }

  /** `uint_x4(UIntX2 v01)` and the conversion from a narrower integer. */
  function FromLow(low: u64): (r: UIntX4)
    ensures r.Value() == low
  {
    FromHalves(0, low)
  }

  /** `explicit operator bool()`: either half is non-zero. */
  function IsNonZero(v: UIntX4): (r: bool)
    ensures r <==> v.Value() != 0
  {
    v.Low() != 0 || v.High() != 0
  }

  // ---------------------------------------------------------------------
  // Comparisons: the high halves decide unless they are equal

  /** `operator==` */
  function Equal(a: UIntX4, b: UIntX4): (r: bool)
    ensures r <==> a.Value() == b.Value()
    ensures r <==> a == b
  {
    SameValue(a, b);
    (a.Low() == b.Low()) && (a.High() == b.High())
  }

  /** `operator!=` */
  function NotEqual(a: UIntX4, b: UIntX4): (r: bool)
    ensures r <==> a.Value() != b.Value()
  {
    !Equal(a, b)
  }

  /** `operator<` */
  function Less(a: UIntX4, b: UIntX4): (r: bool)
    ensures r <==> a.Value() < b.Value()
  {
    HalvesOrder(a.High(), a.Low(), b.High(), b.Low());
    (a.High() < b.High()) || ((a.High() == b.High()) && (a.Low() < b.Low()))
  }

  /** `operator>` */
  function Greater(a: UIntX4, b: UIntX4): (r: bool)
    ensures r <==> a.Value() > b.Value()
  {
    Less(b, a)
  }

  /** `operator<=` */
  function LessEq(a: UIntX4, b: UIntX4): (r: bool)
    ensures r <==> a.Value() <= b.Value()
  {
    !Less(b, a)
  }

  /** `operator>=` */
  function GreaterEq(a: UIntX4, b: UIntX4): (r: bool)
    ensures r <==> a.Value() >= b.Value()
  {
    !Less(a, b)
  }

  /** Two numbers split into halves compare as their high halves do, and as
      their low halves when the high halves are equal. */
  lemma HalvesOrder(ah: nat, al: nat, bh: nat, bl: nat)
    requires al < 0x1_0000_0000_0000_0000 && bl < 0x1_0000_0000_0000_0000
    ensures (ah * 0x1_0000_0000_0000_0000 + al < bh * 0x1_0000_0000_0000_0000 + bl) <==> (ah < bh || (ah == bh && al < bl))
  {
  }

  /** Equal numbers have equal words. */
  lemma SameValue(a: UIntX4, b: UIntX4)
    ensures a.Value() == b.Value() <==> a == b
  {
    if a.Value() == b.Value() {
      DivModOfSum(a.High(), 0x1_0000_0000_0000_0000, a.Low());
      DivModOfSum(b.High(), 0x1_0000_0000_0000_0000, b.Low());
      DivModOfSum(a.v3, 0x1_0000_0000, a.v2);
      DivModOfSum(b.v3, 0x1_0000_0000, b.v2);
      DivModOfSum(a.v1, 0x1_0000_0000, a.v0);
      DivModOfSum(b.v1, 0x1_0000_0000, b.v0);
    }
  }

  // ---------------------------------------------------------------------
  // Addition and subtraction

  /** `addwithcarry` and `subwithcarry` on 32-bit words, with the word size
      written out. */
  function AddWord(x: u32, y: u32, carryIn: bool): (r: (u32, bool))
    ensures x + y + CarryBit(carryIn) == r.0 + CarryBit(r.1) * 0x1_0000_0000
  {
    Pow2Widths();
    AddWithCarry(32, x, y, carryIn)
  }

  function SubWord(x: u32, y: u32, carryIn: bool): (r: (u32, bool))
    ensures x - y - CarryBit(carryIn) == r.0 - CarryBit(r.1) * 0x1_0000_0000
  {
    Pow2Widths();
    SubWithCarry(32, x, y, carryIn)
  }

  /** Four word additions chained by their carries add the numbers. */
  lemma AddChain(a: UIntX4, b: UIntX4, r: UIntX4, c0: nat, c1: nat, c2: nat, c3: nat)
    requires a.v0 + b.v0 == r.v0 + c0 * 0x1_0000_0000
    requires a.v1 + b.v1 + c0 == r.v1 + c1 * 0x1_0000_0000
    requires a.v2 + b.v2 + c1 == r.v2 + c2 * 0x1_0000_0000
    requires a.v3 + b.v3 + c2 == r.v3 + c3 * 0x1_0000_0000
    ensures a.Value() + b.Value() == r.Value() + c3 * 0x1_0000_0000_0000_0000_0000_0000_0000_0000
  {
  }

  /** Four word subtractions chained by their borrows subtract the numbers. */
  lemma SubChain(a: UIntX4, b: UIntX4, r: UIntX4, c0: nat, c1: nat, c2: nat, c3: nat)
    requires a.v0 - b.v0 == r.v0 - c0 * 0x1_0000_0000
    requires a.v1 - b.v1 - c0 == r.v1 - c1 * 0x1_0000_0000
    requires a.v2 - b.v2 - c1 == r.v2 - c2 * 0x1_0000_0000
    requires a.v3 - b.v3 - c2 == r.v3 - c3 * 0x1_0000_0000
    ensures a.Value() - b.Value() == r.Value() - c3 * 0x1_0000_0000_0000_0000_0000_0000_0000_0000
  {
  }

  /** The generic `operator+`: a carry runs from the lowest word to the
      highest; the carry out of the highest word is dropped. */
  method Add(a: UIntX4, b: UIntX4) returns (r: UIntX4)
    ensures r.Value() == if a.Value() + b.Value() < 0x1_0000_0000_0000_0000_0000_0000_0000_0000 then a.Value() + b.Value()
                         else a.Value() + b.Value() - 0x1_0000_0000_0000_0000_0000_0000_0000_0000
  {
    var carryIn := false;
    var s := AddWord(a.v0, b.v0, carryIn);
    var w0, carry0 := s.0, s.1;
    carryIn := carry0;
    s := AddWord(a.v1, b.v1, carryIn);
    var w1, carry1 := s.0, s.1;
    carryIn := carry1;
    s := AddWord(a.v2, b.v2, carryIn);
    var w2, carry2 := s.0, s.1;
    carryIn := carry2;
    s := AddWord(a.v3, b.v3, carryIn);
    var w3, carry3 := s.0, s.1;
    r := UIntX4(w3, w2, w1, w0);
    AddChain(a, b, r, CarryBit(carry0), CarryBit(carry1), CarryBit(carry2), CarryBit(carry3));
  }

  /** The generic `operator-`: a borrow runs from the lowest word to the
      highest; the borrow out of the highest word is dropped. */
  method Sub(a: UIntX4, b: UIntX4) returns (r: UIntX4)
    ensures r.Value() == if a.Value() >= b.Value() then a.Value() - b.Value()
                         else a.Value() - b.Value() + 0x1_0000_0000_0000_0000_0000_0000_0000_0000
  {
    var carryIn := false;
    var s := SubWord(a.v0, b.v0, carryIn);
    var w0, carry0 := s.0, s.1;
    carryIn := carry0;
    s := SubWord(a.v1, b.v1, carryIn);
    var w1, carry1 := s.0, s.1;
    carryIn := carry1;
    s := SubWord(a.v2, b.v2, carryIn);
    var w2, carry2 := s.0, s.1;
    carryIn := carry2;
    s := SubWord(a.v3, b.v3, carryIn);
    var w3, carry3 := s.0, s.1;
    r := UIntX4(w3, w2, w1, w0);
    SubChain(a, b, r, CarryBit(carry0), CarryBit(carry1), CarryBit(carry2), CarryBit(carry3));
  }

  /** `addwithcarry` and `subwithcarry` on 64-bit halves. */
  function AddHalf(x: u64, y: u64, carryIn: bool): (r: (u64, bool))
    ensures x + y + CarryBit(carryIn) == r.0 + CarryBit(r.1) * 0x1_0000_0000_0000_0000
  {
    Pow2Widths();
    AddWithCarry(64, x, y, carryIn)
  }

  function SubHalf(x: u64, y: u64, carryIn: bool): (r: (u64, bool))
    ensures x - y - CarryBit(carryIn) == r.0 - CarryBit(r.1) * 0x1_0000_0000_0000_0000
  {
    Pow2Widths();
    SubWithCarry(64, x, y, carryIn)
  }

  /** `operator+` specialised to 64-bit halves: one carry, from the low half
      into the high half. */
  method Add64(a: UIntX4, b: UIntX4) returns (r: UIntX4)
    ensures r.Value() == if a.Value() + b.Value() < 0x1_0000_0000_0000_0000_0000_0000_0000_0000 then a.Value() + b.Value()
                         else a.Value() + b.Value() - 0x1_0000_0000_0000_0000_0000_0000_0000_0000
  {
    var carryIn := false;
    var s := AddHalf(a.Low(), b.Low(), carryIn);
    var low, carryLow := s.0, s.1;
    carryIn := carryLow;
    s := AddHalf(a.High(), b.High(), carryIn);
    var high, carryHigh := s.0, s.1;
    r := FromHalves(high, low);
  }

  /** `operator-` specialised to 64-bit halves. */
  method Sub64(a: UIntX4, b: UIntX4) returns (r: UIntX4)
    ensures r.Value() == if a.Value() >= b.Value() then a.Value() - b.Value()
                         else a.Value() - b.Value() + 0x1_0000_0000_0000_0000_0000_0000_0000_0000
  {
    var carryIn := false;
    var s := SubHalf(a.Low(), b.Low(), carryIn);
    var low, carryLow := s.0, s.1;
    carryIn := carryLow;
    s := SubHalf(a.High(), b.High(), carryIn);
    var high, carryHigh := s.0, s.1;
    r := FromHalves(high, low);
  }

  /** Unary `operator-`: zero minus the value, the two's complement. */
  method Negate(v: UIntX4) returns (r: UIntX4)
    ensures r.Value() == if v.Value() == 0 then 0 else 0x1_0000_0000_0000_0000_0000_0000_0000_0000 - v.Value()
    ensures v.Value() + r.Value() == 0 || v.Value() + r.Value() == 0x1_0000_0000_0000_0000_0000_0000_0000_0000
  {
    r := Sub64(UIntX4(0, 0, 0, 0), v);
  }

  // ---------------------------------------------------------------------
  // Multiplication

  /** The number four loose words stand for. */
  ghost function WordsValue(w3: nat, w2: nat, w1: nat, w0: nat): nat
  {
    w3 * 0x1_0000_0000_0000_0000_0000_0000 + w2 * 0x1_0000_0000_0000_0000 + w1 * 0x1_0000_0000 + w0
  }

  /** `UIntX2(a) * UIntX2(b)`: two 32-bit words multiply exactly in 64 bits. */
  function MulWords(x: u32, y: u32): (p: u64)
    ensures p == x * y
  {
    MulNonNegative(x, y);
    MulLess(x, y, 0x1_0000_0000, 0x1_0000_0000);
    x * y
  }

  /** The high and low 32-bit words of a 64-bit value. */
  lemma SplitWord(p: u64)
    ensures p / 0x1_0000_0000 < 0x1_0000_0000
    ensures p == p / 0x1_0000_0000 * 0x1_0000_0000 + p % 0x1_0000_0000
  {
    SplitHalves(p, 0x1_0000_0000);
  }

  /** The `v1` and `v0` words of a `UIntX2`. */
  method SplitU64(p: u64) returns (high: u32, low: u32)
    ensures p == high * 0x1_0000_0000 + low
  {
    SplitWord(p);
    high, low := p / 0x1_0000_0000, p % 0x1_0000_0000;
  }

  /** Multiplying two numbers of two halves each, by distributivity. */
  lemma ProductOfHalves(xh: nat, xl: nat, yh: nat, yl: nat, m: nat)
    ensures (xh * m + xl) * (yh * m + yl) == xh * yh * (m * m) + (xh * yl + xl * yh) * m + xl * yl
  {
    calc {
      (xh * m + xl) * (yh * m + yl);
      (xh * m) * (yh * m) + (xh * m) * yl + xl * (yh * m) + xl * yl;
      { assert (xh * m) * (yh * m) == xh * yh * (m * m);
        assert (xh * m) * yl == (xh * yl) * m;
        assert xl * (yh * m) == (xl * yh) * m; }
      xh * yh * (m * m) + (xh * yl + xl * yh) * m + xl * yl;
    }
  }

  /** The full 64-bit by 64-bit product of the low halves, `a.d.v01 * b.d.v01`,
      computed from four 32-bit products, as the generic `operator*` does. */
  method WideProduct(a1: u32, a0: u32, b1: u32, b0: u32) returns (r: UIntX4)
    ensures r.Value() == (a1 * 0x1_0000_0000 + a0) * (b1 * 0x1_0000_0000 + b0)
  {
    var a0b0 := MulWords(a0, b0);
    var a1b0 := MulWords(a1, b0);
    var a0b1 := MulWords(a0, b1);
    var a1b1 := MulWords(a1, b1);
    ProductOfHalves(a1, a0, b1, b0, 0x1_0000_0000);
    MulLess(a1 * 0x1_0000_0000 + a0, b1 * 0x1_0000_0000 + b0, 0x1_0000_0000_0000_0000, 0x1_0000_0000_0000_0000);
    r := AddProducts(a0b0, a1b0, a0b1, a1b1);
  }

  /** The carry chain of the generic `operator*`: the halves of the four
      partial products are added into the result words at their places.
      The carries out of the top word are dropped, as in the source; they
      are always zero because the sum fits in 128 bits. */
  method AddProducts(a0b0: u64, a1b0: u64, a0b1: u64, a1b1: u64) returns (r: UIntX4)
    requires a0b0 + (a1b0 + a0b1) * 0x1_0000_0000 + a1b1 * 0x1_0000_0000_0000_0000
             < 0x1_0000_0000_0000_0000_0000_0000_0000_0000
    ensures r.Value() == a0b0 + (a1b0 + a0b1) * 0x1_0000_0000 + a1b1 * 0x1_0000_0000_0000_0000
  {
    var carryIn := false;
    var s: (u32, bool);
    ghost var lost: nat := 0;
    SplitWord(a0b0);
    SplitWord(a1b0);
    SplitWord(a0b1);
    SplitWord(a1b1);

    var w0: u32 := a0b0 % 0x1_0000_0000;
    var w1: u32 := a0b0 / 0x1_0000_0000;
    var w2: u32 := a1b0 / 0x1_0000_0000;
    var w3: u32 := 0;
    s := AddWord(w1, a1b0 % 0x1_0000_0000, carryIn);
    w1, carryIn := s.0, s.1;
    s := AddWord(w2, 0, carryIn);
    w2, carryIn := s.0, s.1;
    s := AddWord(w3, 0, carryIn);
    w3, carryIn := s.0, s.1;
    lost := lost + CarryBit(carryIn);
    assert WordsValue(w3, w2, w1, w0) + lost * 0x1_0000_0000_0000_0000_0000_0000_0000_0000
        == a0b0 + a1b0 * 0x1_0000_0000;

    var c1, c2: bool;
    w3, w2, w1, c1 := AddCross(w3, w2, w1, a0b1);
    lost := lost + CarryBit(c1);
    w3, w2, c2 := AddTop(w3, w2, a1b1);
    lost := lost + CarryBit(c2);
    assert WordsValue(w3, w2, w1, w0) + lost * 0x1_0000_0000_0000_0000_0000_0000_0000_0000
        == a0b0 + (a1b0 + a0b1) * 0x1_0000_0000 + a1b1 * 0x1_0000_0000_0000_0000;
    assert lost == 0;
    r := UIntX4(w3, w2, w1, w0);
    assert r.Value() == WordsValue(w3, w2, w1, w0);
  }

  /** Adds a 64-bit partial product one word up: its high word into `v2`,
      then its low word into `v1`, each with its carry rippling upwards; the
      carry out of `v3` is returned as `lost`. */
  method AddCross(w3: u32, w2: u32, w1: u32, p: u64) returns (w3': u32, w2': u32, w1': u32, lost: bool)
    ensures (w3' * 0x1_0000_0000 + w2') * 0x1_0000_0000 + w1' + CarryBit(lost) * 0x1_0000_0000_0000_0000_0000_0000
         == (w3 * 0x1_0000_0000 + w2) * 0x1_0000_0000 + w1 + p
  {
    SplitWord(p);
    var s: (u32, bool);
    var carryIn := false;
    s := AddWord(w2, p / 0x1_0000_0000, carryIn);
    w2', carryIn := s.0, s.1;
    s := AddWord(w3, 0, carryIn);
    w3', carryIn := s.0, s.1;
    var first := carryIn;
    carryIn := false;
    s := AddWord(w1, p % 0x1_0000_0000, carryIn);
    w1', carryIn := s.0, s.1;
    s := AddWord(w2', 0, carryIn);
    w2', carryIn := s.0, s.1;
    s := AddWord(w3', 0, carryIn);
    w3', carryIn := s.0, s.1;
    // at most one of the two additions can carry out of the top word
    lost := first || carryIn;
    assert !(first && carryIn);
  }

  /** Adds a 64-bit partial product two words up, into `v2` and `v3`. */
  method AddTop(w3: u32, w2: u32, p: u64) returns (w3': u32, w2': u32, lost: bool)
    ensures w3' * 0x1_0000_0000 + w2' + CarryBit(lost) * 0x1_0000_0000_0000_0000
         == w3 * 0x1_0000_0000 + w2 + p
  {
    SplitWord(p);
    var s := AddWord(w2, p % 0x1_0000_0000, false);
    w2' := s.0;
    s := AddWord(w3, p / 0x1_0000_0000, s.1);
    w3', lost := s.0, s.1;
  }

  /** The two halves of a number. */
  lemma ValueOfHalves(x: UIntX4)
    ensures x.Value() == x.High() * 0x1_0000_0000_0000_0000 + x.Low()
  {
  }

  /** `UIntX2` arithmetic wraps modulo 2^64. */
  function AddWrap64(x: u64, y: u64): (s: u64)
    ensures s == (x + y) % 0x1_0000_0000_0000_0000
  {
    (x + y) % 0x1_0000_0000_0000_0000
  }

  function MulWrap64(x: u64, y: u64): (p: u64)
    ensures p == (x * y) % 0x1_0000_0000_0000_0000
  {
    MulNonNegative(x, y);
    (x * y) % 0x1_0000_0000_0000_0000
  }

  /** Only the low 64 bits of the cross products reach the result: the
      high half wraps modulo 2^64. */
  lemma HighHalfWraps(h: nat, l: nat, cross: int, rest: int, x: int)
    requires h < 0x1_0000_0000_0000_0000 && l < 0x1_0000_0000_0000_0000
    requires x == h * 0x1_0000_0000_0000_0000 + l + cross * 0x1_0000_0000_0000_0000
                  + rest * 0x1_0000_0000_0000_0000_0000_0000_0000_0000
    ensures (h + cross % 0x1_0000_0000_0000_0000) % 0x1_0000_0000_0000_0000 * 0x1_0000_0000_0000_0000 + l
         == x % 0x1_0000_0000_0000_0000_0000_0000_0000_0000
  {
    var m := 0x1_0000_0000_0000_0000;
    var high := (h + cross % m) % m;
    var q1 := (h + cross % m) / m;
    assert h + cross % m == q1 * m + high;
    assert cross == cross / m * m + cross % m;
    assert x == (q1 + cross / m + rest) * (m * m) + (high * m + l) by {
      assert cross * m == (cross / m) * (m * m) + (cross % m) * m;
      assert (h + cross % m) * m == q1 * (m * m) + high * m;
    }
    MulBelow(high, m, m, l);
    Wrap128(x, q1 + cross / m + rest, high * m + l);
  }

  /** The product modulo 2^128 from the full product of the low halves and
      the two cross products, each wrapped to 64 bits. */
  lemma MulCorrect(ah: nat, al: nat, bh: nat, bl: nat, lowHigh: nat, lowLow: nat, c1: nat, c2: nat, r: nat)
    requires al < 0x1_0000_0000_0000_0000 && bl < 0x1_0000_0000_0000_0000
    requires lowHigh < 0x1_0000_0000_0000_0000 && lowLow < 0x1_0000_0000_0000_0000
    requires lowHigh * 0x1_0000_0000_0000_0000 + lowLow == al * bl
    requires c1 == (al * bh) % 0x1_0000_0000_0000_0000 && c2 == (ah * bl) % 0x1_0000_0000_0000_0000
    requires r == (lowHigh + (c1 + c2) % 0x1_0000_0000_0000_0000) % 0x1_0000_0000_0000_0000
                  * 0x1_0000_0000_0000_0000 + lowLow
    ensures r == ((ah * 0x1_0000_0000_0000_0000 + al) * (bh * 0x1_0000_0000_0000_0000 + bl))
                 % 0x1_0000_0000_0000_0000_0000_0000_0000_0000
  {
    MulNonNegative(al, bh);
    MulNonNegative(ah, bl);
    MulNonNegative(ah, bh);
    MulNonNegative(ah * 0x1_0000_0000_0000_0000 + al, bh * 0x1_0000_0000_0000_0000 + bl);
    ProductSplit(ah, al, bh, bl, lowHigh, lowLow);
    WrapCrossProducts((ah * 0x1_0000_0000_0000_0000 + al) * (bh * 0x1_0000_0000_0000_0000 + bl),
                      al * bh, ah * bl, ah * bh, lowHigh, lowLow, c1, c2, r);
  }

  /** The same, with each product taken as a given number. */
  lemma WrapCrossProducts(x: nat, p1: nat, p2: nat, rest: nat, lowHigh: nat, lowLow: nat, c1: nat, c2: nat, r: nat)
    requires lowHigh < 0x1_0000_0000_0000_0000 && lowLow < 0x1_0000_0000_0000_0000
    requires x == lowHigh * 0x1_0000_0000_0000_0000 + lowLow + (p1 + p2) * 0x1_0000_0000_0000_0000
                  + rest * 0x1_0000_0000_0000_0000_0000_0000_0000_0000
    requires c1 == p1 % 0x1_0000_0000_0000_0000 && c2 == p2 % 0x1_0000_0000_0000_0000
    requires r == (lowHigh + (c1 + c2) % 0x1_0000_0000_0000_0000) % 0x1_0000_0000_0000_0000
                  * 0x1_0000_0000_0000_0000 + lowLow
    ensures r == x % 0x1_0000_0000_0000_0000_0000_0000_0000_0000
  {
    AddMod(p1, p2, 0x1_0000_0000_0000_0000);
    HighHalfWraps(lowHigh, lowLow, p1 + p2, rest, x);
  }

  /** The full product regrouped by powers of 2^64, the low product given by
      its two halves. */
  lemma ProductSplit(ah: nat, al: nat, bh: nat, bl: nat, lowHigh: nat, lowLow: nat)
    requires lowHigh * 0x1_0000_0000_0000_0000 + lowLow == al * bl
    ensures (ah * 0x1_0000_0000_0000_0000 + al) * (bh * 0x1_0000_0000_0000_0000 + bl)
         == lowHigh * 0x1_0000_0000_0000_0000 + lowLow + (al * bh + ah * bl) * 0x1_0000_0000_0000_0000
            + ah * bh * 0x1_0000_0000_0000_0000_0000_0000_0000_0000
  {
    ProductOfHalves(ah, al, bh, bl, 0x1_0000_0000_0000_0000);
  }

  /** The generic `operator*` (`uint_x4 * uint_x4`): the full product of the
      low halves, plus the two cross products added into the high half in
      64-bit arithmetic; the product of the high halves only affects bits
      beyond 128. */
  method Mul(a: UIntX4, b: UIntX4) returns (r: UIntX4)
    ensures r.Value() == (a.Value() * b.Value()) % 0x1_0000_0000_0000_0000_0000_0000_0000_0000
  {
    var low := WideProduct(a.v1, a.v0, b.v1, b.v0);
    var cross := AddWrap64(MulWrap64(a.Low(), b.High()), MulWrap64(a.High(), b.Low()));
    r := FromHalves(AddWrap64(low.High(), cross), low.Low());
    ValueOfHalves(a);
    ValueOfHalves(b);
    ValueOfHalves(low);
    MulCorrect(a.High(), a.Low(), b.High(), b.Low(), low.High(), low.Low(),
      MulWrap64(a.Low(), b.High()), MulWrap64(a.High(), b.Low()), r.Value());
  }

  /** `operator*(uint_x4, UIntX2)`: as the generic product, with a multiplier
      whose high half is zero. */
  method MulHalf(a: UIntX4, b01: u64) returns (r: UIntX4)
    ensures r.Value() == (a.Value() * b01) % 0x1_0000_0000_0000_0000_0000_0000_0000_0000
  {
    var b1, b0 := SplitU64(b01);
    var low := WideProduct(a.v1, a.v0, b1, b0);
    var cross := MulWrap64(a.High(), b01);
    var high := AddWrap64(low.High(), cross);
    r := FromHalves(high, low.Low());
    ValueOfHalves(a);
    ValueOfHalves(low);
    assert low.Value() == a.Low() * b01;
    assert (a.Low() * 0) % 0x1_0000_0000_0000_0000 == 0 by {
      MulZero(a.Low());
    }
    assert (0 + cross) % 0x1_0000_0000_0000_0000 == cross by {
      DivModUnique(cross, 0x1_0000_0000_0000_0000, 0, cross);
    }
    MulCorrect(a.High(), a.Low(), 0, b01, low.High(), low.Low(), 0, cross, r.Value());
  }

  /** `operator*` specialised to 64-bit halves: the native 64 x 64 -> 128-bit
      product of the low halves, and the cross products added into its high
      half. */
  function Mul64(a: UIntX4, b: UIntX4): (r: UIntX4)
    ensures r.Value() == (a.Value() * b.Value()) % 0x1_0000_0000_0000_0000_0000_0000_0000_0000
  {
    MulNonNegative(a.Low(), b.Low());
    MulLess(a.Low(), b.Low(), 0x1_0000_0000_0000_0000, 0x1_0000_0000_0000_0000);
    SplitHalves(a.Low() * b.Low(), 0x1_0000_0000_0000_0000);
    var product := a.Low() * b.Low();
    var lo := product % 0x1_0000_0000_0000_0000;
    var hi := product / 0x1_0000_0000_0000_0000;
    var hi' := AddWrap64(hi, AddWrap64(MulWrap64(a.High(), b.Low()), MulWrap64(a.Low(), b.High())));
    var r := FromHalves(hi', lo);
    ValueOfHalves(a);
    ValueOfHalves(b);
    MulCorrect(a.High(), a.Low(), b.High(), b.Low(), hi, lo,
      MulWrap64(a.Low(), b.High()), MulWrap64(a.High(), b.Low()), r.Value());
    r
  }

  // ---------------------------------------------------------------------
  // flog2 and trailingzeros

  /** `flog2(uint_x4)` specialised to 64-bit halves: the high half decides
      when it is not zero. */
  function Flog2X4(v: UIntX4): (r: nat)
    ensures r < 128
    ensures v.Value() > 0 ==> r == FloorLog2(v.Value())
    ensures v.Value() == 0 ==> r == 0
  {
    ValueOfHalves(v);
    var r := if v.High() > 0 then Flog2U64(v.High()) + 64 else Flog2U64(v.Low());
    Pow2Of64();
    Flog2Halves(v.Value(), v.High(), v.Low(), 64, r);
    r
  }

  /** `trailingzeros(uint_x4)` specialised to 64-bit halves: the low half
      decides when it is not zero. A zero value gives 96, because the 64-bit
      `trailingzeros` of zero is 32. */
  function TrailingZerosX4(v: UIntX4): (r: nat)
    ensures v.Value() > 0 ==> r < 128 && r == TrailingZeroCount(v.Value())
    ensures v.Value() == 0 ==> r == 96
  {
    ValueOfHalves(v);
    Pow2Widths();
    if v.Low() == 0 then
      var t := TrailingZerosU64(v.High());
      if v.Value() > 0 then
        TrailingZerosOfShifted(v.Value(), v.High(), 64);
        t + 64
      else
        t + 64
    else
      var t := TrailingZerosU64(v.Low());
      TrailingZerosAgree(v.Value(), v.Low(), v.High(), 64, t);
      t
  }

  /** The generic `flog2(uint_x4)`: scan the words from the most significant
      down and take the first non-zero one. The source aborts when every word
      is zero. */
  method Flog2Words(v: UIntX4) returns (r: nat)
    requires v.Value() != 0
    ensures r == FloorLog2(v.Value())
  {
    var i := 4;
    assert Pow2(32 * 4) == 0x1_0000_0000_0000_0000_0000_0000_0000_0000 by {
      Pow2Widths();
    }
    while i != 0
      invariant 0 <= i <= 4
      invariant forall j :: i <= j < 4 ==> v.Word(j) == 0
      invariant v.Value() < Pow2(32 * i)
    {
      i := i - 1;
      if v.Word(i) != 0 {
        var f := Flog2U32(v.Word(i));
        HighestWord(v, i, f);
        return f + 32 * i;
      }
      var low := TopWordSplit(v, i);
    }
    assert false;
  }

  /** The first non-zero word from the top decides the floor logarithm. */
  lemma HighestWord(v: UIntX4, i: nat, f: nat)
    requires i < 4 && forall j :: i < j < 4 ==> v.Word(j) == 0
    requires v.Word(i) != 0 && f == FloorLog2(v.Word(i))
    ensures FloorLog2(v.Value()) == f + 32 * i
  {
    var low := TopWordSplit(v, i);
    FloorLog2Bounds(v.Word(i));
    FloorLog2OfHalves(v.Value(), v.Word(i), low, 32 * i, f);
  }

  /** The generic `trailingzeros(uint_x4)`: scan the words from the least
      significant up and take the first non-zero one; zero gives 128. */
  method TrailingZerosWords(v: UIntX4) returns (r: nat)
    ensures v.Value() > 0 ==> r < 128 && r == TrailingZeroCount(v.Value())
    ensures v.Value() == 0 ==> r == 128
  {
    var i := 0;
    while i < 4
      invariant 0 <= i <= 4
      invariant forall j :: 0 <= j < i ==> v.Word(j) == 0
    {
      if v.Word(i) != 0 {
        var t := TrailingZerosU32(v.Word(i));
        LowestWord(v, i, t);
        return t + 32 * i;
      }
      i := i + 1;
    }
    AllWordsZero(v);
    r := 128;
  }

  /** The first non-zero word from the bottom decides the trailing zeros. */
  lemma LowestWord(v: UIntX4, i: nat, t: nat)
    requires i < 4 && forall j :: 0 <= j < i ==> v.Word(j) == 0
    requires v.Word(i) != 0 && t == TrailingZeroCount(v.Word(i))
    ensures v.Value() > 0 && TrailingZeroCount(v.Value()) == t + 32 * i
  {
    var high := BottomWordSplit(v, i);
    TrailingWord(v.Value(), high, v.Word(i), i, t);
  }

  lemma AllWordsZero(v: UIntX4)
    requires forall j :: 0 <= j < 4 ==> v.Word(j) == 0
    ensures v.Value() == 0
  {
    assert v.Word(0) == 0 && v.Word(1) == 0 && v.Word(2) == 0 && v.Word(3) == 0;
  }

  /** When the words above word `i` are zero, word `i` is the top of the
      value. */
  lemma TopWordSplit(v: UIntX4, i: nat) returns (low: nat)
    requires i < 4 && forall j :: i < j < 4 ==> v.Word(j) == 0
    ensures low < Pow2(32 * i) && v.Value() == v.Word(i) * Pow2(32 * i) + low
  {
    Pow2Words();
    if i == 3 {
      assert Pow2(32 * i) == 0x1_0000_0000_0000_0000_0000_0000;
      low := (v.v2 * 0x1_0000_0000 + v.v1) * 0x1_0000_0000 + v.v0;
    } else if i == 2 {
      assert v.Word(3) == 0;
      assert Pow2(32 * i) == 0x1_0000_0000_0000_0000;
      low := v.v1 * 0x1_0000_0000 + v.v0;
    } else if i == 1 {
      assert v.Word(3) == 0 && v.Word(2) == 0;
      assert Pow2(32 * i) == 0x1_0000_0000;
      low := v.v0;
    } else {
      assert v.Word(3) == 0 && v.Word(2) == 0 && v.Word(1) == 0;
      assert Pow2(32 * i) == 1;
      low := 0;
    }
  }

  /** When the words below word `i` are zero, word `i` is the lowest
      non-zero part of the value. */
  lemma BottomWordSplit(v: UIntX4, i: nat) returns (high: nat)
    requires i < 4 && forall j :: 0 <= j < i ==> v.Word(j) == 0
    ensures v.Value() == (high * 0x1_0000_0000 + v.Word(i)) * Pow2(32 * i)
  {
    Pow2Words();
    if i == 0 {
      assert Pow2(32 * i) == 1;
      high := (v.v3 * 0x1_0000_0000 + v.v2) * 0x1_0000_0000 + v.v1;
    } else if i == 1 {
      assert v.Word(0) == 0;
      assert Pow2(32 * i) == 0x1_0000_0000;
      high := v.v3 * 0x1_0000_0000 + v.v2;
    } else if i == 2 {
      assert v.Word(0) == 0 && v.Word(1) == 0;
      assert Pow2(32 * i) == 0x1_0000_0000_0000_0000;
      high := v.v3;
    } else {
      assert v.Word(0) == 0 && v.Word(1) == 0 && v.Word(2) == 0;
      assert Pow2(32 * i) == 0x1_0000_0000_0000_0000_0000_0000;
      high := 0;
    }
  }

  lemma TrailingWord(v: nat, high: nat, word: u32, i: nat, t: nat)
    requires word > 0 && t == TrailingZeroCount(word)
    requires v == (high * 0x1_0000_0000 + word) * Pow2(32 * i)
    ensures v > 0 && TrailingZeroCount(v) == t + 32 * i
  {
    assert Pow2(32) == 0x1_0000_0000 by {
      Pow2Words();
    }
    var x := high * 0x1_0000_0000 + word;
    TrailingZerosAgree(x, word, high, 32, t);
    var p := Pow2(32 * i);
    assert v == x * p;
    MulAtLeast(x, p);
    TrailingZerosOfShifted(v, x, 32 * i);
  }

  // ---------------------------------------------------------------------
  // Shifts (the 64-bit specialisations, which work on the two halves)

  /** A 64-bit word shifted left stays a 64-bit word. */
  function ShlWord(a: u64, k: nat): (r: u64)
    ensures r == Shl(a, k, 64)
  {
    ShlWordBound(a, k);
    Shl(a, k, 64)
  }

  lemma ShlWordBound(a: nat, k: nat)
    ensures Shl(a, k, 64) < 0x1_0000_0000_0000_0000
  {
    Pow2Of64();
  }

  /** A 64-bit word shifted right stays a 64-bit word. */
  function ShrWord(a: u64, k: nat): (r: u64)
    ensures r == Shr(a, k)
  {
    ShrWordBound(a, k);
    Shr(a, k)
  }

  lemma ShrWordBound(a: nat, k: nat)
    requires a < 0x1_0000_0000_0000_0000
    ensures Shr(a, k) < 0x1_0000_0000_0000_0000
  {
    Pow2Of64();
    ShrBound(a, k, 64);
  }

  function OrWord(a: u64, b: u64): (r: u64)
    ensures r == Or(a, b)
  {
    BitwiseBound64(OrOp, a, b);
    Or(a, b)
  }

  /** `operator<<` specialised to 64-bit halves. A shift of 64 or more moves
      the low half into the high half; a smaller one carries the top bits of
      the low half into the high half. */
  function Shl64(v: UIntX4, shift: nat): (r: UIntX4)
    requires shift < 128
    ensures r.Value() == Shl(v.Value(), shift, 128)
    ensures r.Value() == (v.Value() * Pow2(shift)) % 0x1_0000_0000_0000_0000_0000_0000_0000_0000
  {
    var r :=
      if shift >= 64 then FromHalves(ShlWord(v.Low(), shift - 64), 0)
      else FromHalves(if shift != 0 then OrWord(ShlWord(v.High(), shift), ShrWord(v.Low(), 64 - shift)) else v.High(),
                      ShlWord(v.Low(), shift));
    ShlOfHalves(v, shift, r);
    ShlIsMul128(v.Value(), shift);
    r
  }

  lemma ShlOfHalves(v: UIntX4, shift: nat, r: UIntX4)
    requires shift < 128
    requires shift >= 64 ==> r.High() == Shl(v.Low(), shift - 64, 64) && r.Low() == 0
    requires shift < 64 ==> r.Low() == Shl(v.Low(), shift, 64)
    requires shift < 64 ==> r.High() == (if shift == 0 then v.High() else Or(Shl(v.High(), shift, 64), Shr(v.Low(), 64 - shift)))
    ensures r.Value() == Shl(v.Value(), shift, 128)
  {
    ValueOfHalves(v);
    ValueOfHalves(r);
    ShlHalves(v.Value(), v.High(), v.Low(), shift, r.Value(), r.High(), r.Low());
  }

  lemma ShlIsMul128(a: nat, k: nat)
    ensures Shl(a, k, 128) == (a * Pow2(k)) % 0x1_0000_0000_0000_0000_0000_0000_0000_0000
  {
    ShlIsMul(a, k, 128);
    Pow2Widths();
  }

  /** `operator>>` specialised to 64-bit halves, the mirror image of `Shl64`. */
  function Shr64(v: UIntX4, shift: nat): (r: UIntX4)
    requires shift < 128
    ensures r.Value() == Shr(v.Value(), shift)
    ensures r.Value() == v.Value() / Pow2(shift)
  {
    var r :=
      if shift >= 64 then FromHalves(0, ShrWord(v.High(), shift - 64))
      else FromHalves(ShrWord(v.High(), shift),
                      if shift != 0 then OrWord(ShrWord(v.Low(), shift), ShlWord(v.High(), 64 - shift)) else v.Low());
    ValueOfHalves(v);
    ValueOfHalves(r);
    ShrHalves(v.Value(), v.High(), v.Low(), shift, r.Value(), r.High(), r.Low());
    ShrIsDiv(v.Value(), shift);
    r
  }

  lemma ShlBit(a: nat, k: nat, width: nat, i: nat)
    ensures Bit(Shl(a, k, width), i) == (k <= i < width && Bit(a, i - k))
  {
    ShlBits(a, k, width);
  }

  lemma ShrBit(a: nat, k: nat, i: nat)
    ensures Bit(Shr(a, k), i) == Bit(a, i + k)
  {
    ShrBits(a, k);
  }

  lemma OrBit(a: nat, b: nat, i: nat)
    ensures Bit(Or(a, b), i) == (Bit(a, i) || Bit(b, i))
  {
    BitwiseBit(OrOp, a, b, i);
  }

  /** No bit of a 64-bit word is set at or above position 64. */
  lemma WordBitsAbove(a: u64, i: nat)
    requires i >= 64
    ensures !Bit(a, i)
  {
    Pow2Widths();
    BitsAbove(a, 64);
  }

  /** `v` shifted left by `s`, computed on its 64-bit halves, is `r`. */
  lemma ShlHalves(v: nat, h: u64, l: u64, s: nat, r: nat, hi: u64, lo: u64)
    requires s < 128
    requires v == h * 0x1_0000_0000_0000_0000 + l && r == hi * 0x1_0000_0000_0000_0000 + lo
    requires s >= 64 ==> hi == Shl(l, s - 64, 64) && lo == 0
    requires s < 64 ==> lo == Shl(l, s, 64) && hi == (if s == 0 then h else Or(Shl(h, s, 64), Shr(l, 64 - s)))
    ensures r == Shl(v, s, 128)
  {
    forall i: nat
      ensures Bit(r, i) == Bit(Shl(v, s, 128), i)
    {
      ConcatBit64(r, hi, lo, i);
      ShlBit(v, s, 128, i);
      if i >= 128 {
        WordBitsAbove(hi, i - 64);
      }
      if i < 128 {
        if s >= 64 {
          ShlBigBit(h, l, s, hi, lo, i);
        } else {
          ShlSmallBit(h, l, s, hi, lo, i);
        }
      }
    }
    BitsEqual(r, Shl(v, s, 128));
  }

  lemma ShlBigBit(h: u64, l: u64, s: nat, hi: u64, lo: u64, i: nat)
    requires 64 <= s < 128 && i < 128
    requires hi == Shl(l, s - 64, 64) && lo == 0
    ensures (if i < 64 then Bit(lo, i) else Bit(hi, i - 64))
         == (s <= i && Bit(h * 0x1_0000_0000_0000_0000 + l, i - s))
  {
    ZeroBit(i);
    if i >= 64 {
      ShlBit(l, s - 64, 64, i - 64);
    }
    if i >= s {
      ConcatBit64(h * 0x1_0000_0000_0000_0000 + l, h, l, i - s);
    }
  }

  lemma ShlSmallBit(h: u64, l: u64, s: nat, hi: u64, lo: u64, i: nat)
    requires s < 64 && i < 128
    requires lo == Shl(l, s, 64) && hi == (if s == 0 then h else Or(Shl(h, s, 64), Shr(l, 64 - s)))
    ensures (if i < 64 then Bit(lo, i) else Bit(hi, i - 64))
         == (s <= i && Bit(h * 0x1_0000_0000_0000_0000 + l, i - s))
  {
    if i >= s {
      ConcatBit64(h * 0x1_0000_0000_0000_0000 + l, h, l, i - s);
    }
    ShlBit(l, s, 64, i);
    if i >= s + 64 {
      WordBitsAbove(l, i - s);
    }
    if s > 0 && i >= 64 {
      OrBit(Shl(h, s, 64), Shr(l, 64 - s), i - 64);
      ShlBit(h, s, 64, i - 64);
      ShrBit(l, 64 - s, i - 64);
    }
  }

  /** `v` shifted right by `s`, computed on its 64-bit halves, is `r`. */
  lemma ShrHalves(v: nat, h: u64, l: u64, s: nat, r: nat, hi: u64, lo: u64)
    requires s < 128
    requires v == h * 0x1_0000_0000_0000_0000 + l && r == hi * 0x1_0000_0000_0000_0000 + lo
    requires s >= 64 ==> hi == 0 && lo == Shr(h, s - 64)
    requires s < 64 ==> hi == Shr(h, s) && lo == (if s == 0 then l else Or(Shr(l, s), Shl(h, 64 - s, 64)))
    ensures r == Shr(v, s)
  {
    forall i: nat
      ensures Bit(r, i) == Bit(Shr(v, s), i)
    {
      ShrHalvesBit(v, h, l, s, r, hi, lo, i);
    }
    BitsEqual(r, Shr(v, s));
  }

  lemma ShrHalvesBit(v: nat, h: u64, l: u64, s: nat, r: nat, hi: u64, lo: u64, i: nat)
    requires s < 128
    requires v == h * 0x1_0000_0000_0000_0000 + l && r == hi * 0x1_0000_0000_0000_0000 + lo
    requires s >= 64 ==> hi == 0 && lo == Shr(h, s - 64)
    requires s < 64 ==> hi == Shr(h, s) && lo == (if s == 0 then l else Or(Shr(l, s), Shl(h, 64 - s, 64)))
    ensures Bit(r, i) == Bit(Shr(v, s), i)
  {
    ConcatBit64(r, hi, lo, i);
    ConcatBit64(v, h, l, i + s);
    ShrBit(v, s, i);
    if i + s >= 64 {
      WordBitsAbove(l, i + s);
    }
    if i >= 128 {
      WordBitsAbove(hi, i - 64);
    }
    if i + s >= 128 {
      WordBitsAbove(h, i + s - 64);
    }
    if s >= 64 {
      if i >= 64 {
        ZeroBit(i - 64);
      }
      ShrBit(h, s - 64, i);
    } else if i < 64 {
      ShrBit(l, s, i);
      if s > 0 {
        OrBit(Shr(l, s), Shl(h, 64 - s, 64), i);
        ShlBit(h, 64 - s, 64, i);
      }
    } else {
      ShrBit(h, s, i - 64);
    }
  }

  // ---------------------------------------------------------------------
  // Division

  /** `divmod`: long division by shifted copies of the divisor. The quotient
      is first underestimated from the bit lengths, then each round subtracts
      the largest shifted divisor that fits. Division by zero is undefined in
      the source and excluded here. */
  method DivMod(a: UIntX4, b: UIntX4) returns (q: UIntX4, r: UIntX4)
    requires b.Value() != 0
    ensures q.Value() * b.Value() + r.Value() == a.Value() && r.Value() < b.Value()
    ensures q.Value() == a.Value() / b.Value() && r.Value() == a.Value() % b.Value()
  {
    if Less(a, b) {
      q, r := UIntX4(0, 0, 0, 0), a;
      DivModUnique(a.Value(), b.Value(), 0, a.Value());
      return;
    }
    var dividend := a;
    var log2Divisor := Flog2X4(b);
    var log2Dividend := Flog2X4(dividend);
    FloorLog2Order(b.Value(), a.Value());
    var logdiff := log2Dividend - log2Divisor;
    var one := UIntX4(0, 0, 0, 1);
    if logdiff == 0 {
      q := one;
      r := Sub64(dividend, b);
      SameLog2(a.Value(), b.Value(), log2Dividend);
      DivModUnique(a.Value(), b.Value(), 1, r.Value());
      return;
    }
    q, r := ShiftSubtract(a, b, logdiff - 1);
    ghost var qv, bv, rv, av := q.Value(), b.Value(), r.Value(), a.Value();
    DivModUnique(av, bv, qv, rv);
  }

  /** The loop of `divmod` once the bit lengths of the dividend and the divisor
      differ: start from the divisor shifted to one bit below the dividend's
      length and subtract shifted copies of it, largest first. */
  method ShiftSubtract(a: UIntX4, b: UIntX4, shift: nat) returns (quotient: UIntX4, dividend: UIntX4)
    requires 0 < b.Value() <= a.Value()
    requires FloorLog2(a.Value()) == FloorLog2(b.Value()) + shift + 1
    ensures quotient.Value() * b.Value() + dividend.Value() == a.Value() && dividend.Value() < b.Value()
  {
    dividend := a;
    var one := UIntX4(0, 0, 0, 1);
    quotient := UIntX4(0, 0, 0, 0);
    FirstFactor(a.Value(), b.Value(), FloorLog2(a.Value()), FloorLog2(b.Value()), shift);
    var qfactor := Shl64(one, shift);
    var factor := Shl64(b, shift);
    ghost var j: nat := shift;
    ShlOne(shift, 128);
    assert one.Value() == 1;
    assert qfactor.Value() == Pow2(j);
    assert factor.Value() == b.Value() * Pow2(j);
    assert quotient.Value() == 0;
    MulZero(b.Value());
    quotient, dividend := Subtractions(a, b, quotient, dividend, factor, qfactor, j);
  }

  /** The do-while loop of `divmod`, with its condition in `more`: each round
      subtracts the shifted divisor, adds its quotient bit, and narrows both
      until the divisor fits in what is left. */
  method Subtractions(a: UIntX4, b: UIntX4, quotient0: UIntX4, dividend0: UIntX4, factor0: UIntX4, qfactor0: UIntX4, ghost j0: nat)
    returns (quotient: UIntX4, dividend: UIntX4)
    requires 0 < b.Value()
    requires quotient0.Value() * b.Value() + dividend0.Value() == a.Value()
    requires qfactor0.Value() == Pow2(j0) && factor0.Value() == b.Value() * Pow2(j0)
    requires factor0.Value() <= dividend0.Value()
    ensures quotient.Value() * b.Value() + dividend.Value() == a.Value() && dividend.Value() < b.Value()
  {
    quotient, dividend := quotient0, dividend0;
    var factor, qfactor := factor0, qfactor0;
    ghost var j := j0;
    ghost var exact := true;
    var more := true;
    while more
      invariant quotient.Value() * b.Value() + dividend.Value() == a.Value()
      invariant more ==> qfactor.Value() == Pow2(j) && factor.Value() == b.Value() * Pow2(j)
      invariant more ==> factor.Value() <= dividend.Value()
      invariant !more ==> dividend.Value() < b.Value()
      decreases dividend.Value()
    {
      DivStep(quotient.Value(), qfactor.Value(), b.Value(), factor.Value(), dividend.Value(), a.Value());
      MulPow2Positive(b.Value(), j);
      dividend := Sub64(dividend, factor);
      quotient := Add64(quotient, qfactor);
      factor, qfactor, j, exact := Narrow(dividend, factor, qfactor, b.Value(), j);
      more := GreaterEq(dividend, b);
    }
  }

  /** The inner loop of `divmod`: halve the shifted divisor and the
      quotient bit until the divisor fits in what is left of the dividend.
      While the quotient bit is a power of two the halving is exact; once it
      reaches zero the rest of the dividend is already below the divisor. */
  method Narrow(dividend: UIntX4, factor: UIntX4, qfactor: UIntX4, ghost b: nat, ghost j: nat)
    returns (factor': UIntX4, qfactor': UIntX4, ghost j': nat, ghost exact: bool)
    requires b > 0 && qfactor.Value() == Pow2(j) && factor.Value() == b * Pow2(j)
    ensures factor'.Value() <= dividend.Value()
    ensures exact ==> qfactor'.Value() == Pow2(j') && factor'.Value() == b * Pow2(j')
    ensures !exact ==> qfactor'.Value() == 0 && dividend.Value() < b
  {
    factor', qfactor', j', exact := factor, qfactor, j, true;
    while Less(dividend, factor')
      invariant exact ==> qfactor'.Value() == Pow2(j') && factor'.Value() == b * Pow2(j')
      invariant !exact ==> qfactor'.Value() == 0 && dividend.Value() < b
      decreases factor'.Value()
    {
      ghost var oldFactor, oldQfactor := factor'.Value(), qfactor'.Value();
      factor' := Shr64(factor', 1);
      qfactor' := Shr64(qfactor', 1);
      j', exact := NarrowStep(b, j', exact, oldFactor, oldQfactor, factor'.Value(), qfactor'.Value(), dividend.Value());
    }
  }

  /** One round of the inner loop of `divmod`, on the values. */
  lemma NarrowStep(b: nat, j: nat, exact: bool, factor: nat, qfactor: nat, factor': nat, qfactor': nat, dividend: nat)
    returns (j': nat, exact': bool)
    requires b > 0 && dividend < factor
    requires exact ==> qfactor == Pow2(j) && factor == b * Pow2(j)
    requires !exact ==> qfactor == 0 && dividend < b
    requires factor' == factor / Pow2(1) && qfactor' == qfactor / Pow2(1)
    ensures factor' < factor
    ensures exact' ==> qfactor' == Pow2(j') && factor' == b * Pow2(j')
    ensures !exact' ==> qfactor' == 0 && dividend < b
  {
    assert Pow2(1) == 2;
    j', exact' := j, exact;
    if exact {
      if j == 0 {
        exact' := false;
      } else {
        HalvePow2(b, j);
        j' := j - 1;
      }
    }
  }

  /** `operator/` */
  method Div(a: UIntX4, b: UIntX4) returns (q: UIntX4)
    requires b.Value() != 0
    ensures q.Value() == a.Value() / b.Value()
  {
    var r;
    q, r := DivMod(a, b);
  }

  /** `operator%` */
  method Mod(a: UIntX4, b: UIntX4) returns (r: UIntX4)
    requires b.Value() != 0
    ensures r.Value() == a.Value() % b.Value()
  {
    var q;
    q, r := DivMod(a, b);
  }

  /** A larger number has at least as long a binary representation. */
  lemma FloorLog2Order(small: nat, large: nat)
    requires 0 < small <= large
    ensures FloorLog2(small) <= FloorLog2(large)
  {
    FloorLog2Bounds(small);
    FloorLog2Bounds(large);
    if FloorLog2(small) > FloorLog2(large) {
      Pow2Monotone(FloorLog2(large) + 1, FloorLog2(small));
    }
  }

  /** Numbers of the same bit length differ by less than the smaller one. */
  lemma SameLog2(a: nat, b: nat, f: nat)
    requires 0 < b <= a && FloorLog2(a) == f && FloorLog2(b) == f
    ensures a - b < b
  {
    FloorLog2Bounds(a);
    FloorLog2Bounds(b);
  }

  /** The first shifted divisor fits in the dividend, and in 128 bits. */
  lemma FirstFactor(a: nat, b: nat, fa: nat, fb: nat, shift: nat)
    requires 0 < b <= a < 0x1_0000_0000_0000_0000_0000_0000_0000_0000
    requires fa == FloorLog2(a) && fb == FloorLog2(b) && fa == fb + shift + 1
    ensures shift < 128
    ensures Pow2(shift) % 0x1_0000_0000_0000_0000_0000_0000_0000_0000 == Pow2(shift)
    ensures (b * Pow2(shift)) % 0x1_0000_0000_0000_0000_0000_0000_0000_0000 == b * Pow2(shift)
    ensures b * Pow2(shift) <= a
  {
    FloorLog2Bounds(a);
    FloorLog2Bounds(b);
    assert Pow2(128) == 0x1_0000_0000_0000_0000_0000_0000_0000_0000 by {
      Pow2Widths();
    }
    Pow2Order(fa, 128);
    var p := Pow2(shift);
    assert Pow2(fb + 1) * p == Pow2(fa) by {
      Pow2Add(fb + 1, shift);
    }
    MulLessRight(b, Pow2(fb + 1), p);
    assert b * p < a;
    Pow2Monotone(shift, fa);
    assert p < 0x1_0000_0000_0000_0000_0000_0000_0000_0000;
    MulNonNegative(b, p);
    Wrap128(p, 0, p);
    Wrap128(b * p, 0, b * p);
  }

  /** Powers of two are ordered as their exponents. */
  lemma Pow2Order(k: nat, n: nat)
    requires Pow2(k) < Pow2(n)
    ensures k < n
  {
    if k >= n {
      Pow2Monotone(n, k);
    }
  }

  lemma MulLessRight(x: nat, y: nat, k: nat)
    requires x < y && k > 0
    ensures x * k < y * k
  {
    MulAtLeast(y - x, k);
    assert (y - x) * k == y * k - x * k;
  }

  lemma MulZero(x: nat)
    ensures 0 * x == 0 && x * 0 == 0
  {
  }

  lemma MulPow2Positive(b: nat, j: nat)
    requires b > 0
    ensures b * Pow2(j) > 0
  {
    MulAtLeast(Pow2(j), b);
  }

  /** Halving the shifted divisor and the quotient bit together. */
  lemma HalvePow2(b: nat, j: nat)
    requires j > 0
    ensures Pow2(j) / 2 == Pow2(j - 1)
    ensures (b * Pow2(j)) / 2 == b * Pow2(j - 1)
  {
    assert b * Pow2(j) == 2 * (b * Pow2(j - 1));
  }

  /** One round of `divmod`: subtracting the shifted divisor from the
      dividend and adding the quotient bit keeps `quotient * divisor +
      dividend` equal to the original dividend, and the quotient cannot
      overflow. */
  lemma DivStep(quotient: nat, qfactor: nat, b: nat, factor: nat, dividend: nat, a: nat)
    requires b > 0 && a < 0x1_0000_0000_0000_0000_0000_0000_0000_0000
    requires quotient * b + dividend == a && factor == b * qfactor && factor <= dividend
    ensures (quotient + qfactor) * b + (dividend - factor) == a
    ensures quotient + qfactor < 0x1_0000_0000_0000_0000_0000_0000_0000_0000
  {
    assert (quotient + qfactor) * b == quotient * b + b * qfactor;
    if quotient + qfactor > 0 {
      MulAtLeast(b, quotient + qfactor);
    }
  }

  // ---------------------------------------------------------------------
  // Bitwise operators, half by half

  /** The bits of a number split at bit 64. */
  lemma ConcatBit64(v: nat, hi: nat, lo: nat, i: nat)
    requires lo < 0x1_0000_0000_0000_0000 && v == hi * 0x1_0000_0000_0000_0000 + lo
    ensures Bit(v, i) == if i < 64 then Bit(lo, i) else Bit(hi, i - 64)
  {
    Pow2Of64();
    ConcatBits(v, hi, lo, 64);
  }

  /** A bitwise operator on two numbers split at bit 64 is the operator on
      the high halves above the operator on the low halves. */
  lemma BitwiseHalves(op: BitOp, ah: nat, al: nat, bh: nat, bl: nat)
    requires al < 0x1_0000_0000_0000_0000 && bl < 0x1_0000_0000_0000_0000
    ensures Bitwise(op, ah * 0x1_0000_0000_0000_0000 + al, bh * 0x1_0000_0000_0000_0000 + bl)
         == Bitwise(op, ah, bh) * 0x1_0000_0000_0000_0000 + Bitwise(op, al, bl)
  {
    var a := ah * 0x1_0000_0000_0000_0000 + al;
    var b := bh * 0x1_0000_0000_0000_0000 + bl;
    var v := Bitwise(op, ah, bh) * 0x1_0000_0000_0000_0000 + Bitwise(op, al, bl);
    forall i: nat
      ensures Bit(Bitwise(op, a, b), i) == Bit(v, i)
    {
      BitwiseHalvesBit(op, ah, al, bh, bl, i);
    }
    BitsEqual(Bitwise(op, a, b), v);
  }

  lemma BitwiseBound64(op: BitOp, a: nat, b: nat)
    requires a < 0x1_0000_0000_0000_0000 && b < 0x1_0000_0000_0000_0000
    ensures Bitwise(op, a, b) < 0x1_0000_0000_0000_0000
  {
    Pow2Of64();
    BitwiseBound(op, a, b, 64);
  }

  lemma BitwiseHalvesBit(op: BitOp, ah: nat, al: nat, bh: nat, bl: nat, i: nat)
    requires al < 0x1_0000_0000_0000_0000 && bl < 0x1_0000_0000_0000_0000
    ensures Bit(Bitwise(op, ah * 0x1_0000_0000_0000_0000 + al, bh * 0x1_0000_0000_0000_0000 + bl), i)
         == Bit(Bitwise(op, ah, bh) * 0x1_0000_0000_0000_0000 + Bitwise(op, al, bl), i)
  {
    var a := ah * 0x1_0000_0000_0000_0000 + al;
    var b := bh * 0x1_0000_0000_0000_0000 + bl;
    var high := Bitwise(op, ah, bh);
    var low := Bitwise(op, al, bl);
    BitwiseBound64(op, al, bl);
    BitwiseBit(op, a, b, i);
    ConcatBit64(a, ah, al, i);
    ConcatBit64(b, bh, bl, i);
    ConcatBit64(high * 0x1_0000_0000_0000_0000 + low, high, low, i);
    if i < 64 {
      BitwiseBit(op, al, bl, i);
    } else {
      BitwiseBit(op, ah, bh, i - 64);
    }
  }

  function BitwiseX4(op: BitOp, a: UIntX4, b: UIntX4): (r: UIntX4)
    ensures r.Value() == Bitwise(op, a.Value(), b.Value())
  {
    BitwiseBound64(op, a.High(), b.High());
    BitwiseBound64(op, a.Low(), b.Low());
    var r := FromHalves(Bitwise(op, a.High(), b.High()), Bitwise(op, a.Low(), b.Low()));
    BitwiseOfHalves(op, a, b, r.Value());
    r
  }

  lemma BitwiseOfHalves(op: BitOp, a: UIntX4, b: UIntX4, v: nat)
    requires v == Bitwise(op, a.High(), b.High()) * 0x1_0000_0000_0000_0000 + Bitwise(op, a.Low(), b.Low())
    ensures v == Bitwise(op, a.Value(), b.Value())
  {
    ValueOfHalves(a);
    ValueOfHalves(b);
    BitwiseHalves(op, a.High(), a.Low(), b.High(), b.Low());
  }

  /** `operator&` */
  function AndX4(a: UIntX4, b: UIntX4): (r: UIntX4)
    ensures r.Value() == And(a.Value(), b.Value())
  {
    BitwiseX4(AndOp, a, b)
  }

  /** `operator|` */
  function OrX4(a: UIntX4, b: UIntX4): (r: UIntX4)
    ensures r.Value() == Or(a.Value(), b.Value())
  {
    BitwiseX4(OrOp, a, b)
  }

  /** `operator^` */
  function XorX4(a: UIntX4, b: UIntX4): (r: UIntX4)
    ensures r.Value() == Xor(a.Value(), b.Value())
  {
    BitwiseX4(XorOp, a, b)
  }

  /** `operator~`: both halves complemented. */
  function NotX4(v: UIntX4): (r: UIntX4)
    ensures r.Value() == 0x1_0000_0000_0000_0000_0000_0000_0000_0000 - 1 - v.Value()
  {
    Pow2Widths();
    FromHalves(Not(v.High(), 64), Not(v.Low(), 64))
  }
}
