/** Counting bits: `flog2` (floor of log2), `trailingzeros` and `clog2`
    (ceiling of log2), as the portable fallbacks compute them -- smearing and
    a de Bruijn multiply-and-look-up for 32-bit words, and a split into two
    halves for 64-bit words. */
module BitCount {
  import opened Words
  import opened Bits

  // ---------------------------------------------------------------------
  // Reference definitions

  /** The position of the highest set bit. */
  ghost function FloorLog2(v: nat): nat
  {
    if v < 2 then 0 else 1 + FloorLog2(v / 2)
  }

  /** The position of the lowest set bit. */
  ghost function TrailingZeroCount(v: nat): nat
    requires v > 0
  {
    if v % 2 == 1 then 0 else 1 + TrailingZeroCount(v / 2)
  }

  lemma {:induction false} FloorLog2Bounds(v: nat)
    requires v > 0
    ensures Pow2(FloorLog2(v)) <= v < Pow2(FloorLog2(v) + 1)
  {
    if v >= 2 {
      FloorLog2Bounds(v / 2);
    }
  }

  /** The bounds determine the floor of the logarithm. */
  lemma FloorLog2Unique(v: nat, k: nat)
    requires Pow2(k) <= v < Pow2(k + 1)
    ensures FloorLog2(v) == k
  {
    FloorLog2Bounds(v);
    var f := FloorLog2(v);
    if f < k {
      Pow2Monotone(f + 1, k);
    } else if f > k {
      Pow2Monotone(k + 1, f);
    }
  }

  /** The highest set bit of a word in [2^k, 2^(k+1)) is bit k. */
  lemma {:induction false} TopBit(v: nat, k: nat)
    requires Pow2(k) <= v < Pow2(k + 1)
    ensures Bit(v, k)
    ensures forall i: nat :: i > k ==> !Bit(v, i)
    decreases k
  {
    BitsAbove(v, k + 1);
    if k > 0 {
      TopBit(v / 2, k - 1);
    }
  }

  lemma {:induction false} TrailingBits(v: nat)
    requires v > 0
    ensures Bit(v, TrailingZeroCount(v))
    ensures forall i: nat :: i < TrailingZeroCount(v) ==> !Bit(v, i)
  {
    if v % 2 == 0 {
      TrailingBits(v / 2);
      forall i: nat | 0 < i < TrailingZeroCount(v)
        ensures !Bit(v, i)
      {
        BitHalf(v, i);
      }
    }
  }

  lemma {:induction false} TrailingZeroCountBound(v: nat, w: nat)
    requires 0 < v < Pow2(w)
    ensures TrailingZeroCount(v) < w
  {
    TrailingBits(v);
    BitsAbove(v, w);
  }

  // ---------------------------------------------------------------------
  // flog2 for 32-bit words

  const Flog2DeBruijn: nat := 0x07C4ACDD
  const Flog2Table: seq<nat> := [
    0, 9, 1, 10, 13, 21, 2, 29, 11, 14, 16, 18, 22, 25, 3, 30,
    8, 12, 20, 28, 15, 17, 24, 7, 19, 27, 23, 6, 26, 5, 4, 31]

  /** `(1 << (k+1)) - 1` for k = 0 .. 31, the words that smearing produces. */
  const SmearedWords: seq<nat> := [
    0x1, 0x3, 0x7, 0xF, 0x1F, 0x3F, 0x7F, 0xFF,
    0x1FF, 0x3FF, 0x7FF, 0xFFF, 0x1FFF, 0x3FFF, 0x7FFF, 0xFFFF,
    0x1_FFFF, 0x3_FFFF, 0x7_FFFF, 0xF_FFFF, 0x1F_FFFF, 0x3F_FFFF, 0x7F_FFFF, 0xFF_FFFF,
    0x1FF_FFFF, 0x3FF_FFFF, 0x7FF_FFFF, 0xFFF_FFFF, 0x1FFF_FFFF, 0x3FFF_FFFF, 0x7FFF_FFFF, 0xFFFF_FFFF]

  /** The index the de Bruijn multiplication selects: the top five bits of
      the 32-bit product. */
  function DeBruijnIndex(v: nat, multiplier: nat): (r: nat)
    ensures r < 32
  {
    Pow2Constants();
    ((v * multiplier) % 0x1_0000_0000) / 0x800_0000
  }

  /** `v |= v >> 1; v |= v >> 2; v |= v >> 4; v |= v >> 8; v |= v >> 16;` */
  function Smear(v: u32): (r: u32)
  {
    var v1 := SmearStep(v, 1);
    var v2 := SmearStep(v1, 2);
    var v3 := SmearStep(v2, 4);
    var v4 := SmearStep(v3, 8);
    SmearStep(v4, 16)
  }

  /** `v | (v >> s)` */
  function SmearStep(v: u32, s: nat): (r: u32)
  {
    Pow2Widths();
    ShrBound(v, s, 32);
    BitwiseBound(OrOp, v, Shr(v, s), 32);
    Or(v, Shr(v, s))
  }

  /** The top set bit of `w` is k, and the `span` bits from k down are set. */
  ghost predicate RunBelow(w: nat, k: nat, span: nat)
  {
    (forall i: nat :: i > k ==> !Bit(w, i)) &&
    (forall i: nat :: i <= k && k - i < span ==> Bit(w, i))
  }

  /** One smearing step doubles the run of set bits below the top bit k. */
  lemma SmearStepBits(v: u32, k: nat, span: nat)
    requires RunBelow(v, k, span)
    ensures RunBelow(SmearStep(v, span), k, 2 * span)
  {
    OrBits(v, Shr(v, span));
    ShrBits(v, span);
    forall i: nat | i <= k && k - i < 2 * span
      ensures Bit(SmearStep(v, span), i)
    {
      if k - i >= span {
        assert Bit(v, i + span);
      }
    }
  }

  /** A run of 32 set bits below the top bit k < 32 is all of bits 0..k. */
  lemma FullRun(w: nat, k: nat)
    requires k < 32 && RunBelow(w, k, 32)
    ensures w == Ones(k + 1)
  {
    OnesBits(k + 1);
    BitsEqual(w, Ones(k + 1));
  }

  /** Smearing a word whose top bit is k sets exactly the bits 0..k. */
  lemma SmearOnes(v: u32, k: nat)
    requires Pow2(k) <= v < Pow2(k + 1)
    ensures k < 32 && Smear(v) == SmearedWords[k]
  {
    if k >= 32 {
      Pow2Widths();
      Pow2Monotone(32, k);
    }
    TopBit(v, k);
    assert RunBelow(v, k, 1);
    var v1 := SmearStep(v, 1);
    SmearStepBits(v, k, 1);
    var v2 := SmearStep(v1, 2);
    SmearStepBits(v1, k, 2);
    var v3 := SmearStep(v2, 4);
    SmearStepBits(v2, k, 4);
    var v4 := SmearStep(v3, 8);
    SmearStepBits(v3, k, 8);
    SmearStepBits(v4, k, 16);
    FullRun(Smear(v), k);
    SmearedWordsAreOnes(k);
  }

  lemma {:induction false} SmearedWordsAreOnes(k: nat)
    requires k < 32
    ensures SmearedWords[k] == Ones(k + 1)
  {
    assert forall j :: 0 < j < 32 ==> SmearedWords[j] == 2 * SmearedWords[j - 1] + 1;
    if k > 0 {
      SmearedWordsAreOnes(k - 1);
    }
  }

  /** The index of one table entry, from the product written out as
      `q * 2^32 + index * 2^27 + low`. */
  lemma DeBruijnEntry(v: nat, multiplier: nat, q: nat, index: nat, low: nat)
    requires v * multiplier == q * 0x1_0000_0000 + index * 0x800_0000 + low
    requires index < 32 && low < 0x800_0000
    ensures DeBruijnIndex(v, multiplier) == index
  {
    Pow2Constants();
    Pow2Widths();
    DivModUnique(v * multiplier, 0x1_0000_0000, q, index * 0x800_0000 + low);
    DivModUnique(index * 0x800_0000 + low, 0x800_0000, index, low);
  }

  /** The flog2 table maps the index of each smeared word to its top bit. */
  lemma Flog2TableCorrect()
    ensures forall k :: 0 <= k < 32 ==> Flog2Table[DeBruijnIndex(SmearedWords[k], Flog2DeBruijn)] == k
  {
    Flog2TableCorrectPart0();
    Flog2TableCorrectPart1();
    Flog2TableCorrectPart2();
    Flog2TableCorrectPart3();
    Flog2TableCorrectPart4();
    Flog2TableCorrectPart5();
    Flog2TableCorrectPart6();
    Flog2TableCorrectPart7();
  }

  lemma Flog2TableCorrectPart0()
    ensures forall k :: 0 <= k < 4 ==> Flog2Table[DeBruijnIndex(SmearedWords[k], Flog2DeBruijn)] == k
  {
    DeBruijnEntry(SmearedWords[0], Flog2DeBruijn, 0x0, 0, 0x7c4acdd);
    DeBruijnEntry(SmearedWords[1], Flog2DeBruijn, 0x0, 2, 0x74e0697);
    DeBruijnEntry(SmearedWords[2], Flog2DeBruijn, 0x0, 6, 0x660ba0b);
    DeBruijnEntry(SmearedWords[3], Flog2DeBruijn, 0x0, 14, 0x48620f3);
  }

  lemma Flog2TableCorrectPart1()
    ensures forall k :: 4 <= k < 8 ==> Flog2Table[DeBruijnIndex(SmearedWords[k], Flog2DeBruijn)] == k
  {
    DeBruijnEntry(SmearedWords[4], Flog2DeBruijn, 0x0, 30, 0xd0eec3);
    DeBruijnEntry(SmearedWords[5], Flog2DeBruijn, 0x1, 29, 0x1668a63);
    DeBruijnEntry(SmearedWords[6], Flog2DeBruijn, 0x3, 27, 0x291c1a3);
    DeBruijnEntry(SmearedWords[7], Flog2DeBruijn, 0x7, 23, 0x4e83023);
  }

  lemma Flog2TableCorrectPart2()
    ensures forall k :: 8 <= k < 12 ==> Flog2Table[DeBruijnIndex(SmearedWords[k], Flog2DeBruijn)] == k
  {
    DeBruijnEntry(SmearedWords[8], Flog2DeBruijn, 0xf, 16, 0x1950d23);
    DeBruijnEntry(SmearedWords[9], Flog2DeBruijn, 0x1f, 1, 0x2eec723);
    DeBruijnEntry(SmearedWords[10], Flog2DeBruijn, 0x3e, 3, 0x5a23b23);
    DeBruijnEntry(SmearedWords[11], Flog2DeBruijn, 0x7c, 8, 0x3092323);
  }

  lemma Flog2TableCorrectPart3()
    ensures forall k :: 12 <= k < 16 ==> Flog2Table[DeBruijnIndex(SmearedWords[k], Flog2DeBruijn)] == k
  {
    DeBruijnEntry(SmearedWords[12], Flog2DeBruijn, 0xf8, 17, 0x5d6f323);
    DeBruijnEntry(SmearedWords[13], Flog2DeBruijn, 0x1f1, 4, 0x3729323);
    DeBruijnEntry(SmearedWords[14], Flog2DeBruijn, 0x3e2, 9, 0x6a9d323);
    DeBruijnEntry(SmearedWords[15], Flog2DeBruijn, 0x7c4, 20, 0x5185323);
  }

  lemma Flog2TableCorrectPart4()
    ensures forall k :: 16 <= k < 20 ==> Flog2Table[DeBruijnIndex(SmearedWords[k], Flog2DeBruijn)] == k
  {
    DeBruijnEntry(SmearedWords[16], Flog2DeBruijn, 0xf89, 10, 0x1f55323);
    DeBruijnEntry(SmearedWords[17], Flog2DeBruijn, 0x1f12, 21, 0x3af5323);
    DeBruijnEntry(SmearedWords[18], Flog2DeBruijn, 0x3e25, 11, 0x7235323);
    DeBruijnEntry(SmearedWords[19], Flog2DeBruijn, 0x7c4a, 24, 0x60b5323);
  }

  lemma Flog2TableCorrectPart5()
    ensures forall k :: 20 <= k < 24 ==> Flog2Table[DeBruijnIndex(SmearedWords[k], Flog2DeBruijn)] == k
  {
    DeBruijnEntry(SmearedWords[20], Flog2DeBruijn, 0xf895, 18, 0x3db5323);
    DeBruijnEntry(SmearedWords[21], Flog2DeBruijn, 0x1f12b, 5, 0x77b5323);
    DeBruijnEntry(SmearedWords[22], Flog2DeBruijn, 0x3e256, 12, 0x6bb5323);
    DeBruijnEntry(SmearedWords[23], Flog2DeBruijn, 0x7c4ac, 26, 0x53b5323);
  }

  lemma Flog2TableCorrectPart6()
    ensures forall k :: 24 <= k < 28 ==> Flog2Table[DeBruijnIndex(SmearedWords[k], Flog2DeBruijn)] == k
  {
    DeBruijnEntry(SmearedWords[24], Flog2DeBruijn, 0xf8959, 22, 0x23b5323);
    DeBruijnEntry(SmearedWords[25], Flog2DeBruijn, 0x1f12b3, 13, 0x43b5323);
    DeBruijnEntry(SmearedWords[26], Flog2DeBruijn, 0x3e2566, 28, 0x3b5323);
    DeBruijnEntry(SmearedWords[27], Flog2DeBruijn, 0x7c4acd, 25, 0x3b5323);
  }

  lemma Flog2TableCorrectPart7()
    ensures forall k :: 28 <= k < 32 ==> Flog2Table[DeBruijnIndex(SmearedWords[k], Flog2DeBruijn)] == k
  {
    DeBruijnEntry(SmearedWords[28], Flog2DeBruijn, 0xf8959b, 19, 0x3b5323);
    DeBruijnEntry(SmearedWords[29], Flog2DeBruijn, 0x1f12b37, 7, 0x3b5323);
    DeBruijnEntry(SmearedWords[30], Flog2DeBruijn, 0x3e2566e, 15, 0x3b5323);
    DeBruijnEntry(SmearedWords[31], Flog2DeBruijn, 0x7c4acdc, 31, 0x3b5323);
  }

  /** `flog2(uint32_t)`: the index of the highest set bit (0 for 0). */
  function Flog2U32(v: u32): (r: nat)
    ensures r < 32
    ensures v > 0 ==> r == FloorLog2(v)
    ensures v == 0 ==> r == 0
  {
    var index := DeBruijnIndex(Smear(v), Flog2DeBruijn);
    Flog2Lookup(v, index);
    Flog2Table[index]
  }

  /** The table entry the de Bruijn index selects is the top bit. */
  lemma Flog2Lookup(v: u32, index: nat)
    requires index == DeBruijnIndex(Smear(v), Flog2DeBruijn)
    ensures index < 32 && Flog2Table[index] < 32
    ensures v > 0 ==> Flog2Table[index] == FloorLog2(v)
    ensures v == 0 ==> Flog2Table[index] == 0
  {
    if v > 0 {
      var k := FloorLog2(v);
      FloorLog2Bounds(v);
      SmearOnes(v, k);
      Flog2TableCorrect();
      assert Smear(v) == SmearedWords[k];
    } else {
      ZeroSmear();
      DeBruijnEntry(0, Flog2DeBruijn, 0, 0, 0);
    }
  }

  lemma ZeroSmear()
    ensures Smear(0) == 0
  {
    ZeroBits();
    OrBits(0, Shr(0, 1));
    ShrBits(0, 1);
    BitsEqual(SmearStep(0, 1), 0);
    assert SmearStep(0, 2) == 0 && SmearStep(0, 4) == 0 && SmearStep(0, 8) == 0 by {
      OrBits(0, Shr(0, 2));
      ShrBits(0, 2);
      BitsEqual(SmearStep(0, 2), 0);
      OrBits(0, Shr(0, 4));
      ShrBits(0, 4);
      BitsEqual(SmearStep(0, 4), 0);
      OrBits(0, Shr(0, 8));
      ShrBits(0, 8);
      BitsEqual(SmearStep(0, 8), 0);
    }
    OrBits(0, Shr(0, 16));
    ShrBits(0, 16);
    BitsEqual(SmearStep(0, 16), 0);
  }

  // ---------------------------------------------------------------------
  // trailingzeros for 32-bit words

  const TrailingDeBruijn: nat := 0x077CB531
  const TrailingTable: seq<nat> := [
    0, 1, 28, 2, 29, 14, 24, 3, 30, 22, 20, 15, 25, 17, 4, 8,
    31, 27, 13, 23, 21, 19, 16, 7, 26, 12, 18, 6, 11, 5, 10, 9]

  /** `1 << k` for k = 0 .. 31, the words that `v & -v` produces. */
  const PowersOfTwo: seq<nat> := [
    0x1, 0x2, 0x4, 0x8, 0x10, 0x20, 0x40, 0x80,
    0x100, 0x200, 0x400, 0x800, 0x1000, 0x2000, 0x4000, 0x8000,
    0x1_0000, 0x2_0000, 0x4_0000, 0x8_0000, 0x10_0000, 0x20_0000, 0x40_0000, 0x80_0000,
    0x100_0000, 0x200_0000, 0x400_0000, 0x800_0000, 0x1000_0000, 0x2000_0000, 0x4000_0000, 0x8000_0000]

  lemma {:induction false} PowersOfTwoAre(k: nat)
    requires k < 32
    ensures PowersOfTwo[k] == Pow2(k)
  {
    if k > 0 {
      PowersOfTwoAre(k - 1);
      assert PowersOfTwo[k] == 2 * PowersOfTwo[k - 1];
    }
  }

  /** The trailingzeros table maps the index of each power of two to its
      exponent. */
  lemma TrailingTableCorrect()
    ensures forall k :: 0 <= k < 32 ==> TrailingTable[DeBruijnIndex(PowersOfTwo[k], TrailingDeBruijn)] == k
  {
    TrailingTableCorrectPart0();
    TrailingTableCorrectPart1();
    TrailingTableCorrectPart2();
    TrailingTableCorrectPart3();
    TrailingTableCorrectPart4();
    TrailingTableCorrectPart5();
    TrailingTableCorrectPart6();
    TrailingTableCorrectPart7();
  }

  lemma TrailingTableCorrectPart0()
    ensures forall k :: 0 <= k < 4 ==> TrailingTable[DeBruijnIndex(PowersOfTwo[k], TrailingDeBruijn)] == k
  {
    DeBruijnEntry(PowersOfTwo[0], TrailingDeBruijn, 0x0, 0, 0x77cb531);
    DeBruijnEntry(PowersOfTwo[1], TrailingDeBruijn, 0x0, 1, 0x6f96a62);
    DeBruijnEntry(PowersOfTwo[2], TrailingDeBruijn, 0x0, 3, 0x5f2d4c4);
    DeBruijnEntry(PowersOfTwo[3], TrailingDeBruijn, 0x0, 7, 0x3e5a988);
  }

  lemma TrailingTableCorrectPart1()
    ensures forall k :: 4 <= k < 8 ==> TrailingTable[DeBruijnIndex(PowersOfTwo[k], TrailingDeBruijn)] == k
  {
    DeBruijnEntry(PowersOfTwo[4], TrailingDeBruijn, 0x0, 14, 0x7cb5310);
    DeBruijnEntry(PowersOfTwo[5], TrailingDeBruijn, 0x0, 29, 0x796a620);
    DeBruijnEntry(PowersOfTwo[6], TrailingDeBruijn, 0x1, 27, 0x72d4c40);
    DeBruijnEntry(PowersOfTwo[7], TrailingDeBruijn, 0x3, 23, 0x65a9880);
  }

  lemma TrailingTableCorrectPart2()
    ensures forall k :: 8 <= k < 12 ==> TrailingTable[DeBruijnIndex(PowersOfTwo[k], TrailingDeBruijn)] == k
  {
    DeBruijnEntry(PowersOfTwo[8], TrailingDeBruijn, 0x7, 15, 0x4b53100);
    DeBruijnEntry(PowersOfTwo[9], TrailingDeBruijn, 0xe, 31, 0x16a6200);
    DeBruijnEntry(PowersOfTwo[10], TrailingDeBruijn, 0x1d, 30, 0x2d4c400);
    DeBruijnEntry(PowersOfTwo[11], TrailingDeBruijn, 0x3b, 28, 0x5a98800);
  }

  lemma TrailingTableCorrectPart3()
    ensures forall k :: 12 <= k < 16 ==> TrailingTable[DeBruijnIndex(PowersOfTwo[k], TrailingDeBruijn)] == k
  {
    DeBruijnEntry(PowersOfTwo[12], TrailingDeBruijn, 0x77, 25, 0x3531000);
    DeBruijnEntry(PowersOfTwo[13], TrailingDeBruijn, 0xef, 18, 0x6a62000);
    DeBruijnEntry(PowersOfTwo[14], TrailingDeBruijn, 0x1df, 5, 0x54c4000);
    DeBruijnEntry(PowersOfTwo[15], TrailingDeBruijn, 0x3be, 11, 0x2988000);
  }

  lemma TrailingTableCorrectPart4()
    ensures forall k :: 16 <= k < 20 ==> TrailingTable[DeBruijnIndex(PowersOfTwo[k], TrailingDeBruijn)] == k
  {
    DeBruijnEntry(PowersOfTwo[16], TrailingDeBruijn, 0x77c, 22, 0x5310000);
    DeBruijnEntry(PowersOfTwo[17], TrailingDeBruijn, 0xef9, 13, 0x2620000);
    DeBruijnEntry(PowersOfTwo[18], TrailingDeBruijn, 0x1df2, 26, 0x4c40000);
    DeBruijnEntry(PowersOfTwo[19], TrailingDeBruijn, 0x3be5, 21, 0x1880000);
  }

  lemma TrailingTableCorrectPart5()
    ensures forall k :: 20 <= k < 24 ==> TrailingTable[DeBruijnIndex(PowersOfTwo[k], TrailingDeBruijn)] == k
  {
    DeBruijnEntry(PowersOfTwo[20], TrailingDeBruijn, 0x77cb, 10, 0x3100000);
    DeBruijnEntry(PowersOfTwo[21], TrailingDeBruijn, 0xef96, 20, 0x6200000);
    DeBruijnEntry(PowersOfTwo[22], TrailingDeBruijn, 0x1df2d, 9, 0x4400000);
    DeBruijnEntry(PowersOfTwo[23], TrailingDeBruijn, 0x3be5a, 19, 0x800000);
  }

  lemma TrailingTableCorrectPart6()
    ensures forall k :: 24 <= k < 28 ==> TrailingTable[DeBruijnIndex(PowersOfTwo[k], TrailingDeBruijn)] == k
  {
    DeBruijnEntry(PowersOfTwo[24], TrailingDeBruijn, 0x77cb5, 6, 0x1000000);
    DeBruijnEntry(PowersOfTwo[25], TrailingDeBruijn, 0xef96a, 12, 0x2000000);
    DeBruijnEntry(PowersOfTwo[26], TrailingDeBruijn, 0x1df2d4, 24, 0x4000000);
    DeBruijnEntry(PowersOfTwo[27], TrailingDeBruijn, 0x3be5a9, 17, 0x0);
  }

  lemma TrailingTableCorrectPart7()
    ensures forall k :: 28 <= k < 32 ==> TrailingTable[DeBruijnIndex(PowersOfTwo[k], TrailingDeBruijn)] == k
  {
    DeBruijnEntry(PowersOfTwo[28], TrailingDeBruijn, 0x77cb53, 2, 0x0);
    DeBruijnEntry(PowersOfTwo[29], TrailingDeBruijn, 0xef96a6, 4, 0x0);
    DeBruijnEntry(PowersOfTwo[30], TrailingDeBruijn, 0x1df2d4c, 8, 0x0);
    DeBruijnEntry(PowersOfTwo[31], TrailingDeBruijn, 0x3be5a98, 16, 0x0);
  }

  /** A positive word is an odd multiple of 2^t where t counts its trailing
      zeros: `u * 2^(t+1) + 2^t`. */
  lemma TrailingZeroCountSplit(v: nat) returns (u: nat)
    requires v > 0
    ensures v == u * Pow2(TrailingZeroCount(v) + 1) + Pow2(TrailingZeroCount(v))
  {
    var t := TrailingZeroCount(v);
    var p := Pow2(t + 1);
    assert v % p == Pow2(t) by {
      TrailingBits(v);
      ModBits(v, t + 1);
      Pow2Bits(t);
      BitsEqual(v % p, Pow2(t));
    }
    u := v / p;
  }

  /** In a word of `m * p` values, negating `u * p + h` with `p == 2 * h`
      gives `(m - 1 - u) * p + h`. */
  lemma NegateSplit(v: nat, u: nat, h: nat, p: nat, m: nat)
    requires 0 < h && p == 2 * h && v == u * p + h && v < m * p
    ensures u < m
    ensures m * p - v == (m - 1 - u) * p + h
  {
    if u >= m {
      MulAtLeast(u - m + 1, p);
    }
    assert (m - 1 - u) * p == m * p - p - u * p;
  }

  /** 2^t divides v and leaves an odd quotient. */
  lemma TrailingZeroCountDivides(v: nat)
    requires v > 0
    ensures v % Pow2(TrailingZeroCount(v)) == 0
    ensures (v / Pow2(TrailingZeroCount(v))) % 2 == 1
  {
    var t := TrailingZeroCount(v);
    var u := TrailingZeroCountSplit(v);
    Pow2Add(1, t);
    Pow2Constants();
    OddMultiple(v, u, Pow2(t));
  }

  /** `u * 2h + h` is an odd multiple of h. */
  lemma OddMultiple(v: nat, u: nat, h: nat)
    requires h > 0 && v == u * (2 * h) + h
    ensures v % h == 0 && (v / h) % 2 == 1
  {
    assert v == (2 * u + 1) * h;
    DivModUnique(v, h, 2 * u + 1, 0);
    DivModUnique(2 * u + 1, 2, u, 1);
  }

  /** The negation of `u * 2^(t+1) + 2^t` is `~u * 2^(t+1) + 2^t`. */
  lemma NegateOddMultiple(v: nat, width: nat, t: nat, u: nat)
    requires 0 < v < Pow2(width) && t < width
    requires v == u * Pow2(t + 1) + Pow2(t)
    ensures u < Pow2(width - t - 1)
    ensures Neg(v, width) == Not(u, width - t - 1) * Pow2(t + 1) + Pow2(t)
  {
    Pow2Add(width - t - 1, t + 1);
    NegateSplit(v, u, Pow2(t), Pow2(t + 1), Pow2(width - t - 1));
  }

  /** `v & -v` isolates the lowest set bit. */
  lemma LowestBit(v: nat, width: nat)
    requires 0 < v < Pow2(width)
    ensures And(v, Neg(v, width)) == Pow2(TrailingZeroCount(v))
  {
    var t := TrailingZeroCount(v);
    TrailingZeroCountBound(v, width);
    var u := TrailingZeroCountSplit(v);
    LowestBitAt(v, width, t, u);
  }

  /** `v & -v` is `2^t` when bit t is the lowest set bit of `v`. */
  lemma LowestBitAt(v: nat, width: nat, t: nat, u: nat)
    requires 0 < v < Pow2(width) && t < width
    requires v == u * Pow2(t + 1) + Pow2(t)
    ensures And(v, Neg(v, width)) == Pow2(t)
  {
    NegateOddMultiple(v, width, t, u);
    AndOfComplements(v, Neg(v, width), u, Not(u, width - t - 1), width - t - 1, t);
  }

  /** Two words that agree on their low bits, `2^t`, and are complements of
      each other above them have only bit t in common. */
  lemma AndOfComplements(v: nat, neg: nat, u: nat, nu: nat, k: nat, t: nat)
    requires u < Pow2(k) && nu == Not(u, k)
    requires v == u * Pow2(t + 1) + Pow2(t) && neg == nu * Pow2(t + 1) + Pow2(t)
    ensures And(v, neg) == Pow2(t)
  {
    Pow2Strict(t, t + 1);
    ConcatBits(v, u, Pow2(t), t + 1);
    ConcatBits(neg, nu, Pow2(t), t + 1);
    NotBits(u, k);
    BitsAbove(u, k);
    AndBits(v, neg);
    Pow2Bits(t);
    BitsEqual(And(v, neg), Pow2(t));
  }

  /** `trailingzeros(uint32_t)`: the index of the lowest set bit (0 for 0). */
  function TrailingZerosU32(v: u32): (r: nat)
    ensures r < 32
    ensures v > 0 ==> r == TrailingZeroCount(v) && v % Pow2(r) == 0 && (v / Pow2(r)) % 2 == 1
    ensures v == 0 ==> r == 0
  {
    Pow2Widths();
    var index := DeBruijnIndex(And(v, Neg(v, 32)), TrailingDeBruijn);
    TrailingLookup(v, index);
    TrailingTable[index]
  }

  /** The table entry the de Bruijn index of the lowest set bit selects is
      the number of trailing zeros. */
  lemma TrailingLookup(v: u32, index: nat)
    requires Pow2(32) == 0x1_0000_0000
    requires index == DeBruijnIndex(And(v, Neg(v, 32)), TrailingDeBruijn)
    ensures index < 32 && TrailingTable[index] < 32
    ensures v > 0 ==> TrailingTable[index] == TrailingZeroCount(v)
    ensures v > 0 ==> v % Pow2(TrailingTable[index]) == 0 && (v / Pow2(TrailingTable[index])) % 2 == 1
    ensures v == 0 ==> TrailingTable[index] == 0
  {
    var lowest := And(v, Neg(v, 32));
    if v > 0 {
      var t := TrailingZeroCount(v);
      LowestBit(v, 32);
      TrailingZeroCountBound(v, 32);
      PowersOfTwoAre(t);
      TrailingTableCorrect();
      assert lowest == PowersOfTwo[t];
      TrailingZeroCountDivides(v);
    } else {
      assert lowest == 0 by {
        ZeroBits();
        AndBits(0, Neg(0, 32));
        BitsEqual(lowest, 0);
      }
      DeBruijnEntry(0, TrailingDeBruijn, 0, 0, 0);
    }
  }

  // ---------------------------------------------------------------------
  // Wider words, by halves

  /** `flog2(uint64_t)`: `high ? 32 + flog2(high) : flog2(low)`. */
  function Flog2U64(v: u64): (r: nat)
    ensures r < 64
    ensures v > 0 ==> r == FloorLog2(v)
    ensures v == 0 ==> r == 0
  {
    SplitHalves(v, 0x1_0000_0000);
    var high := v / 0x1_0000_0000;
    var low := v % 0x1_0000_0000;
    var r := if high > 0 then 32 + Flog2U32(high) else Flog2U32(low);
    Pow2Of32();
    Flog2Halves(v, high, low, 32, r);
    r
  }

  /** `trailingzeros(uint64_t)`: `low ? trailingzeros(low) : trailingzeros(high) + 32`;
      zero gives 32. */
  function TrailingZerosU64(v: u64): (r: nat)
    ensures r <= 64
    ensures v > 0 ==> r < 64 && r == TrailingZeroCount(v)
    ensures v == 0 ==> r == 32
  {
    SplitHalves(v, 0x1_0000_0000);
    var high := v / 0x1_0000_0000;
    var low := v % 0x1_0000_0000;
    var r := if low > 0 then TrailingZerosU32(low) else TrailingZerosU32(high) + 32;
    Pow2Of32();
    TrailingHalves(v, high, low, 32, r);
    r
  }

  /** `flog2(__uint128_t)`: `high ? 64 + flog2(high) : flog2(low)`. */
  function Flog2U128(v: u128): (r: nat)
    ensures r < 128
    ensures v > 0 ==> r == FloorLog2(v)
    ensures v == 0 ==> r == 0
  {
    SplitHalves(v, 0x1_0000_0000_0000_0000);
    var high := v / 0x1_0000_0000_0000_0000;
    var low := v % 0x1_0000_0000_0000_0000;
    var r := if high > 0 then 64 + Flog2U64(high) else Flog2U64(low);
    Pow2Of64();
    Flog2Halves(v, high, low, 64, r);
    r
  }

  /** `trailingzeros(__uint128_t)`: `low ? trailingzeros(low) : trailingzeros(high) + 64`. */
  function TrailingZerosU128(v: u128): (r: nat)
    ensures r <= 128
    ensures v > 0 ==> r < 128 && r == TrailingZeroCount(v)
    ensures v == 0 ==> r == 96
  {
    SplitHalves(v, 0x1_0000_0000_0000_0000);
    var high := v / 0x1_0000_0000_0000_0000;
    var low := v % 0x1_0000_0000_0000_0000;
    var r := if low > 0 then TrailingZerosU64(low) else TrailingZerosU64(high) + 64;
    Pow2Of64();
    TrailingHalves(v, high, low, 64, r);
    r
  }

  /** A word of two k-bit halves: the top bit is in the high half when that
      is not zero, otherwise in the low half. */
  lemma Flog2Halves(v: nat, high: nat, low: nat, k: nat, r: nat)
    requires k > 0 && v == high * Pow2(k) + low && low < Pow2(k) && high < Pow2(k)
    requires high > 0 ==> r >= k && r - k == FloorLog2(high)
    requires high == 0 && low > 0 ==> r == FloorLog2(low)
    requires high == 0 && low == 0 ==> r == 0
    ensures r < 2 * k
    ensures v > 0 ==> r == FloorLog2(v)
    ensures v == 0 ==> r == 0
  {
    if high > 0 {
      FloorLog2Below(high, k);
      FloorLog2Bounds(high);
      FloorLog2OfHalves(v, high, low, k, r - k);
    } else if low > 0 {
      FloorLog2Below(low, k);
      assert v == low;
    }
  }

  /** A word below 2^k has its top bit below k. */
  lemma FloorLog2Below(x: nat, k: nat)
    requires 0 < x < Pow2(k)
    ensures FloorLog2(x) < k
  {
    FloorLog2Bounds(x);
    if FloorLog2(x) >= k {
      Pow2Monotone(k, FloorLog2(x));
    }
  }

  /** A word of two k-bit halves: the lowest set bit is in the low half when
      that is not zero, otherwise in the high half. */
  lemma TrailingHalves(v: nat, high: nat, low: nat, k: nat, r: nat)
    requires v == high * Pow2(k) + low && low < Pow2(k) && high < Pow2(k)
    requires low > 0 ==> r == TrailingZeroCount(low)
    requires low == 0 && high > 0 ==> r == TrailingZeroCount(high) + k
    ensures v > 0 ==> r < 2 * k && r == TrailingZeroCount(v)
  {
    if low > 0 {
      TrailingZeroCountBound(low, k);
      TrailingZerosAgree(v, low, high, k, r);
    } else if high > 0 {
      TrailingZeroCountBound(high, k);
      TrailingZerosOfShifted(v, high, k);
    }
  }

  /** Scaling bounds on the high half to the whole word. */
  lemma ScaleBounds(high: nat, low: nat, p: nat, a: nat, b: nat)
    requires a <= high < b && low < p
    ensures a * p <= high * p + low < b * p
  {
    MulBelow(high, p, b, low);
    assert (high - a) * p >= 0;
  }

  /** The high half decides the top bit when it is not zero. */
  lemma FloorLog2OfHalves(v: nat, high: nat, low: nat, k: nat, f: nat)
    requires v == high * Pow2(k) + low && low < Pow2(k)
    requires Pow2(f) <= high < Pow2(f + 1)
    ensures FloorLog2(v) == k + f && Pow2(k + f) <= v < Pow2(k + f + 1)
  {
    Pow2Add(f, k);
    Pow2Add(f + 1, k);
    ScaleBounds(high, low, Pow2(k), Pow2(f), Pow2(f + 1));
    FloorLog2Unique(v, k + f);
  }

  /** The low half decides the trailing zeros when it is not zero. */
  lemma {:induction false} TrailingZerosAgree(v: nat, low: nat, high: nat, k: nat, t: nat)
    requires 0 < low < Pow2(k) && v == high * Pow2(k) + low
    requires t == TrailingZeroCount(low)
    ensures v > 0 && TrailingZeroCount(v) == t
    decreases low
  {
    assert k > 0;
    var h := high * Pow2(k - 1);
    assert high * Pow2(k) == 2 * h by {
      assert Pow2(k) == 2 * Pow2(k - 1);
    }
    if low % 2 == 0 {
      var half := h + low / 2;
      assert v == 2 * half;
      DivModUnique(v, 2, half, 0);
      TrailingZerosAgree(half, low / 2, high, k - 1, t - 1);
    } else {
      DivModUnique(v, 2, h + low / 2, 1);
    }
  }

  /** A word whose low half is zero has 32 (or 64) more trailing zeros than its
      high half. */
  lemma {:induction false} TrailingZerosOfShifted(v: nat, high: nat, k: nat)
    requires v > 0 && v == high * Pow2(k)
    ensures high > 0 && TrailingZeroCount(v) == TrailingZeroCount(high) + k
    decreases k
  {
    if k > 0 {
      var half := high * Pow2(k - 1);
      assert v == 2 * half by {
        assert Pow2(k) == 2 * Pow2(k - 1);
      }
      DivModUnique(v, 2, half, 0);
      TrailingZerosOfShifted(half, high, k - 1);
    } else {
      assert v == high;
    }
  }

  // ---------------------------------------------------------------------
  // clog2

  /** `flog2` at the widths the library instantiates it. */
  function Flog2(v: nat, width: nat): (r: nat)
    requires IsWordWidth(width) && v < Pow2(width)
    ensures v > 0 ==> r == FloorLog2(v)
    ensures v == 0 ==> r == 0
  {
    WordWidthBounds(width);
    Pow2Widths();
    if width <= 32 then
      Pow2Monotone(width, 32);
      Flog2U32(v)
    else if width <= 64 then
      Pow2Monotone(width, 64);
      Flog2U64(v)
    else
      Pow2Monotone(width, 128);
      Flog2U128(v)
  }

  /** `(v & -v) == v` holds exactly for zero and the powers of two. */
  lemma PowerOfTwoTest(v: nat, width: nat)
    requires v < Pow2(width)
    ensures (And(v, Neg(v, width)) == v) <==> (v == 0 || Pow2(FloorLog2(v)) == v)
  {
    if v == 0 {
      ZeroBits();
      AndBits(0, Neg(0, width));
      BitsEqual(And(v, Neg(v, width)), 0);
    } else {
      var t := TrailingZeroCount(v);
      LowestBit(v, width);
      if Pow2(t) == v {
        Pow2Strict(t, t + 1);
        FloorLog2Unique(v, t);
      }
      if Pow2(FloorLog2(v)) == v {
        TrailingBits(v);
        Pow2Bits(FloorLog2(v));
      }
    }
  }

  /** `clog2(v)`: `flog2(v) + ((v & -v) != v)`, the ceiling of log2 (0 for 0). */
  function Clog2(v: nat, width: nat): (r: nat)
    requires IsWordWidth(width) && v < Pow2(width)
    ensures v <= Pow2(r)
    ensures r > 0 ==> Pow2(r - 1) < v
  {
    var f := Flog2(v, width);
    var notPowerOfTwo := And(v, Neg(v, width)) != v;
    var r := if notPowerOfTwo then f + 1 else f;
    Clog2Bounds(v, width, f, notPowerOfTwo, r);
    r
  }

  /** Adding one to the floor logarithm exactly when `v` is not a power of
      two gives its ceiling logarithm. */
  lemma Clog2Bounds(v: nat, width: nat, f: nat, notPowerOfTwo: bool, r: nat)
    requires v < Pow2(width)
    requires v > 0 ==> f == FloorLog2(v)
    requires v == 0 ==> f == 0
    requires notPowerOfTwo == (And(v, Neg(v, width)) != v)
    requires r == if notPowerOfTwo then f + 1 else f
    ensures v <= Pow2(r)
    ensures r > 0 ==> Pow2(r - 1) < v
  {
    PowerOfTwoTest(v, width);
    if notPowerOfTwo {
      FloorLog2Bounds(v);
    } else if v > 0 {
      assert f > 0 ==> Pow2(f) == 2 * Pow2(f - 1);
    }
  }
}
