/** Bitwise operators on unsigned words (the C++ `^`, `&`, `|`, `~`, `<<`
    and `>>`), with words modelled as naturals. Every operator is described
    bit by bit through `Bit`, and two words are equal when all their bits are
    (`BitsEqual`), which is how the bit-twiddling code of the engine is
    proved. */
module Bits {
  import opened Words

  /** Bit i of a (bit 0 is the least significant). */
  predicate Bit(a: nat, i: nat)
    decreases i
  {
    if i == 0 then a % 2 == 1 else Bit(a / 2, i - 1)
  }

  datatype BitOp = XorOp | AndOp | OrOp

  function Apply(op: BitOp, x: bool, y: bool): bool
  {
    match op
    case XorOp => x != y
    case AndOp => x && y
    case OrOp => x || y
  }

  /** `a op b`, computed one bit at a time from the least significant end. */
  function Bitwise(op: BitOp, a: nat, b: nat): nat
    decreases a + b
  {
    if a == 0 && b == 0 then 0
    else 2 * Bitwise(op, a / 2, b / 2) + (if Apply(op, a % 2 == 1, b % 2 == 1) then 1 else 0)
  }

  /** `a ^ b` */
  function Xor(a: nat, b: nat): nat { Bitwise(XorOp, a, b) }
  /** `a & b` */
  function And(a: nat, b: nat): nat { Bitwise(AndOp, a, b) }
  /** `a | b` */
  function Or(a: nat, b: nat): nat { Bitwise(OrOp, a, b) }

  /** `a >> k`, one bit at a time; `ShrIsDiv` gives its arithmetic value. */
  function Shr(a: nat, k: nat): nat
    decreases k
  {
    if k == 0 then a else Shr(a / 2, k - 1)
  }

  /** `a << k` on an unbounded value, one bit at a time; `ShiftLeftIsMul`
      gives its arithmetic value. */
  function ShiftLeft(a: nat, k: nat): nat
  {
    if k == 0 then a else 2 * ShiftLeft(a, k - 1)
  }

  lemma {:induction false} ShiftLeftIsMul(a: nat, k: nat)
    ensures ShiftLeft(a, k) == a * Pow2(k)
  {
    if k > 0 {
      ShiftLeftIsMul(a, k - 1);
      assert a * Pow2(k) == 2 * (a * Pow2(k - 1));
    }
  }

  /** `a << k` on a word of `width` bits: the bits pushed past the top are lost. */
  function Shl(a: nat, k: nat, width: nat): nat { ShiftLeft(a, k) % Pow2(width) }

  lemma ShlIsMul(a: nat, k: nat, width: nat)
    ensures Shl(a, k, width) == (a * Pow2(k)) % Pow2(width)
  {
    ShiftLeftIsMul(a, k);
  }

  /** `~a` on a word of `width` bits. */
  function Not(a: nat, width: nat): nat
    requires a < Pow2(width)
  {
    Pow2(width) - 1 - a
  }

  /** `-a` on a word of `width` bits (two's complement negation); zero is
      its own negation. */
  function Neg(a: nat, width: nat): nat
    requires a < Pow2(width)
  {
    if a == 0 then 0 else Pow2(width) - a
  }

  /** Negation is subtraction from zero modulo 2^width. */
  lemma NegIsModular(a: nat, width: nat)
    requires a < Pow2(width)
    ensures Neg(a, width) == (Pow2(width) - a) % Pow2(width)
    ensures Neg(a, width) < Pow2(width)
  {
    if a == 0 {
      DivModUnique(Pow2(width), Pow2(width), 1, 0);
    } else {
      DivModUnique(Pow2(width) - a, Pow2(width), 0, Pow2(width) - a);
    }
  }

  /** `(1 << k) - 1`: the mask of the k low bits. */
  function Ones(k: nat): nat
  {
    Pow2(k) - 1
  }

  // ---------------------------------------------------------------------
  // Single bits

  lemma BitHalf(a: nat, i: nat)
    requires i > 0
    ensures Bit(a, i) == Bit(a / 2, i - 1)
  {
  }

  /** Doubling moves every bit up by one. */
  lemma DoubleBits(d: nat, a: nat, c: nat)
    requires c < 2 && d == 2 * a + c
    ensures forall i: nat :: Bit(d, i) == (if i == 0 then c == 1 else Bit(a, i - 1))
  {
    assert d / 2 == a;
  }

  lemma {:induction false} ZeroBits()
    ensures forall i: nat :: !Bit(0, i)
  {
    forall i: nat
      ensures !Bit(0, i)
    {
      ZeroBit(i);
    }
  }

  lemma {:induction false} ZeroBit(i: nat)
    ensures !Bit(0, i)
    decreases i
  {
    if i > 0 {
      ZeroBit(i - 1);
    }
  }

  /** Two words with the same bits are the same word. */
  lemma {:induction false} BitsEqual(a: nat, b: nat)
    requires forall i: nat :: Bit(a, i) == Bit(b, i)
    ensures a == b
    decreases a + b
  {
    if a != 0 || b != 0 {
      assert Bit(a, 0) == Bit(b, 0);
      forall i: nat
        ensures Bit(a / 2, i) == Bit(b / 2, i)
      {
        assert Bit(a, i + 1) == Bit(b, i + 1);
      }
      BitsEqual(a / 2, b / 2);
    }
  }

  /** A word below 2^w has no bit at or above w ... */
  lemma {:induction false} BitsAbove(a: nat, w: nat)
    requires a < Pow2(w)
    ensures forall i: nat :: i >= w ==> !Bit(a, i)
    decreases w
  {
    if w == 0 {
      assert a == 0;
      ZeroBits();
    } else {
      BitsAbove(a / 2, w - 1);
      forall i: nat | i >= w
        ensures !Bit(a, i)
      {
        BitHalf(a, i);
      }
    }
  }

  /** ... and a word with no bit at or above w is below 2^w. */
  lemma {:induction false} BoundFromBits(a: nat, w: nat)
    requires forall i: nat :: i >= w ==> !Bit(a, i)
    ensures a < Pow2(w)
    decreases w
  {
    if w == 0 {
      ZeroBits();
      BitsEqual(a, 0);
    } else {
      forall i: nat | i >= w - 1
        ensures !Bit(a / 2, i)
      {
        assert !Bit(a, i + 1);
      }
      BoundFromBits(a / 2, w - 1);
    }
  }

  lemma {:induction false} ShrBits(a: nat, k: nat)
    ensures forall i: nat :: Bit(Shr(a, k), i) == Bit(a, i + k)
    decreases k
  {
    if k > 0 {
      ShrBits(a / 2, k - 1);
    }
  }

  /** `a >> k` is the quotient by 2^k. */
  lemma {:induction false} ShrIsDiv(a: nat, k: nat)
    ensures Shr(a, k) == a / Pow2(k)
    decreases k
  {
    if k > 0 {
      ShrIsDiv(a / 2, k - 1);
      DivOfProduct(a, 2, Pow2(k - 1));
    }
  }

  lemma {:induction false} MulPow2Bits(a: nat, k: nat)
    ensures forall i: nat :: Bit(a * Pow2(k), i) == (i >= k && Bit(a, i - k))
    decreases k
  {
    if k == 0 {
    } else {
      MulPow2Bits(a, k - 1);
      assert a * Pow2(k) == 2 * (a * Pow2(k - 1)) + 0;
      DoubleBits(a * Pow2(k), a * Pow2(k - 1), 0);
    }
  }

  /** Reducing modulo 2^k, one bit at a time. */
  lemma ModDouble(a: nat, p: nat)
    requires p > 0
    ensures a % (2 * p) == 2 * ((a / 2) % p) + a % 2
  {
    DivOfProduct(a, 2, p);
  }

  lemma {:induction false} ModBits(a: nat, k: nat)
    ensures forall i: nat :: Bit(a % Pow2(k), i) == (i < k && Bit(a, i))
    decreases k
  {
    if k == 0 {
      ZeroBits();
    } else {
      ModBits(a / 2, k - 1);
      ModDouble(a, Pow2(k - 1));
      DoubleBits(a % Pow2(k), (a / 2) % Pow2(k - 1), a % 2);
    }
  }

  /** The bits of hi * 2^k + lo, for lo below 2^k: lo's bits, then hi's. */
  lemma {:induction false} ConcatBits(v: nat, hi: nat, lo: nat, k: nat)
    requires lo < Pow2(k) && v == hi * Pow2(k) + lo
    ensures forall i: nat :: Bit(v, i) == if i < k then Bit(lo, i) else Bit(hi, i - k)
    decreases k
  {
    if k == 0 {
      ZeroBits();
    } else {
      var v' := hi * Pow2(k - 1) + lo / 2;
      assert v == 2 * v' + lo % 2;
      ConcatBits(v', hi, lo / 2, k - 1);
      DoubleBits(v, v', lo % 2);
      DoubleBits(lo, lo / 2, lo % 2);
    }
  }

  lemma ShlBits(a: nat, k: nat, width: nat)
    ensures forall i: nat :: Bit(Shl(a, k, width), i) == (k <= i < width && Bit(a, i - k))
  {
    ShiftLeftIsMul(a, k);
    MulPow2Bits(a, k);
    ModBits(a * Pow2(k), width);
  }

  lemma {:induction false} OnesBits(k: nat)
    ensures forall i: nat :: Bit(Ones(k), i) == (i < k)
    decreases k
  {
    if k == 0 {
      ZeroBits();
    } else {
      OnesBits(k - 1);
      assert Ones(k) / 2 == Ones(k - 1);
      forall i: nat
        ensures Bit(Ones(k), i) == (i < k)
      {
        if i > 0 {
          BitHalf(Ones(k), i);
        }
      }
    }
  }

  lemma Pow2Bits(k: nat)
    ensures forall i: nat :: Bit(Pow2(k), i) == (i == k)
  {
    MulPow2Bits(1, k);
    DoubleBits(1, 0, 1);
    ZeroBits();
  }

  lemma {:induction false} NotBits(a: nat, width: nat)
    requires a < Pow2(width)
    ensures forall i: nat :: Bit(Not(a, width), i) == (i < width && !Bit(a, i))
    decreases width
  {
    if width == 0 {
      ZeroBits();
    } else {
      var r := Not(a, width);
      assert r == 2 * Not(a / 2, width - 1) + (1 - a % 2);
      NotBits(a / 2, width - 1);
      forall i: nat
        ensures Bit(r, i) == (i < width && !Bit(a, i))
      {
        if i > 0 {
          BitHalf(r, i);
          BitHalf(a, i);
        }
      }
    }
  }

  lemma {:induction false} BitwiseBit(op: BitOp, a: nat, b: nat, i: nat)
    ensures Bit(Bitwise(op, a, b), i) == Apply(op, Bit(a, i), Bit(b, i))
    decreases i
  {
    if a != 0 || b != 0 {
      var c := if Apply(op, a % 2 == 1, b % 2 == 1) then 1 else 0;
      DoubleBits(Bitwise(op, a, b), Bitwise(op, a / 2, b / 2), c);
      if i > 0 {
        BitwiseBit(op, a / 2, b / 2, i - 1);
      }
    } else {
      ZeroBit(i);
    }
  }

  lemma XorBits(a: nat, b: nat)
    ensures forall i: nat :: Bit(Xor(a, b), i) == (Bit(a, i) != Bit(b, i))
  {
    forall i: nat
      ensures Bit(Xor(a, b), i) == (Bit(a, i) != Bit(b, i))
    {
      BitwiseBit(XorOp, a, b, i);
    }
  }

  lemma AndBits(a: nat, b: nat)
    ensures forall i: nat :: Bit(And(a, b), i) == (Bit(a, i) && Bit(b, i))
  {
    forall i: nat
      ensures Bit(And(a, b), i) == (Bit(a, i) && Bit(b, i))
    {
      BitwiseBit(AndOp, a, b, i);
    }
  }

  lemma OrBits(a: nat, b: nat)
    ensures forall i: nat :: Bit(Or(a, b), i) == (Bit(a, i) || Bit(b, i))
  {
    forall i: nat
      ensures Bit(Or(a, b), i) == (Bit(a, i) || Bit(b, i))
    {
      BitwiseBit(OrOp, a, b, i);
    }
  }

  // ---------------------------------------------------------------------
  // Consequences used by the engine

  /** When two words share no bit, `|` and `^` are both `+`. */
  lemma {:induction false} DisjointSum(a: nat, b: nat)
    requires forall i: nat :: !(Bit(a, i) && Bit(b, i))
    ensures Or(a, b) == a + b && Xor(a, b) == a + b
    decreases a + b
  {
    if a != 0 || b != 0 {
      assert !(Bit(a, 0) && Bit(b, 0));
      forall i: nat
        ensures !(Bit(a / 2, i) && Bit(b / 2, i))
      {
        assert !(Bit(a, i + 1) && Bit(b, i + 1));
      }
      DisjointSum(a / 2, b / 2);
    }
  }

  /** `a & ((1 << k) - 1)` keeps the k low bits. */
  lemma AndOnes(a: nat, k: nat)
    ensures And(a, Ones(k)) == a % Pow2(k)
  {
    AndBits(a, Ones(k));
    OnesBits(k);
    ModBits(a, k);
    BitsEqual(And(a, Ones(k)), a % Pow2(k));
  }

  /** `a | 3` sets the two low bits and keeps the rest. */
  lemma OrThree(a: nat)
    ensures Or(a, 3) == (a / 4) * 4 + 3
  {
    var hi := a / 4;
    var v := hi * 4 + 3;
    assert Pow2(2) == 4 && Ones(2) == 3;
    assert forall i: nat :: Bit(Or(a, 3), i) == if i < 2 then true else Bit(hi, i - 2) by {
      OrBits(a, 3);
      OnesBits(2);
      ConcatBits(a, hi, a % 4, 2);
    }
    assert forall i: nat :: Bit(v, i) == if i < 2 then true else Bit(hi, i - 2) by {
      OnesBits(2);
      ConcatBits(v, hi, 3, 2);
    }
    BitsEqual(Or(a, 3), v);
  }

  /** `a | 1` on an even word adds one. */
  lemma OrOneEven(a: nat)
    requires a % 2 == 0
    ensures Or(a, 1) == a + 1
  {
    forall i: nat
      ensures !(Bit(a, i) && Bit(1, i))
    {
      Pow2Bits(0);
      assert Pow2(0) == 1;
    }
    DisjointSum(a, 1);
  }

  /** The operators stay within a word of `width` bits. */
  lemma BitwiseBound(op: BitOp, a: nat, b: nat, width: nat)
    requires a < Pow2(width) && b < Pow2(width)
    ensures Bitwise(op, a, b) < Pow2(width)
  {
    BitsAbove(a, width);
    BitsAbove(b, width);
    forall i: nat | i >= width
      ensures !Bit(Bitwise(op, a, b), i)
    {
      BitwiseBit(op, a, b, i);
    }
    BoundFromBits(Bitwise(op, a, b), width);
  }

  /** x ^ y ^ y == x */
  lemma XorCancel(x: nat, y: nat)
    ensures Xor(Xor(x, y), y) == x
  {
    XorBits(Xor(x, y), y);
    XorBits(x, y);
    BitsEqual(Xor(Xor(x, y), y), x);
  }

  /** Shifting right never grows a word. */
  lemma ShrBound(a: nat, k: nat, width: nat)
    requires a < Pow2(width)
    ensures Shr(a, k) <= a && Shr(a, k) < Pow2(width)
  {
    ShrIsDiv(a, k);
  }

  /** `1 << k` within the word is 2^k. */
  lemma ShlOne(k: nat, width: nat)
    requires k < width
    ensures Shl(1, k, width) == Pow2(k)
  {
    ShlIsMul(1, k, width);
    Pow2Strict(k, width);
    DivModUnique(Pow2(k), Pow2(width), 0, Pow2(k));
  }
}
