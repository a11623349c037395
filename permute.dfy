/** The bit permutations the output functions are built from: rotations and
    the inverse of a right xorshift. Every result is described bit by bit. */
module Permute {
  import opened Words
  import opened Bits

  // ---------------------------------------------------------------------
  // Rotations

  /** `(-rot) & mask` with `mask == bits - 1`; the rotation count is promoted
      to a 32-bit `int` before it is negated. */
  function RotateBack(rot: nat, bits: nat): (r: nat)
    requires IsWordWidth(bits) && rot < bits
    ensures r == if rot == 0 then 0 else bits - rot
  {
    RotateBackValue(rot, bits);
    And(Neg(rot, 32), bits - 1)
  }

  /** Within a word of m * p values, `-rot` reduced modulo p is `p - rot`. */
  lemma NegateModulo(rot: nat, p: nat, m: nat)
    requires 0 < rot < p && m > 0
    ensures (m * p - rot) % p == p - rot
  {
    assert m * p - rot == (m - 1) * p + (p - rot);
    DivModUnique(m * p - rot, p, m - 1, p - rot);
  }

  lemma RotateBackValue(rot: nat, bits: nat)
    requires IsWordWidth(bits) && rot < bits
    ensures rot < Pow2(32)
    ensures And(Neg(rot, 32), bits - 1) == if rot == 0 then 0 else bits - rot
  {
    var k := WordWidthLog(bits);
    Pow2Of32();
    AndOnes(Neg(rot, 32), k);
    NegModWidth(rot, bits, k);
  }

  /** `-rot` as a 32-bit word, reduced modulo a word width. */
  lemma NegModWidth(rot: nat, bits: nat, k: nat)
    requires 3 <= k <= 7 && Pow2(k) == bits && rot < bits <= 128
    requires Pow2(32) == 0x1_0000_0000
    ensures Neg(rot, 32) % bits == if rot == 0 then 0 else bits - rot
  {
    if rot == 0 {
      DivModUnique(0, bits, 0, 0);
    } else {
      Pow2Add(32 - k, k);
      var m := Pow2(32 - k);
      assert Neg(rot, 32) == m * bits - rot;
      NegateModulo(rot, bits, m);
    }
  }

  /** `rotl(value, rot)`: `(value << rot) | (value >> ((-rot) & mask))`. Bit i
      of the result is bit `i - rot` of the value, wrapping around. */
  function Rotl(value: nat, rot: nat, bits: nat): (r: nat)
    requires IsWordWidth(bits) && value < Pow2(bits) && rot < bits
    ensures r < Pow2(bits)
    ensures forall i: nat :: (Bit(r, i) ==
      (i < bits && if i >= rot then Bit(value, i - rot) else Bit(value, i + bits - rot)))
  {
    var back := RotateBack(rot, bits);
    var r := Or(Shl(value, rot, bits), Shr(value, back));
    RotlBits(value, rot, bits, back, r);
    r
  }

  lemma RotlBits(value: nat, rot: nat, bits: nat, back: nat, r: nat)
    requires bits > 0 && value < Pow2(bits) && rot < bits
    requires back == if rot == 0 then 0 else bits - rot
    requires r == Or(Shl(value, rot, bits), Shr(value, back))
    ensures r < Pow2(bits)
    ensures forall i: nat :: (Bit(r, i) ==
      (i < bits && if i >= rot then Bit(value, i - rot) else Bit(value, i + bits - rot)))
  {
    forall i: nat
      ensures Bit(r, i) ==
        (i < bits && if i >= rot then Bit(value, i - rot) else Bit(value, i + bits - rot))
    {
      BitwiseBit(OrOp, Shl(value, rot, bits), Shr(value, back), i);
      ShlBits(value, rot, bits);
      ShrBits(value, back);
      BitsAbove(value, bits);
    }
    BoundFromBits(r, bits);
  }

  /** `rotr(value, rot)`: `(value >> rot) | (value << ((-rot) & mask))`. Bit i
      of the result is bit `i + rot` of the value, wrapping around. */
  function Rotr(value: nat, rot: nat, bits: nat): (r: nat)
    requires IsWordWidth(bits) && value < Pow2(bits) && rot < bits
    ensures r < Pow2(bits)
    ensures forall i: nat :: (Bit(r, i) ==
      (i < bits && if i + rot < bits then Bit(value, i + rot) else Bit(value, i + rot - bits)))
  {
    var back := RotateBack(rot, bits);
    var r := Or(Shr(value, rot), Shl(value, back, bits));
    RotrBits(value, rot, bits, back, r);
    r
  }

  lemma RotrBits(value: nat, rot: nat, bits: nat, back: nat, r: nat)
    requires bits > 0 && value < Pow2(bits) && rot < bits
    requires back == if rot == 0 then 0 else bits - rot
    requires r == Or(Shr(value, rot), Shl(value, back, bits))
    ensures r < Pow2(bits)
    ensures forall i: nat :: (Bit(r, i) ==
      (i < bits && if i + rot < bits then Bit(value, i + rot) else Bit(value, i + rot - bits)))
  {
    forall i: nat
      ensures Bit(r, i) ==
        (i < bits && if i + rot < bits then Bit(value, i + rot) else Bit(value, i + rot - bits))
    {
      BitwiseBit(OrOp, Shr(value, rot), Shl(value, back, bits), i);
      ShlBits(value, back, bits);
      ShrBits(value, rot);
      BitsAbove(value, bits);
    }
    BoundFromBits(r, bits);
  }

  /** Rotating right undoes rotating left by the same count ... */
  lemma RotrRotl(value: nat, rot: nat, bits: nat)
    requires IsWordWidth(bits) && value < Pow2(bits) && rot < bits
    ensures Rotr(Rotl(value, rot, bits), rot, bits) == value
  {
    var r := Rotr(Rotl(value, rot, bits), rot, bits);
    forall i: nat
      ensures Bit(r, i) == Bit(value, i)
    {
      RotrRotlBit(value, rot, bits, i);
    }
    BitsEqual(r, value);
  }

  lemma RotrRotlBit(value: nat, rot: nat, bits: nat, i: nat)
    requires IsWordWidth(bits) && value < Pow2(bits) && rot < bits
    ensures Bit(Rotr(Rotl(value, rot, bits), rot, bits), i) == Bit(value, i)
  {
    if i >= bits {
      BitsAbove(value, bits);
    }
  }

  /** ... and rotating left undoes rotating right. */
  lemma RotlRotr(value: nat, rot: nat, bits: nat)
    requires IsWordWidth(bits) && value < Pow2(bits) && rot < bits
    ensures Rotl(Rotr(value, rot, bits), rot, bits) == value
  {
    var r := Rotl(Rotr(value, rot, bits), rot, bits);
    forall i: nat
      ensures Bit(r, i) == Bit(value, i)
    {
      RotlRotrBit(value, rot, bits, i);
    }
    BitsEqual(r, value);
  }

  lemma RotlRotrBit(value: nat, rot: nat, bits: nat, i: nat)
    requires IsWordWidth(bits) && value < Pow2(bits) && rot < bits
    ensures Bit(Rotl(Rotr(value, rot, bits), rot, bits), i) == Bit(value, i)
  {
    if i >= bits {
      BitsAbove(value, bits);
    }
  }

  // ---------------------------------------------------------------------
  // Xorshift and its inverse

  /** `x ^ (x >> shift)` */
  function Xorshift(x: nat, shift: nat): (r: nat)
    ensures forall i: nat :: Bit(r, i) == (Bit(x, i) != Bit(x, i + shift))
  {
    XorBits(x, Shr(x, shift));
    ShrBits(x, shift);
    Xor(x, Shr(x, shift))
  }

  lemma XorshiftBound(x: nat, shift: nat, width: nat)
    requires x < Pow2(width)
    ensures Xorshift(x, shift) < Pow2(width)
  {
    ShrBound(x, shift, width);
    BitwiseBound(XorOp, x, Shr(x, shift), width);
  }

  /** `unxorshift(x, bits, shift)` on a word of `width` bits: when the shift
      covers at least half of the bits one more xorshift undoes the first;
      otherwise the top `2 * shift` bits are recovered directly and the rest
      recursively, as a `bits - shift`-bit problem. A zero shift would never
      return. */
  function Unxorshift(x: nat, bits: nat, shift: nat, width: nat): (r: nat)
    requires shift > 0 && bits <= width && x < Pow2(width)
    ensures r < Pow2(width)
    decreases bits
  {
    XorshiftBound(x, shift, width);
    if 2 * shift >= bits then
      Xorshift(x, shift)
    else
      ShlOne(bits - shift * 2, width);
      ShlOne(bits - shift, width);
      var lowmask1 := Shl(1, bits - shift * 2, width) - 1;
      var highmask1 := Not(lowmask1, width);
      var top1 := And(Xorshift(x, shift), highmask1);
      var bottom1 := And(x, lowmask1);
      BitwiseBound(AndOp, Xorshift(x, shift), highmask1, width);
      BitwiseBound(AndOp, x, lowmask1, width);
      var x' := Or(top1, bottom1);
      BitwiseBound(OrOp, top1, bottom1, width);
      var lowmask2 := Shl(1, bits - shift, width) - 1;
      var bottom2 := And(x', lowmask2);
      BitwiseBound(AndOp, x', lowmask2, width);
      var bottom2' := Unxorshift(bottom2, bits - shift, shift, width);
      BitwiseBound(AndOp, bottom2', lowmask1, width);
      BitwiseBound(OrOp, top1, And(bottom2', lowmask1), width);
      Or(top1, And(bottom2', lowmask1))
  }

  /** `unxorshift` undoes a right xorshift of a `bits`-bit value. */
  lemma {:induction false} UnxorshiftInverts(x: nat, bits: nat, shift: nat, width: nat)
    requires shift > 0 && bits <= width && x < Pow2(bits)
    ensures Pow2(bits) <= Pow2(width) && Xorshift(x, shift) < Pow2(width)
    ensures Unxorshift(Xorshift(x, shift), bits, shift, width) == x
    decreases bits
  {
    Pow2Monotone(bits, width);
    var y := Xorshift(x, shift);
    XorshiftBound(x, shift, width);
    BitsAbove(x, bits);
    var r := Unxorshift(y, bits, shift, width);
    if 2 * shift >= bits {
      assert r == Xorshift(y, shift);
      XorshiftTwice(x, bits, shift);
    } else {
      var low := bits - 2 * shift;
      ShlOne(low, width);
      ShlOne(bits - shift, width);
      var lowmask1 := Ones(low);
      var top1 := And(Xorshift(y, shift), Not(lowmask1, width));
      var bottom1 := And(y, lowmask1);
      var bottom2 := And(Or(top1, bottom1), Ones(bits - shift));
      var z := x % Pow2(bits - shift);
      TopBits(x, y, bits, shift, width, top1);
      BottomIsXorshift(x, y, bits, shift, width, top1, bottom1, bottom2, z);
      Pow2Monotone(bits - shift, width);
      UnxorshiftInverts(z, bits - shift, shift, width);
      assert Unxorshift(bottom2, bits - shift, shift, width) == z;
      Recombine(x, bits, shift, top1, z, r);
    }
  }

  /** A second xorshift undoes the first when the shift covers at least half
      of the bits. */
  lemma XorshiftTwice(x: nat, bits: nat, shift: nat)
    requires 2 * shift >= bits && x < Pow2(bits)
    ensures Xorshift(Xorshift(x, shift), shift) == x
  {
    var y := Xorshift(x, shift);
    BitsAbove(x, bits);
    forall i: nat
      ensures Bit(Xorshift(y, shift), i) == Bit(x, i)
    {
      assert Bit(Xorshift(y, shift), i) == (Bit(y, i) != Bit(y, i + shift));
      assert Bit(y, i) == (Bit(x, i) != Bit(x, i + shift));
      assert Bit(y, i + shift) == (Bit(x, i + shift) != Bit(x, i + shift + shift));
    }
    BitsEqual(Xorshift(y, shift), x);
  }

  /** The recovered top bits and the recovered low bits together give back
      the whole value. */
  lemma Recombine(x: nat, bits: nat, shift: nat, top1: nat, z: nat, r: nat)
    requires 2 * shift < bits && x < Pow2(bits)
    requires forall i: nat :: Bit(top1, i) == (i >= bits - 2 * shift && Bit(x, i))
    requires z == x % Pow2(bits - shift)
    requires r == Or(top1, And(z, Ones(bits - 2 * shift)))
    ensures r == x
  {
    var low := bits - 2 * shift;
    AndBits(z, Ones(low));
    OnesBits(low);
    ModBits(x, bits - shift);
    OrBits(top1, And(z, Ones(low)));
    BitsAbove(x, bits);
    BitsEqual(r, x);
  }

  /** The top `2 * shift` bits of `x` come back after one more xorshift. */
  lemma TopBits(x: nat, y: nat, bits: nat, shift: nat, width: nat, top1: nat)
    requires 2 * shift < bits <= width && x < Pow2(bits) && y == Xorshift(x, shift)
    requires Ones(bits - 2 * shift) < Pow2(width)
    requires top1 == And(Xorshift(y, shift), Not(Ones(bits - 2 * shift), width))
    ensures forall i: nat :: Bit(top1, i) == (i >= bits - 2 * shift && Bit(x, i))
  {
    var low := bits - 2 * shift;
    forall i: nat
      ensures Bit(top1, i) == (i >= low && Bit(x, i))
    {
      BitwiseBit(AndOp, Xorshift(y, shift), Not(Ones(low), width), i);
      NotBits(Ones(low), width);
      OnesBits(low);
      BitsAbove(x, bits);
      assert Bit(Xorshift(y, shift), i) == (Bit(y, i) != Bit(y, i + shift));
      assert Bit(y, i) == (Bit(x, i) != Bit(x, i + shift));
      assert Bit(y, i + shift) == (Bit(x, i + shift) != Bit(x, i + shift + shift));
    }
  }

  /** What remains below the top `shift` bits is the xorshift of the low
      `bits - shift` bits of `x`. */
  lemma BottomIsXorshift(x: nat, y: nat, bits: nat, shift: nat, width: nat,
                         top1: nat, bottom1: nat, bottom2: nat, z: nat)
    requires 2 * shift < bits <= width && x < Pow2(bits) && y == Xorshift(x, shift)
    requires forall i: nat :: Bit(top1, i) == (i >= bits - 2 * shift && Bit(x, i))
    requires bottom1 == And(y, Ones(bits - 2 * shift))
    requires bottom2 == And(Or(top1, bottom1), Ones(bits - shift))
    requires z == x % Pow2(bits - shift)
    ensures bottom2 == Xorshift(z, shift)
  {
    forall i: nat
      ensures Bit(bottom2, i) == Bit(Xorshift(z, shift), i)
    {
      BitwiseBit(AndOp, Or(top1, bottom1), Ones(bits - shift), i);
      BitwiseBit(OrOp, top1, bottom1, i);
      BitwiseBit(AndOp, y, Ones(bits - 2 * shift), i);
      OnesBits(bits - 2 * shift);
      OnesBits(bits - shift);
      ModBits(x, bits - shift);
      BitsAbove(x, bits);
      assert Bit(y, i) == (Bit(x, i) != Bit(x, i + shift));
      assert Bit(Xorshift(z, shift), i) == (Bit(z, i) != Bit(z, i + shift));
    }
    BitsEqual(bottom2, Xorshift(z, shift));
  }
}
