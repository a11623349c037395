/** The output functions that turn an engine state into a result: XSH RR
    (high xorshift, then a rotation chosen by the top bits), which is what
    `pcg32` uses, and RXS M XS (random xorshift, multiply, fixed xorshift),
    which is a permutation when the state and the result have the same width
    and comes with its inverse `unoutput`. */
module Output {
  import opened Words
  import opened Bits
  import opened Permute

  // ---------------------------------------------------------------------
  // XSH RR

  /** The shift and rotation widths XSH RR derives from the two widths. */
  datatype XshRrShape = XshRrShape(opbits: nat, amplifier: nat, bottomspare: nat, xshift: nat)

  function XshRrShapeOf(bits: nat, xbits: nat): (shape: XshRrShape)
    requires IsWordWidth(xbits) && xbits <= bits
    ensures Pow2(shape.opbits + shape.amplifier) == xbits
    ensures shape.opbits + shape.bottomspare == bits - xbits
  {
    var sparebits := bits - xbits;
    var wantedopbits := WantedOpBits(xbits);
    var opbits := if sparebits >= wantedopbits then wantedopbits else sparebits;
    var amplifier := wantedopbits - opbits;
    var topspare := opbits;
    var bottomspare := sparebits - topspare;
    var xshift := (topspare + xbits) / 2;
    WantedOpBitsLog(xbits);
    XshRrShape(opbits, amplifier, bottomspare, xshift)
  }

  /** The rotation width XSH RR asks for: the logarithm of the result width. */
  function WantedOpBits(xbits: nat): nat
  {
    if xbits >= 128 then 7
    else if xbits >= 64 then 6
    else if xbits >= 32 then 5
    else if xbits >= 16 then 4
    else 3
  }

  lemma WantedOpBitsLog(xbits: nat)
    requires IsWordWidth(xbits)
    ensures Pow2(WantedOpBits(xbits)) == xbits
  {
    WordWidthCases(xbits);
    Pow2Constants();
  }

  /** `xsh_rr_mixin<xtype, itype>::output(internal)` for a state of `bits` bits
      and a result of `xbits` bits. */
  function XshRr(internal: nat, bits: nat, xbits: nat): (r: nat)
    requires IsWordWidth(bits) && IsWordWidth(xbits) && xbits <= bits && internal < Pow2(bits)
    ensures r < Pow2(xbits)
  {
    var shape := XshRrShapeOf(bits, xbits);
    var mask := Ones(shape.opbits);
    var rot := if shape.opbits > 0 then And(Shr(internal, bits - shape.opbits) % 0x100, mask) else 0;
    var amprot := And(ShiftLeft(rot, shape.amplifier), mask);
    var internal' := Xorshift(internal, shape.xshift);
    var result := Shr(internal', shape.bottomspare) % Pow2(xbits);
    AmplifiedRotationBound(ShiftLeft(rot, shape.amplifier), shape.opbits, shape.amplifier, xbits);
    Rotr(result, amprot, xbits)
  }

  /** The amplified rotation, masked to `opbits` bits, is below the result width. */
  lemma AmplifiedRotationBound(x: nat, opbits: nat, amplifier: nat, xbits: nat)
    requires Pow2(opbits + amplifier) == xbits
    ensures And(x, Ones(opbits)) < xbits
  {
    AndOnes(x, opbits);
    Pow2Monotone(opbits, opbits + amplifier);
  }

  /** For `pcg32` (a 64-bit state and a 32-bit result) the rotation is the top
      five bits, the xorshift is by 18 and the result is bits 27..58. */
  lemma XshRrPcg32(state: u64)
    ensures IsWordWidth(32) && IsWordWidth(64)
    ensures Pow2(32) == W32 && Pow2(64) == W64 && Pow2(59) == 0x800_0000_0000_0000
    ensures state / Pow2(59) < 32
    ensures Xorshift(state, 18) < W64
    ensures XshRr(state, 64, 32) ==
      Rotr((Xorshift(state, 18) / Pow2(27)) % W32, state / Pow2(59), 32)
  {
    WordWidths();
    Pow2Widths();
    Pcg32Shape();
    Pcg32Rotation(state);
    XorshiftBound(state, 18, 64);
    ShrIsDiv(Xorshift(state, 18), 27);
  }

  /** The shape of XSH RR for a 64-bit state and a 32-bit result. */
  lemma Pcg32Shape()
    ensures IsWordWidth(32) && XshRrShapeOf(64, 32) == XshRrShape(5, 0, 27, 18)
  {
    WordWidths();
  }

  /** The rotation count `pcg32` computes is the top five bits of the state. */
  lemma Pcg32Rotation(state: u64)
    ensures Pow2(59) == 0x800_0000_0000_0000
    ensures state / Pow2(59) < 32
    ensures And(ShiftLeft(And(Shr(state, 59) % 0x100, Ones(5)), 0), Ones(5)) == state / Pow2(59)
  {
    Pow2Constants();
    var top := Shr(state, 59);
    TopFiveBits(state);
    var rot := And(top % 0x100, Ones(5));
    assert rot == top by {
      DivModUnique(top, 0x100, 0, top);
      AndOnes(top, 5);
      DivModUnique(top, 32, 0, top);
    }
    assert ShiftLeft(rot, 0) == rot;
    AndOnes(rot, 5);
    DivModUnique(rot, 32, 0, rot);
  }

  /** The top five bits of a 64-bit word: `state >> 59`. */
  lemma TopFiveBits(state: u64)
    ensures Shr(state, 59) == state / Pow2(59) < 32
  {
    Pow2Constants();
    ShrIsDiv(state, 59);
    DivModUnique(state, Pow2(59), state / Pow2(59), state % Pow2(59));
    MulBelowBound(state / Pow2(59), Pow2(59), 32, state % Pow2(59));
  }

  /** A state whose `pcg32` output is at least 2^31: `2^58 + 3`, whose
      rotation count is zero and whose xorshifted bits 27..58 are
      `2^31 + 2^13`. */
  lemma XshRrLargeOutput()
    ensures IsWordWidth(32) && IsWordWidth(64)
    ensures Pow2(64) == W64
    ensures XshRr(0x400_0000_0000_0003, 64, 32) == 0x8000_2000
  {
    WordWidths();
    Pow2Constants();
    Pow2Widths();
    var s := 0x400_0000_0000_0003;
    XshRrPcg32(s);
    DivModUnique(s, Pow2(59), 0, s);
    // s >> 18 == 2^40, and it shares no bit with s.
    Pow2Add(16, 2);
    Pow2Add(32, 8);
    Pow2Add(40, 18);
    assert Pow2(40) == 0x100_0000_0000 && Pow2(18) == 0x4_0000;
    ShrIsDiv(s, 18);
    DivModUnique(s, Pow2(18), Pow2(40), 3);
    ConcatBits(s, 1, 3, 58);
    BitsAbove(3, 2);
    Pow2Bits(40);
    DisjointSum(s, Pow2(40));
    var x := s + Pow2(40);
    assert Xorshift(s, 18) == x;
    DivModUnique(x, Pow2(27), 0x8000_2000, 3);
    DivModUnique(0x8000_2000, W32, 0, 0x8000_2000);
    RotateByZero(0x8000_2000, 32);
  }

  /** Rotating by zero changes nothing. */
  lemma RotateByZero(value: nat, bits: nat)
    requires IsWordWidth(bits) && value < Pow2(bits)
    ensures Rotr(value, 0, bits) == value
  {
    BitsAbove(value, bits);
    BitsEqual(Rotr(value, 0, bits), value);
  }

  // ---------------------------------------------------------------------
  // RXS M XS

  /** `mcg_multiplier<itype>` */
  function McgMultiplier(bits: nat): (r: nat)
    requires IsWordWidth(bits)
    ensures r < Pow2(bits)
  {
    WordWidthCases(bits);
    Pow2Widths();
    if bits == 8 then 217
    else if bits == 16 then 62169
    else if bits == 32 then 277803737
    else if bits == 64 then 12605985483714917081
    else 17766728186571221404 * W64 + 12605985483714917081
  }

  /** `mcg_unmultiplier<itype>` */
  function McgUnmultiplier(bits: nat): (r: nat)
    requires IsWordWidth(bits)
    ensures r < Pow2(bits)
  {
    WordWidthCases(bits);
    Pow2Widths();
    if bits == 8 then 105
    else if bits == 16 then 28009
    else if bits == 32 then 2897767785
    else if bits == 64 then 15009553638781119849
    else 14422606686972528997 * W64 + 15009553638781119849
  }

  /** The unmultiplier is the inverse of the multiplier modulo 2^bits. */
  lemma McgInverse(bits: nat)
    requires IsWordWidth(bits)
    ensures (McgMultiplier(bits) * McgUnmultiplier(bits)) % Pow2(bits) == 1
  {
    WordWidthCases(bits);
    Pow2Widths();
    if bits == 8 {
      assert McgMultiplier(bits) == 217 && McgUnmultiplier(bits) == 105;
      DivModUnique(217 * 105, 0x100, 0x59, 1);
    } else if bits == 16 {
      assert McgMultiplier(bits) == 62169 && McgUnmultiplier(bits) == 28009;
      DivModUnique(62169 * 28009, 0x1_0000, 0x67ca, 1);
    } else if bits == 32 {
      assert McgMultiplier(bits) == 277803737 && McgUnmultiplier(bits) == 2897767785;
      DivModUnique(277803737 * 2897767785, 0x1_0000_0000, 0xb2bf8fc, 1);
    } else if bits == 64 {
      assert McgMultiplier(bits) == 12605985483714917081;
      assert McgUnmultiplier(bits) == 15009553638781119849;
      DivModUnique(12605985483714917081 * 15009553638781119849, W64, 0x8e588fdb57211267, 1);
    } else {
      assert McgMultiplier(bits) == 0xf69019274d7f699caef17502108ef2d9;
      assert McgUnmultiplier(bits) == 0xc827645e182bc965d04ca582acb86d69;
      DivModUnique(0xf69019274d7f699caef17502108ef2d9 * 0xc827645e182bc965d04ca582acb86d69,
        W128, 0xc0c68445738c9e28d5abeb592be6c2d2, 1);
    }
  }

  /** The number of top bits that choose the first xorshift. */
  function RxsOpBits(xbits: nat): (r: nat)
    ensures 2 <= r <= 6
  {
    if xbits >= 128 then 6
    else if xbits >= 64 then 5
    else if xbits >= 32 then 4
    else if xbits >= 16 then 3
    else 2
  }

  /** The first two steps of RXS M XS: `internal ^= internal >> (opbits +
      rshift)` with `rshift` read from the top `opbits` bits, then
      `internal *= mcg_multiplier`. */
  function RxsScramble(internal: nat, bits: nat, opbits: nat, multiplier: nat): (r: nat)
    requires 2 <= opbits <= bits && internal < Pow2(bits)
    ensures r < Pow2(bits)
  {
    var rshift := And(Shr(internal, bits - opbits) % 0x100, Ones(opbits));
    (Xorshift(internal, opbits + rshift) * multiplier) % Pow2(bits)
  }

  /** `rxs_m_xs_mixin<xtype, itype>::output(internal)` */
  function RxsMXs(internal: nat, bits: nat, xbits: nat): (r: nat)
    requires IsWordWidth(bits) && IsWordWidth(xbits) && xbits <= bits && internal < Pow2(bits)
    ensures r < Pow2(xbits)
  {
    var opbits := RxsOpBits(xbits);
    WordWidthBounds(bits);
    var internal2 := RxsScramble(internal, bits, opbits, McgMultiplier(bits));
    var result := Shr(internal2, bits - xbits) % Pow2(xbits);
    XorshiftBound(result, (2 * xbits + 2) / 3, xbits);
    Xorshift(result, (2 * xbits + 2) / 3)
  }

  /** The last two steps of `unoutput`: multiply by the unmultiplier, then
      read the shift from the top bits and undo the random xorshift. */
  function RxsUnscramble(internal: nat, bits: nat, opbits: nat, unmultiplier: nat): (r: nat)
    requires 2 <= opbits <= bits && internal < Pow2(bits)
    ensures r < Pow2(bits)
  {
    var internal2 := (internal * unmultiplier) % Pow2(bits);
    var rshift := And(Shr(internal2, bits - opbits), Ones(opbits));
    Unxorshift(internal2, bits, opbits + rshift, bits)
  }

  /** `rxs_m_xs_mixin<itype, itype>::unoutput(internal)`: undo the fixed
      xorshift, then the multiplication and the random xorshift. */
  function RxsMXsUnoutput(internal: nat, bits: nat): (r: nat)
    requires IsWordWidth(bits) && internal < Pow2(bits)
    ensures r < Pow2(bits)
  {
    var opbits := RxsOpBits(bits);
    WordWidthBounds(bits);
    var internal1 := Unxorshift(internal, bits, (2 * bits + 2) / 3, bits);
    RxsUnscramble(internal1, bits, opbits, McgUnmultiplier(bits))
  }

  /** A right xorshift by at least `k` keeps the top `k` bits. */
  lemma XorshiftKeepsTop(x: nat, bits: nat, k: nat, shift: nat)
    requires x < Pow2(bits) && k <= shift && k <= bits
    ensures Shr(Xorshift(x, shift), bits - k) == Shr(x, bits - k)
  {
    var d := bits - k;
    var y := Xorshift(x, shift);
    forall i: nat
      ensures Bit(Shr(y, d), i) == Bit(Shr(x, d), i)
    {
      ShrBits(y, d);
      ShrBits(x, d);
      BitsAbove(x, bits);
      assert Bit(y, i + d) == (Bit(x, i + d) != Bit(x, i + d + shift));
    }
    BitsEqual(Shr(y, d), Shr(x, d));
  }

  /** Multiplying by an inverse modulo m undoes a multiplication. */
  lemma MulInverseMod(x: nat, a: nat, b: nat, m: nat)
    requires m > 0 && x < m && (a * b) % m == 1
    ensures ((x * a) % m * b) % m == x
  {
    MulModLeft(x * a, b, m);
    assert x * a * b == x * (a * b);
    MulMod(x, a * b, m);
    DivModUnique(x, m, 0, x);
  }

  /** When the result has the width of the state, `unoutput` inverts `output`. */
  lemma RxsMXsInverts(x: nat, bits: nat)
    requires IsWordWidth(bits) && x < Pow2(bits)
    ensures RxsMXsUnoutput(RxsMXs(x, bits, bits), bits) == x
  {
    var opbits := RxsOpBits(bits);
    assert 2 <= opbits <= bits by {
      WordWidthBounds(bits);
    }
    var scrambled := RxsScramble(x, bits, opbits, McgMultiplier(bits));
    var k := (2 * bits + 2) / 3;
    FullWidthOutput(x, bits, scrambled);
    assert RxsMXsUnoutput(Xorshift(scrambled, k), bits)
        == RxsUnscramble(scrambled, bits, opbits, McgUnmultiplier(bits)) by {
      UnxorshiftInverts(scrambled, bits, k, bits);
    }
    McgInverse(bits);
    UnscrambleInverts(x, bits, opbits, McgMultiplier(bits), McgUnmultiplier(bits));
  }

  /** At the full width no bits are dropped between the scramble and the
      final xorshift. */
  lemma FullWidthOutput(x: nat, bits: nat, scrambled: nat)
    requires IsWordWidth(bits) && x < Pow2(bits) && 2 <= RxsOpBits(bits) <= bits
    requires scrambled == RxsScramble(x, bits, RxsOpBits(bits), McgMultiplier(bits))
    ensures RxsMXs(x, bits, bits) == Xorshift(scrambled, (2 * bits + 2) / 3)
  {
    assert Shr(scrambled, 0) % Pow2(bits) == scrambled by {
      DivModUnique(scrambled, Pow2(bits), 0, scrambled);
    }
  }

  /** Multiplying by the inverse and undoing the random xorshift restores the
      state. */
  lemma UnscrambleInverts(x: nat, bits: nat, opbits: nat, multiplier: nat, unmultiplier: nat)
    requires 2 <= opbits <= 6 && opbits <= bits && x < Pow2(bits)
    requires (multiplier * unmultiplier) % Pow2(bits) == 1
    ensures RxsUnscramble(RxsScramble(x, bits, opbits, multiplier), bits, opbits, unmultiplier) == x
  {
    var top := Shr(x, bits - opbits);
    var rshift := And(top, Ones(opbits));
    assert And(top % 0x100, Ones(opbits)) == rshift by {
      TopBitsBound(x, bits, opbits);
      Pow2Monotone(opbits, 6);
      assert Pow2(6) == 64;
      DivModUnique(top, 0x100, 0, top);
    }
    var internal1 := Xorshift(x, opbits + rshift);
    XorshiftBound(x, opbits + rshift, bits);
    var scrambled := RxsScramble(x, bits, opbits, multiplier);
    UnmultiplyScrambled(x, bits, opbits, multiplier, unmultiplier, rshift);
    assert Shr(internal1, bits - opbits) == top by {
      XorshiftKeepsTop(x, bits, opbits, opbits + rshift);
    }
    UnscrambleOf(scrambled, bits, opbits, unmultiplier, internal1, rshift);
    UnxorshiftInverts(x, bits, opbits + rshift, bits);
  }

  /** The steps of `RxsUnscramble` once the product and the shift are known. */
  lemma UnscrambleOf(s: nat, bits: nat, opbits: nat, unmultiplier: nat, internal1: nat, rshift: nat)
    requires 2 <= opbits <= bits && s < Pow2(bits) && internal1 < Pow2(bits)
    requires (s * unmultiplier) % Pow2(bits) == internal1
    requires And(Shr(internal1, bits - opbits), Ones(opbits)) == rshift
    ensures RxsUnscramble(s, bits, opbits, unmultiplier) == Unxorshift(internal1, bits, opbits + rshift, bits)
  {
  }

  /** Multiplying the scrambled value by the inverse gives back the
      xorshifted state. */
  lemma UnmultiplyScrambled(x: nat, bits: nat, opbits: nat, multiplier: nat, unmultiplier: nat, rshift: nat)
    requires 2 <= opbits <= bits && x < Pow2(bits)
    requires (multiplier * unmultiplier) % Pow2(bits) == 1
    requires rshift == And(Shr(x, bits - opbits) % 0x100, Ones(opbits))
    ensures (RxsScramble(x, bits, opbits, multiplier) * unmultiplier) % Pow2(bits)
      == Xorshift(x, opbits + rshift)
  {
    var internal1 := Xorshift(x, opbits + rshift);
    XorshiftBound(x, opbits + rshift, bits);
    MulInverseMod(internal1, multiplier, unmultiplier, Pow2(bits));
  }

  /** The top `opbits` bits of a `bits`-bit word: `x >> (bits - opbits)`. */
  lemma TopBitsBound(x: nat, bits: nat, opbits: nat)
    requires opbits <= bits && x < Pow2(bits)
    ensures Shr(x, bits - opbits) < Pow2(opbits)
  {
    ShrIsDiv(x, bits - opbits);
    Pow2Add(bits - opbits, opbits);
    DivBelow(x, Pow2(bits - opbits), Pow2(opbits));
  }

  /** A quotient by p of a value below p * q is below q. */
  lemma MulBelowBound(quotient: nat, p: nat, q: nat, rest: nat)
    requires p > 0 && quotient * p + rest < q * p
    ensures quotient < q
  {
    if quotient >= q {
      MulAtLeast(quotient - q + 1, p);
    }
  }
}
