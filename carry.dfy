/** Add and subtract with carry on unsigned words of any width: the building
    blocks of the emulated 128-bit arithmetic. */
module Carry {
  import opened Words

  function CarryBit(c: bool): nat { if c then 1 else 0 }

  /** `addwithcarry(x, y, carryin, &carryout)` on `width`-bit words: the sum
      word and the carry out, which together hold x + y + carryin exactly. */
  function AddWithCarry(width: nat, x: nat, y: nat, carryIn: bool): (r: (nat, bool))
    requires width > 0 && x < Pow2(width) && y < Pow2(width)
    ensures r.0 < Pow2(width)
    ensures x + y + CarryBit(carryIn) == r.0 + (if r.1 then Pow2(width) else 0)
  {
    var m := Pow2(width);
    var halfResult := (y + CarryBit(carryIn)) % m;
    var result := (x + halfResult) % m;
    ModOnce(y + CarryBit(carryIn), m);
    ModOnce(x + halfResult, m);
    assert m >= 2;
    var carryOut := halfResult < y || result < x;
    assert carryOut <==> x + y + CarryBit(carryIn) >= m;
    (result, carryOut)
  }

  /** `subwithcarry(x, y, carryin, &carryout)` on `width`-bit words: the
      difference word and the borrow out, which together hold
      x - y - carryin exactly. */
  function SubWithCarry(width: nat, x: nat, y: nat, carryIn: bool): (r: (nat, bool))
    requires width > 0 && x < Pow2(width) && y < Pow2(width)
    ensures r.0 < Pow2(width)
    ensures x - y - CarryBit(carryIn) == r.0 - (if r.1 then Pow2(width) else 0)
  {
    var m := Pow2(width);
    var halfResult := (y + CarryBit(carryIn)) % m;
    var result := (x - halfResult) % m;
    ModOnce(y + CarryBit(carryIn), m);
    ModOnceBelow(x - halfResult, m);
    assert m >= 2;
    var carryOut := halfResult < y || result > x;
    assert carryOut <==> x < y + CarryBit(carryIn);
    (result, carryOut)
  }
}
