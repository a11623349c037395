/** Fixed-width unsigned words, modelled as naturals below a power of two.
    The C++ source works on uint8_t .. uint64_t and on an emulated 128-bit
    type; here every width is explicit and every wrap-around is a `%`. */
module Words {

  /** 2^n */
  function Pow2(n: nat): (r: nat)
    ensures r >= 1
  {
    if n == 0 then 1 else 2 * Pow2(n - 1)
  }

  const W32: nat := 0x1_0000_0000
  const W64: nat := 0x1_0000_0000_0000_0000
  const W128: nat := 0x1_0000_0000_0000_0000_0000_0000_0000_0000

  type u8 = x: nat | x < 0x100
  type u16 = x: nat | x < 0x1_0000
  type u32 = x: nat | x < 0x1_0000_0000
  type u64 = x: nat | x < 0x1_0000_0000_0000_0000
  type u128 = x: nat | x < 0x1_0000_0000_0000_0000_0000_0000_0000_0000

  lemma {:induction false} Pow2Add(a: nat, b: nat)
    ensures Pow2(a + b) == Pow2(a) * Pow2(b)
    decreases a
  {
    if a > 0 {
      Pow2Add(a - 1, b);
      assert Pow2(a + b) == 2 * Pow2(a - 1 + b);
    }
  }

  lemma {:induction false} Pow2Monotone(a: nat, b: nat)
    requires a <= b
    ensures Pow2(a) <= Pow2(b)
    decreases b
  {
    if a < b {
      Pow2Monotone(a, b - 1);
    }
  }

  lemma Pow2Strict(a: nat, b: nat)
    requires a < b
    ensures 2 * Pow2(a) <= Pow2(b)
  {
    Pow2Monotone(a + 1, b);
  }

  /** The widths of the machine words the source uses. */
  lemma Pow2Widths()
    ensures Pow2(8) == 0x100 && Pow2(16) == 0x1_0000
    ensures Pow2(32) == W32 && Pow2(64) == W64 && Pow2(128) == W128
  {
    assert Pow2(8) == 0x100;
    Pow2Of16();
    Pow2Of32();
    Pow2Of64();
    Pow2Add(64, 64);
  }

  /** The word sizes as literals, for proofs that must stay linear. */
  lemma Pow2Words()
    ensures Pow2(0) == 1 && Pow2(32) == 0x1_0000_0000 && Pow2(64) == 0x1_0000_0000_0000_0000
    ensures Pow2(96) == 0x1_0000_0000_0000_0000_0000_0000
  {
    Pow2Of32();
    Pow2Of64();
    Pow2Add(32, 64);
  }

  lemma Pow2Of32()
    ensures Pow2(32) == 0x1_0000_0000
  {
    Pow2Of16();
    Pow2Add(16, 16);
  }

  lemma Pow2Of16()
    ensures Pow2(16) == 0x1_0000
  {
    assert Pow2(8) == 0x100;
    Pow2Add(8, 8);
  }

  lemma Pow2Of64()
    ensures Pow2(64) == 0x1_0000_0000_0000_0000
  {
    Pow2Of32();
    Pow2Add(32, 32);
  }

  lemma Pow2Constants()
    ensures Pow2(1) == 2 && Pow2(2) == 4 && Pow2(3) == 8 && Pow2(4) == 16 && Pow2(5) == 32
    ensures Pow2(6) == 64 && Pow2(7) == 128
    ensures Pow2(27) == 0x800_0000 && Pow2(59) == 0x800_0000_0000_0000
    ensures Pow2(63) == 0x8000_0000_0000_0000
  {
    assert Pow2(7) == 128;
    assert Pow2(8) == 0x100;
    Pow2Of16();
    Pow2Of32();
    Pow2Add(8, 3);
    Pow2Add(16, 11);
    Pow2Add(27, 32);
    Pow2Add(59, 4);
  }

  lemma MulAtLeast(x: int, d: int)
    requires x >= 1 && d > 0
    ensures x * d >= d
  {
    assert x * d == (x - 1) * d + d;
    assert (x - 1) * d >= 0;
  }

  /** The widths of the C++ unsigned types the library instantiates: 2^k
      bits for k from 3 (`uint8_t`) to 7 (`pcg128_t`). Stated through the
      logarithm so that a proof about an arbitrary width does not split into
      the five literal cases unless it asks to. */
  ghost predicate IsWordWidth(w: nat)
  {
    exists k :: 3 <= k <= 7 && Pow2(k) == w
  }

  /** The five widths are word widths. */
  lemma WordWidths()
    ensures IsWordWidth(8) && IsWordWidth(16) && IsWordWidth(32)
    ensures IsWordWidth(64) && IsWordWidth(128)
  {
    Pow2Constants();
  }

  /** Every word width is a power of two from 8 to 128 bits. */
  lemma WordWidthLog(w: nat) returns (k: nat)
    requires IsWordWidth(w)
    ensures 3 <= k <= 7 && Pow2(k) == w && 8 <= w <= 128
  {
    k :| 3 <= k <= 7 && Pow2(k) == w;
    Pow2Constants();
    Pow2Monotone(3, k);
    Pow2Monotone(k, 7);
  }

  /** The bounds of a word width. */
  lemma WordWidthBounds(w: nat)
    requires IsWordWidth(w)
    ensures 8 <= w <= 128
  {
    var _ := WordWidthLog(w);
  }

  /** The five word widths, for definitions that differ by width. */
  lemma WordWidthCases(w: nat)
    requires IsWordWidth(w)
    ensures w == 8 || w == 16 || w == 32 || w == 64 || w == 128
  {
    var k := WordWidthLog(w);
    assert Pow2(3) == 8 && Pow2(4) == 16 && Pow2(5) == 32 && Pow2(6) == 64 && Pow2(7) == 128;
    assert k == 3 || k == 4 || k == 5 || k == 6 || k == 7;
  }

  /** A value reduced modulo m that lies in [0, 2m) is itself or itself minus m. */
  lemma ModOnce(v: int, m: int)
    requires m > 0 && 0 <= v < 2 * m
    ensures v % m == if v < m then v else v - m
  {
    if v < m {
      DivModUnique(v, m, 0, v);
    } else {
      DivModUnique(v, m, 1, v - m);
    }
  }

  lemma ModOnceBelow(v: int, m: int)
    requires m > 0 && -m <= v < m
    ensures v % m == if v >= 0 then v else v + m
  {
    if v >= 0 {
      DivModUnique(v, m, 0, v);
    } else {
      DivModUnique(v, m, -1, v + m);
    }
  }

  /** A quotient by p of a value below p * q is below q. */
  lemma DivBelow(x: nat, p: nat, q: nat)
    requires p > 0 && x < p * q
    ensures x / p < q
  {
    if x / p >= q {
      MulAtLeast(x / p - q + 1, p);
    }
  }

  /** A word of twice the width splits into a high and a low half. */
  lemma SplitHalves(v: nat, m: nat)
    requires m > 0 && v < m * m
    ensures v / m < m && v == (v / m) * m + v % m
    ensures v / m == 0 ==> v == v % m
  {
    if v / m >= m {
      MulAtLeast(v / m - m + 1, m);
    }
  }

  lemma WidthsSquare()
    ensures W32 * W32 == W64 && W64 * W64 == W128
  {
  }

  /** Reduction modulo the word sizes, with the modulus written out so that
      the arithmetic stays linear. */
  lemma Wrap64(x: int, q: int, r: int)
    requires x == q * 0x1_0000_0000_0000_0000 + r
    requires 0 <= r < 0x1_0000_0000_0000_0000
    ensures x % 0x1_0000_0000_0000_0000 == r && x / 0x1_0000_0000_0000_0000 == q
  {
    DivModUnique(x, 0x1_0000_0000_0000_0000, q, r);
  }

  lemma Wrap128(x: int, q: int, r: int)
    requires x == q * 0x1_0000_0000_0000_0000_0000_0000_0000_0000 + r
    requires 0 <= r < 0x1_0000_0000_0000_0000_0000_0000_0000_0000
    ensures x % 0x1_0000_0000_0000_0000_0000_0000_0000_0000 == r && x / 0x1_0000_0000_0000_0000_0000_0000_0000_0000 == q
  {
    DivModUnique(x, 0x1_0000_0000_0000_0000_0000_0000_0000_0000, q, r);
  }

  /** Quotient and remainder are determined by the defining equation. */
  lemma DivModUnique(a: int, d: int, q: int, r: int)
    requires d > 0 && a == q * d + r && 0 <= r < d
    ensures a / d == q && a % d == r
  {
    var q', r' := a / d, a % d;
    assert a == q' * d + r';
    assert (q - q') * d == r' - r;
    if q > q' {
      MulAtLeast(q - q', d);
    } else if q < q' {
      assert (q' - q) * d == r - r';
      MulAtLeast(q' - q, d);
    }
  }

  lemma MulBelow(m: nat, b: nat, c: nat, r: nat)
    requires m < c && r < b
    ensures m * b + r < b * c
  {
    assert m * b <= (c - 1) * b by {
      assert (c - 1 - m) * b >= 0;
    }
    assert (c - 1) * b == b * c - b;
  }

  /** Dividing by b*c is dividing by b, then by c. */
  lemma DivOfProduct(a: nat, b: nat, c: nat)
    requires b > 0 && c > 0
    ensures a / (b * c) == (a / b) / c
    ensures a % (b * c) == (a / b) % c * b + a % b
  {
    var p := a / b;
    var r := a % b;
    var q := p / c;
    var m := p % c;
    assert a == p * b + r;
    assert p == q * c + m;
    assert p * b == q * (b * c) + m * b by {
      assert p * b == (q * c + m) * b;
    }
    MulBelow(m, b, c, r);
    DivModUnique(a, b * c, q, m * b + r);
  }

  /** (q*d + r) splits back into q and r. */
  lemma DivModOfSum(q: nat, d: nat, r: nat)
    requires d > 0 && r < d
    ensures (q * d + r) / d == q && (q * d + r) % d == r
  {
    DivModUnique(q * d + r, d, q, r);
  }

  /** Reducing modulo m*d after reducing modulo m... and similar: taking a
      value modulo a multiple first does not change its residue. */
  lemma ModOfMultiple(a: nat, d: nat, k: nat)
    requires d > 0 && k > 0
    ensures (a % (d * k)) % d == a % d
  {
    DivOfProduct(a, d, k);
    var m := (a / d) % k;
    assert a % (d * k) == m * d + a % d;
    DivModOfSum(m, d, a % d);
  }

  /** x*y reduced modulo m only depends on the residues. */
  lemma MulMod(x: nat, y: nat, m: nat)
    requires m > 0
    ensures (x * y) % m == ((x % m) * (y % m)) % m
  {
    var qx, rx := x / m, x % m;
    var qy, ry := y / m, y % m;
    assert x == qx * m + rx;
    assert y == qy * m + ry;
    assert x * y == (qx * m + rx) * (qy * m + ry);
    assert x * y == (qx * qy * m + qx * ry + rx * qy) * m + rx * ry;
    var k := qx * qy * m + qx * ry + rx * qy;
    var q2, r2 := (rx * ry) / m, (rx * ry) % m;
    assert rx * ry == q2 * m + r2;
    assert x * y == (k + q2) * m + r2;
    DivModUnique(x * y, m, k + q2, r2);
  }

  lemma MulModLeft(x: nat, y: nat, m: nat)
    requires m > 0
    ensures (x * y) % m == ((x % m) * y) % m
  {
    var qx, rx := x / m, x % m;
    assert x * y == qx * y * m + rx * y by {
      assert x == qx * m + rx;
    }
    var q2, r2 := (rx * y) / m, (rx * y) % m;
    assert rx * y == q2 * m + r2;
    assert x * y == (qx * y + q2) * m + r2;
    DivModUnique(x * y, m, qx * y + q2, r2);
  }

  /** x+y reduced modulo m only depends on the residues. */
  lemma AddMod(x: nat, y: nat, m: nat)
    requires m > 0
    ensures (x + y) % m == ((x % m) + (y % m)) % m
  {
    var qx, rx := x / m, x % m;
    var qy, ry := y / m, y % m;
    assert x + y == (qx + qy) * m + (rx + ry);
    var q2, r2 := (rx + ry) / m, (rx + ry) % m;
    assert x + y == (qx + qy + q2) * m + r2;
    DivModUnique(x + y, m, qx + qy + q2, r2);
  }

  /** Adding a multiple of m does not change the residue. */
  lemma ModAddMultiple(x: nat, k: nat, m: nat)
    requires m > 0
    ensures (x + k * m) % m == x % m
  {
    assert x + k * m == (x / m + k) * m + x % m;
    DivModUnique(x + k * m, m, x / m + k, x % m);
  }

  lemma MulNonNegative(x: nat, y: nat)
    ensures x * y >= 0
  {
  }

  /** Multiplication by a natural is monotone. */
  lemma MulMonotone(a: nat, b: nat, c: nat)
    requires a <= b
    ensures a * c <= b * c
  {
    MulNonNegative(b - a, c);
    assert (b - a) * c == b * c - a * c;
  }

  /** Monotonicity of multiplication, for bounds. */
  lemma MulLess(x: nat, y: nat, bx: nat, ny: nat)
    requires x < bx && y < ny
    ensures x * y < bx * ny
    ensures x * y <= (bx - 1) * (ny - 1)
  {
    MulMonotone(y, ny - 1, x);
    MulMonotone(x, bx - 1, ny - 1);
    assert x * y == y * x;
    assert x * (ny - 1) == (ny - 1) * x;
    assert bx * ny == (bx - 1) * (ny - 1) + (bx - 1) + ny;
  }
}
