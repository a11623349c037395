/** `uneven_copy`: copying a run of words of one width into a run of words
    of another. A wide source word is cut into narrower destination words,
    least significant piece first; narrow source words are packed side by
    side into wider destination words, the first one lowest. The two
    directions undo each other: `PieceOfJoin` and `JoinOfPieces`. */
module Repack {
  import opened Words
  import opened Bits

  /** The k-th piece of `bits` bits of v, counting from the least
      significant end. */
  function Piece(v: nat, bits: nat, k: nat): (r: nat)
    ensures r < Pow2(bits)
  {
    (v / Pow2(bits * k)) % Pow2(bits)
  }

  /** The words of ws side by side in one number, the first one lowest. */
  function Join(ws: seq<nat>, bits: nat): nat
  {
    if |ws| == 0 then 0
    else Join(ws[..|ws| - 1], bits) + ws[|ws| - 1] * Pow2(bits * (|ws| - 1))
  }

  predicate WordsBelow(ws: seq<nat>, bits: nat)
  {
    forall i :: 0 <= i < |ws| ==> ws[i] < Pow2(bits)
  }

  /** The first n pieces of v. */
  function Pieces(v: nat, bits: nat, n: nat): (r: seq<nat>)
    ensures |r| == n && WordsBelow(r, bits)
  {
    seq(n, k requires 0 <= k => Piece(v, bits, k))
  }

  /** How many source words the narrowing copy reads to fill n destination
      words, `scale` of them per source word. */
  function NarrowUsed(n: nat, scale: nat): nat
    requires scale > 0
  {
    if n == 0 then 0 else (n - 1) / scale + 1
  }

  /** How many source words the widening copy reads to fill n destination
      words, `scale` of them per destination word. */
  function WideUsed(n: nat, scale: nat): nat
  {
    if n == 0 then 0 else WideUsed(n - 1, scale) + scale
  }

  /** n destination words read n * scale source words. */
  lemma {:induction false} WideUsedProduct(n: nat, scale: nat)
    ensures WideUsed(n, scale) == n * scale
  {
    if n > 0 {
      WideUsedProduct(n - 1, scale);
      MulSucc(scale, n - 1, n);
    }
  }

  /** More destination words read at least as many source words. */
  lemma {:induction false} WideUsedMonotone(a: nat, b: nat, scale: nat)
    requires a <= b
    ensures WideUsed(a, scale) <= WideUsed(b, scale)
    decreases b
  {
    if a < b {
      WideUsedMonotone(a, b - 1, scale);
    }
  }

  // ---------------------------------------------------------------------
  // Arithmetic

  /** One more destination word starts a new source word exactly when the
      count is a multiple of `scale`. */
  lemma CountStep(c: nat, scale: nat)
    requires scale > 0
    ensures c % scale == 0 ==> NarrowUsed(c + 1, scale) == NarrowUsed(c, scale) + 1 && (c / scale) * scale == c
    ensures c % scale != 0 ==>
      (NarrowUsed(c + 1, scale) == NarrowUsed(c, scale) && c > 0 && c / scale == (c - 1) / scale && c % scale == (c - 1) % scale + 1)
  {
    var q, r := c / scale, c % scale;
    if r == 0 {
      if c > 0 {
        DivModUnique(c - 1, scale, q - 1, scale - 1);
      }
      DivModUnique(c, scale, q, 0);
    } else {
      DivModUnique(c - 1, scale, q, r - 1);
    }
  }

  lemma {:induction false} NarrowUsedMonotone(a: nat, b: nat, scale: nat)
    requires scale > 0 && a <= b
    ensures NarrowUsed(a, scale) <= NarrowUsed(b, scale)
    decreases b - a
  {
    if a < b {
      NarrowUsedMonotone(a + 1, b, scale);
      CountStep(a, scale);
    }
  }

  /** A word width is a whole number of any narrower word width. */
  lemma WidthRatio(narrow: nat, wide: nat)
    requires IsWordWidth(narrow) && IsWordWidth(wide) && narrow <= wide
    ensures wide / narrow >= 1 && narrow * (wide / narrow) == wide
  {
    WordWidthCases(narrow);
    WordWidthCases(wide);
  }

  /** `value | (w << shift)` is a sum when value lies below bit `shift` and
      the shifted word fits the width. */
  lemma OrShifted(value: nat, w: nat, shift: nat, wbits: nat, width: nat)
    requires value < Pow2(shift) && w < Pow2(wbits) && shift + wbits <= width
    ensures Or(value, Shl(w, shift, width)) == value + w * Pow2(shift)
    ensures value + w * Pow2(shift) < Pow2(shift + wbits)
  {
    var high := ShiftedFits(value, w, shift, wbits, width);
    DisjointBelow(value, w, shift);
    DisjointSum(value, high);
  }

  /** The shifted word fits the width, so the shift loses nothing. */
  lemma ShiftedFits(value: nat, w: nat, shift: nat, wbits: nat, width: nat) returns (high: nat)
    requires value < Pow2(shift) && w < Pow2(wbits) && shift + wbits <= width
    ensures high == w * Pow2(shift) && Shl(w, shift, width) == high
    ensures value + high < Pow2(shift + wbits)
  {
    high := NatMul(w, Pow2(shift));
    Pow2Add(shift, wbits);
    MulBelow(w, Pow2(shift), Pow2(wbits), value);
    Pow2Monotone(shift + wbits, width);
    ShlIsMul(w, shift, width);
    DivModUnique(high, Pow2(width), 0, high);
  }

  /** A value below bit `shift` shares no bit with a multiple of 2^shift. */
  lemma DisjointBelow(value: nat, w: nat, shift: nat)
    requires value < Pow2(shift)
    ensures forall i: nat :: !(Bit(value, i) && Bit(w * Pow2(shift), i))
  {
    BitsAbove(value, shift);
    MulPow2Bits(w, shift);
  }

  /** Joined words stay below the joint width. */
  lemma {:induction false} JoinBound(ws: seq<nat>, bits: nat)
    requires WordsBelow(ws, bits)
    ensures Join(ws, bits) < Pow2(bits * |ws|)
    decreases |ws|
  {
    if |ws| > 0 {
      var n := |ws| - 1;
      JoinBound(ws[..n], bits);
      assert bits * (n + 1) == bits * n + bits;
      Pow2Add(bits * n, bits);
      MulBelow(ws[n], Pow2(bits * n), Pow2(bits), Join(ws[..n], bits));
    }
  }

  /** Dropping the top word: the pieces below it come from the rest. */
  lemma PieceBelowTop(rest: nat, w: nat, bits: nat, n: nat, k: nat)
    requires k < n
    ensures Piece(rest + w * Pow2(bits * n), bits, k) == Piece(rest, bits, k)
  {
    var lo, pb, m := TopFactors(w, bits, n, k);
    AddHighMultiple(rest, w * Pow2(bits * n), m, lo, pb);
  }

  /** A word placed n words up is a multiple of the span of the first k + 1
      words, 2^(bits * k) * 2^bits. */
  lemma TopFactors(w: nat, bits: nat, n: nat, k: nat) returns (lo: nat, pb: nat, m: nat)
    requires k < n
    ensures lo == Pow2(bits * k) && pb == Pow2(bits)
    ensures w * Pow2(bits * n) == m * (lo * pb)
  {
    var below, above := SplitExponent(bits, n, k);
    Pow2Split(below, bits, above);
    lo, pb := Pow2(below), Pow2(bits);
    m := w * Pow2(above);
    ScaleSplit(w, Pow2(bits * n), lo, pb, Pow2(above));
  }

  /** bits * n is bits * k, then bits, then the rest. */
  lemma SplitExponent(bits: nat, n: nat, k: nat) returns (below: nat, above: nat)
    requires k < n
    ensures below == bits * k && above == bits * (n - k - 1)
    ensures Pow2(bits * n) == Pow2(below + bits + above)
  {
    below := NatMul(bits, k);
    above := NatMul(bits, n - k - 1);
    var total := NatMul(bits, n);
    MulSplit(bits, n, k, below, above);
    Pow2Eq(total, below + bits + above);
  }

  lemma NatMul(a: nat, b: nat) returns (p: nat)
    ensures p == a * b
  {
    p := a * b;
  }

  lemma Pow2Eq(x: nat, y: nat)
    requires x == y
    ensures Pow2(x) == Pow2(y)
  {
  }

  lemma ScaleSplit(w: nat, p: nat, lo: nat, pb: nat, g: nat)
    requires p == (lo * pb) * g
    ensures w * p == (w * g) * (lo * pb)
  {
  }

  /** 2^(a + b + c) is 2^a, then 2^b, then 2^c. */
  lemma Pow2Split(a: nat, b: nat, c: nat)
    ensures Pow2(a + b + c) == (Pow2(a) * Pow2(b)) * Pow2(c)
  {
    Pow2Add(a + b, c);
    Pow2Add(a, b);
    MulLeft(Pow2(a + b), Pow2(a) * Pow2(b), Pow2(c));
  }

  lemma MulLeft(x: nat, y: nat, z: nat)
    requires x == y
    ensures x * z == y * z
  {
  }

  lemma MulSplit(bits: nat, n: nat, k: nat, below: nat, above: nat)
    requires k < n && below == bits * k && above == bits * (n - k - 1)
    ensures bits * n == below + bits + above
  {
  }

  lemma MulSucc(a: nat, b: nat, c: nat)
    requires c == b + 1
    ensures a * c == a * b + a
  {
  }

  /** Shifting a quotient by 2^e right by `bits` more is the quotient by
      2^(e + bits). */
  lemma ShiftDown(x: nat, previous: nat, e: nat, bits: nat)
    requires previous == x / Pow2(e)
    ensures Shr(previous, bits) == x / Pow2(e + bits)
  {
    ShrIsDiv(previous, bits);
    Pow2Add(e, bits);
    DivOfProduct(x, Pow2(e), Pow2(bits));
  }

  lemma MulAssoc(w: nat, a: nat, g: nat)
    ensures w * (a * g) == (w * g) * a
  {
  }

  /** Adding a multiple of pb * lo does not change the piece of width pb
      above lo. */
  lemma AddHighMultiple(rest: nat, high: int, m: nat, lo: nat, pb: nat)
    requires lo > 0 && pb > 0 && high == m * (lo * pb)
    ensures ((rest + high) / lo) % pb == (rest / lo) % pb
  {
    var q := rest / lo;
    assert rest + high == (q + m * pb) * lo + rest % lo;
    DivModUnique(rest + high, lo, q + m * pb, rest % lo);
    ModAddMultiple(q, m, pb);
  }

  /** The top piece of a joined run is its top word. */
  lemma PieceAtTop(rest: nat, w: nat, bits: nat, n: nat)
    requires rest < Pow2(bits * n) && w < Pow2(bits)
    ensures Piece(rest + w * Pow2(bits * n), bits, n) == w
  {
    DivModUnique(rest + w * Pow2(bits * n), Pow2(bits * n), w, rest);
    DivModUnique(w, Pow2(bits), 0, w);
  }

  // ---------------------------------------------------------------------
  // The two directions undo each other

  /** Cutting a joined run into pieces gives back its words. */
  lemma {:induction false} PieceOfJoin(ws: seq<nat>, bits: nat, k: nat)
    requires WordsBelow(ws, bits) && k < |ws|
    ensures Piece(Join(ws, bits), bits, k) == ws[k]
    decreases |ws|
  {
    var n := |ws| - 1;
    var rest := Join(ws[..n], bits);
    if k < n {
      PieceBelowTop(rest, ws[n], bits, n, k);
      PieceOfJoin(ws[..n], bits, k);
    } else {
      JoinBound(ws[..n], bits);
      PieceAtTop(rest, ws[n], bits, n);
    }
  }

  /** Joining the first n pieces of a word gives back its low n pieces'
      worth of bits, so the whole word when it fits. */
  lemma {:induction false} JoinOfPieces(v: nat, bits: nat, n: nat)
    ensures Join(Pieces(v, bits, n), bits) == v % Pow2(bits * n)
    ensures v < Pow2(bits * n) ==> Join(Pieces(v, bits, n), bits) == v
    decreases n
  {
    if n == 0 {
      DivModUnique(v, 1, v, 0);
    } else {
      var ps := Pieces(v, bits, n);
      assert ps[..n - 1] == Pieces(v, bits, n - 1);
      JoinOfPieces(v, bits, n - 1);
      var p := Pow2(bits * (n - 1));
      assert bits * n == bits * (n - 1) + bits;
      Pow2Add(bits * (n - 1), bits);
      DivOfProduct(v, p, Pow2(bits));
      assert ps[n - 1] == (v / p) % Pow2(bits);
    }
    if v < Pow2(bits * n) {
      DivModUnique(v, Pow2(bits * n), 0, v);
    }
  }

  // ---------------------------------------------------------------------
  // The copies

  /** The first n destination words the narrowing copy makes from ws,
      `scale` pieces of `bits` bits per source word. */
  function Narrowed(ws: seq<nat>, bits: nat, scale: nat, n: nat): (r: seq<nat>)
    requires scale > 0 && NarrowUsed(n, scale) <= |ws|
    ensures |r| == n
  {
    if n == 0 then []
    else
      CountStep(n - 1, scale);
      Narrowed(ws, bits, scale, n - 1) + [Piece(ws[(n - 1) / scale], bits, (n - 1) % scale)]
  }

  /** The first n destination words the widening copy makes from ws,
      `scale` source words of `bits` bits per destination word. */
  function Widened(ws: seq<nat>, bits: nat, scale: nat, n: nat): (r: seq<nat>)
    requires WideUsed(n, scale) <= |ws|
    ensures |r| == n
  {
    if n == 0 then []
    else
      Widened(ws, bits, scale, n - 1) + [Join(ws[WideUsed(n - 1, scale)..WideUsed(n, scale)], bits)]
  }

  /** The narrowing copy's `value` when it makes destination word c: the
      source word it is in, shifted down to its piece. */
  predicate NarrowAt(ws: seq<nat>, bits: nat, scale: nat, c: nat, value: nat)
    requires scale > 0
  {
    c / scale < |ws| && value == ws[c / scale] / Pow2(bits * (c % scale))
  }

  /** At a multiple of `scale` the copy loads the next source word. */
  lemma NarrowLoad(ws: seq<nat>, bits: nat, scale: nat, c: nat)
    requires scale > 0 && c % scale == 0 && NarrowUsed(c + 1, scale) <= |ws|
    ensures NarrowUsed(c, scale) == c / scale && NarrowAt(ws, bits, scale, c, ws[NarrowUsed(c, scale)])
  {
    CountStep(c, scale);
    assert Pow2(bits * (c % scale)) == 1;
    DivModUnique(ws[c / scale], 1, ws[c / scale], 0);
  }

  /** Elsewhere it shifts the current word down by one piece. */
  lemma NarrowShift(ws: seq<nat>, bits: nat, scale: nat, c: nat, value: nat)
    requires scale > 0 && c % scale != 0 && c > 0 && NarrowAt(ws, bits, scale, c - 1, value)
    ensures NarrowAt(ws, bits, scale, c, Shr(value, bits))
  {
    CountStep(c, scale);
    MulSucc(bits, (c - 1) % scale, c % scale);
    ShiftDown(ws[c / scale], value, bits * ((c - 1) % scale), bits);
  }

  /** Either way the destination word is the piece `Narrowed` names. */
  lemma NarrowNext(ws: seq<nat>, bits: nat, scale: nat, c: nat, value: nat)
    requires scale > 0 && NarrowUsed(c, scale) <= NarrowUsed(c + 1, scale) <= |ws| && NarrowAt(ws, bits, scale, c, value)
    ensures Narrowed(ws, bits, scale, c + 1) == Narrowed(ws, bits, scale, c) + [value % Pow2(bits)]
  {
    CountStep(c, scale);
  }

  /** `uneven_copy_impl` for narrower destination words: each source word
      gives `srcBits / destBits` destination words, lowest piece first;
      returns where the source was left. */
  method CopyNarrower(src: array<nat>, srcFirst: nat, dest: array<nat>, destFirst: nat, destLast: nat, srcBits: nat, destBits: nat)
    returns (srcNext: nat)
    requires IsWordWidth(srcBits) && IsWordWidth(destBits) && destBits < srcBits
    requires destFirst <= destLast <= dest.Length
    requires srcFirst + NarrowUsed(destLast - destFirst, srcBits / destBits) <= src.Length
    requires src != dest
    modifies dest
    ensures srcNext == srcFirst + NarrowUsed(destLast - destFirst, srcBits / destBits)
    ensures dest[destFirst..destLast] == Narrowed(src[srcFirst..srcNext], destBits, srcBits / destBits, destLast - destFirst)
    ensures dest[..destFirst] == old(dest[..destFirst]) && dest[destLast..] == old(dest[destLast..])
  {
    WidthRatio(destBits, srcBits);
    var scale := srcBits / destBits;
    ghost var ws := src[srcFirst..srcFirst + NarrowUsed(destLast - destFirst, scale)];
    var count: nat := 0;
    var value: nat := 0;
    srcNext := srcFirst;
    var d: nat := destFirst;
    while d != destLast
      invariant destFirst <= d <= destLast && count == d - destFirst
      invariant srcNext == srcFirst + NarrowUsed(count, scale) && NarrowUsed(count, scale) <= |ws|
      invariant count > 0 ==> NarrowAt(ws, destBits, scale, count - 1, value)
      invariant dest[destFirst..d] == Narrowed(ws, destBits, scale, count)
      invariant dest[..destFirst] == old(dest[..destFirst]) && dest[destLast..] == old(dest[destLast..])
    {
      NarrowUsedMonotone(count + 1, destLast - destFirst, scale);
      CountStep(count, scale);
      if count % scale == 0 {
        NarrowLoad(ws, destBits, scale, count);
        value := src[srcNext];
        srcNext := srcNext + 1;
      } else {
        NarrowShift(ws, destBits, scale, count, value);
        value := Shr(value, destBits);
      }
      NarrowNext(ws, destBits, scale, count, value);
      ghost var prefix := dest[destFirst..d];
      dest[d] := value % Pow2(destBits);
      assert dest[destFirst..d + 1] == prefix + [value % Pow2(destBits)];
      count := count + 1;
      d := d + 1;
    }
  }

  /** One pass of the inner loop: or-ing the next source word in at
      `shift` joins it above the others. */
  lemma JoinStep(run: seq<nat>, bits: nat, i: nat, shift: nat, value: nat, width: nat)
    requires i < |run| && WordsBelow(run, bits) && bits * |run| <= width && shift == bits * i
    requires value == Join(run[..i], bits) < Pow2(shift)
    ensures shift + bits == bits * (i + 1)
    ensures Or(value, Shl(run[i], shift, width)) == Join(run[..i + 1], bits) < Pow2(shift + bits)
  {
    assert run[..i + 1][..i] == run[..i];
    MulMonotone(i + 1, |run|, bits);
    OrShifted(value, run[i], shift, bits, width);
  }

  /** The widening copy's next destination word joins the next `scale`
      source words. */
  lemma WidenNext(ws: seq<nat>, bits: nat, scale: nat, k: nat, n: nat)
    requires k < n && WideUsed(n, scale) <= |ws|
    ensures WideUsed(k + 1, scale) == WideUsed(k, scale) + scale <= |ws|
    ensures Widened(ws, bits, scale, k + 1) == Widened(ws, bits, scale, k) + [Join(ws[WideUsed(k, scale)..WideUsed(k, scale) + scale], bits)]
  {
    WideUsedMonotone(k + 1, n, scale);
  }

  /** The widening copy's next destination word is joined from the next
      `scale` words of the source, which lie inside it and fit the source
      width. */
  lemma WidenStep(source: seq<nat>, ws: seq<nat>, srcFirst: nat, bits: nat, scale: nat, k: nat, n: nat, srcNext: nat)
    requires k < n && WideUsed(n, scale) <= |ws| && srcFirst + |ws| <= |source|
    requires ws == source[srcFirst..srcFirst + |ws|] && WordsBelow(ws, bits)
    requires srcNext == srcFirst + WideUsed(k, scale)
    ensures srcNext + scale <= srcFirst + |ws| && srcNext + scale == srcFirst + WideUsed(k + 1, scale)
    ensures WordsBelow(source[srcNext..srcNext + scale], bits)
    ensures Widened(ws, bits, scale, k + 1) == Widened(ws, bits, scale, k) + [Join(source[srcNext..srcNext + scale], bits)]
  {
    WidenNext(ws, bits, scale, k, n);
    RunOfSlice(source, ws, srcFirst, WideUsed(k, scale), scale, bits, srcNext);
  }

  /** A run inside a slice is the same run of the whole. */
  lemma RunOfSlice(s: seq<nat>, ws: seq<nat>, from: nat, at: nat, count: nat, bits: nat, pos: nat)
    requires from + |ws| <= |s| && ws == s[from..from + |ws|] && at + count <= |ws|
    requires WordsBelow(ws, bits) && pos == from + at
    ensures s[pos..pos + count] == ws[at..at + count]
    ensures WordsBelow(s[pos..pos + count], bits)
  {
    forall j | pos <= j < pos + count
      ensures s[j] == ws[j - from]
    {
      assert ws[j - from] == s[from..from + |ws|][j - from];
    }
    assert s[pos..pos + count] == ws[at..at + count];
  }

  /** The inner loop of the widening copy: `count` source words from
      `start`, each or-ed in `bits` above the one before. */
  method JoinRun(src: array<nat>, start: nat, count: nat, bits: nat, width: nat) returns (value: nat)
    requires start + count <= src.Length && bits * count <= width
    requires WordsBelow(src[start..start + count], bits)
    ensures value == Join(src[start..start + count], bits)
  {
    ghost var run := src[start..start + count];
    value := 0;
    var shift: nat := 0;
    var i: nat := 0;
    while i < count
      invariant i <= count && shift == bits * i
      invariant value == Join(run[..i], bits) < Pow2(shift)
    {
      JoinStep(run, bits, i, shift, value, width);
      value := Or(value, Shl(src[start + i], shift, width));
      shift := shift + bits;
      i := i + 1;
    }
    assert run[..i] == run;
  }

  /** The widening copy's body: destination word d becomes the join of
      the `scale` source words from `start`. */
  method WidenWord(src: array<nat>, start: nat, scale: nat, srcBits: nat, dest: array<nat>, d: nat, destBits: nat)
    requires start + scale <= src.Length && srcBits * scale <= destBits
    requires WordsBelow(src[start..start + scale], srcBits)
    requires d < dest.Length && src != dest
    modifies dest
    ensures dest[..] == old(dest[..])[d := Join(src[start..start + scale], srcBits)]
  {
    var value := JoinRun(src, start, scale, srcBits, destBits);
    dest[d] := value;
  }

  /** Writing position d of a range extends the written prefix by one and
      leaves everything outside the range alone. */
  lemma WrittenAt(before: seq<nat>, after: seq<nat>, first: nat, d: nat, last: nat, value: nat)
    requires first <= d < last <= |before| && after == before[d := value]
    ensures after[first..d + 1] == before[first..d] + [value]
    ensures after[..first] == before[..first] && after[last..] == before[last..]
  {
    assert after[first..d + 1] == after[first..d] + [after[d]];
  }

  /** `uneven_copy_impl` for destination words at least as wide: each
      destination word joins `destBits / srcBits` source words, the first
      one lowest; returns where the source was left. */
  method CopyWider(src: array<nat>, srcFirst: nat, dest: array<nat>, destFirst: nat, destLast: nat, srcBits: nat, destBits: nat)
    returns (srcNext: nat)
    requires IsWordWidth(srcBits) && IsWordWidth(destBits) && srcBits <= destBits
    requires destFirst <= destLast <= dest.Length
    requires srcFirst + WideUsed(destLast - destFirst, destBits / srcBits) <= src.Length
    requires WordsBelow(src[srcFirst..srcFirst + WideUsed(destLast - destFirst, destBits / srcBits)], srcBits)
    requires src != dest
    modifies dest
    ensures srcNext == srcFirst + WideUsed(destLast - destFirst, destBits / srcBits)
    ensures dest[destFirst..destLast] == Widened(src[srcFirst..srcNext], srcBits, destBits / srcBits, destLast - destFirst)
    ensures dest[..destFirst] == old(dest[..destFirst]) && dest[destLast..] == old(dest[destLast..])
  {
    WidthRatio(srcBits, destBits);
    var scale := destBits / srcBits;
    ghost var ws := src[srcFirst..srcFirst + WideUsed(destLast - destFirst, scale)];
    srcNext := WidenWords(src, srcFirst, dest, destFirst, destLast, srcBits, destBits, scale, ws);
  }

  /** The loop of the widening copy, `scale` source words per destination
      word. */
  method WidenWords(src: array<nat>, srcFirst: nat, dest: array<nat>, destFirst: nat, destLast: nat,
                    srcBits: nat, destBits: nat, scale: nat, ghost ws: seq<nat>)
    returns (srcNext: nat)
    requires destFirst <= destLast <= dest.Length && src != dest && srcBits * scale <= destBits
    requires |ws| == WideUsed(destLast - destFirst, scale) && srcFirst + |ws| <= src.Length
    requires ws == src[srcFirst..srcFirst + |ws|] && WordsBelow(ws, srcBits)
    modifies dest
    ensures srcNext == srcFirst + |ws|
    ensures dest[destFirst..destLast] == Widened(ws, srcBits, scale, destLast - destFirst)
    ensures dest[..destFirst] == old(dest[..destFirst]) && dest[destLast..] == old(dest[destLast..])
  {
    ghost var n := destLast - destFirst;
    ghost var source := src[..];
    srcNext := srcFirst;
    var d: nat := destFirst;
    ghost var k: nat := 0;
    while d != destLast
      invariant destFirst <= d <= destLast && k == d - destFirst
      invariant srcNext == srcFirst + WideUsed(k, scale) <= srcFirst + |ws|
      invariant src[..] == source
      invariant dest[destFirst..d] == Widened(ws, srcBits, scale, k)
      invariant dest[..destFirst] == old(dest[..destFirst]) && dest[destLast..] == old(dest[destLast..])
    {
      WidenStep(source, ws, srcFirst, srcBits, scale, k, n, srcNext);
      ghost var before := dest[..];
      WidenWord(src, srcNext, scale, srcBits, dest, d, destBits);
      WrittenAt(before, dest[..], destFirst, d, destLast, Join(source[srcNext..srcNext + scale], srcBits));
      srcNext := srcNext + scale;
      d := d + 1;
      k := k + 1;
    }
  }
}
