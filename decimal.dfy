/** The decimal text form of a 128-bit state: the digit loop of
    `operator<<(ostream&, pcg128_t)`, which peels off the last digit by
    dividing by ten until nothing is left, and the digit loop of
    `operator>>(istream&, pcg128_t&)`, which multiplies by ten and adds
    each digit, raising the fail bit when the input was empty or did not
    fit in 128 bits. The stream is a sequence of characters; the reader
    stops at the first character that is not a digit. */
module Decimal {
  import opened Words

  predicate IsDigit(c: char)
  {
    '0' <= c <= '9'
  }

  predicate AllDigits(s: seq<char>)
  {
    forall i :: 0 <= i < |s| ==> IsDigit(s[i])
  }

  /** `'0' + char(mod)`. */
  function DigitChar(d: nat): (c: char)
    requires d < 10
    ensures IsDigit(c) && DigitValue(c) == d
  {
    (('0' as int) + d) as char
  }

  /** `ch - '0'`. */
  function DigitValue(c: char): (d: nat)
    requires IsDigit(c)
    ensures d < 10
  {
    (c as int) - ('0' as int)
  }

  /** The number a run of digits spells, most significant digit first. */
  function ValueOf(s: seq<char>): nat
    requires AllDigits(s)
  {
    if |s| == 0 then 0 else ValueOf(s[..|s| - 1]) * 10 + DigitValue(s[|s| - 1])
  }

  /** 10^n */
  function Pow10(n: nat): (r: nat)
    ensures r >= 1
  {
    if n == 0 then 1 else 10 * Pow10(n - 1)
  }

  /** The shortest decimal spelling of v: what the writer prints. */
  function Spelled(v: nat): (s: seq<char>)
    ensures |s| >= 1 && AllDigits(s)
  {
    if v < 10 then [DigitChar(v)] else Spelled(v / 10) + [DigitChar(v % 10)]
  }

  // ---------------------------------------------------------------------
  // Writing

  /** The printed form spells the number, with no leading zero unless the
      number is 0. */
  lemma {:induction false} SpelledValue(v: nat)
    ensures ValueOf(Spelled(v)) == v
    ensures Spelled(v)[0] == '0' <==> v == 0
    ensures v < Pow10(|Spelled(v)|) && (|Spelled(v)| > 1 ==> Pow10(|Spelled(v)| - 1) <= v)
    decreases v
  {
    var s := Spelled(v);
    if v >= 10 {
      SpelledValue(v / 10);
      var p := Spelled(v / 10);
      assert s[..|s| - 1] == p;
      assert s[0] == p[0];
      assert v == (v / 10) * 10 + v % 10;
    }
  }

  /** Every 128-bit value fits the writer's 40-character buffer: at most 39
      digits and the terminating NUL. */
  lemma SpelledFitsBuffer(v: u128)
    ensures |Spelled(v)| <= 39
  {
    SpelledValue(v);
    var n := |Spelled(v)|;
    if n > 39 {
      Pow10Monotone(39, n - 1);
      assert Pow10(39) > W128 by {
        Pow10Of39();
      }
    }
  }

  lemma {:induction false} Pow10Monotone(a: nat, b: nat)
    requires a <= b
    ensures Pow10(a) <= Pow10(b)
    decreases b
  {
    if a < b {
      Pow10Monotone(a, b - 1);
    }
  }

  lemma Pow10Of39()
    ensures Pow10(39) == 1_000_000_000_000_000_000_000_000_000_000_000_000_000
  {
    assert Pow10(13) == 10_000_000_000_000;
    Pow10Add(13, 13);
    Pow10Add(26, 13);
  }

  lemma {:induction false} Pow10Add(a: nat, b: nat)
    ensures Pow10(a + b) == Pow10(a) * Pow10(b)
    decreases a
  {
    if a > 0 {
      Pow10Add(a - 1, b);
      assert Pow10(a + b) == 10 * Pow10(a - 1 + b);
    }
  }

  /** The digit loop of `operator<<`: `div = value / BASE`, the digit is
      `value - div * BASE`, written in front of those already written, until
      the value is 0; at least one digit is always written. */
  method Format(value: u128) returns (text: seq<char>)
    ensures text == Spelled(value)
    ensures ValueOf(text) == value && |text| <= 39
  {
    var v: u128 := value;
    text := [];
    var more := true;
    while more
      invariant more ==> Spelled(value) == Spelled(v) + text
      invariant !more ==> Spelled(value) == text
      decreases v, more
    {
      var div: u128 := v / 10;
      var mod := v - div * 10;
      assert Spelled(v) == (if v < 10 then [] else Spelled(div)) + [DigitChar(mod)];
      text := [DigitChar(mod)] + text;
      v := div;
      more := v != 0;
    }
    SpelledValue(value);
    SpelledFitsBuffer(value);
  }

  // ---------------------------------------------------------------------
  // Reading

  /** The run of digits at the front of the input: what the reader
      consumes before the first other character (which it puts back) or the
      end of the input. */
  function DigitRun(input: seq<char>): (run: seq<char>)
    ensures run <= input && AllDigits(run)
    ensures |run| < |input| ==> !IsDigit(input[|run|])
  {
    if |input| == 0 || !IsDigit(input[0]) then [] else [input[0]] + DigitRun(input[1..])
  }

  /** What the reader evidently means to deliver: the run's value with the
      fail bit clear, or the fail bit with 0 for an empty run and with
      2^128 - 1 for a value too large for 128 bits. */
  datatype Reading = Reading(value: u128, failed: bool, consumed: nat)

  function Read(input: seq<char>): (r: Reading)
    ensures r.consumed == |DigitRun(input)|
    ensures r.failed <==> r.consumed == 0 || ValueOf(DigitRun(input)) >= W128
    ensures !r.failed ==> r.value == ValueOf(DigitRun(input))
  {
    var run := DigitRun(input);
    var v := ValueOf(run);
    if |run| == 0 then Reading(0, true, 0)
    else if v >= W128 then Reading(W128 - 1, true, |run|)
    else Reading(v, false, |run|)
  }

  /** What the printed text reads back as: the printed number, with
      nothing left over but what followed it. */
  lemma ReadSpelled(v: u128, rest: seq<char>)
    requires |rest| == 0 || !IsDigit(rest[0])
    ensures Read(Spelled(v) + rest) == Reading(v, false, |Spelled(v)|)
  {
    DigitRunOfRun(Spelled(v), rest);
    SpelledValue(v);
  }

  lemma {:induction false} DigitRunOfRun(run: seq<char>, rest: seq<char>)
    requires AllDigits(run) && (|rest| == 0 || !IsDigit(rest[0]))
    ensures DigitRun(run + rest) == run
    decreases |run|
  {
    if |run| > 0 {
      assert (run + rest)[1..] == run[1..] + rest;
      DigitRunOfRun(run[1..], rest);
    }
  }

  /** A digit run one longer is the next prefix of the same run. */
  lemma RunPrefix(run: seq<char>, i: nat)
    requires AllDigits(run) && i < |run|
    ensures ValueOf(run[..i + 1]) == ValueOf(run[..i]) * 10 + DigitValue(run[i])
  {
    assert run[..i + 1][..i] == run[..i];
  }

  /** The overflow test the reader applies before taking a digit: the value
      times ten plus the digit exceeds 2^128 - 1 exactly when the value is
      above (2^128 - 1 - digit) / 10. */
  lemma OverflowTest(current: nat, digit: nat)
    requires digit < 10
    ensures current * 10 + digit >= W128 <==> current > (W128 - 1 - digit) / 10
  {
    var m := W128 - 1 - digit;
    var q, r := m / 10, m % 10;
    if current > q {
      assert current * 10 >= (q + 1) * 10;
    } else {
      assert current * 10 <= q * 10;
    }
  }

  /** The digit loop of `operator>>`, with the overflow test made exact:
      overflow is recorded when the value so far, times ten plus the digit,
      no longer fits in 128 bits (see `ScanAsWritten` for the test as
      written). The fail bit is set when no digit was read or on overflow,
      and an overflowing value reads as 2^128 - 1. */
  method Parse(input: seq<char>) returns (value: u128, failed: bool, consumed: nat)
    ensures Reading(value, failed, consumed) == Read(input)
  {
    ghost var run := DigitRun(input);
    var current: u128 := 0;
    var didNothing := true;
    var overflow := false;
    var i: nat := 0;
    while i < |input| && IsDigit(input[i])
      invariant i <= |run| && input[..i] == run[..i]
      invariant didNothing <==> i == 0
      invariant overflow <==> ValueOf(run[..i]) >= W128
      invariant !overflow ==> current == ValueOf(run[..i])
    {
      assert input[..i + 1] == input[..i] + [input[i]];
      assert i < |run| && run[i] == input[i] && run[..i + 1] == input[..i + 1] by {
        RunContinues(input, i);
      }
      didNothing := false;
      var digit := DigitValue(input[i]);
      RunPrefix(run, i);
      if !overflow {
        OverflowTest(current, digit);
      }
      overflow := overflow || current > (W128 - 1 - digit) / 10;
      current := (current * 10 + digit) % W128;
      i := i + 1;
    }
    assert i == |run| by {
      RunEnds(input, i);
    }
    assert run[..i] == run;
    consumed := i;
    failed := didNothing || overflow;
    value := if overflow then W128 - 1 else current;
  }

  /** Reading on past a digit stays inside the run. */
  lemma {:induction false} RunContinues(input: seq<char>, i: nat)
    requires i < |input| && IsDigit(input[i]) && i <= |DigitRun(input)| && input[..i] == DigitRun(input)[..i]
    ensures i < |DigitRun(input)| && DigitRun(input)[i] == input[i]
  {
    var run := DigitRun(input);
    assert run == input[..|run|];
  }

  /** Stopping at the end or at a non-digit is stopping at the run's end. */
  lemma RunEnds(input: seq<char>, i: nat)
    requires i <= |DigitRun(input)| && input[..i] == DigitRun(input)[..i]
    requires i == |input| || !IsDigit(input[i])
    ensures i == |DigitRun(input)|
  {
    RunIsDigits(input, i);
  }

  /** Inside the run, the input holds digits. */
  lemma RunIsDigits(input: seq<char>, i: nat)
    ensures i < |DigitRun(input)| ==> i < |input| && IsDigit(input[i])
  {
    var run := DigitRun(input);
    assert run == input[..|run|];
  }

  // ---------------------------------------------------------------------
  // The overflow test as written

  /** The reader's state after the digits s as the source writes it:
      `timesbase = current * BASE` wraps modulo 2^128, overflow is noticed
      when `timesbase < current` or when adding the digit wraps below it. */
  datatype Scan = Scan(current: u128, overflow: bool)

  /** The loop as written: whatever the flag says, the value it holds is
      the digits' number modulo 2^128. */
  function ScanAsWritten(s: seq<char>): (r: Scan)
    requires AllDigits(s)
    ensures r.current == ValueOf(s) % W128
  {
    if |s| == 0 then Scan(0, false)
    else
      var before := ScanAsWritten(s[..|s| - 1]);
      var digit := DigitValue(s[|s| - 1]);
      var timesbase := (before.current * 10) % W128;
      var current := (timesbase + digit) % W128;
      WrappedDigit(ValueOf(s[..|s| - 1]), before.current, digit);
      Scan(current, before.overflow || timesbase < before.current || current < digit)
  }

  /** Multiplying by ten and adding a digit modulo 2^128 keeps the value
      modulo 2^128. */
  lemma WrappedDigit(value: nat, current: nat, digit: nat)
    requires current == value % W128 && digit < 10
    ensures ((current * 10) % W128 + digit) % W128 == (value * 10 + digit) % W128
  {
    MulModLeft(value, 10, W128);
    AddBothMod(current * 10, value * 10, digit, W128);
    ModOnce((current * 10) % W128, W128);
    AddBothMod((current * 10) % W128, current * 10, digit, W128);
  }

  /** Adding the same number to two numbers congruent modulo m keeps them
      congruent. */
  lemma AddBothMod(a: nat, b: nat, c: nat, m: nat)
    requires m > 0 && a % m == b % m
    ensures (a + c) % m == (b + c) % m
  {
    AddMod(a, c, m);
    AddMod(b, c, m);
  }

  /** On values that fit, the written test agrees with the exact one:
      nothing wraps and nothing is flagged. */
  lemma {:induction false} ScanFits(s: seq<char>)
    requires AllDigits(s) && ValueOf(s) < W128
    ensures ScanAsWritten(s) == Scan(ValueOf(s), false)
    decreases |s|
  {
    if |s| > 0 {
      var p := s[..|s| - 1];
      var c := ValueOf(p);
      var digit := DigitValue(s[|s| - 1]);
      assert c * 10 + digit == ValueOf(s);
      ScanFits(p);
      DivModUnique(c * 10, W128, 0, c * 10);
      DivModUnique(c * 10 + digit, W128, 0, c * 10 + digit);
    }
  }

  /** "4" followed by 38 zeros. */
  const Overlong: seq<char> := ['4'] + seq(38, _ => '0')

  /** The written test misses a wrap: 4 * 10^38 is larger than 2^128, yet
      the last multiplication wraps to about 5.97 * 10^37, which is not
      below the 4 * 10^37 before it, so the fail bit stays clear and the
      wrapped value is delivered as if it had been read. */
  lemma MissedOverflow()
    ensures AllDigits(Overlong) && ValueOf(Overlong) >= W128
    ensures !ScanAsWritten(Overlong).overflow
    ensures ScanAsWritten(Overlong).current == ValueOf(Overlong) - W128
  {
    var prefix := Overlong[..38];
    assert ValueOf(prefix) == 4 * Pow10(37) by {
      FourThenZeros(37, prefix);
    }
    Pow10Of39();
    assert Pow10(39) == Pow10(37) * 100 by {
      Pow10Add(37, 2);
    }
    var c := 4 * Pow10(37);
    assert c == 40_000_000_000_000_000_000_000_000_000_000_000_000;
    assert ScanAsWritten(prefix) == Scan(c, false) by {
      ScanFits(prefix);
    }
    assert Overlong[..|Overlong| - 1] == prefix;
    RunPrefix(Overlong, 38);
    assert Overlong[..39] == Overlong;
    assert ValueOf(Overlong) == c * 10;
    DivModUnique(c * 10, W128, 1, c * 10 - W128);
  }

  /** The digits "4" then n zeros spell 4 * 10^n. */
  lemma {:induction false} FourThenZeros(n: nat, s: seq<char>)
    requires s == ['4'] + seq(n, _ => '0')
    ensures AllDigits(s) && ValueOf(s) == 4 * Pow10(n)
    decreases n
  {
    if n > 0 {
      var p := ['4'] + seq(n - 1, _ => '0');
      assert s[..|s| - 1] == p;
      FourThenZeros(n - 1, p);
    }
  }
}
