/** The helpers that draw from an engine: `bounded_rand`, which rejects the
    outputs below a threshold so that the remaining range is a whole number
    of copies of [0, upper_bound), and the Fisher-Yates `shuffle` built on
    it. The engine is the `pcg32` one of module Pcg. */
module Extras {
  import opened Words
  import opened Lcg
  import opened Pcg
  import Output

  /** `(max() - min() + 1 - upper_bound) % upper_bound` in 32-bit
      arithmetic, with min() = 0 and max() = 2^32 - 1. */
  function Threshold(upperBound: u32): (r: u32)
    requires upperBound > 0
    ensures r < upperBound
  {
    ((W32 - upperBound) % W32) % upperBound
  }

  /** The threshold removes the remainder: the accepted outputs
      [threshold, 2^32) are a whole number of blocks of `upper_bound`
      values, and fewer than one block is rejected. */
  lemma ThresholdUniform(upperBound: u32)
    requires upperBound > 0
    ensures (W32 - Threshold(upperBound)) % upperBound == 0
    ensures Threshold(upperBound) < upperBound && Threshold(upperBound) <= W32 - upperBound
    ensures Threshold(upperBound) < 0x8000_0000
  {
    var n := upperBound;
    DivModUnique(W32 - n, W32, 0, W32 - n);
    var t := (W32 - n) % n;
    var q := (W32 - n) / n;
    assert W32 - t == (q + 1) * n;
    DivModUnique(W32 - t, n, q + 1, 0);
  }

  /** A state whose `pcg32` output, 0x8000_2000, every threshold accepts. */
  const Landmark: u64 := 0x400_0000_0000_0003

  lemma LandmarkAccepted(upperBound: u32)
    requires upperBound > 0
    ensures Output32(Landmark) >= Threshold(upperBound)
  {
    Output.XshRrLargeOutput();
    ThresholdUniform(upperBound);
  }

  /** `bounded_rand(rng, upper_bound)`: draw until the output is at least
      the threshold, and reduce it modulo `upper_bound`. The result is the
      first accepted output, `skipped` draws in. The loop ends because every
      valid engine reaches `Landmark`, whose output is always accepted. */
  method BoundedRand(rng: Engine, upperBound: u32) returns (r: u32, ghost skipped: nat)
    requires rng.Valid() && upperBound > 0
    modifies rng
    ensures r < upperBound
    ensures rng.Valid() && rng.inc == old(rng.inc)
    ensures rng.state == Iterate(old(rng.state), skipped + 1, Multiplier, rng.inc)
    ensures Output32(Iterate(old(rng.state), skipped, Multiplier, rng.inc)) >= Threshold(upperBound)
    ensures r == Output32(Iterate(old(rng.state), skipped, Multiplier, rng.inc)) % upperBound
    ensures forall j {:trigger Output32(Iterate(old(rng.state), j, Multiplier, rng.inc))} :: 0 <= j < skipped ==> Output32(Iterate(old(rng.state), j, Multiplier, rng.inc)) < Threshold(upperBound)
    ensures Draw(old(rng.state), rng.inc, upperBound, skipped, r)
  {
    var threshold := Threshold(upperBound);
    ghost var start := rng.state;
    ghost var inc := rng.inc;
    ValidParams(rng.kind, rng.inc, rng.state, Landmark);
    ghost var left := Reach(rng.state, Landmark, Multiplier, rng.inc);
    skipped := 0;
    while true
      invariant rng.Valid() && rng.inc == inc
      invariant rng.state == Iterate(start, skipped, Multiplier, inc)
      invariant Iterate(rng.state, left, Multiplier, inc) == Landmark
      invariant forall j {:trigger Output32(Iterate(start, j, Multiplier, inc))} :: 0 <= j < skipped ==> Output32(Iterate(start, j, Multiplier, inc)) < threshold
      decreases left
    {
      ghost var before := rng.state;
      var x := rng.Next();
      if x >= threshold {
        r := x % upperBound;
        return;
      }
      assert rng.state == Iterate(start, skipped + 1, Multiplier, inc);
      RejectStep(start, skipped, left, inc, upperBound);
      left := left - 1;
      skipped := skipped + 1;
    }
  }

  /** One rejected draw: the landmark is one step nearer, and the outputs
      rejected so far include this one. */
  lemma RejectStep(start: u64, skipped: nat, left: nat, inc: u64, upperBound: u32)
    requires upperBound > 0
    requires Iterate(Iterate(start, skipped, Multiplier, inc), left, Multiplier, inc) == Landmark
    requires forall j {:trigger Output32(Iterate(start, j, Multiplier, inc))} :: 0 <= j < skipped ==> Output32(Iterate(start, j, Multiplier, inc)) < Threshold(upperBound)
    requires Output32(Iterate(start, skipped, Multiplier, inc)) < Threshold(upperBound)
    ensures left > 0
    ensures Iterate(Iterate(start, skipped + 1, Multiplier, inc), left - 1, Multiplier, inc) == Landmark
    ensures forall j {:trigger Output32(Iterate(start, j, Multiplier, inc))} :: 0 <= j < skipped + 1 ==> Output32(Iterate(start, j, Multiplier, inc)) < Threshold(upperBound)
  {
    LandmarkAccepted(upperBound);
    NotYetTarget(Iterate(start, skipped, Multiplier, inc), left, Multiplier, inc, Landmark, Threshold(upperBound));
    NearerTarget(start, skipped, left, Multiplier, inc, Landmark);
  }

  /** A state whose output is rejected is not the target yet. */
  lemma NotYetTarget(here: u64, left: nat, mult: u64, inc: u64, target: u64, threshold: int)
    requires Output32(target) >= threshold && Output32(here) < threshold
    requires Iterate(here, left, mult, inc) == target
    ensures left > 0
  {
  }

  /** One step along the orbit is one step nearer the target. */
  lemma NearerTarget(start: u64, skipped: nat, left: nat, mult: u64, inc: u64, target: u64)
    requires left > 0
    requires Iterate(Iterate(start, skipped, mult, inc), left, mult, inc) == target
    ensures Iterate(Iterate(start, skipped + 1, mult, inc), left - 1, mult, inc) == target
  {
    var here := Iterate(start, skipped, mult, inc);
    IterateAdd(here, 1, left - 1, mult, inc);
    IterateAdd(start, skipped, 1, mult, inc);
  }

  /** What one `bounded_rand(upper_bound)` does from state `start`: the
      outputs of the first `skipped` states are rejected, and the next one
      is accepted and reduced to `r`. */
  ghost predicate Draw(start: u64, inc: u64, upperBound: u32, skipped: nat, r: nat)
  {
    upperBound > 0
    && Output32(Iterate(start, skipped, Multiplier, inc)) >= Threshold(upperBound)
    && r == Output32(Iterate(start, skipped, Multiplier, inc)) % upperBound
    && forall j :: 0 <= j < skipped ==> Rejects(start, inc, upperBound, j)
  }

  /** `bounded_rand` turns down the output `j` steps after `start`. */
  ghost predicate Rejects(start: u64, inc: u64, upperBound: u32, j: nat)
    requires upperBound > 0
  {
    Output32(Iterate(start, j, Multiplier, inc)) < Threshold(upperBound)
  }

  /** A draw is determined by the state it starts from: the first accepted
      output is unique. */
  lemma DrawUnique(start: u64, inc: u64, upperBound: u32, skipped1: nat, r1: nat, skipped2: nat, r2: nat)
    requires Draw(start, inc, upperBound, skipped1, r1) && Draw(start, inc, upperBound, skipped2, r2)
    ensures skipped1 == skipped2 && r1 == r2
  {
    assert !Rejects(start, inc, upperBound, skipped1) && !Rejects(start, inc, upperBound, skipped2);
  }

  /** Draw k of a shuffle of n elements: a `bounded_rand(n - k)` from `here`
      that leaves the generator at `next`, one step past the accepted
      output. */
  ghost predicate Link(inc: u64, bound: int, here: u64, skipped: nat, chosen: nat, next: u64)
  {
    0 < bound < W32 && Draw(here, inc, bound as u32, skipped, chosen)
    && next == Iterate(here, skipped + 1, Multiplier, inc)
  }

  /** Draw k of a record of draws. */
  ghost predicate LinkAt(inc: u64, n: nat, choices: seq<nat>, skips: seq<nat>, states: seq<u64>, k: int)
  {
    0 <= k < |choices| && |skips| == |choices| && |states| == |choices| + 1
    && Link(inc, n - k, states[k], skips[k], choices[k], states[k + 1])
  }

  /** The draws of a shuffle of n elements, one `Link` each, from `states[0]`
      through `states[|choices|]`. */
  ghost predicate Draws(start: u64, inc: u64, n: nat, choices: seq<nat>, skips: seq<nat>, states: seq<u64>)
  {
    |skips| == |choices| && |states| == |choices| + 1 && states[0] == start
    && forall k {:trigger LinkAt(inc, n, choices, skips, states, k)} :: 0 <= k < |choices| ==> LinkAt(inc, n, choices, skips, states, k)
  }

  /** The number of generator steps the draws take. */
  function Consumed(skips: seq<nat>): nat
  {
    if |skips| == 0 then 0 else Consumed(skips[..|skips| - 1]) + skips[|skips| - 1] + 1
  }

  /** One more draw extends the record of draws. */
  lemma DrawsAppend(start: u64, inc: u64, n: nat, choices: seq<nat>, skips: seq<nat>, states: seq<u64>,
                    here: u64, bound: u32, chosen: nat, skipped: nat, next: u64)
    requires Draws(start, inc, n, choices, skips, states) && here == states[|choices|] && bound as int == n - |choices|
    requires Draw(here, inc, bound, skipped, chosen)
    requires next == Iterate(here, skipped + 1, Multiplier, inc)
    ensures Draws(start, inc, n, choices + [chosen], skips + [skipped], states + [next])
  {
    var c, s, t := choices + [chosen], skips + [skipped], states + [next];
    forall k | 0 <= k < |c|
      ensures LinkAt(inc, n, c, s, t, k)
    {
      if k < |choices| {
        assert LinkAt(inc, n, choices, skips, states, k);
        assert t[k] == states[k] && t[k + 1] == states[k + 1] && s[k] == skips[k] && c[k] == choices[k];
      } else {
        assert t[k] == states[k] && t[k + 1] == next && s[k] == skipped && c[k] == chosen;
      }
    }
  }

  /** The first k draws of a record are a record. */
  lemma DrawsPrefix(start: u64, inc: u64, n: nat, choices: seq<nat>, skips: seq<nat>, states: seq<u64>, k: nat)
    requires Draws(start, inc, n, choices, skips, states) && k <= |choices|
    ensures Draws(start, inc, n, choices[..k], skips[..k], states[..k + 1])
  {
    var c, sk, st := choices[..k], skips[..k], states[..k + 1];
    forall j | 0 <= j < k
      ensures LinkAt(inc, n, c, sk, st, j)
    {
      assert LinkAt(inc, n, choices, skips, states, j);
      assert st[j] == states[j] && st[j + 1] == states[j + 1];
      assert sk[j] == skips[j] && c[j] == choices[j];
    }
  }

  /** Two links from the same state are the same draw. */
  lemma LinkUnique(inc: u64, bound: int, here: u64, skipped1: nat, chosen1: nat, next1: u64,
                   skipped2: nat, chosen2: nat, next2: u64)
    requires Link(inc, bound, here, skipped1, chosen1, next1) && Link(inc, bound, here, skipped2, chosen2, next2)
    ensures skipped1 == skipped2 && chosen1 == chosen2 && next1 == next2
  {
    DrawUnique(here, inc, bound as u32, skipped1, chosen1, skipped2, chosen2);
  }

  /** The draws of a shuffle are determined by the state it starts from:
      two records of the same number of draws agree on every draw, every
      skip count and every intermediate state. */
  lemma {:induction false} DrawsUnique(start: u64, inc: u64, n: nat,
                                       choices1: seq<nat>, skips1: seq<nat>, states1: seq<u64>,
                                       choices2: seq<nat>, skips2: seq<nat>, states2: seq<u64>)
    requires Draws(start, inc, n, choices1, skips1, states1) && Draws(start, inc, n, choices2, skips2, states2)
    requires |choices1| == |choices2|
    ensures choices1 == choices2 && skips1 == skips2 && states1 == states2
    decreases |choices1|
  {
    var k := |choices1|;
    if k > 0 {
      var j := k - 1;
      DrawsPrefix(start, inc, n, choices1, skips1, states1, j);
      DrawsPrefix(start, inc, n, choices2, skips2, states2, j);
      DrawsUnique(start, inc, n, choices1[..j], skips1[..j], states1[..j + 1], choices2[..j], skips2[..j], states2[..j + 1]);
      assert states1[j] == states1[..j + 1][j] == states2[..j + 1][j] == states2[j];
      assert LinkAt(inc, n, choices1, skips1, states1, j) && LinkAt(inc, n, choices2, skips2, states2, j);
      LinkUnique(inc, n - j, states1[j], skips1[j], choices1[j], states1[j + 1], skips2[j], choices2[j], states2[j + 1]);
      assert choices1 == choices1[..j] + [choices1[j]] && choices2 == choices2[..j] + [choices2[j]];
      assert skips1 == skips1[..j] + [skips1[j]] && skips2 == skips2[..j] + [skips2[j]];
      assert states1 == states1[..j + 1] + [states1[j + 1]] && states2 == states2[..j + 1] + [states2[j + 1]];
    }
  }

  /** The generator ends where the draws leave it: `Consumed(skips)` steps
      after the start. */
  lemma {:induction false} DrawsConsumed(start: u64, inc: u64, n: nat, choices: seq<nat>, skips: seq<nat>, states: seq<u64>)
    requires Draws(start, inc, n, choices, skips, states)
    ensures states[|choices|] == Iterate(start, Consumed(skips), Multiplier, inc)
    decreases |choices|
  {
    if |choices| > 0 {
      var k := |choices| - 1;
      DrawsPrefix(start, inc, n, choices, skips, states, k);
      DrawsConsumed(start, inc, n, choices[..k], skips[..k], states[..k + 1]);
      assert states[..k + 1][k] == states[k];
      assert states[k + 1] == Iterate(states[k], skips[k] + 1, Multiplier, inc) by {
        assert LinkAt(inc, n, choices, skips, states, k);
      }
      IterateAdd(start, Consumed(skips[..k]), skips[k] + 1, Multiplier, inc);
    }
  }

  // ---------------------------------------------------------------------
  // shuffle

  /** The sequence with positions i and j exchanged. */
  function Swap<T>(s: seq<T>, i: nat, j: nat): (r: seq<T>)
    requires i < |s| && j < |s|
    ensures |r| == |s|
  {
    s[i := s[j]][j := s[i]]
  }

  /** The draws a shuffle of n elements may make: the k-th (from 0) picks
      among the n - k positions not yet fixed. */
  predicate ValidChoices(n: nat, choices: seq<nat>)
  {
    |choices| <= n && forall k :: 0 <= k < |choices| ==> choices[k] < n - k
  }

  /** What `shuffle` does with the given draws: the k-th swaps the chosen
      position with position n - 1 - k. A draw outside the unfixed positions,
      which `shuffle` never makes, leaves the sequence as it is. */
  function Shuffled<T>(s: seq<T>, choices: seq<nat>): (r: seq<T>)
    ensures |r| == |s|
    decreases |choices|
  {
    if |choices| == 0 then s
    else
      var k := |choices| - 1;
      var t := Shuffled(s, choices[..k]);
      if choices[k] < |s| - k && k < |s| then Swap(t, choices[k], |s| - 1 - k) else t
  }

  /** A draw within the unfixed positions keeps the draws valid. */
  lemma ChoicesAppend(n: nat, choices: seq<nat>, next: nat)
    requires ValidChoices(n, choices) && next < n - |choices|
    ensures ValidChoices(n, choices + [next])
  {
  }

  /** One round of the loop of `shuffle`, on the whole array's contents:
      swapping the chosen position with the last unfixed one extends the
      shuffle by that draw. */
  lemma ShuffleStep<T>(original: seq<T>, prev: seq<nat>, chosen: nat, before: seq<T>, from: nat, to: nat, last: nat)
    requires from <= to <= |before| && |original| == to - from
    requires chosen < (to - from) - |prev| && last == from + ((to - from) - 1 - |prev|)
    requires before[from..to] == Shuffled(original, prev)
    ensures Swap(before, from + chosen, last)[from..to] == Shuffled(original, prev + [chosen])
  {
    var top := (to - from) - 1 - |prev|;
    ShuffledLast(original, prev, chosen, top);
    SwapWithin(before, from, to, chosen, top, last);
  }

  /** The last draw of a shuffle is its last swap. */
  lemma ShuffledLast<T>(s: seq<T>, prev: seq<nat>, chosen: nat, top: nat)
    requires chosen < |s| - |prev| && top == |s| - 1 - |prev|
    ensures Shuffled(s, prev + [chosen]) == Swap(Shuffled(s, prev), chosen, top)
  {
    assert (prev + [chosen])[..|prev|] == prev;
  }

  /** A shuffle is a permutation. */
  lemma {:induction false} ShuffledPermutes<T>(s: seq<T>, choices: seq<nat>)
    ensures multiset(Shuffled(s, choices)) == multiset(s)
    decreases |choices|
  {
    if |choices| > 0 {
      var k := |choices| - 1;
      ShuffledPermutes(s, choices[..k]);
      if choices[k] < |s| - k && k < |s| {
        SwapPermutes(Shuffled(s, choices[..k]), choices[k], |s| - 1 - k);
      }
    }
  }

  lemma SwapPermutes<T>(s: seq<T>, i: nat, j: nat)
    requires i < |s| && j < |s|
    ensures multiset(Swap(s, i, j)) == multiset(s)
  {
    if i != j {
      var t := s[i := s[j]];
      assert multiset(t) == multiset(s) - multiset{s[i]} + multiset{s[j]};
      assert multiset(Swap(s, i, j)) == multiset(t) - multiset{t[j]} + multiset{s[i]};
    }
  }

  /** A swap inside [from, to) is the same swap on that slice, and leaves
      the rest alone. */
  lemma SwapWithin<T>(s: seq<T>, from: nat, to: nat, i: nat, j: nat, at: nat)
    requires from <= to <= |s| && i < to - from && j < to - from && at == from + j
    ensures Swap(s, from + i, at)[from..to] == Swap(s[from..to], i, j)
    ensures Swap(s, from + i, at)[..from] == s[..from]
    ensures Swap(s, from + i, at)[to..] == s[to..]
  {
  }

  /** `swap(*(from + chosen), *to)` on the array. */
  method SwapElements<T>(a: array<T>, i: nat, j: nat)
    requires i < a.Length && j < a.Length
    modifies a
    ensures a[..] == Swap(old(a[..]), i, j)
  {
    var tmp := a[i];
    a[i] := a[j];
    a[j] := tmp;
  }

  /** The state of `shuffle` before a round: `count` elements are left to
      draw among, the range, n elements long, holds the shuffle of `original` by the draws
      made so far, and the generator is where those draws left it. */
  ghost predicate Shuffling<T>(a: seq<T>, from: nat, to: nat, n: nat, count: nat, original: seq<T>, start: u64, inc: u64,
                               choices: seq<nat>, skips: seq<nat>, states: seq<u64>, state: u64)
  {
    from <= to <= |a| && n == to - from && n < W32 && |original| == n
    && count <= n && (count >= 1 || n == 0)
    && |choices| == n - count && ValidChoices(n, choices)
    && a[from..to] == Shuffled(original, choices)
    && Draws(start, inc, n, choices, skips, states) && state == states[|choices|]
  }

  /** A round of `shuffle` on values: a draw among the first `count`
      positions, followed by the swap it dictates, moves the state on by
      one round. */
  lemma ShufflingNext<T>(before: seq<T>, from: nat, to: nat, n: nat, count: nat, original: seq<T>, start: u64, inc: u64,
                         choices: seq<nat>, skips: seq<nat>, states: seq<u64>, here: u64,
                         chosen: nat, skipped: nat, next: u64)
    requires count > 1 && Shuffling(before, from, to, n, count, original, start, inc, choices, skips, states, here)
    requires Draw(here, inc, count as u32, skipped, chosen)
    requires next == Iterate(here, skipped + 1, Multiplier, inc)
    ensures Shuffling(Swap(before, from + chosen, from + count - 1), from, to, n, count - 1, original, start, inc,
                      choices + [chosen], skips + [skipped], states + [next], next)
  {
    DrawsAppend(start, inc, n, choices, skips, states, here, count as u32, chosen, skipped, next);
    ChoicesAppend(n, choices, chosen);
    ShuffleStep(original, choices, chosen, before, from, to, from + count - 1);
  }

  /** When at most one position is left, the range is a permutation of the
      original by the draws made, and the generator has moved on by every
      state those draws consumed. */
  lemma ShufflingDone<T>(a: seq<T>, from: nat, to: nat, n: nat, count: nat, original: seq<T>, start: u64, inc: u64,
                         choices: seq<nat>, skips: seq<nat>, states: seq<u64>, state: u64)
    requires count <= 1 && Shuffling(a, from, to, n, count, original, start, inc, choices, skips, states, state)
    ensures ValidChoices(n, choices) && |choices| == if n > 1 then n - 1 else 0
    ensures a[from..to] == Shuffled(original, choices) && multiset(a[from..to]) == multiset(original)
    ensures Draws(start, inc, n, choices, skips, states)
    ensures state == states[|choices|] == Iterate(start, Consumed(skips), Multiplier, inc)
  {
    ShuffledPermutes(original, choices);
    DrawsConsumed(start, inc, n, choices, skips, states);
  }

  /** One round of `shuffle`: draw a position among the first `count`,
      swap it with the last of them, and move the end down. */
  method ShuffleRound<T>(a: array<T>, from: nat, to: nat, ghost n: nat, count: nat, rng: Engine, ghost original: seq<T>,
                         ghost start: u64, ghost choices: seq<nat>, ghost skips: seq<nat>, ghost states: seq<u64>)
    returns (ghost choices': seq<nat>, ghost skips': seq<nat>, ghost states': seq<u64>)
    requires count > 1 && rng.Valid()
    requires Shuffling(a[..], from, to, n, count, original, start, rng.inc, choices, skips, states, rng.state)
    modifies a, rng
    ensures a[..from] == old(a[..from]) && a[to..] == old(a[to..])
    ensures rng.Valid() && rng.inc == old(rng.inc)
    ensures Shuffling(a[..], from, to, n, count - 1, original, start, rng.inc, choices', skips', states', rng.state)
  {
    ghost var here, before := rng.state, a[..];
    var chosen, skipped := BoundedRand(rng, count as u32);
    SwapElements(a, from + chosen, from + count - 1);
    choices', skips', states' := choices + [chosen as nat], skips + [skipped], states + [rng.state];
    ShufflingNext(before, from, to, n, count, original, start, rng.inc, choices, skips, states, here,
                  chosen as nat, skipped, rng.state);
    assert a[..from] == before[..from] && a[to..] == before[to..];
  }

  /** `pcg_extras::shuffle(from, to, rng)`: Fisher-Yates from the top of the
      range down, each swap partner drawn by `bounded_rand`. The range ends
      up holding the same elements in the order the draws give, the draws
      are those the generator's outputs dictate, and nothing outside the
      range changes. */
  method Shuffle<T>(a: array<T>, from: nat, to: nat, rng: Engine)
    returns (ghost choices: seq<nat>, ghost skips: seq<nat>, ghost states: seq<u64>)
    requires from <= to <= a.Length && to - from < W32 && rng.Valid()
    modifies a, rng
    ensures a[..from] == old(a[..from]) && a[to..] == old(a[to..])
    ensures ValidChoices(to - from, choices) && |choices| == if to - from > 1 then to - from - 1 else 0
    ensures a[from..to] == Shuffled(old(a[from..to]), choices)
    ensures multiset(a[from..to]) == multiset(old(a[from..to]))
    ensures rng.Valid() && rng.inc == old(rng.inc)
    ensures Draws(old(rng.state), rng.inc, to - from, choices, skips, states)
    ensures rng.state == states[|choices|] == Iterate(old(rng.state), Consumed(skips), Multiplier, rng.inc)
  {
    ghost var original := a[from..to];
    ghost var start := rng.state;
    var count: nat := to - from;
    choices, skips, states := [], [], [rng.state];
    while count > 1
      invariant rng.Valid() && rng.inc == old(rng.inc)
      invariant a[..from] == old(a[..from]) && a[to..] == old(a[to..])
      invariant Shuffling(a[..], from, to, to - from, count, original, start, rng.inc, choices, skips, states, rng.state)
      decreases count
    {
      choices, skips, states := ShuffleRound(a, from, to, to - from, count, rng, original, start, choices, skips, states);
      count := count - 1;
    }
    ShufflingDone(a[..], from, to, to - from, count, original, start, rng.inc, choices, skips, states, rng.state);
  }
}
