/**
 * Model of 2024/Day11.cs: the number of stones one stone turns into after
 * a number of blinks, computed by a recursion memoized in a dictionary
 * keyed by (value, current step).
 *
 * The digit count `(int)Math.Log10(value) + 1` and `Math.Pow(10, k)` are
 * floating point in the source; here they are the exact integer digit
 * count and power of ten. A negative value (only possible in a malformed
 * input) takes the multiply branch, as its floating-point "length" is odd.
 */
module Day11Of2024 {
  import opened Wrappers
  import opened Numbers
  import Parser

  /** The stones one stone becomes in one blink. */
  function Blink(v: int): (next: seq<int>)
    ensures 1 <= |next| <= 2
  {
    if v == 0 then [1]
    else if v > 0 && DigitCount(v) % 2 == 0 then
      var p := Pow10(DigitCount(v) / 2);
      [v / p, v % p]
    else [v * 2024]
  }

  /** The recurrence `Count` memoizes: the number of stones `v` becomes after `n` more blinks. */
  function Stones(v: int, n: nat): nat
    decreases n
  {
    if n == 0 then 1
    else if v == 0 then Stones(1, n - 1)
    else if v > 0 && DigitCount(v) % 2 == 0 then
      var p := Pow10(DigitCount(v) / 2);
      Stones(v / p, n - 1) + Stones(v % p, n - 1)
    else Stones(v * 2024, n - 1)
  }

  // ---------------------------------------------------------------------
  // The recurrence counts the stones of the simulated line.

  /** One blink of a whole line, stone by stone, in order. */
  function BlinkLine(line: seq<int>): seq<int>
  {
    if |line| == 0 then [] else BlinkLine(line[..|line| - 1]) + Blink(line[|line| - 1])
  }

  /** The line after `n` blinks. */
  function Simulate(line: seq<int>, n: nat): seq<int>
    decreases n
  {
    if n == 0 then line else Simulate(BlinkLine(line), n - 1)
  }

  /** The sum of `Stones(v, n)` over a line. */
  function TotalStones(line: seq<int>, n: nat): nat
  {
    if |line| == 0 then 0 else TotalStones(line[..|line| - 1], n) + Stones(line[|line| - 1], n)
  }

  lemma {:induction false} BlinkLineAppend(a: seq<int>, b: seq<int>)
    ensures BlinkLine(a + b) == BlinkLine(a) + BlinkLine(b)
    decreases |b|
  {
    if |b| > 0 {
      assert (a + b)[..|a + b| - 1] == a + b[..|b| - 1];
      BlinkLineAppend(a, b[..|b| - 1]);
    } else {
      assert a + b == a;
    }
  }

  lemma {:induction false} TotalStonesAppend(a: seq<int>, b: seq<int>, n: nat)
    ensures TotalStones(a + b, n) == TotalStones(a, n) + TotalStones(b, n)
    decreases |b|
  {
    if |b| > 0 {
      assert (a + b)[..|a + b| - 1] == a + b[..|b| - 1];
      TotalStonesAppend(a, b[..|b| - 1], n);
    } else {
      assert a + b == a;
    }
  }

  /** A stone's count after one more blink is the total over what it becomes. */
  lemma StonesBlink(v: int, n: nat)
    ensures Stones(v, n + 1) == TotalStones(Blink(v), n)
  {
    var next := Blink(v);
    if |next| == 2 {
      TotalStonesPair(next[0], next[1], n);
      assert next == [next[0], next[1]];
    } else {
      TotalStonesSingle(next[0], n);
      assert next == [next[0]];
    }
  }

  lemma TotalStonesSingle(a: int, n: nat)
    ensures TotalStones([a], n) == Stones(a, n)
  {
    assert [a][..0] == [];
  }

  lemma TotalStonesPair(a: int, b: int, n: nat)
    ensures TotalStones([a, b], n) == Stones(a, n) + Stones(b, n)
  {
    assert [a, b][..1] == [a];
    TotalStonesSingle(a, n);
  }

  /** One blink of a line, counted ahead, does not change the total. */
  lemma {:induction false} TotalStonesBlinkLine(line: seq<int>, n: nat)
    ensures TotalStones(line, n + 1) == TotalStones(BlinkLine(line), n)
    decreases |line|
  {
    if |line| > 0 {
      var init, v := line[..|line| - 1], line[|line| - 1];
      TotalStonesBlinkLine(init, n);
      StonesBlink(v, n);
      TotalStonesAppend(BlinkLine(init), Blink(v), n);
    }
  }

  lemma {:induction false} TotalStonesNow(line: seq<int>)
    ensures TotalStones(line, 0) == |line|
    decreases |line|
  {
    if |line| > 0 {
      TotalStonesNow(line[..|line| - 1]);
    }
  }

  /** The recurrence summed over a line is the length of the simulated line. */
  lemma {:induction false} TotalStonesSimulate(line: seq<int>, n: nat)
    ensures TotalStones(line, n) == |Simulate(line, n)|
    decreases n
  {
    if n == 0 {
      TotalStonesNow(line);
    } else {
      var m, next := n - 1, BlinkLine(line);
      TotalStonesBlinkLine(line, m);
      TotalStonesSimulate(next, m);
      assert Simulate(line, n) == Simulate(next, m);
    }
  }

  /** `Stones(v, n)` is the number of stones in the line after `n` blinks of the single stone `v`. */
  lemma StonesCountsTheLine(v: int, n: nat)
    ensures Stones(v, n) == |Simulate([v], n)|
  {
    TotalStonesSimulate([v], n);
    assert [v][..0] == [];
  }

  // ---------------------------------------------------------------------
  // The memoized recursion.

  /** Every cached entry `(value, step)` is what the recurrence gives for `steps - step` more blinks. */
  ghost predicate CacheCorrect(cache: map<(int, int), nat>, steps: nat)
  {
    forall key | key in cache :: 0 <= key.1 <= steps && cache[key] == Stones(key.0, steps - key.1)
  }

  lemma CacheInsert(cache: map<(int, int), nat>, steps: nat, value: int, step: int, count: nat)
    requires CacheCorrect(cache, steps) && 0 <= step <= steps && count == Stones(value, steps - step)
    ensures CacheCorrect(cache[(value, step) := count], steps)
  {
  }

  /** A stone with an even number of digits counts as its two halves. */
  lemma StonesSplit(v: int, n: nat, p: int)
    requires v > 0 && DigitCount(v) % 2 == 0 && p == Pow10(DigitCount(v) / 2)
    ensures Stones(v, n + 1) == Stones(v / p, n) + Stones(v % p, n)
  {
  }

  /** The local function `Count` together with the `cache` dictionary it reads and writes. */
  class StoneCounter {
    const steps: nat
    var cache: map<(int, int), nat>

    ghost predicate Valid()
      reads this
    {
      CacheCorrect(cache, steps)
    }

    constructor (steps: nat)
      ensures Valid() && this.steps == steps && cache == map[]
    {
      this.steps := steps;
      cache := map[];
    }

    /** `Count(value, currentStep)`: exactly the unmemoized recurrence, keeping every cached entry. */
    method Count(value: int, currentStep: int) returns (result: nat)
      requires Valid() && 0 <= currentStep <= steps
      modifies this
      ensures Valid()
      ensures result == Stones(value, steps - currentStep)
      ensures forall key | key in old(cache) :: key in cache && cache[key] == old(cache)[key]
      decreases steps - currentStep
    {
      if currentStep == steps {
        return 1;
      }
      if (value, currentStep) in cache {
        return cache[(value, currentStep)];
      }
      ghost var n := steps - currentStep - 1;
      if value == 0 {
        result := Count(1, currentStep + 1);
        assert result == Stones(value, n + 1);
      } else if value > 0 && DigitCount(value) % 2 == 0 {
        var p := Pow10(DigitCount(value) / 2);
        var left := Count(value / p, currentStep + 1);
        var right := Count(value % p, currentStep + 1);
        result := left + right;
        StonesSplit(value, n, p);
      } else {
        result := Count(value * 2024, currentStep + 1);
        assert result == Stones(value, n + 1);
      }
      CacheInsert(cache, steps, value, currentStep, result);
      cache := cache[(value, currentStep) := result];
    }
  }

  /** The parsed stones' counts summed: `Sum(x => Count(x, 0))` with one cache for all stones. */
  method CountAll(stones: seq<int>, steps: nat) returns (total: nat)
    ensures total == TotalStones(stones, steps)
  {
    var counter := new StoneCounter(steps);
    total := 0;
    for i := 0 to |stones|
      invariant counter.Valid() && counter.steps == steps
      invariant total == TotalStones(stones[..i], steps)
    {
      var c := counter.Count(stones[i], 0);
      assert stones[..i + 1][..i] == stones[..i];
      total := total + c;
    }
    assert stones[..|stones|] == stones;
  }

  /** `Solve(input, steps)`: `None` where a stone does not parse as a `long`. */
  method Solve(input: string, steps: nat) returns (r: Option<nat>)
    ensures r.Some? <==> Parser.ParseLongList(input, ' ').Some?
    ensures r.Some? ==> r.value == |Simulate(Parser.ParseLongList(input, ' ').value, steps)|
  {
    var stones := Parser.ParseLongList(input, ' ');
    if stones.None? {
      return None;
    }
    var total := CountAll(stones.value, steps);
    TotalStonesSimulate(stones.value, steps);
    return Some(total);
  }
}
