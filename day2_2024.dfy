/**
 * Model of 2024/Day2.cs: a report (a list of levels) is safe when it is
 * strictly increasing or strictly decreasing throughout and adjacent
 * levels differ by 1 to 3; it is tolerated when removing a single level
 * makes it safe. Levels are mathematical integers: the 32-bit wrap-around
 * of `items[i + 1] - items[i]`, and the exception `Math.Abs` raises on
 * `int.MinValue`, are not modelled.
 */
module Day2Of2024 {
  import opened Wrappers
  import opened Strings
  import Parser

  function Abs(d: int): nat { if d < 0 then -d else d }

  /** The first `n` gaps rise. */
  ghost predicate IncreasingBelow(xs: seq<int>, n: int)
  {
    forall k | 0 <= k < n && k + 1 < |xs| :: xs[k + 1] > xs[k]
  }

  /** The first `n` gaps fall. */
  ghost predicate DecreasingBelow(xs: seq<int>, n: int)
  {
    forall k | 0 <= k < n && k + 1 < |xs| :: xs[k + 1] < xs[k]
  }

  /** The first `n` gaps are 1 to 3 in size. */
  ghost predicate GapsInRangeBelow(xs: seq<int>, n: int)
  {
    forall k | 0 <= k < n && k + 1 < |xs| :: 1 <= Abs(xs[k + 1] - xs[k]) <= 3
  }

  /** The report is safe: monotone in one direction with every gap in 1..3. */
  ghost predicate Safe(xs: seq<int>)
  {
    (IncreasingBelow(xs, |xs|) || DecreasingBelow(xs, |xs|)) && GapsInRangeBelow(xs, |xs|)
  }

  /** `IsValid`: the loop over adjacent levels with the two direction flags. */
  method IsValid(items: seq<int>) returns (b: bool)
    ensures b == Safe(items)
    ensures |items| <= 1 ==> b
  {
    var isIncreasing := true;
    var isDecreasing := true;
    var i := 0;
    while i < |items| - 1
      invariant 0 <= i
      invariant isIncreasing == IncreasingBelow(items, i)
      invariant isDecreasing == DecreasingBelow(items, i)
      invariant isIncreasing || isDecreasing
      invariant GapsInRangeBelow(items, i)
    {
      isIncreasing := isIncreasing && items[i + 1] > items[i];
      isDecreasing := isDecreasing && items[i + 1] < items[i];
      var diff := Abs(items[i + 1] - items[i]);
      if !isIncreasing && !isDecreasing {
        return false;
      }
      if diff < 1 || diff > 3 {
        return false;
      }
      i := i + 1;
    }
    return true;
  }

  /** `List.RemoveAt(i)` on a copy. */
  function RemoveAt(xs: seq<int>, i: nat): (r: seq<int>)
    requires i < |xs|
    ensures |r| == |xs| - 1
    ensures forall k | 0 <= k < |r| :: r[k] == if k < i then xs[k] else xs[k + 1]
  {
    xs[..i] + xs[i + 1..]
  }

  /** The report is tolerated: dropping one level makes it safe. */
  ghost predicate Tolerated(xs: seq<int>)
  {
    exists i | 0 <= i < |xs| :: Safe(RemoveAt(xs, i))
  }

  /** `IsValid2`: tries every single removal, on a copy, in index order. */
  method IsValid2(items: seq<int>) returns (b: bool)
    ensures b == Tolerated(items)
    ensures |items| == 0 ==> !b
  {
    var i := 0;
    while i < |items|
      invariant 0 <= i <= |items|
      invariant forall k | 0 <= k < i :: !Safe(RemoveAt(items, k))
    {
      var copy := RemoveAt(items, i);
      var valid := IsValid(copy);
      if valid {
        return true;
      }
      i := i + 1;
    }
    return false;
  }

  /** A safe report stays safe without its first level. */
  lemma SafeWithoutFirst(xs: seq<int>)
    requires |xs| >= 1 && Safe(xs)
    ensures Safe(RemoveAt(xs, 0))
  {
    var r := RemoveAt(xs, 0);
    assert forall k | 0 <= k < |r| :: r[k] == xs[k + 1];
  }

  /** Every non-empty safe report is tolerated; the empty report is safe but not tolerated. */
  lemma SafeIsTolerated(xs: seq<int>)
    ensures |xs| >= 1 && Safe(xs) ==> Tolerated(xs)
    ensures |xs| == 0 ==> Safe(xs) && !Tolerated(xs)
  {
    if |xs| >= 1 && Safe(xs) {
      SafeWithoutFirst(xs);
    }
  }

  // ---------------------------------------------------------------------
  // Parsing and counting.

  /** `ParseList<int>(line, ' ')`, the conversion of one line. */
  function ParseLine(line: string): Option<seq<int>>
  {
    Parser.ParseIntList(line, ' ')
  }

  /** Every line converted by `f`; `None` as soon as one fails. */
  function ParseAll(lines: seq<string>, f: string -> Option<seq<int>>): Option<seq<seq<int>>>
  {
    if |lines| == 0 then Some([])
    else
      match f(lines[0])
      case None => None
      case Some(xs) =>
        match ParseAll(lines[1..], f)
        case None => None
        case Some(rest) => Some([xs] + rest)
  }

  /** The lines convert exactly when each line does, and line `k` gives report `k`. */
  lemma {:induction false} ParseAllLines(lines: seq<string>, f: string -> Option<seq<int>>)
    ensures ParseAll(lines, f).Some? <==> forall k | 0 <= k < |lines| :: f(lines[k]).Some?
    ensures ParseAll(lines, f).Some? ==>
              |ParseAll(lines, f).value| == |lines| &&
              forall k | 0 <= k < |lines| :: f(lines[k]) == Some(ParseAll(lines, f).value[k])
  {
    if |lines| > 0 {
      ParseAllLines(lines[1..], f);
      assert forall k | 0 <= k < |lines| - 1 :: lines[1..][k] == lines[k + 1];
    }
  }

  function Parse(input: string): Option<seq<seq<int>>>
  {
    ParseAll(Split(input, '\n'), ParseLine)
  }

  /** The number of safe reports. */
  ghost function SafeCount(reports: seq<seq<int>>): (n: nat)
    ensures n <= |reports|
  {
    if |reports| == 0 then 0
    else SafeCount(reports[..|reports| - 1]) + if Safe(reports[|reports| - 1]) then 1 else 0
  }

  /** The number of tolerated reports. */
  ghost function ToleratedCount(reports: seq<seq<int>>): (n: nat)
    ensures n <= |reports|
  {
    if |reports| == 0 then 0
    else ToleratedCount(reports[..|reports| - 1]) + if Tolerated(reports[|reports| - 1]) then 1 else 0
  }

  /** Without empty lines, part 2 counts at least as many reports as part 1. */
  lemma {:induction false} SafeCountAtMostTolerated(reports: seq<seq<int>>)
    requires forall k | 0 <= k < |reports| :: |reports[k]| >= 1
    ensures SafeCount(reports) <= ToleratedCount(reports)
  {
    if |reports| > 0 {
      SafeCountAtMostTolerated(reports[..|reports| - 1]);
      SafeIsTolerated(reports[|reports| - 1]);
    }
  }

  method Solve1(input: string) returns (r: Option<nat>)
    ensures r.Some? <==> Parse(input).Some?
    ensures r.Some? ==> r.value == SafeCount(Parse(input).value)
  {
    var parsed := Parse(input);
    if parsed.None? {
      return None;
    }
    var reports := parsed.value;
    var count := 0;
    for i := 0 to |reports|
      invariant count == SafeCount(reports[..i])
    {
      var valid := IsValid(reports[i]);
      assert reports[..i + 1][..i] == reports[..i];
      count := count + if valid then 1 else 0;
    }
    assert reports[..|reports|] == reports;
    return Some(count);
  }

  method Solve2(input: string) returns (r: Option<nat>)
    ensures r.Some? <==> Parse(input).Some?
    ensures r.Some? ==> r.value == ToleratedCount(Parse(input).value)
  {
    var parsed := Parse(input);
    if parsed.None? {
      return None;
    }
    var reports := parsed.value;
    var count := 0;
    for i := 0 to |reports|
      invariant count == ToleratedCount(reports[..i])
    {
      var valid := IsValid2(reports[i]);
      assert reports[..i + 1][..i] == reports[..i];
      count := count + if valid then 1 else 0;
    }
    assert reports[..|reports|] == reports;
    return Some(count);
  }
}
