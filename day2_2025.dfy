/**
 * Model of 2025/Day2.cs: a product id (the decimal text of a number) is
 * invalid when it is some block of digits repeated; part 1 counts only two
 * repetitions, part 2 any number from two up. The answer is the sum of
 * the invalid ids over a list of inclusive ranges. `long` arithmetic is
 * modelled on unbounded integers.
 */
module Day2Of2025 {
  import opened Wrappers
  import opened Strings
  import Parser

  /** `string.Concat(Enumerable.Repeat(part, k))`. */
  function Repeat(part: string, k: nat): (r: string)
    ensures |r| == k * |part|
  {
    if k == 0 then [] else Repeat(part, k - 1) + part
  }

  /** The first copy comes first. */
  lemma {:induction false} RepeatFront(part: string, k: nat)
    requires k >= 1
    ensures Repeat(part, k) == part + Repeat(part, k - 1)
  {
    if k > 1 {
      RepeatFront(part, k - 1);
    }
  }

  lemma {:induction false} MulAtLeast(k: int, d: int)
    requires k > 0 && d >= 1
    ensures k * d >= k
    decreases d
  {
    if d > 1 {
      MulAtLeast(k, d - 1);
    }
  }

  /** Dividing `k * p` by `k` gives `p` back, with no remainder. */
  lemma DivMul(k: int, p: nat)
    requires k > 0
    ensures (k * p) / k == p && (k * p) % k == 0
  {
    var x := k * p;
    var q, r := x / k, x % k;
    assert x == k * q + r && 0 <= r < k;
    assert k * (p - q) == r;
    if p - q >= 1 {
      MulAtLeast(k, p - q);
    } else if p - q <= -1 {
      MulAtLeast(k, q - p);
    }
  }

  /** `IsInvalid(id, partsCount)`: `id` is `k` copies of its first `|id| / k` characters. */
  function IsInvalidParts(id: string, k: int): bool
    requires k >= 1
  {
    if |id| % k != 0 then false
    else id == Repeat(id[..|id| / k], k)
  }

  /** Any block repeated `k` times passes `IsInvalid(id, k)`. */
  lemma RepeatedIsInvalid(part: string, k: nat)
    requires k >= 1
    ensures IsInvalidParts(Repeat(part, k), k)
  {
    var id := Repeat(part, k);
    DivMul(k, |part|);
    RepeatFront(part, k);
    assert id[..|id| / k] == part;
  }

  /** `IsInvalid(id, k)` holds exactly when `id` is `k` copies of one block. */
  lemma IsInvalidPartsIff(id: string, k: int)
    requires k >= 1
    ensures IsInvalidParts(id, k) <==> exists part :: id == Repeat(part, k)
  {
    if IsInvalidParts(id, k) {
      assert id == Repeat(id[..|id| / k], k);
    }
    if exists part :: id == Repeat(part, k) {
      var part :| id == Repeat(part, k);
      RepeatedIsInvalid(part, k);
    }
  }

  /** Part 2's test: some repetition count from 2 up to the length. */
  ghost predicate InvalidAnyCount(id: string)
  {
    exists k | 2 <= k <= |id| :: IsInvalidParts(id, k)
  }

  /** `IsInvalid(id)`: tries every count from 2 up to the length. */
  method IsInvalid(id: string) returns (b: bool)
    ensures b == InvalidAnyCount(id)
    ensures |id| <= 1 ==> !b
  {
    var i := 2;
    while i <= |id|
      invariant 2 <= i <= if |id| < 2 then 2 else |id| + 1
      invariant forall k | 2 <= k < i :: !IsInvalidParts(id, k)
    {
      if IsInvalidParts(id, i) {
        return true;
      }
      i := i + 1;
    }
    return false;
  }

  /** Part 2's test finds every id made of one non-empty block repeated two or more times. */
  lemma RepeatedIsInvalidAnyCount(part: string, k: nat)
    requires |part| >= 1 && k >= 2
    ensures InvalidAnyCount(Repeat(part, k))
  {
    RepeatedIsInvalid(part, k);
    MulAtLeast(k, |part|);
  }

  // ---------------------------------------------------------------------
  // Ranges and the sum.

  datatype Range = Range(from: int, to: int)

  /** The predicate `Solve` receives: `IsInvalid(id, 2)` for part 1, `IsInvalid(id)` for part 2. */
  ghost predicate Invalid(id: string, anyCount: bool)
  {
    if anyCount then InvalidAnyCount(id) else IsInvalidParts(id, 2)
  }

  /** The sum of the invalid numbers in `[from, to]`; 0 when `from > to`. */
  ghost function SumInvalid(from: int, to: int, anyCount: bool): int
    decreases to - from
  {
    if to < from then 0
    else SumInvalid(from, to - 1, anyCount) + if Invalid(Parser.IntegerString(to), anyCount) then to else 0
  }

  ghost function Total(ranges: seq<Range>, anyCount: bool): int
  {
    if |ranges| == 0 then 0
    else Total(ranges[..|ranges| - 1], anyCount) +
         SumInvalid(ranges[|ranges| - 1].from, ranges[|ranges| - 1].to, anyCount)
  }

  method TestId(id: string, anyCount: bool) returns (b: bool)
    ensures b == Invalid(id, anyCount)
  {
    if anyCount {
      b := IsInvalid(id);
    } else {
      b := IsInvalidParts(id, 2);
    }
  }

  lemma SumInvalidStep(from: int, i: int, anyCount: bool, invalid: bool)
    requires from <= i && invalid == Invalid(Parser.IntegerString(i), anyCount)
    ensures SumInvalid(from, i, anyCount) == SumInvalid(from, i - 1, anyCount) + if invalid then i else 0
  {
  }

  /** The sum over one inclusive range, as the inner `for` loop of `Solve` adds it. */
  method SumRange(range: Range, anyCount: bool) returns (sum: int)
    ensures sum == SumInvalid(range.from, range.to, anyCount)
  {
    var from, to := range.from, range.to;
    sum := 0;
    var i := from;
    while i <= to
      invariant from <= i && (from <= to ==> i <= to + 1) && (to < from ==> i == from)
      invariant sum == SumInvalid(from, i - 1, anyCount)
      decreases if i <= to then to - i + 1 else 0
    {
      var invalid := TestId(Parser.IntegerString(i), anyCount);
      SumInvalidStep(from, i, anyCount, invalid);
      if invalid {
        sum := sum + i;
      }
      i := i + 1;
    }
    assert i - 1 == to || (to < from && i == from);
  }

  /** `Solve` on parsed ranges. */
  method SolveRanges(ranges: seq<Range>, anyCount: bool) returns (result: int)
    ensures result == Total(ranges, anyCount)
  {
    result := 0;
    for r := 0 to |ranges|
      invariant result == Total(ranges[..r], anyCount)
    {
      var sum := SumRange(ranges[r], anyCount);
      assert ranges[..r + 1][..r] == ranges[..r];
      result := result + sum;
    }
    assert ranges[..|ranges|] == ranges;
  }

  /**
   * Every non-empty id part 1 counts, part 2 counts too; a one-character id
   * is never invalid. (The empty text passes `IsInvalid(id, 2)` but not
   * `IsInvalid(id)`; the decimal text of a number is never empty.)
   */
  lemma Part1IdIsPart2Id(id: string)
    ensures |id| >= 1 && Invalid(id, false) ==> Invalid(id, true)
    ensures |id| == 1 ==> !Invalid(id, false) && !Invalid(id, true)
    ensures Invalid("", false) && !Invalid("", true)
  {
    assert Repeat("", 2) == "";
    if |id| >= 1 && IsInvalidParts(id, 2) {
      assert |id| != 1;
    }
  }

  /** Over non-negative ranges, the part 2 sum is at least the part 1 sum. */
  lemma {:induction false} SumInvalidGrows(from: int, to: int)
    requires from >= 0
    ensures SumInvalid(from, to, false) <= SumInvalid(from, to, true)
    decreases if to < from then 0 else to - from + 1
  {
    if to >= from {
      SumInvalidGrows(from, to - 1);
      Part1IdIsPart2Id(Parser.IntegerString(to));
    }
  }

  lemma {:induction false} TotalGrows(ranges: seq<Range>)
    requires forall r | 0 <= r < |ranges| :: ranges[r].from >= 0
    ensures Total(ranges, false) <= Total(ranges, true)
  {
    if |ranges| > 0 {
      TotalGrows(ranges[..|ranges| - 1]);
      SumInvalidGrows(ranges[|ranges| - 1].from, ranges[|ranges| - 1].to);
    }
  }

  // ---------------------------------------------------------------------
  // Parsing.

  /** One `"from-to"` piece: split on `'-'`, parse the first two parts as `long`; pieces after them are ignored. */
  function ParseRange(piece: string): (r: Option<Range>)
    ensures r.Some? ==> r.value.from >= 0 && r.value.to >= 0
  {
    var pair := Split(piece, '-');
    if |pair| < 2 then None
    else
      match (Parser.ParseBounded(pair[0], Parser.Int64Min, Parser.Int64Max),
             Parser.ParseBounded(pair[1], Parser.Int64Min, Parser.Int64Max))
      case (Some(a), Some(b)) =>
        NoMinusNonNegative(pair[0]);
        NoMinusNonNegative(pair[1]);
        Some(Range(a, b))
      case _ => None
  }

  /** Text without a `'-'` parses to a non-negative number. */
  lemma NoMinusNonNegative(s: string)
    requires '-' !in s
    ensures Parser.ParseInteger(s).Some? ==> Parser.ParseInteger(s).value >= 0
  {
    if |s| > 0 {
      assert s[0] in s;
    }
  }

  function ParseRanges(pieces: seq<string>): Option<seq<Range>>
  {
    if |pieces| == 0 then Some([])
    else
      match ParseRange(pieces[0])
      case None => None
      case Some(r) =>
        match ParseRanges(pieces[1..])
        case None => None
        case Some(rest) => Some([r] + rest)
  }

  /** The ranges come out in input order, one per comma-separated piece. */
  lemma {:induction false} ParseRangesInOrder(pieces: seq<string>)
    ensures ParseRanges(pieces).Some? <==> forall k | 0 <= k < |pieces| :: ParseRange(pieces[k]).Some?
    ensures ParseRanges(pieces).Some? ==>
              |ParseRanges(pieces).value| == |pieces| &&
              forall k | 0 <= k < |pieces| :: ParseRange(pieces[k]) == Some(ParseRanges(pieces).value[k])
  {
    if |pieces| > 0 {
      ParseRangesInOrder(pieces[1..]);
      assert forall k | 0 <= k < |pieces| - 1 :: pieces[1..][k] == pieces[k + 1];
    }
  }

  function Parse(input: string): Option<seq<Range>>
  {
    ParseRanges(Split(input, ','))
  }

  /** `Solve`: `None` where parsing throws. */
  method Solve(input: string, anyCount: bool) returns (r: Option<int>)
    ensures r.Some? <==> Parse(input).Some?
    ensures r.Some? ==> r.value == Total(Parse(input).value, anyCount)
  {
    var ranges := Parse(input);
    if ranges.None? {
      return None;
    }
    var total := SolveRanges(ranges.value, anyCount);
    return Some(total);
  }

  /** On any input that parses, part 2's answer is at least part 1's. */
  lemma Part2AtLeastPart1(input: string)
    requires Parse(input).Some?
    ensures Total(Parse(input).value, false) <= Total(Parse(input).value, true)
  {
    var ranges := Parse(input).value;
    ParseRangesInOrder(Split(input, ','));
    TotalGrows(ranges);
  }
}
