/**
 * Model of AdventOfCode/2015/Day10.cs: one look-and-say step writes, for
 * each maximal run of equal characters from left to right, the run's
 * length in decimal followed by the character. The input must not be
 * empty (the source reads its last character); an empty input is `None`.
 */
module Day10Of2015 {
  import opened Wrappers
  import opened Numbers

  /** A maximal run: `count` copies of `ch`. */
  datatype Run = Run(count: nat, ch: char)

  /** The runs of `s`, built by extending the last run or starting a new one, one character at a time. */
  function Runs(s: string): (rs: seq<Run>)
    ensures |s| == 0 <==> |rs| == 0
    ensures |rs| > 0 ==> rs[|rs| - 1].ch == s[|s| - 1]
    decreases |s|
  {
    if |s| == 0 then []
    else
      var rs := Runs(s[..|s| - 1]);
      var c := s[|s| - 1];
      if |rs| > 0 && rs[|rs| - 1].ch == c then rs[..|rs| - 1] + [Run(rs[|rs| - 1].count + 1, c)]
      else rs + [Run(1, c)]
  }

  function Copies(c: char, n: nat): (s: string)
    ensures |s| == n && forall k | 0 <= k < n :: s[k] == c
  {
    seq(n, _ => c)
  }

  /** The text the runs stand for. */
  function Expand(rs: seq<Run>): string
  {
    if |rs| == 0 then "" else Expand(rs[..|rs| - 1]) + Copies(rs[|rs| - 1].ch, rs[|rs| - 1].count)
  }

  /** Every run is non-empty and neighbouring runs have different characters. */
  predicate WellFormed(rs: seq<Run>)
  {
    (forall k | 0 <= k < |rs| :: rs[k].count >= 1) &&
    (forall k | 0 <= k < |rs| - 1 :: rs[k].ch != rs[k + 1].ch)
  }

  /** The decomposition is well formed: emitted counts are at least 1 and consecutive runs differ. */
  lemma {:induction false} RunsWellFormed(s: string)
    ensures WellFormed(Runs(s))
    decreases |s|
  {
    if |s| > 0 {
      RunsWellFormed(s[..|s| - 1]);
    }
  }

  /** Expanding the runs gives the text back. */
  lemma {:induction false} ExpandRuns(s: string)
    ensures Expand(Runs(s)) == s
    decreases |s|
  {
    if |s| > 0 {
      var p, c := s[..|s| - 1], s[|s| - 1];
      ExpandRuns(p);
      var rs := Runs(p);
      if |rs| > 0 && rs[|rs| - 1].ch == c {
        var last := rs[|rs| - 1];
        var init := rs[..|rs| - 1];
        assert (init + [Run(last.count + 1, c)])[..|rs| - 1] == init;
        assert rs[..|rs| - 1] == init;
        assert Copies(c, last.count + 1) == Copies(c, last.count) + [c];
      } else {
        assert (rs + [Run(1, c)])[..|rs|] == rs;
      }
      assert s == p + [c];
    }
  }

  /** Appending `n >= 1` copies of a character other than the last one adds exactly one run. */
  lemma {:induction false} RunsAppendCopies(s: string, c: char, n: nat)
    requires n >= 1 && (|s| == 0 || s[|s| - 1] != c)
    ensures Runs(s + Copies(c, n)) == Runs(s) + [Run(n, c)]
    decreases n
  {
    var t := s + Copies(c, n);
    assert t[..|t| - 1] == s + Copies(c, n - 1);
    if n > 1 {
      RunsAppendCopies(s, c, n - 1);
    }
  }

  /** A well-formed decomposition is the decomposition of its own expansion: runs are unique. */
  lemma {:induction false} RunsOfExpand(rs: seq<Run>)
    requires WellFormed(rs)
    ensures Runs(Expand(rs)) == rs
    decreases |rs|
  {
    if |rs| > 0 {
      var init, last := rs[..|rs| - 1], rs[|rs| - 1];
      assert WellFormed(init);
      RunsOfExpand(init);
      var s := Expand(init);
      if |init| > 0 {
        assert s[|s| - 1] == Runs(s)[|Runs(s)| - 1].ch == init[|init| - 1].ch;
      }
      RunsAppendCopies(s, last.ch, last.count);
    }
  }

  /** `sb.Append(cnt); sb.Append(ch)` for one run. */
  function EncodeRun(r: Run): string
  {
    DecimalString(r.count) + [r.ch]
  }

  function Encode(rs: seq<Run>): string
  {
    if |rs| == 0 then "" else Encode(rs[..|rs| - 1]) + EncodeRun(rs[|rs| - 1])
  }

  /** One look-and-say step as a function of the text. */
  function LookAndSay(s: string): string
  {
    Encode(Runs(s))
  }

  /** `Process`: the run-length loop with a running count, `None` on an empty input. */
  method Process(input: string) returns (r: Option<string>)
    ensures r.Some? <==> |input| >= 1
    ensures r.Some? ==> r.value == LookAndSay(input)
  {
    if |input| == 0 {
      return None;
    }
    var sb := "";
    ghost var done: seq<Run> := [];
    var cnt := 1;
    assert input[..1][..0] == [];
    for i := 1 to |input|
      invariant 1 <= cnt <= i
      invariant sb == Encode(done)
      invariant Runs(input[..i]) == done + [Run(cnt, input[i - 1])]
    {
      assert input[..i + 1][..i] == input[..i];
      if input[i] == input[i - 1] {
        cnt := cnt + 1;
      } else {
        assert (done + [Run(cnt, input[i - 1])])[..|done|] == done;
        sb := sb + EncodeRun(Run(cnt, input[i - 1]));
        done := done + [Run(cnt, input[i - 1])];
        cnt := 1;
      }
    }
    assert input[..|input|] == input;
    sb := sb + EncodeRun(Run(cnt, input[|input| - 1]));
    assert (done + [Run(cnt, input[|input| - 1])])[..|done|] == done;
    return Some(sb);
  }

  /** `steps` look-and-say steps. */
  function Iterate(s: string, steps: nat): string
    decreases steps
  {
    if steps == 0 then s else Iterate(LookAndSay(s), steps - 1)
  }

  /** A step keeps the text non-empty, so only the very first step can fail. */
  lemma LookAndSayNonEmpty(s: string)
    requires |s| >= 1
    ensures |LookAndSay(s)| >= 2
  {
    var rs := Runs(s);
    assert Encode(rs) == Encode(rs[..|rs| - 1]) + EncodeRun(rs[|rs| - 1]);
  }

  /** `Solve1`/`Solve2`: the length after `steps` steps (40 and 50 in the source). */
  method Solve(input: string, steps: nat) returns (r: Option<nat>)
    ensures steps >= 1 ==> (r.Some? <==> |input| >= 1)
    ensures r.Some? ==> r.value == |Iterate(input, steps)|
  {
    var text := input;
    for i := 0 to steps
      invariant (i >= 1 || |input| >= 1) ==> |text| >= 1
      invariant i == 0 ==> text == input
      invariant i >= 1 ==> |input| >= 1
      invariant Iterate(input, steps) == Iterate(text, steps - i)
    {
      var next := Process(text);
      if next.None? {
        return None;
      }
      LookAndSayNonEmpty(text);
      text := next.value;
    }
    return Some(|text|);
  }

  method Solve1(input: string) returns (r: Option<nat>)
    ensures r.Some? <==> |input| >= 1
    ensures r.Some? ==> r.value == |Iterate(input, 40)|
  {
    r := Solve(input, 40);
  }

  method Solve2(input: string) returns (r: Option<nat>)
    ensures r.Some? <==> |input| >= 1
    ensures r.Some? ==> r.value == |Iterate(input, 50)|
  {
    r := Solve(input, 50);
  }
}
