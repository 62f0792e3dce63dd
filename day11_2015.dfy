/**
 * Model of AdventOfCode/2015/Day11.cs: the password successor (an
 * increment with carry over the last eight characters), the three
 * password rules and the search for the next password that satisfies
 * them all.
 *
 * A .NET `char` is a UTF-16 code unit, so a password is a sequence of
 * `CodeUnit`s and `password[i]++` wraps from 0xFFFF to 0. An exception in
 * the source (a carry past index 0, or an index past the end of a short
 * password) is `None` here.
 */
module Day11Of2015 {
  import opened Wrappers

  /** The C# `char`: a UTF-16 code unit. */
  newtype CodeUnit = x: int | 0 <= x < 0x1_0000

  const LetterA: CodeUnit := 'a' as int as CodeUnit
  const LetterZ: CodeUnit := 'z' as int as CodeUnit

  /** `c++` on a `char`. */
  function Bump(c: CodeUnit): CodeUnit
  {
    if c == 0xFFFF then 0 else c + 1
  }

  /**
   * What `GetNextPassword(password, i)` leaves in the password, or `None`
   * when it throws: the character at `i` is incremented, and one that
   * passes `'z'` becomes `'a'` and carries into position `i - 1`.
   */
  function Successor(p: seq<CodeUnit>, i: int): (r: Option<seq<CodeUnit>>)
    ensures r.Some? ==> 0 <= i < |p| && |r.value| == |p| && r.value[i + 1..] == p[i + 1..]
    decreases i + 1
  {
    if i < 0 || i > 7 || i >= |p| then None
    else
      var c := Bump(p[i]);
      if c as int == LetterZ as int + 1 then Successor(p[i := LetterA], i - 1)
      else Some(p[i := c])
  }

  /** `GetNextPassword(char[], int)`: the in-place increment with carry; `false` where the source throws. */
  method GetNextPassword(password: array<CodeUnit>, i: int) returns (ok: bool)
    modifies password
    ensures ok <==> Successor(old(password[..]), i).Some?
    ensures ok ==> password[..] == Successor(old(password[..]), i).value
    decreases i + 1
  {
    if i < 0 || i > 7 || i >= password.Length {
      return false;
    }
    ghost var before := password[..];
    password[i] := Bump(password[i]);
    if password[i] as int == LetterZ as int + 1 {
      password[i] := LetterA;
      assert password[..] == before[i := LetterA];
      ok := GetNextPassword(password, i - 1);
    } else {
      assert password[..] == before[i := Bump(before[i])];
      ok := true;
    }
  }

  // ---------------------------------------------------------------------
  // The successor is the base-26 successor on lowercase passwords.

  predicate IsLower(c: CodeUnit) { LetterA <= c <= LetterZ }

  /** The first `n` characters are lowercase letters. */
  predicate LowerPrefix(p: seq<CodeUnit>, n: nat)
  {
    n <= |p| && forall k | 0 <= k < n :: IsLower(p[k])
  }

  /** The first `n` characters read as a base-26 numeral with digits `'a'..'z'`. */
  function Base26(p: seq<CodeUnit>, n: nat): nat
    requires LowerPrefix(p, n)
  {
    if n == 0 then 0 else Base26(p, n - 1) * 26 + (p[n - 1] - LetterA) as int
  }

  lemma {:induction false} Base26Prefix(p: seq<CodeUnit>, q: seq<CodeUnit>, n: nat)
    requires LowerPrefix(p, n) && n <= |q| && p[..n] == q[..n]
    ensures LowerPrefix(q, n) && Base26(p, n) == Base26(q, n)
  {
    assert forall k | 0 <= k < n :: p[k] == p[..n][k] == q[..n][k] == q[k];
    if n > 0 {
      assert p[..n - 1] == p[..n][..n - 1];
      assert q[..n - 1] == q[..n][..n - 1];
      Base26Prefix(p, q, n - 1);
    }
  }

  /** `Successor(p, i)` fails on a lowercase prefix exactly when it is all `'z'`. */
  lemma {:induction false} SuccessorFails(p: seq<CodeUnit>, i: nat)
    requires i <= 7 && LowerPrefix(p, i + 1)
    ensures Successor(p, i).None? <==> forall k | 0 <= k <= i :: p[k] == LetterZ
    decreases i
  {
    if p[i] == LetterZ && i > 0 {
      var p' := p[i := LetterA];
      assert forall k | 0 <= k < i :: p'[k] == p[k];
      assert Successor(p, i) == Successor(p', i - 1);
      SuccessorFails(p', i - 1);
    }
  }

  /** `Successor(p, i)` adds one to the base-26 value of the prefix through `i`, keeping it lowercase. */
  lemma {:induction false} SuccessorAddsOne(p: seq<CodeUnit>, i: nat)
    requires i <= 7 && LowerPrefix(p, i + 1) && Successor(p, i).Some?
    ensures LowerPrefix(Successor(p, i).value, i + 1)
    ensures Base26(Successor(p, i).value, i + 1) == Base26(p, i + 1) + 1
    decreases i
  {
    var t := Successor(p, i).value;
    if p[i] == LetterZ {
      var p' := p[i := LetterA];
      assert i > 0;
      assert p'[..i] == p[..i];
      Base26Prefix(p, p', i);
      SuccessorAddsOne(p', i - 1);
      assert t[i] == p'[i] == LetterA;
    } else {
      assert t == p[i := p[i] + 1];
      assert t[..i] == p[..i];
      Base26Prefix(p, t, i);
    }
  }

  /**
   * `GetNextPassword(password)` (position 7) is the base-26 successor of
   * the first eight letters: it fails exactly on `"zzzzzzzz"`, otherwise
   * adds one and leaves any later characters alone; shorter passwords
   * always fail.
   */
  lemma NextIsBase26Successor(p: seq<CodeUnit>)
    ensures |p| < 8 ==> Successor(p, 7).None?
    ensures LowerPrefix(p, 8) ==>
      (Successor(p, 7).None? <==> forall k | 0 <= k < 8 :: p[k] == LetterZ)
    ensures LowerPrefix(p, 8) && Successor(p, 7).Some? ==>
      var t := Successor(p, 7).value;
      LowerPrefix(t, 8) && Base26(t, 8) == Base26(p, 8) + 1 && t[8..] == p[8..]
  {
    if LowerPrefix(p, 8) {
      SuccessorFails(p, 7);
      if Successor(p, 7).Some? {
        SuccessorAddsOne(p, 7);
      }
    }
  }

  // ---------------------------------------------------------------------
  // Termination of the search on any input.

  /** Increments left at position `k` before it carries: 0 for `'z'`, 25 for `'a'`. */
  function Remaining(c: CodeUnit): nat
  {
    if c <= LetterZ then (LetterZ - c) as int else LetterZ as int - c as int + 0x1_0000
  }

  /** The positions `0..n-1` as a mixed counter whose digits are `Remaining`. */
  ghost function Measure(p: seq<CodeUnit>, n: nat): nat
    requires n <= |p|
  {
    if n == 0 then 0 else Measure(p, n - 1) * 0x1_0000 + Remaining(p[n - 1])
  }

  lemma {:induction false} MeasurePrefix(p: seq<CodeUnit>, q: seq<CodeUnit>, n: nat)
    requires n <= |p| && n <= |q| && p[..n] == q[..n]
    ensures Measure(p, n) == Measure(q, n)
  {
    if n > 0 {
      assert p[n - 1] == p[..n][n - 1] == q[..n][n - 1] == q[n - 1];
      assert p[..n - 1] == p[..n][..n - 1];
      assert q[..n - 1] == q[..n][..n - 1];
      MeasurePrefix(p, q, n - 1);
    }
  }

  /** Every successful increment strictly lowers the counter of the positions through `i`. */
  lemma {:induction false} SuccessorDecreases(p: seq<CodeUnit>, i: nat)
    requires i <= 7 && i < |p| && Successor(p, i).Some?
    ensures Measure(Successor(p, i).value, i + 1) < Measure(p, i + 1)
    decreases i
  {
    var t := Successor(p, i).value;
    if Bump(p[i]) as int == LetterZ as int + 1 {
      var p' := p[i := LetterA];
      assert i > 0;
      assert p'[..i] == p[..i];
      MeasurePrefix(p, p', i);
      SuccessorDecreases(p', i - 1);
      assert t[i] == p'[i] == LetterA;
    } else {
      assert t == p[i := Bump(p[i])];
      assert t[..i] == p[..i];
      MeasurePrefix(p, t, i);
    }
  }

  ghost function SearchMeasure(p: seq<CodeUnit>): nat
  {
    if |p| < 8 then 0 else Measure(p, 8)
  }

  // ---------------------------------------------------------------------
  // The rules.

  /** Rule 1: an increasing straight of three consecutive characters. */
  predicate HasStraight(p: seq<CodeUnit>)
  {
    exists i | 0 <= i < |p| - 2 :: p[i] as int == p[i + 1] as int - 1 && p[i] as int == p[i + 2] as int - 2
  }

  method Rule1(password: array<CodeUnit>) returns (b: bool)
    ensures b == HasStraight(password[..])
  {
    var i := 0;
    while i < password.Length - 2
      invariant 0 <= i <= if password.Length < 2 then 0 else password.Length - 2
      invariant forall k | 0 <= k < i :: !(password[k] as int == password[k + 1] as int - 1 &&
                                            password[k] as int == password[k + 2] as int - 2)
    {
      if password[i] as int == password[i + 1] as int - 1 && password[i] as int == password[i + 2] as int - 2 {
        assert password[..][i] == password[i];
        return true;
      }
      i := i + 1;
    }
    return false;
  }

  predicate IsConfusing(c: CodeUnit)
  {
    c == 'i' as int as CodeUnit || c == 'o' as int as CodeUnit || c == 'l' as int as CodeUnit
  }

  /** Rule 2: none of `'i'`, `'o'`, `'l'` (the source's `!Any(...)`). */
  function Rule2(p: seq<CodeUnit>): (r: bool)
    ensures r <==> forall k | 0 <= k < |p| :: !IsConfusing(p[k])
  {
    if |p| == 0 then true else !IsConfusing(p[0]) && Rule2(p[1..])
  }

  predicate IsPair(p: seq<CodeUnit>, i: int)
  {
    0 <= i < |p| - 1 && p[i] == p[i + 1]
  }

  /**
   * Where the first loop of `Rule3` stops when started at `i`: the first
   * adjacent equal pair from `i` on, or `max(i, |p| - 1)` if there is none.
   */
  function FirstPairFrom(p: seq<CodeUnit>, i: nat): (r: nat)
    ensures i <= r && (r < |p| - 1 ==> IsPair(p, r))
    ensures r >= |p| - 1 ==> r == i || r == |p| - 1
    ensures forall k | i <= k < r :: !IsPair(p, k)
    decreases |p| - i
  {
    if i >= |p| - 1 || p[i] == p[i + 1] then i else FirstPairFrom(p, i + 1)
  }

  /** Rule 3 as written: after the first pair, some pair two or more positions on has a different letter. */
  predicate PairAfterFirst(p: seq<CodeUnit>)
  {
    var i := FirstPairFrom(p, 0);
    exists j | i + 2 <= j < |p| - 1 :: p[j] == p[j + 1] && p[j] != p[i]
  }

  method Rule3(password: array<CodeUnit>) returns (b: bool)
    ensures b == PairAfterFirst(password[..])
  {
    ghost var p := password[..];
    var i := 0;
    while i < password.Length - 1
      invariant 0 <= i && (i <= password.Length - 1 || i == 0)
      invariant FirstPairFrom(p, 0) == FirstPairFrom(p, i)
    {
      if password[i] == password[i + 1] {
        break;
      }
      i := i + 1;
    }
    assert i == FirstPairFrom(p, 0);
    var j := i + 2;
    while j < password.Length - 1
      invariant i + 2 <= j && (j <= password.Length - 1 || j == i + 2)
      invariant forall k | i + 2 <= k < j :: !(p[k] == p[k + 1] && p[k] != p[i])
    {
      if password[j] == password[j + 1] && password[j] != password[i] {
        assert p[j] == p[j + 1] && p[j] != p[i];
        return true;
      }
      j := j + 1;
    }
    return false;
  }

  /** Two adjacent equal pairs with different letters somewhere in the password. */
  ghost predicate TwoDistinctPairs(p: seq<CodeUnit>)
  {
    exists j, k | IsPair(p, j) && IsPair(p, k) :: p[j] != p[k]
  }

  /**
   * Rule 3 means two different pairs: the search starting two past the
   * first pair cannot miss a pair of a different letter, since such a
   * pair can neither precede nor overlap the first one.
   */
  lemma PairAfterFirstIff(p: seq<CodeUnit>)
    ensures PairAfterFirst(p) <==> TwoDistinctPairs(p)
  {
    var i := FirstPairFrom(p, 0);
    if PairAfterFirst(p) {
      var j :| i + 2 <= j < |p| - 1 && p[j] == p[j + 1] && p[j] != p[i];
      assert IsPair(p, i) && IsPair(p, j);
    }
    if TwoDistinctPairs(p) {
      var j, k :| IsPair(p, j) && IsPair(p, k) && p[j] != p[k];
      var m := if p[j] != p[i] then j else k;
      assert IsPair(p, m) && p[m] != p[i];
    }
  }

  predicate AllRules(p: seq<CodeUnit>)
  {
    HasStraight(p) && Rule2(p) && PairAfterFirst(p)
  }

  // ---------------------------------------------------------------------
  // The search.

  /** The password `GetNextValidPassword` returns, or `None` when an increment throws first. */
  function NextValid(p: seq<CodeUnit>): (r: Option<seq<CodeUnit>>)
    ensures r.Some? ==> AllRules(r.value) && |r.value| == |p|
    decreases SearchMeasure(p)
  {
    match Successor(p, 7)
    case None => None
    case Some(t) =>
      if AllRules(t) then Some(t)
      else
        SuccessorDecreases(p, 7);
        NextValid(t)
  }

  method GetNextValidPassword(input: seq<CodeUnit>) returns (r: Option<seq<CodeUnit>>)
    ensures r == NextValid(input)
  {
    var password := new CodeUnit[|input|](k requires 0 <= k < |input| => input[k]);
    assert password[..] == input;
    while true
      invariant NextValid(password[..]) == NextValid(input)
      decreases SearchMeasure(password[..])
    {
      ghost var before := password[..];
      var ok := GetNextPassword(password, 7);
      if !ok {
        return None;
      }
      SuccessorDecreases(before, 7);
      var r1 := Rule1(password);
      var r3 := Rule3(password);
      if r1 && Rule2(password[..]) && r3 {
        return Some(password[..]);
      }
    }
  }

  method Solve1(input: seq<CodeUnit>) returns (r: Option<seq<CodeUnit>>)
    ensures r == NextValid(input)
  {
    r := GetNextValidPassword(input);
  }

  method Solve2(input: seq<CodeUnit>) returns (r: Option<seq<CodeUnit>>)
    ensures NextValid(input).None? ==> r.None?
    ensures NextValid(input).Some? ==> r == NextValid(NextValid(input).value)
  {
    var first := GetNextValidPassword(input);
    if first.None? {
      return None;
    }
    r := GetNextValidPassword(first.value);
  }

  // ---------------------------------------------------------------------
  // The search returns the first successor that satisfies the rules.

  /** `n` increments in a row, or `None` if one of them throws. */
  function Iterate(p: seq<CodeUnit>, n: nat): Option<seq<CodeUnit>>
    decreases n
  {
    if n == 0 then Some(p)
    else
      match Successor(p, 7)
      case None => None
      case Some(q) => Iterate(q, n - 1)
  }

  /**
   * `NextValid(p)` is reached by `n >= 1` increments, and none of the
   * passwords met on the way satisfies all three rules.
   */
  ghost predicate FirstHit(p: seq<CodeUnit>, n: nat)
  {
    n >= 1 && Iterate(p, n) == NextValid(p) &&
    forall m | 1 <= m < n :: Iterate(p, m).Some? && !AllRules(Iterate(p, m).value)
  }

  lemma {:induction false} NextValidIsFirst(p: seq<CodeUnit>)
    requires NextValid(p).Some?
    ensures exists n: nat :: FirstHit(p, n)
    decreases SearchMeasure(p)
  {
    var q := Successor(p, 7).value;
    assert Iterate(p, 1) == Iterate(q, 0) == Some(q);
    if AllRules(q) {
      assert FirstHit(p, 1);
    } else {
      SuccessorDecreases(p, 7);
      NextValidIsFirst(q);
      var n: nat :| FirstHit(q, n);
      forall m | 1 <= m < n + 1
        ensures Iterate(p, m).Some? && !AllRules(Iterate(p, m).value)
      {
        assert Iterate(p, m) == Iterate(q, m - 1);
      }
      assert Iterate(p, n + 1) == Iterate(q, n);
      assert FirstHit(p, n + 1);
    }
  }

  /** On lowercase letters, `n` increments add `n` to the base-26 value. */
  lemma {:induction false} IterateAdds(p: seq<CodeUnit>, n: nat)
    requires LowerPrefix(p, 8) && Iterate(p, n).Some?
    ensures LowerPrefix(Iterate(p, n).value, 8)
    ensures Base26(Iterate(p, n).value, 8) == Base26(p, 8) + n
    decreases n
  {
    if n > 0 {
      NextIsBase26Successor(p);
      var q := Successor(p, 7).value;
      IterateAdds(q, n - 1);
    }
  }
}
