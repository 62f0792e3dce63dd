/**
 * Model of the combinatorics helpers in Utils.cs (and of the identical
 * permutation code in AdventOfCode/Utils.cs): permutations by in-place
 * swapping with backtracking, subsets selected by the bits of a counter,
 * and all index-ordered pairs.
 *
 * The `List<T>` that `Permute` swaps in place is an `array<T>`; the result
 * list `acc` it appends to is threaded through as a sequence. The counter
 * `1 << items.Count` of `Subsets` is the unbounded power of two.
 */
module Utils {

  // ---------------------------------------------------------------------
  // Swap and permutations.

  /** `s` with positions `i` and `j` exchanged. */
  function Swapped<T>(s: seq<T>, i: int, j: int): seq<T>
    requires 0 <= i < |s| && 0 <= j < |s|
  {
    s[i := s[j]][j := s[i]]
  }

  /** A swap exchanges the two positions, keeps every other one and keeps the multiset. */
  lemma SwappedExchanges<T>(s: seq<T>, i: int, j: int)
    requires 0 <= i < |s| && 0 <= j < |s|
    ensures |Swapped(s, i, j)| == |s|
    ensures Swapped(s, i, j)[i] == s[j] && Swapped(s, i, j)[j] == s[i]
    ensures forall k | 0 <= k < |s| && k != i && k != j :: Swapped(s, i, j)[k] == s[k]
    ensures multiset(Swapped(s, i, j)) == multiset(s)
  {
  }

  /** Swapping the same two positions twice restores the sequence. */
  lemma SwappedTwice<T>(s: seq<T>, i: int, j: int)
    requires 0 <= i < |s| && 0 <= j < |s|
    ensures Swapped(Swapped(s, i, j), i, j) == s
  {
    assert forall k | 0 <= k < |s| :: Swapped(Swapped(s, i, j), i, j)[k] == s[k];
  }

  /** `Swap(items, left, right)`. */
  method Swap<T>(items: array<T>, left: int, right: int)
    requires 0 <= left < items.Length && 0 <= right < items.Length
    modifies items
    ensures items[..] == Swapped(old(items[..]), left, right)
  {
    var temp := items[left];
    items[left] := items[right];
    items[right] := temp;
  }

  /**
   * The lists `Permute(items, left, right, acc)` appends, in order, when
   * `items` holds `s`: a copy of `s` once `left == right`, otherwise the
   * rounds for `i = left .. right`.
   */
  function PermsFrom<T>(s: seq<T>, left: int, right: int): seq<seq<T>>
    requires 0 <= left <= right + 1 <= |s|
    decreases right - left + 1, 1
  {
    if left == right then [s] else RoundsUpTo(s, left, right, right + 1)
  }

  /** The lists appended by the rounds `left .. i - 1` of the loop: round `k` swaps `left` with `k` and recurses. */
  function RoundsUpTo<T>(s: seq<T>, left: int, right: int, i: int): seq<seq<T>>
    requires 0 <= left <= i <= right + 1 <= |s|
    decreases right - left + 1, 0, i - left
  {
    if i == left then []
    else RoundsUpTo(s, left, right, i - 1) + PermsFrom(Swapped(s, left, i - 1), left + 1, right)
  }

  /**
   * `Permute(items, left, right, acc)`: appends `PermsFrom` to `acc`, and
   * the paired swaps around each recursive call leave `items` as it was.
   */
  method Permute<T>(items: array<T>, left: int, right: int, acc: seq<seq<T>>) returns (result: seq<seq<T>>)
    requires 0 <= left <= right + 1 <= items.Length
    modifies items
    ensures items[..] == old(items[..])
    ensures result == acc + PermsFrom(old(items[..]), left, right)
    decreases right - left + 1
  {
    if left == right {
      return acc + [items[..]];
    }
    ghost var s := items[..];
    result := acc;
    for i := left to right + 1
      invariant items[..] == s
      invariant result == acc + RoundsUpTo(s, left, right, i)
    {
      Swap(items, left, i);
      result := Permute(items, left + 1, right, result);
      Swap(items, left, i);
      SwappedTwice(s, left, i);
    }
  }

  /** `Permutations(items)` (and the public `Permute(items)`): every list `Permute(items, 0, n - 1)` produces. */
  method Permutations<T>(items: array<T>) returns (acc: seq<seq<T>>)
    modifies items
    ensures items[..] == old(items[..])
    ensures acc == PermsFrom(old(items[..]), 0, items.Length - 1)
  {
    acc := Permute(items, 0, items.Length - 1, []);
  }

  function Factorial(n: nat): (f: nat)
    ensures f >= 1
  {
    if n == 0 then 1 else n * Factorial(n - 1)
  }

  /** For `left <= right` the recursion yields `(right - left + 1)!` lists; for `left == right + 1` none. */
  lemma {:induction false} PermsCount<T>(s: seq<T>, left: int, right: int)
    requires 0 <= left <= right + 1 <= |s|
    ensures left <= right ==> |PermsFrom(s, left, right)| == Factorial(right - left + 1)
    ensures left == right + 1 ==> PermsFrom(s, left, right) == []
    decreases right - left + 1, 1
  {
    if left < right {
      RoundsCount(s, left, right, right + 1);
    }
  }

  lemma {:induction false} RoundsCount<T>(s: seq<T>, left: int, right: int, i: int)
    requires 0 <= left <= i <= right + 1 <= |s| && left < right
    ensures |RoundsUpTo(s, left, right, i)| == (i - left) * Factorial(right - left)
    decreases right - left + 1, 0, i - left
  {
    if i > left {
      RoundsCount(s, left, right, i - 1);
      PermsCount(Swapped(s, left, i - 1), left + 1, right);
    }
  }

  /** Every produced list rearranges `s` and keeps the positions before `left`. */
  lemma {:induction false} PermsRearrange<T>(s: seq<T>, left: int, right: int)
    requires 0 <= left <= right + 1 <= |s|
    ensures forall p | p in PermsFrom(s, left, right) :: |p| == |s| && multiset(p) == multiset(s) && p[..left] == s[..left]
    decreases right - left + 1, 1
  {
    if left != right {
      RoundsRearrange(s, left, right, right + 1);
    }
  }

  lemma {:induction false} RoundsRearrange<T>(s: seq<T>, left: int, right: int, i: int)
    requires 0 <= left <= i <= right + 1 <= |s|
    ensures forall p | p in RoundsUpTo(s, left, right, i) :: |p| == |s| && multiset(p) == multiset(s) && p[..left] == s[..left]
    decreases right - left + 1, 0, i - left
  {
    if i > left {
      RoundsRearrange(s, left, right, i - 1);
      var t := Swapped(s, left, i - 1);
      SwappedExchanges(s, left, i - 1);
      PermsRearrange(t, left + 1, right);
      assert t[..left] == s[..left];
      forall p | p in PermsFrom(t, left + 1, right)
        ensures p[..left] == s[..left]
      {
        assert p[..left] == p[..left + 1][..left];
        assert t[..left] == t[..left + 1][..left];
      }
    }
  }

  /** Every list of `ps` holds the same elements as `s`, as often. */
  ghost predicate Rearrangements<T>(ps: seq<seq<T>>, s: seq<T>)
  {
    forall p | p in ps :: multiset(p) == multiset(s)
  }

  /** The result of `Permutations`: `n!` lists for `n >= 1`, none for the empty list, each a rearrangement. */
  lemma PermutationsOf<T>(s: seq<T>)
    ensures |s| >= 1 ==> |PermsFrom(s, 0, |s| - 1)| == Factorial(|s|)
    ensures |s| == 0 ==> PermsFrom(s, 0, |s| - 1) == []
    ensures Rearrangements(PermsFrom(s, 0, |s| - 1), s)
  {
    PermsCount(s, 0, |s| - 1);
    PermsRearrange(s, 0, |s| - 1);
  }

  /** A swap of `left` with a later position keeps the prefix before `left` and the multiset of the suffix from `left`. */
  lemma SwappedSuffix<T>(s: seq<T>, left: int, i: int)
    requires 0 <= left <= i < |s|
    ensures Swapped(s, left, i)[..left] == s[..left]
    ensures multiset(Swapped(s, left, i)[left..]) == multiset(s[left..])
  {
    var t := Swapped(s, left, i);
    SwappedExchanges(s, left, i);
    SwappedExchanges(s[left..], 0, i - left);
    assert t[left..] == Swapped(s[left..], 0, i - left);
  }

  /** Round `i` of the loop at `left` is among the rounds `left .. k - 1` for every `k > i`. */
  lemma {:induction false} RoundsContain<T>(s: seq<T>, left: int, right: int, i: int, k: int, p: seq<T>)
    requires 0 <= left <= i < k <= right + 1 <= |s| && left < right
    requires p in PermsFrom(Swapped(s, left, i), left + 1, right)
    ensures p in RoundsUpTo(s, left, right, k)
    decreases k
  {
    if k - 1 != i {
      RoundsContain(s, left, right, i, k - 1, p);
    }
  }

  /** Splitting off the first element of a suffix: the multisets of `p[k..]` and `s[k..]` agree on the rest. */
  lemma SuffixHead<T>(p: seq<T>, s: seq<T>, k: int)
    requires 0 <= k < |p| && k < |s| && p[k] == s[k]
    requires multiset(p[k..]) == multiset(s[k..])
    ensures multiset(p[k + 1..]) == multiset(s[k + 1..])
  {
    assert p[k..] == [p[k]] + p[k + 1..];
    assert s[k..] == [s[k]] + s[k + 1..];
    assert multiset(p[k + 1..]) == multiset(p[k..]) - multiset{p[k]};
    assert multiset(s[k + 1..]) == multiset(s[k..]) - multiset{s[k]};
  }

  /** Two prefixes that agree before `k` and at `k` agree before `k + 1`. */
  lemma PrefixExtend<T>(p: seq<T>, s: seq<T>, k: int)
    requires 0 <= k < |p| && k < |s| && p[..k] == s[..k] && p[k] == s[k]
    ensures p[..k + 1] == s[..k + 1]
  {
    assert p[..k + 1] == p[..k] + [p[k]];
    assert s[..k + 1] == s[..k] + [s[k]];
  }

  /** The element of `p` at `left` occurs in `s` at some position from `left` on. */
  lemma SuffixWitness<T>(s: seq<T>, left: int, p: seq<T>) returns (i: int)
    requires 0 <= left < |s| && left < |p| && multiset(p[left..]) == multiset(s[left..])
    ensures left <= i < |s| && s[i] == p[left]
  {
    assert p[left] == p[left..][0];
    assert p[left] in multiset(s[left..]);
    var j :| 0 <= j < |s[left..]| && s[left..][j] == p[left];
    i := left + j;
  }

  /**
   * Every rearrangement `p` of `s` that keeps the positions before `left`
   * is among the lists the recursion from `left` produces.
   */
  lemma {:induction false} PermsComplete<T>(s: seq<T>, left: int, p: seq<T>)
    requires 0 <= left < |s| && |p| == |s|
    requires p[..left] == s[..left] && multiset(p[left..]) == multiset(s[left..])
    ensures p in PermsFrom(s, left, |s| - 1)
    decreases |s| - left
  {
    var right := |s| - 1;
    var i := SuffixWitness(s, left, p);
    if left == right {
      PrefixExtend(p, s, left);
      assert p == p[..left + 1] && s == s[..left + 1];
    } else {
      var t := Swapped(s, left, i);
      SwappedExchanges(s, left, i);
      SwappedSuffix(s, left, i);
      SuffixHead(p, t, left);
      PrefixExtend(p, t, left);
      PermsComplete(t, left + 1, p);
      RoundsContain(s, left, right, i, right + 1, p);
    }
  }

  /** The result of `Permutations` on one or more items holds every rearrangement of them. */
  lemma PermutationsComplete<T>(s: seq<T>, p: seq<T>)
    requires |s| >= 1 && multiset(p) == multiset(s)
    ensures p in PermsFrom(s, 0, |s| - 1)
  {
    assert |p| == |multiset(p)| == |s|;
    assert p[..0] == s[..0];
    assert p[0..] == p && s[0..] == s;
    PermsComplete(s, 0, p);
  }

  // ---------------------------------------------------------------------
  // Subsets.

  /** `(i & (1 << j)) != 0` for a non-negative counter `i`: bit `j` of `i`. */
  function Bit(i: nat, j: nat): bool
  {
    if j == 0 then i % 2 == 1 else Bit(i / 2, j - 1)
  }

  function Pow2(n: nat): (p: nat)
    ensures p >= 1
  {
    if n == 0 then 1 else 2 * Pow2(n - 1)
  }

  /** What the inner loop of `Subsets` collects for counter `i` after `j` positions: the chosen items in order. */
  function Chosen<T>(items: seq<T>, i: nat, j: nat): seq<T>
    requires j <= |items|
  {
    if j == 0 then [] else Chosen(items, i, j - 1) + if Bit(i, j - 1) then [items[j - 1]] else []
  }

  /** `Subsets(items)`: `2^n` lists, list `i` holding the items whose bit is set in `i`. */
  method Subsets<T>(items: seq<T>) returns (result: seq<seq<T>>)
    ensures |result| == Pow2(|items|)
    ensures forall i | 0 <= i < |result| :: result[i] == Chosen(items, i, |items|)
  {
    var count := Pow2(|items|);
    result := [];
    for i := 0 to count
      invariant |result| == i
      invariant forall i' | 0 <= i' < i :: result[i'] == Chosen(items, i', |items|)
    {
      var current := [];
      for j := 0 to |items|
        invariant current == Chosen(items, i, j)
      {
        if !Bit(i, j) {
          continue;
        }
        current := current + [items[j]];
      }
      result := result + [current];
    }
  }

  /** Everything chosen is an item whose bit is set. */
  lemma {:induction false} ChosenFrom<T>(items: seq<T>, i: nat, j: nat)
    requires j <= |items|
    ensures forall x | x in Chosen(items, i, j) :: exists t | 0 <= t < j :: x == items[t] && Bit(i, t)
  {
    if j > 0 {
      ChosenFrom(items, i, j - 1);
    }
  }

  /** Every item whose bit is set is chosen. */
  lemma {:induction false} ChosenHas<T>(items: seq<T>, i: nat, j: nat, t: nat)
    requires t < j <= |items| && Bit(i, t)
    ensures items[t] in Chosen(items, i, j)
  {
    if t < j - 1 {
      ChosenHas(items, i, j - 1, t);
    }
  }

  predicate Distinct<T(==)>(items: seq<T>)
  {
    forall a, b | 0 <= a < b < |items| :: items[a] != items[b]
  }

  /** Two sequences without repeats and without common elements concatenate to one without repeats. */
  lemma DistinctAppend<T>(s: seq<T>, t: seq<T>)
    requires Distinct(s) && Distinct(t) && forall x | x in t :: x !in s
    ensures Distinct(s + t)
  {
    forall a, b | 0 <= a < b < |s + t|
      ensures (s + t)[a] != (s + t)[b]
    {
      if a < |s| && b >= |s| {
        assert t[b - |s|] in t;
      }
    }
  }

  /** Over distinct items, subset `i` contains `items[t]` exactly when bit `t` of `i` is set. */
  lemma ChosenMembership<T>(items: seq<T>, i: nat, t: nat)
    requires Distinct(items) && t < |items|
    ensures items[t] in Chosen(items, i, |items|) <==> Bit(i, t)
  {
    if Bit(i, t) {
      ChosenHas(items, i, |items|, t);
    } else {
      ChosenFrom(items, i, |items|);
    }
  }

  /** Two different counters below `2^n` differ in one of the bits `0 .. n - 1`. */
  lemma {:induction false} BitsDiffer(i: nat, k: nat, n: nat) returns (t: nat)
    requires i != k && i < Pow2(n) && k < Pow2(n)
    ensures t < n && Bit(i, t) != Bit(k, t)
  {
    if i % 2 != k % 2 {
      t := 0;
      assert n != 0;
    } else {
      var t' := BitsDiffer(i / 2, k / 2, n - 1);
      t := t' + 1;
    }
  }

  /** Over distinct items, the `2^n` subsets are pairwise different. */
  lemma SubsetsDistinct<T>(items: seq<T>, i: nat, k: nat)
    requires Distinct(items) && i != k && i < Pow2(|items|) && k < Pow2(|items|)
    ensures Chosen(items, i, |items|) != Chosen(items, k, |items|)
  {
    var t := BitsDiffer(i, k, |items|);
    ChosenMembership(items, i, t);
    ChosenMembership(items, k, t);
  }

  // ---------------------------------------------------------------------
  // Pairs.

  /** The pairs the inner loop yields for a fixed `i`: `(items[i], items[j])` for `j = i + 1 ..`. */
  function Row<T>(items: seq<T>, i: nat): seq<(T, T)>
    requires i < |items|
  {
    seq(|items| - i - 1, k requires 0 <= k < |items| - i - 1 => (items[i], items[i + 1 + k]))
  }

  /** The pairs yielded for the first `i` values of the outer loop. */
  function PairsBelow<T>(items: seq<T>, i: nat): seq<(T, T)>
    requires i <= |items|
  {
    if i == 0 then [] else PairsBelow(items, i - 1) + Row(items, i - 1)
  }

  /** Where the pairs of row `i` start among `n` items. */
  function RowStart(n: nat, i: nat): nat
    requires i <= n
  {
    if i == 0 then 0 else RowStart(n, i - 1) + (n - i)
  }

  /** `Pairs(items)`: the nested loops, every `i < j` in index order. */
  method Pairs<T>(items: seq<T>) returns (r: seq<(T, T)>)
    ensures r == PairsBelow(items, |items|)
  {
    r := [];
    for i := 0 to |items|
      invariant r == PairsBelow(items, i)
    {
      for j := i + 1 to |items|
        invariant r == PairsBelow(items, i) + Row(items, i)[..j - i - 1]
      {
        assert Row(items, i)[..j - i] == Row(items, i)[..j - i - 1] + [(items[i], items[j])];
        r := r + [(items[i], items[j])];
      }
      assert Row(items, i)[..|items| - i - 1] == Row(items, i);
    }
  }

  /** Row `i` starts at `RowStart(n, i)`, and there are `n(n-1)/2` pairs in all. */
  lemma {:induction false} PairsCount<T>(items: seq<T>, i: nat)
    requires i <= |items|
    ensures |PairsBelow(items, i)| == RowStart(|items|, i)
    ensures 2 * RowStart(|items|, i) == i * (2 * |items| - i - 1)
  {
    if i > 0 {
      PairsCount(items, i - 1);
    }
  }

  lemma {:induction false} PairsBelowPrefix<T>(items: seq<T>, i: nat, i': nat)
    requires i <= i' <= |items|
    ensures PairsBelow(items, i) <= PairsBelow(items, i')
    decreases i' - i
  {
    if i < i' {
      PairsBelowPrefix(items, i, i' - 1);
    }
  }

  /** The pair `(items[i], items[j])` for `i < j` sits at position `RowStart(n, i) + j - i - 1`. */
  lemma PairAt<T>(items: seq<T>, i: nat, j: nat)
    requires i < j < |items|
    ensures RowStart(|items|, i) + j - i - 1 < |PairsBelow(items, |items|)|
    ensures PairsBelow(items, |items|)[RowStart(|items|, i) + j - i - 1] == (items[i], items[j])
  {
    PairsCount(items, i);
    PairsBelowPrefix(items, i + 1, |items|);
    assert PairsBelow(items, i + 1) == PairsBelow(items, i) + Row(items, i);
  }

  /** Positions grow with `(i, j)` in lexicographic order: the pairs come out in index order. */
  lemma {:induction false} PairPositionsIncrease(n: nat, i: nat, j: nat, i': nat, j': nat)
    requires i < j < n && i' < j' < n
    requires i < i' || (i == i' && j < j')
    ensures RowStart(n, i) + j - i - 1 < RowStart(n, i') + j' - i' - 1
    decreases i' - i
  {
    if i < i' - 1 {
      PairPositionsIncrease(n, i, j, i' - 1, i');
    }
  }

  /** Every yielded pair is `(items[i], items[j])` for some `i < j`. */
  lemma {:induction false} PairsAreIndexPairs<T>(items: seq<T>, i: nat, q: nat)
    requires i <= |items| && q < |PairsBelow(items, i)|
    ensures exists a, b | 0 <= a < b < |items| :: PairsBelow(items, i)[q] == (items[a], items[b])
  {
    var prev := PairsBelow(items, i - 1);
    if q < |prev| {
      PairsAreIndexPairs(items, i - 1, q);
    } else {
      var k := q - |prev|;
      assert PairsBelow(items, i)[q] == (items[i - 1], items[i - 1 + 1 + k]);
    }
  }
}
