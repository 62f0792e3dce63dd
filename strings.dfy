/**
 * `String.Split` on a single separator character (empty pieces kept) and the
 * matching join, with the two round trips between them.
 */
module Strings {

  function Split(s: string, sep: char): (parts: seq<string>)
    ensures |parts| >= 1
    ensures forall i | 0 <= i < |parts| :: sep !in parts[i]
  {
    if |s| == 0 then [""]
    else
      var rest := Split(s[1..], sep);
      if s[0] == sep then [""] + rest else [[s[0]] + rest[0]] + rest[1..]
  }

  function Join(parts: seq<string>, sep: char): string
  {
    if |parts| == 0 then ""
    else if |parts| == 1 then parts[0]
    else parts[0] + [sep] + Join(parts[1..], sep)
  }

  lemma {:induction false} JoinSplit(s: string, sep: char)
    ensures Join(Split(s, sep), sep) == s
  {
    if |s| > 0 {
      JoinSplit(s[1..], sep);
      var rest := Split(s[1..], sep);
      if s[0] != sep {
        var parts := Split(s, sep);
        assert parts[1..] == rest[1..];
        if |rest| == 1 {
          assert Join(parts, sep) == [s[0]] + rest[0];
        } else {
          assert Join(rest, sep) == rest[0] + [sep] + Join(rest[1..], sep);
        }
      }
    }
  }

  lemma {:induction false} SplitPrefix(a: string, t: string, sep: char)
    requires sep !in a
    ensures Split(a + [sep] + t, sep) == [a] + Split(t, sep)
  {
    if |a| > 0 {
      SplitPrefix(a[1..], t, sep);
      assert (a + [sep] + t)[1..] == a[1..] + [sep] + t;
      assert [a[0]] + a[1..] == a;
    } else {
      assert a + [sep] + t == [sep] + t;
      assert ([sep] + t)[1..] == t;
    }
  }

  lemma {:induction false} SplitJoin(parts: seq<string>, sep: char)
    requires |parts| >= 1
    requires forall i | 0 <= i < |parts| :: sep !in parts[i]
    ensures Split(Join(parts, sep), sep) == parts
    decreases |parts|
  {
    if |parts| == 1 {
      SplitNoSeparator(parts[0], sep);
    } else {
      SplitJoin(parts[1..], sep);
      SplitPrefix(parts[0], Join(parts[1..], sep), sep);
    }
  }

  lemma {:induction false} SplitNoSeparator(a: string, sep: char)
    requires sep !in a
    ensures Split(a, sep) == [a]
  {
    if |a| > 0 {
      SplitNoSeparator(a[1..], sep);
      assert [a[0]] + a[1..] == a;
    }
  }

  lemma {:induction false} JoinSnoc(parts: seq<string>, q: string, sep: char)
    requires |parts| >= 1
    ensures Join(parts + [q], sep) == Join(parts, sep) + [sep] + q
    decreases |parts|
  {
    if |parts| > 1 {
      JoinSnoc(parts[1..], q, sep);
      assert (parts + [q])[1..] == parts[1..] + [q];
    }
  }

  /** The pieces that `StringSplitOptions.RemoveEmptyEntries` keeps. */
  function NonEmpty(parts: seq<string>): (r: seq<string>)
    ensures forall i | 0 <= i < |r| :: |r[i]| > 0
    ensures forall p :: p in r <==> p in parts && |p| > 0
  {
    if |parts| == 0 then []
    else (if |parts[0]| > 0 then [parts[0]] else []) + NonEmpty(parts[1..])
  }
}
