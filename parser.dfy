/**
 * Model of Utils.Parser.cs: `ParseList` specialised to `int` and `long`
 * and `ParseMatrix` specialised to `char`. A conversion or index failure
 * (an exception in the source) is `None`. Input lines are separated by
 * `'\n'`.
 */
module Parser {
  import opened Wrappers
  import opened Strings
  import opened Numbers

  const Int32Min: int := -0x8000_0000
  const Int32Max: int := 0x7fff_ffff
  const Int64Min: int := -0x8000_0000_0000_0000
  const Int64Max: int := 0x7fff_ffff_ffff_ffff

  /** The decimal text of an integer, with a leading `'-'` when negative. */
  function IntegerString(n: int): (s: string)
    ensures |s| >= 1
  {
    if n < 0 then "-" + DecimalString(-n) else DecimalString(n)
  }

  /** An optional sign followed by one or more decimal digits, with nothing around them. */
  function ParseSignedDigits(s: string): (r: Option<int>)
    ensures r.Some? ==> |s| >= 1 && (IsDigit(s[0]) || s[0] == '-' || s[0] == '+') && IsDigit(s[|s| - 1])
    ensures r.Some? && r.value < 0 ==> s[0] == '-'
  {
    if |s| == 0 then None
    else if s[0] == '-' || s[0] == '+' then
      if |s| >= 2 && AllDigits(s[1..]) then
        var v: int := ValueOf(s[1..]);
        assert s[|s| - 1] == s[1..][|s| - 2];
        Some(if s[0] == '-' then -v else v)
      else None
    else if AllDigits(s) then Some(ValueOf(s))
    else None
  }

  /** The white space `NumberStyles.Integer` skips around a number: `'\t'` to `'\r'`, and `' '`. */
  predicate IsWhite(c: char)
  {
    c == ' ' || '\t' <= c <= '\r'
  }

  /** The text without its leading white space. */
  function TrimStart(s: string): string
  {
    if |s| > 0 && IsWhite(s[0]) then TrimStart(s[1..]) else s
  }

  /** The text without its trailing white space. */
  function TrimEnd(s: string): string
  {
    if |s| > 0 && IsWhite(s[|s| - 1]) then TrimEnd(s[..|s| - 1]) else s
  }

  /** The text without its trailing `'\0'` characters, which the number parser also accepts last. */
  function TrimNulls(s: string): string
  {
    if |s| > 0 && s[|s| - 1] == '\0' then TrimNulls(s[..|s| - 1]) else s
  }

  /** What remains of the text once trailing nulls and the white space around it are skipped. */
  function Trimmed(s: string): string
  {
    TrimStart(TrimEnd(TrimNulls(s)))
  }

  lemma {:induction false} TrimStartSuffix(s: string)
    ensures |TrimStart(s)| <= |s| && TrimStart(s) == s[|s| - |TrimStart(s)|..]
    ensures |TrimStart(s)| > 0 ==> !IsWhite(TrimStart(s)[0])
    decreases |s|
  {
    if |s| > 0 && IsWhite(s[0]) {
      TrimStartSuffix(s[1..]);
    }
  }

  lemma {:induction false} TrimEndPrefix(s: string)
    ensures |TrimEnd(s)| <= |s| && TrimEnd(s) == s[..|TrimEnd(s)|]
    ensures |TrimEnd(s)| > 0 ==> !IsWhite(TrimEnd(s)[|TrimEnd(s)| - 1])
    decreases |s|
  {
    if |s| > 0 && IsWhite(s[|s| - 1]) {
      TrimEndPrefix(s[..|s| - 1]);
    }
  }

  lemma {:induction false} TrimNullsPrefix(s: string)
    ensures |TrimNulls(s)| <= |s| && TrimNulls(s) == s[..|TrimNulls(s)|]
    decreases |s|
  {
    if |s| > 0 && s[|s| - 1] == '\0' {
      TrimNullsPrefix(s[..|s| - 1]);
    }
  }

  /** The trimmed text is a piece of the original: its first and last characters occur there. */
  lemma TrimmedEnds(s: string)
    requires |Trimmed(s)| > 0
    ensures Trimmed(s)[0] in s && Trimmed(s)[|Trimmed(s)| - 1] in s
  {
    var a := TrimNulls(s);
    var b := TrimEnd(a);
    var c := TrimStart(b);
    TrimNullsPrefix(s);
    TrimEndPrefix(a);
    TrimStartSuffix(b);
    assert c[0] == b[|b| - |c|] == a[|b| - |c|] == s[|b| - |c|];
    assert c[|c| - 1] == b[|b| - 1] == a[|b| - 1] == s[|b| - 1];
  }

  /**
   * `Int32.Parse` or `Int64.Parse` with `NumberStyles.Integer`, before the
   * range check: leading and trailing white space, an optional sign, one or
   * more digits, and trailing `'\0'` characters.
   */
  function ParseInteger(s: string): (r: Option<int>)
    ensures r.Some? ==> exists k | 0 <= k < |s| :: IsDigit(s[k])
    ensures r.Some? && r.value < 0 ==> '-' in s
  {
    var t := Trimmed(s);
    var r := ParseSignedDigits(t);
    if r.Some? then
      TrimmedEnds(s);
      r
    else r
  }

  predicate AllWhite(s: string)
  {
    forall i | 0 <= i < |s| :: IsWhite(s[i])
  }

  lemma {:induction false} TrimStartPrefix(w: string, t: string)
    requires AllWhite(w)
    ensures TrimStart(w + t) == TrimStart(t)
    decreases |w|
  {
    if |w| > 0 {
      assert (w + t)[1..] == w[1..] + t;
      TrimStartPrefix(w[1..], t);
    } else {
      assert w + t == t;
    }
  }

  lemma {:induction false} TrimEndSuffix(t: string, w: string)
    requires AllWhite(w)
    ensures TrimEnd(t + w) == TrimEnd(t)
    decreases |w|
  {
    if |w| > 0 {
      assert (t + w)[..|t + w| - 1] == t + w[..|w| - 1];
      TrimEndSuffix(t, w[..|w| - 1]);
    } else {
      assert t + w == t;
    }
  }

  /** A text that starts and ends with neither white space nor a null is its own trimmed form. */
  lemma CoreTrimmed(t: string)
    requires |t| > 0 && !IsWhite(t[0]) && !IsWhite(t[|t| - 1]) && t[|t| - 1] != '\0'
    ensures Trimmed(t) == t
  {
  }

  /**
   * White space before and after a number does not change what it parses to:
   * `" 17\n"`, `"1\r"` and `"17"` all read as the number the core text reads as.
   */
  lemma PaddingIgnored(pre: string, t: string, post: string)
    requires AllWhite(pre) && AllWhite(post)
    requires |t| > 0 && !IsWhite(t[0]) && !IsWhite(t[|t| - 1]) && t[|t| - 1] != '\0'
    ensures ParseInteger(pre + t + post) == ParseInteger(t)
  {
    var s := pre + t + post;
    assert s[|s| - 1] != '\0' by {
      if |post| > 0 {
        assert s[|s| - 1] == post[|post| - 1];
      } else {
        assert s[|s| - 1] == t[|t| - 1];
      }
    }
    assert TrimNulls(s) == s;
    TrimEndSuffix(pre + t, post);
    assert TrimEnd(pre + t) == pre + t;
    TrimStartPrefix(pre, t);
    CoreTrimmed(t);
  }

  /** `"1\r"`, the last number of a line ending in CRLF, reads as 1. */
  lemma CarriageReturnIgnored()
    ensures ParseInteger("1\r") == Some(1)
  {
    PaddingIgnored("", "1", "\r");
    assert "" + "1" + "\r" == "1\r";
    assert ValueOf("1") == 1;
  }

  lemma ParseIntegerRoundTrip(n: int)
    ensures ParseInteger(IntegerString(n)) == Some(n)
  {
    var s := IntegerString(n);
    if n < 0 {
      NegativeRoundTrip(n);
      var d := DecimalString(-n);
      assert s[|s| - 1] == d[|d| - 1];
    } else {
      NonNegativeRoundTrip(n);
    }
    var d := DecimalString(if n < 0 then -n else n);
    assert IsDigit(d[0]) && IsDigit(d[|d| - 1]);
    CoreTrimmed(s);
  }

  lemma NegativeRoundTrip(n: int)
    requires n < 0
    ensures ParseSignedDigits(IntegerString(n)) == Some(n)
  {
    var d := DecimalString(-n);
    var s := "-" + d;
    assert s[0] == '-' && s[1..] == d;
    DecimalRoundTrip(-n);
    var v: int := ValueOf(d);
    assert ParseSignedDigits(s) == Some(-v);
  }

  lemma NonNegativeRoundTrip(n: int)
    requires n >= 0
    ensures ParseSignedDigits(IntegerString(n)) == Some(n)
  {
    var d := DecimalString(n);
    assert IsDigit(d[0]);
    DecimalRoundTrip(n);
  }

  /** Only a `'-'` and digits occur in the text of an integer. */
  lemma IntegerStringChars(n: int, c: char)
    requires !IsDigit(c) && c != '-'
    ensures c !in IntegerString(n)
  {
    var s := IntegerString(n);
    if n < 0 {
      var d := DecimalString(-n);
      assert forall k | 1 <= k < |s| :: s[k] == d[k - 1];
    }
    assert forall k | 0 <= k < |s| :: s[k] != c;
  }

  /** `Convert.ChangeType` to a type whose range is `[lo, hi]`. */
  function ParseBounded(s: string, lo: int, hi: int): (r: Option<int>)
    ensures r.Some? ==> lo <= r.value <= hi && ParseInteger(s) == Some(r.value)
    ensures ParseInteger(s).Some? && lo <= ParseInteger(s).value <= hi ==> r.Some?
  {
    match ParseInteger(s)
    case Some(v) => if lo <= v <= hi then Some(v) else None
    case None => None
  }

  /** Converts every piece, in order; `None` as soon as one does not convert. */
  function ConvertAll(parts: seq<string>, lo: int, hi: int): (r: Option<seq<int>>)
    ensures r.Some? <==> forall i | 0 <= i < |parts| :: ParseBounded(parts[i], lo, hi).Some?
    ensures r.Some? ==> |r.value| == |parts|
    ensures r.Some? ==> forall i | 0 <= i < |parts| :: ParseBounded(parts[i], lo, hi) == Some(r.value[i])
  {
    if |parts| == 0 then Some([])
    else
      var head := ParseBounded(parts[0], lo, hi);
      var tail := ConvertAll(parts[1..], lo, hi);
      assert forall i | 0 <= i < |parts| - 1 :: parts[1..][i] == parts[i + 1];
      if head.Some? && tail.Some? then Some([head.value] + tail.value) else None
  }

  /** `ParseList<T>(input, separator)` for a numeric type with range `[lo, hi]`. */
  function ParseList(input: string, separator: char, lo: int, hi: int): (r: Option<seq<int>>)
  {
    ConvertAll(NonEmpty(Split(input, separator)), lo, hi)
  }

  function ParseIntList(input: string, separator: char): Option<seq<int>>
  {
    ParseList(input, separator, Int32Min, Int32Max)
  }

  function ParseLongList(input: string, separator: char): Option<seq<int>>
  {
    ParseList(input, separator, Int64Min, Int64Max)
  }

  function IntegerStrings(xs: seq<int>): (ss: seq<string>)
    ensures |ss| == |xs|
    ensures forall i | 0 <= i < |xs| :: ss[i] == IntegerString(xs[i])
  {
    seq(|xs|, i requires 0 <= i < |xs| => IntegerString(xs[i]))
  }

  /**
   * Rendering a list of in-range numbers with a separator that is neither a
   * digit nor a minus sign and parsing it back returns the list; repeated
   * separators (empty pieces) are skipped.
   */
  lemma ParseListRoundTrip(xs: seq<int>, separator: char, lo: int, hi: int)
    requires |xs| >= 1
    requires !IsDigit(separator) && separator != '-'
    requires forall i | 0 <= i < |xs| :: lo <= xs[i] <= hi
    ensures ParseList(Join(IntegerStrings(xs), separator), separator, lo, hi) == Some(xs)
  {
    SplitIntegers(xs, separator);
    ConvertIntegers(xs, lo, hi);
  }

  /** Splitting the joined texts of a list of numbers gives back the texts. */
  lemma SplitIntegers(xs: seq<int>, separator: char)
    requires |xs| >= 1
    requires !IsDigit(separator) && separator != '-'
    ensures NonEmpty(Split(Join(IntegerStrings(xs), separator), separator)) == IntegerStrings(xs)
  {
    var ss := IntegerStrings(xs);
    forall i | 0 <= i < |ss| ensures separator !in ss[i] {
      IntegerStringChars(xs[i], separator);
    }
    SplitJoin(ss, separator);
    NonEmptyKeepsNonEmpty(ss);
  }

  /** Converting the texts of in-range numbers gives back the numbers. */
  lemma ConvertIntegers(xs: seq<int>, lo: int, hi: int)
    requires forall i | 0 <= i < |xs| :: lo <= xs[i] <= hi
    ensures ConvertAll(IntegerStrings(xs), lo, hi) == Some(xs)
  {
    var ss := IntegerStrings(xs);
    forall i | 0 <= i < |ss| ensures ParseBounded(ss[i], lo, hi) == Some(xs[i]) {
      ParseIntegerRoundTrip(xs[i]);
    }
    var r := ConvertAll(ss, lo, hi);
    assert r.Some?;
    assert r.value == xs;
  }

  lemma {:induction false} NonEmptyKeepsNonEmpty(ss: seq<string>)
    requires forall i | 0 <= i < |ss| :: |ss[i]| >= 1
    ensures NonEmpty(ss) == ss
  {
    if |ss| > 0 {
      NonEmptyKeepsNonEmpty(ss[1..]);
    }
  }

  /** No row is shorter than the first. */
  predicate NoShortRow(rows: seq<string>)
    requires |rows| >= 1
  {
    forall y | 0 <= y < |rows| :: |rows[y]| >= |rows[0]|
  }

  /**
   * `ParseMatrix<char>`: the lines of `input` as a `rows × |first row|`
   * matrix. A longer row is truncated; a shorter row fails on an index.
   */
  method ParseMatrix(input: string) returns (m: Option<array2<char>>)
    ensures m.Some? <==> NoShortRow(Split(input, '\n'))
    ensures m.Some? ==> fresh(m.value)
    ensures var rows := Split(input, '\n');
      m.Some? ==> m.value.Length0 == |rows| && m.value.Length1 == |rows[0]|
    ensures var rows := Split(input, '\n');
      m.Some? ==> forall y, x | 0 <= y < |rows| && 0 <= x < |rows[0]| :: m.value[y, x] == rows[y][x]
  {
    var rows := Split(input, '\n');
    var width := |rows[0]|;
    var result := new char[|rows|, width];
    for y := 0 to |rows|
      invariant forall y' | 0 <= y' < y :: |rows[y']| >= width
      invariant forall y', x | 0 <= y' < y && 0 <= x < width :: result[y', x] == rows[y'][x]
    {
      for x := 0 to width
        invariant x <= |rows[y]|
        invariant forall y', x' | 0 <= y' < y && 0 <= x' < width :: result[y', x'] == rows[y'][x']
        invariant forall x' | 0 <= x' < x :: result[y, x'] == rows[y][x']
      {
        if x >= |rows[y]| {
          assert !NoShortRow(rows);
          return None;
        }
        result[y, x] := rows[y][x];
      }
    }
    return Some(result);
  }

  /** A single-line input gives a one-row matrix. */
  lemma SingleLine(input: string)
    requires '\n' !in input
    ensures Split(input, '\n') == [input]
  {
    SplitNoSeparator(input, '\n');
  }
}
