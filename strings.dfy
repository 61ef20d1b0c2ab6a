/**
 * The string operations the two halves of the font format agree on: the
 * packer writes lines with Python's decimal formatting and newline
 * separators, the loader cuts them apart with .NET's `String.Split(char)`.
 */
module Strings {

  /** `sep.join(lines)`. */
  function Join(lines: seq<string>, sep: char): string
    decreases |lines|
  {
    if lines == [] then []
    else if |lines| == 1 then lines[0]
    else Join(lines[..|lines| - 1], sep) + [sep] + lines[|lines| - 1]
  }

  /** Each line followed by `sep`: what appending `line + sep` in a loop builds. */
  function Terminated(lines: seq<string>, sep: char): string
    decreases |lines|
  {
    if lines == [] then [] else Terminated(lines[..|lines| - 1], sep) + lines[|lines| - 1] + [sep]
  }

  /** Dropping the last character of a terminated list of lines leaves them joined. */
  lemma {:induction false} TerminatedIsJoinThenSep(lines: seq<string>, sep: char)
    requires lines != []
    ensures Terminated(lines, sep) == Join(lines, sep) + [sep]
    decreases |lines|
  {
    if |lines| > 1 {
      TerminatedIsJoinThenSep(lines[..|lines| - 1], sep);
    }
  }

  /**
   * .NET `s.Split(sep)`: the pieces between separators, empty pieces
   * included, so there is always one more piece than separators.
   */
  function Split(s: string, sep: char): (r: seq<string>)
    ensures |r| >= 1
    ensures forall i :: 0 <= i < |r| ==> sep !in r[i]
    decreases |s|
  {
    if s == [] then [[]]
    else
      var p := Split(s[..|s| - 1], sep);
      if s[|s| - 1] == sep then p + [[]]
      else p[..|p| - 1] + [p[|p| - 1] + [s[|s| - 1]]]
  }

  /** There is one more piece than there are separators. */
  lemma {:induction false} SplitCount(s: string, sep: char)
    ensures |Split(s, sep)| == multiset(s)[sep] + 1
    decreases |s|
  {
    if s != [] {
      SplitCount(s[..|s| - 1], sep);
      assert s == s[..|s| - 1] + [s[|s| - 1]];
    }
  }

  /** Splitting undoes joining when no line holds the separator. */
  lemma {:induction false} SplitJoin(lines: seq<string>, sep: char)
    requires lines != []
    requires forall i :: 0 <= i < |lines| ==> sep !in lines[i]
    ensures Split(Join(lines, sep), sep) == lines
    decreases |lines|
  {
    var n := |lines|;
    if n == 1 {
      SplitWithout(lines[0], sep);
    } else {
      SplitJoin(lines[..n - 1], sep);
      SplitAppend(Join(lines[..n - 1], sep), lines[n - 1], sep);
      SplitWithout(lines[n - 1], sep);
    }
  }

  /** Joining undoes splitting. */
  lemma {:induction false} JoinSplit(s: string, sep: char)
    ensures Join(Split(s, sep), sep) == s
    decreases |s|
  {
    if s != [] {
      var init, c := s[..|s| - 1], s[|s| - 1];
      assert s == init + [c];
      var p := Split(init, sep);
      JoinSplit(init, sep);
      if c == sep {
        assert Split(s, sep) == p + [[]];
        assert (p + [[]])[..|p|] == p;
      } else {
        var q := p[..|p| - 1] + [p[|p| - 1] + [c]];
        assert Split(s, sep) == q;
        assert q[..|q| - 1] == p[..|p| - 1];
        if |p| > 1 {
          assert Join(p, sep) == Join(p[..|p| - 1], sep) + [sep] + p[|p| - 1];
        }
      }
    }
  }

  /** The first line of a join is followed by the separator and the join of the rest. */
  lemma {:induction false} JoinFront(lines: seq<string>, sep: char)
    requires |lines| >= 2
    ensures Join(lines, sep) == lines[0] + [sep] + Join(lines[1..], sep)
    decreases |lines|
  {
    var n := |lines|;
    if n > 2 {
      JoinFront(lines[..n - 1], sep);
      assert lines[..n - 1][1..] == lines[1..][..n - 2];
      assert lines[1..][n - 2] == lines[n - 1];
    } else {
      assert lines[1..] == [lines[1]];
      assert lines[..1] == [lines[0]];
    }
  }

  lemma {:induction false} SplitWithout(s: string, sep: char)
    requires sep !in s
    ensures Split(s, sep) == [s]
    decreases |s|
  {
    if s != [] {
      SplitWithout(s[..|s| - 1], sep);
      assert s == s[..|s| - 1] + [s[|s| - 1]];
    }
  }

  /** A separator between `a` and `b` splits them apart and nothing else changes. */
  lemma {:induction false} SplitAppend(a: string, b: string, sep: char)
    ensures Split(a + [sep] + b, sep) == Split(a, sep) + Split(b, sep)
    decreases |b|
  {
    if b == [] {
      assert a + [sep] + b == a + [sep];
      SplitSnoc(a, sep, sep);
    } else {
      var b', c := b[..|b| - 1], b[|b| - 1];
      assert b == b' + [c];
      assert a + [sep] + b == (a + [sep] + b') + [c];
      SplitAppend(a, b', sep);
      SplitSnoc(a + [sep] + b', c, sep);
      SplitSnoc(b', c, sep);
      ExtendLast(Split(a, sep), Split(b', sep), c);
    }
  }

  lemma ExtendLast(pa: seq<string>, pb: seq<string>, c: char)
    requires pb != []
    ensures var p := pa + pb;
      p[..|p| - 1] + [p[|p| - 1] + [c]] == pa + (pb[..|pb| - 1] + [pb[|pb| - 1] + [c]])
    ensures pa + pb + [[]] == pa + (pb + [[]])
  {
    var p := pa + pb;
    assert p[..|p| - 1] == pa + pb[..|pb| - 1];
  }

  /** One more character either opens a new piece or extends the last one. */
  lemma SplitSnoc(s: string, c: char, sep: char)
    ensures var p := Split(s, sep);
      Split(s + [c], sep) == if c == sep then p + [[]] else p[..|p| - 1] + [p[|p| - 1] + [c]]
  {
    assert (s + [c])[..|s|] == s;
  }

  // ---------------------------------------------------------------------------
  // Decimal numbers

  predicate IsDigit(c: char) { '0' <= c <= '9' }

  predicate AllDigits(s: string) { forall i :: 0 <= i < |s| ==> IsDigit(s[i]) }

  function DigitChar(d: nat): (c: char)
    requires d < 10
    ensures IsDigit(c) && c as int - '0' as int == d
  {
    (('0' as int) + d) as char
  }

  /** Python's `str(n)` for a non-negative integer: its decimal digits without leading zeros. */
  function Decimal(n: nat): (r: string)
    ensures r != [] && AllDigits(r)
    ensures r[0] == '0' ==> n == 0 && |r| == 1
    decreases n
  {
    if n < 10 then [DigitChar(n)] else Decimal(n / 10) + [DigitChar(n % 10)]
  }

  /** The number a string of decimal digits denotes. */
  function DigitsValue(s: string): nat
    requires AllDigits(s)
    decreases |s|
  {
    if s == [] then 0
    else DigitsValue(s[..|s| - 1]) * 10 + (s[|s| - 1] as int - '0' as int)
  }

  /** Reading back what `str` wrote gives the number. */
  lemma {:induction false} DecimalValue(n: nat)
    ensures DigitsValue(Decimal(n)) == n
    decreases n
  {
    if n >= 10 {
      DecimalValue(n / 10);
      var s := Decimal(n);
      assert s[..|s| - 1] == Decimal(n / 10);
    }
  }
}
