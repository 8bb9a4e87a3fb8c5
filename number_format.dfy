/**
 * Integer formatting as `Intl.NumberFormat('pt-BR')` renders whole numbers:
 * the plain decimal digits, grouped in threes from the right with '.' as the
 * thousands separator ("8.180", "100.000").
 */
module NumberFormat {

  predicate IsDigit(c: char) {
    '0' <= c <= '9'
  }

  predicate AllDigits(s: string) {
    forall i :: 0 <= i < |s| ==> IsDigit(s[i])
  }

  function DigitChar(d: nat): (c: char)
    requires d < 10
    ensures IsDigit(c)
  {
    (('0' as int) + d) as char
  }

  function DigitValue(c: char): (d: nat)
    requires IsDigit(c)
    ensures d < 10 && DigitChar(d) == c
  {
    (c as int) - ('0' as int)
  }

  /** The decimal numeral of n: at least one digit, and no leading zero unless n is 0. */
  function DecimalDigits(n: nat): (s: string)
    ensures 1 <= |s| && AllDigits(s)
    ensures s[0] == '0' <==> n == 0
    ensures n == 0 ==> s == "0"
    decreases n
  {
    if n < 10 then [DigitChar(n)] else DecimalDigits(n / 10) + [DigitChar(n % 10)]
  }

  /** The value a string of decimal digits denotes (the empty string denotes 0). */
  function ParseDecimal(s: string): nat
    requires AllDigits(s)
    decreases |s|
  {
    if s == [] then 0 else ParseDecimal(s[..|s| - 1]) * 10 + DigitValue(s[|s| - 1])
  }

  /** Reading the numeral of n back gives n. */
  lemma {:induction false} ParseDecimalDigits(n: nat)
    ensures ParseDecimal(DecimalDigits(n)) == n
    decreases n
  {
    var s := DecimalDigits(n);
    if n >= 10 {
      ParseDecimalDigits(n / 10);
      assert s[..|s| - 1] == DecimalDigits(n / 10);
    }
  }

  /** Two naturals with the same numeral are equal, so the numeral identifies the number. */
  lemma DecimalDigitsInjective(m: nat, n: nat)
    requires DecimalDigits(m) == DecimalDigits(n)
    ensures m == n
  {
    ParseDecimalDigits(m);
    ParseDecimalDigits(n);
  }

  /** Splits a digit string into groups of three from the right, joined by '.'. */
  function GroupDigits(s: string): (g: string)
    ensures |s| <= 3 ==> g == s
    decreases |s|
  {
    if |s| <= 3 then s else GroupDigits(s[..|s| - 3]) + "." + s[|s| - 3..]
  }

  /** The string with every '.' removed. */
  function StripDots(g: string): string {
    if g == [] then [] else (if g[0] == '.' then [] else [g[0]]) + StripDots(g[1..])
  }

  lemma {:induction false} StripDotsAppend(a: string, b: string)
    ensures StripDots(a + b) == StripDots(a) + StripDots(b)
    decreases |a|
  {
    if a == [] {
      assert a + b == b;
    } else {
      StripDotsAppend(a[1..], b);
      assert (a + b)[0] == a[0] && (a + b)[1..] == a[1..] + b;
    }
  }

  lemma {:induction false} StripDotsNoDots(s: string)
    requires '.' !in s
    ensures StripDots(s) == s
    decreases |s|
  {
    if s != [] {
      StripDotsNoDots(s[1..]);
    }
  }

  /**
   * A grouped numeral: a leading group of one to three characters, then any
   * number of groups that are a '.' followed by exactly three characters,
   * none of which is a '.'.
   */
  predicate WellGrouped(g: string)
    decreases |g|
  {
    if '.' !in g then 1 <= |g| <= 3
    else |g| >= 5 && g[|g| - 4] == '.' && '.' !in g[|g| - 3..] && WellGrouped(g[..|g| - 4])
  }

  /** Removing the separators from a group appended with its '.' gives the group's characters. */
  lemma StripDotsSeparatedGroup(g: string, group: string)
    requires '.' !in group
    ensures StripDots(g + "." + group) == StripDots(g) + group
  {
    assert StripDots(g + ".") == StripDots(g) by {
      StripDotsAppend(g, ".");
      assert StripDots(".") == [] by {
        assert "."[1..] == [];
      }
    }
    assert StripDots(g + "." + group) == StripDots(g + ".") + group by {
      StripDotsAppend(g + ".", group);
      StripDotsNoDots(group);
    }
  }

  /** Removing the separators from the grouping of s gives s back. */
  lemma {:induction false} StripGroupDigits(s: string)
    requires '.' !in s
    ensures StripDots(GroupDigits(s)) == s
    decreases |s|
  {
    if |s| <= 3 {
      StripDotsNoDots(s);
    } else {
      var head, tail := s[..|s| - 3], s[|s| - 3..];
      StripGroupDigits(head);
      StripDotsSeparatedGroup(GroupDigits(head), tail);
      assert s == head + tail;
    }
  }

  /** The grouping of a non-empty digit string is well grouped. */
  lemma {:induction false} GroupDigitsWellGrouped(s: string)
    requires 1 <= |s| && '.' !in s
    ensures WellGrouped(GroupDigits(s))
    decreases |s|
  {
    if |s| > 3 {
      var head := s[..|s| - 3];
      GroupDigitsWellGrouped(head);
      var g := GroupDigits(s);
      assert g == GroupDigits(head) + "." + s[|s| - 3..];
      assert g[..|g| - 4] == GroupDigits(head);
      assert g[|g| - 3..] == s[|s| - 3..];
    }
  }

  /** How `Intl.NumberFormat('pt-BR')` writes a natural number. */
  function Grouped(n: nat): (g: string)
    ensures WellGrouped(g)
    ensures StripDots(g) == DecimalDigits(n)
    ensures ParseDecimal(StripDots(g)) == n
  {
    var digits := DecimalDigits(n);
    StripGroupDigits(digits);
    GroupDigitsWellGrouped(digits);
    ParseDecimalDigits(n);
    GroupDigits(digits)
  }

  /** Numbers below one thousand are written without a separator. */
  lemma GroupedBelowThousand(n: nat)
    requires n < 1000
    ensures Grouped(n) == DecimalDigits(n)
  {
    if n >= 100 {
      assert |DecimalDigits(n / 10)| == |DecimalDigits(n / 100)| + 1;
    }
  }

}
