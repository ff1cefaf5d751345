/**
 * Decimal numerals: `str(n)` for a non-negative integer, the value of a run
 * of ASCII digits (as `int()` reads the digits a `{([0-9]+)}` match
 * captured), and `int(s)` applied to an environment variable's text.
 */
module Decimal {
  import opened Wrappers
  import opened Text

  predicate IsDigit(c: char)
  {
    '0' <= c <= '9'
  }

  predicate AllDigits(s: string)
  {
    forall i :: 0 <= i < |s| ==> IsDigit(s[i])
  }

  function DigitValue(c: char): (d: nat)
    requires IsDigit(c)
    ensures d < 10
  {
    c as int - '0' as int
  }

  function DigitChar(d: nat): (c: char)
    requires d < 10
    ensures IsDigit(c) && DigitValue(c) == d
  {
    ('0' as int + d) as char
  }

  /** The number a string of decimal digits denotes; leading zeros do not matter. */
  function DigitsValue(s: string): nat
    requires AllDigits(s)
    decreases |s|
  {
    if s == [] then 0 else DigitsValue(s[..|s| - 1]) * 10 + DigitValue(s[|s| - 1])
  }

  /** `str(n)`: the shortest decimal numeral of `n`, so without leading zeros. */
  function NatToString(n: nat): (s: string)
    ensures |s| > 0 && AllDigits(s)
    ensures s[0] == '0' ==> n == 0 && s == "0"
  {
    if n < 10 then [DigitChar(n)]
    else
      var t := NatToString(n / 10);
      assert (t + [DigitChar(n % 10)])[0] == t[0];
      t + [DigitChar(n % 10)]
  }

  /** A numeral without redundant leading zeros. */
  predicate Canonical(s: string)
  {
    |s| > 0 && AllDigits(s) && (s[0] == '0' ==> |s| == 1)
  }

  /** Reading back what `str` wrote gives the number again. */
  lemma {:induction false} NatToStringValue(n: nat)
    ensures DigitsValue(NatToString(n)) == n
    decreases n
  {
    if n >= 10 {
      NatToStringValue(n / 10);
      var s := NatToString(n);
      assert s[..|s| - 1] == NatToString(n / 10);
    }
  }

  /** A numeral starting with a nonzero digit denotes at least 10^(length-1); here, at least 1. */
  lemma {:induction false} LeadingNonzeroPositive(s: string)
    requires |s| > 0 && AllDigits(s) && s[0] != '0'
    ensures DigitsValue(s) >= 1
    decreases |s|
  {
    if |s| > 1 {
      var t := s[..|s| - 1];
      assert t[0] == s[0];
      LeadingNonzeroPositive(t);
    }
  }

  /** Writing out the value of a canonical numeral gives the numeral back: `str(int(s)) == s`. */
  lemma {:induction false} ValueNatToString(s: string)
    requires Canonical(s)
    ensures NatToString(DigitsValue(s)) == s
    decreases |s|
  {
    if |s| > 1 {
      var t := s[..|s| - 1];
      assert t[0] == s[0];
      LeadingNonzeroPositive(t);
      ValueNatToString(t);
      var n := DigitsValue(s);
      assert n / 10 == DigitsValue(t) && n % 10 == DigitValue(s[|s| - 1]);
      assert s == t + [s[|s| - 1]];
    }
  }

  /** A numeral with a redundant leading zero is never what `str` writes. */
  lemma LeadingZeroNotWritten(s: string)
    requires |s| > 1 && AllDigits(s) && s[0] == '0'
    ensures NatToString(DigitsValue(s)) != s
  {
  }

  // ---------------------------------------------------------------------------
  // int(s)

  /**
   * The whitespace `int()` skips around a numeral. Characters below 127 are
   * kept as they are and only the C-locale spaces `' '` and `'\t'..'\r'` are
   * skipped; of the other characters, those `str.isspace` accepts are first
   * turned into `' '` (DEL, which it does not accept, is never skipped). So the separators U+001C..U+001F, although
   * `str.isspace` accepts them, are not skipped.
   */
  predicate IntSpace(c: char)
  {
    if c as int < 128 then c == ' ' || '\t' <= c <= '\r' else IsSpace(c)
  }

  predicate AllIntSpace(s: string)
  {
    forall i :: 0 <= i < |s| ==> IntSpace(s[i])
  }

  function LStrip(s: string): (t: string)
    ensures t == [] || !IntSpace(t[0])
    ensures |t| <= |s| && t == s[|s| - |t|..]
  {
    if s != [] && IntSpace(s[0]) then LStrip(s[1..]) else s
  }

  function RStrip(s: string): (t: string)
    ensures t == [] || !IntSpace(t[|t| - 1])
    ensures |t| <= |s| && t == s[..|t|]
  {
    if s != [] && IntSpace(s[|s| - 1]) then RStrip(s[..|s| - 1]) else s
  }

  /** The numeral `int()` reads: surrounding `IntSpace` characters removed. */
  function Strip(s: string): string
  {
    RStrip(LStrip(s))
  }

  /**
   * `int(s)` for a base-10 string: surrounding `IntSpace` characters are
   * ignored, then an optional sign and one or more ASCII digits; anything
   * else is a ValueError, here None.
   */
  function ParseInt(s: string): Option<int>
  {
    ParseNumeral(Strip(s))
  }

  /** An optional sign and one or more ASCII digits, the whole of `t`. */
  function ParseNumeral(t: string): Option<int>
  {
    if |t| > 1 && (t[0] == '+' || t[0] == '-') && AllDigits(t[1..]) then
      Some(if t[0] == '-' then 0 - DigitsValue(t[1..]) else DigitsValue(t[1..]))
    else if |t| > 0 && AllDigits(t) then
      Some(DigitsValue(t))
    else
      None
  }

  /** `str(n)` for any integer. */
  function IntToString(n: int): (s: string)
    ensures |s| > 0 && !IsSpace(s[0]) && !IsSpace(s[|s| - 1])
    ensures !IntSpace(s[0]) && !IntSpace(s[|s| - 1])
  {
    if n < 0 then "-" + NatToString(-n) else NatToString(n)
  }

  lemma {:induction false} LStripSkips(p: string, t: string)
    requires AllIntSpace(p)
    requires t == [] || !IntSpace(t[0])
    ensures LStrip(p + t) == t
    decreases |p|
  {
    if p == [] {
      assert p + t == t;
    } else {
      assert (p + t)[1..] == p[1..] + t;
      LStripSkips(p[1..], t);
    }
  }

  lemma {:induction false} RStripSkips(t: string, q: string)
    requires AllIntSpace(q)
    requires t == [] || !IntSpace(t[|t| - 1])
    ensures RStrip(t + q) == t
    decreases |q|
  {
    if q == [] {
      assert t + q == t;
    } else {
      assert (t + q)[..|t + q| - 1] == t + q[..|q| - 1];
      RStripSkips(t, q[..|q| - 1]);
    }
  }

  lemma StripSurrounded(p: string, t: string, q: string)
    requires AllIntSpace(p) && AllIntSpace(q)
    requires |t| > 0 && !IntSpace(t[0]) && !IntSpace(t[|t| - 1])
    ensures Strip(p + t + q) == t
  {
    assert p + t + q == p + (t + q);
    assert (t + q)[0] == t[0];
    LStripSkips(p, t + q);
    RStripSkips(t, q);
  }

  /** `int(str(n)) == n` for every integer, whatever whitespace `int()` skips surrounds the numeral. */
  lemma ParseIntToString(n: int, p: string, q: string)
    requires AllIntSpace(p) && AllIntSpace(q)
    ensures ParseInt(p + IntToString(n) + q) == Some(n)
  {
    StripSurrounded(p, IntToString(n), q);
    if n < 0 {
      ParseNegative(n);
    } else {
      ParseNonNegative(n);
    }
  }

  lemma ParseNegative(n: int)
    requires n < 0
    ensures ParseNumeral(IntToString(n)) == Some(n)
  {
    var d := NatToString(-n);
    var s := "-" + d;
    assert IntToString(n) == s;
    assert s[1..] == d;
    NatToStringValue(-n);
  }

  lemma ParseNonNegative(n: int)
    requires n >= 0
    ensures ParseNumeral(IntToString(n)) == Some(n)
  {
    var s := NatToString(n);
    assert IntToString(n) == s;
    assert s[0] != '+' && s[0] != '-';
    NatToStringValue(n);
  }

  /**
   * An empty or all-whitespace value is not a number: whatever `int()` leaves
   * of it is whitespace again, and no whitespace character is a sign or a digit.
   */
  lemma ParseIntBlank(s: string)
    requires AllSpace(s)
    ensures ParseInt(s) == None
  {
    var l := LStrip(s);
    var t := RStrip(l);
    assert forall i :: 0 <= i < |t| ==> t[i] == s[|s| - |l| + i];
    if |t| > 0 {
      assert IsSpace(t[0]);
    }
  }

  /**
   * The information separators U+001C..U+001F count as whitespace for
   * `str.isspace` and `str.split()`, but `int()` does not skip them: a
   * subtask variable holding one of them before a numeral is not a number.
   */
  lemma ParseIntKeepsSeparator(c: char, n: int)
    requires '\U{1c}' <= c <= '\U{1f}'
    ensures IsSpace(c) && !IntSpace(c)
    ensures ParseInt([c] + IntToString(n)) == None
  {
    var d := IntToString(n);
    var s := [c] + d;
    assert LStrip(s) == s;
    assert s[|s| - 1] == d[|d| - 1];
    assert RStrip(s) == s;
  }
}
