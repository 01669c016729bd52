/** Decimal integers as the program reads them with `int(...)` and writes
    them with `str(...)`. */
module Integers {
  import opened Wrappers

  predicate IsDigit(c: char)
  {
    '0' <= c <= '9'
  }

  predicate AllDigits(s: string)
  {
    forall i :: 0 <= i < |s| ==> IsDigit(s[i])
  }

  function DigitValue(c: char): nat
    requires IsDigit(c)
  {
    c as int - '0' as int
  }

  /** The value of a non-empty string of decimal digits, most significant
      first; `None` when it is empty or holds any other character. */
  function ParseDigits(s: string): Option<nat>
    decreases |s|
  {
    if s == [] || !IsDigit(s[|s| - 1]) then None
    else if |s| == 1 then Some(DigitValue(s[0]))
    else
      match ParseDigits(s[..|s| - 1])
      case None => None
      case Some(v) => Some(v * 10 + DigitValue(s[|s| - 1]))
  }

  function DigitChar(d: nat): (c: char)
    requires d < 10
    ensures IsDigit(c) && c as int - '0' as int == d
  {
    ('0' as int + d) as char
  }

  /** Decimal digits of `n` without leading zeros (see `NatToStringLeadingDigit`). */
  function NatToString(n: nat): (s: string)
    ensures s != [] && AllDigits(s)
  {
    if n < 10 then [DigitChar(n)] else NatToString(n / 10) + [DigitChar(n % 10)]
  }

  /** `str(n)` has no leading zero: zero is written "0", and every other
      number starts with a non-zero digit. */
  lemma {:induction false} NatToStringLeadingDigit(n: nat)
    ensures n == 0 ==> NatToString(n) == "0"
    ensures n > 0 ==> NatToString(n)[0] != '0'
    ensures |NatToString(n)| > 1 ==> NatToString(n)[0] != '0'
  {
    if n >= 10 {
      NatToStringLeadingDigit(n / 10);
      assert NatToString(n)[0] == NatToString(n / 10)[0];
    }
  }

  /** `str(i)`: a minus sign for negative values, then the digits. */
  function IntToString(i: int): string
  {
    if i < 0 then ['-'] + NatToString(-i) else NatToString(i)
  }

  /** The ASCII whitespace `int(...)` skips around a number: space, tab, line
      feed, vertical tab, form feed and carriage return. Unlike `str.strip()`
      it does not skip the separators with codes 28 to 31. */
  predicate IntSpace(c: char)
  {
    c == ' ' || 9 <= c as int <= 13
  }

  /** `s` with its leading `int` whitespace skipped. */
  function SkipLeading(s: string): string
    decreases |s|
  {
    if s != [] && IntSpace(s[0]) then SkipLeading(s[1..]) else s
  }

  /** `s` with its trailing `int` whitespace skipped. */
  function SkipTrailing(s: string): string
    decreases |s|
  {
    if s != [] && IntSpace(s[|s| - 1]) then SkipTrailing(s[..|s| - 1]) else s
  }

  /** The text `int(...)` reads as a number: `s` without the whitespace
      around it. */
  function NumberText(s: string): string
  {
    SkipTrailing(SkipLeading(s))
  }

  /** `int(s)`: the `IntSpace` whitespace around it is ignored, then an optional sign and
      one or more decimal digits; anything else is rejected (`ValueError`). */
  function ParseInt(s: string): Option<int>
  {
    var t := NumberText(s);
    if t != [] && (t[0] == '-' || t[0] == '+') then
      match ParseDigits(t[1..])
      case None => None
      case Some(m) => Some(if t[0] == '-' then -(m as int) else m)
    else
      match ParseDigits(t)
      case None => None
      case Some(m) => Some(m)
  }

  /** The digits `str` writes read back as the number they were written from. */
  lemma {:induction false} DigitsOfNat(n: nat)
    ensures ParseDigits(NatToString(n)) == Some(n)
  {
    if n >= 10 {
      DigitsOfNat(n / 10);
      var s := NatToString(n);
      assert s[..|s| - 1] == NatToString(n / 10);
    }
  }

  /** A string with no `int` whitespace at either end is read as it stands. */
  lemma NumberTextUnchanged(s: string)
    requires s == [] || (!IntSpace(s[0]) && !IntSpace(s[|s| - 1]))
    ensures NumberText(s) == s
  {
  }

  /** Skipping leading whitespace commutes with appending a whitespace
      character, unless nothing but whitespace was left. */
  lemma {:induction false} SkipLeadingAppend(s: string, c: char)
    requires IntSpace(c)
    ensures SkipLeading(s + [c]) == if SkipLeading(s) == [] then [] else SkipLeading(s) + [c]
    decreases |s|
  {
    if s == [] {
      assert SkipLeading([c]) == SkipLeading([c][1..]);
    } else if IntSpace(s[0]) {
      assert (s + [c])[1..] == s[1..] + [c];
      SkipLeadingAppend(s[1..], c);
    }
  }

  /** `int` ignores a whitespace character added at either end. */
  lemma PaddedNumberText(s: string, c: char)
    requires IntSpace(c)
    ensures NumberText([c] + s) == NumberText(s)
    ensures NumberText(s + [c]) == NumberText(s)
  {
    assert ([c] + s)[1..] == s;
    SkipLeadingAppend(s, c);
    var l := SkipLeading(s);
    if l != [] {
      assert (l + [c])[..|l|] == l;
    }
  }

  /** `int(...)` gives the same answer when a whitespace character is added
      at either end. */
  lemma ParseIntPadded(s: string, c: char)
    requires IntSpace(c)
    ensures ParseInt([c] + s) == ParseInt(s)
    ensures ParseInt(s + [c]) == ParseInt(s)
  {
    PaddedNumberText(s, c);
  }

  /** Skipping trailing whitespace keeps a first character that is not
      whitespace. */
  lemma {:induction false} SkipTrailingKeepsFirst(s: string)
    requires s != [] && !IntSpace(s[0])
    ensures SkipTrailing(s) != [] && SkipTrailing(s)[0] == s[0]
    decreases |s|
  {
    if IntSpace(s[|s| - 1]) {
      SkipTrailingKeepsFirst(s[..|s| - 1]);
    }
  }

  /** A string with a character other than a decimal digit has no value. */
  lemma {:induction false} NonDigitRefused(s: string, i: nat)
    requires i < |s| && !IsDigit(s[i])
    ensures ParseDigits(s) == None
    decreases |s|
  {
    if i < |s| - 1 {
      assert s[..|s| - 1][i] == s[i];
      NonDigitRefused(s[..|s| - 1], i);
    }
  }

  /** A separator (codes 28 to 31) in front of a number makes `int` refuse
      it, although `str.strip()` would remove it. */
  lemma SeparatorRefused(c: char, s: string)
    requires 28 <= c as int <= 31
    ensures ParseInt([c] + s) == None
  {
    var u := [c] + s;
    assert SkipLeading(u) == u;
    SkipTrailingKeepsFirst(u);
    NonDigitRefused(NumberText(u), 0);
  }

  /** A string that starts and ends with a digit is read without trimming
      and without a sign. */
  lemma ParseIntOfDigits(s: string)
    requires s != [] && IsDigit(s[0]) && IsDigit(s[|s| - 1])
    ensures ParseInt(s) == match ParseDigits(s) case None => None case Some(m) => Some(m as int)
  {
    NumberTextUnchanged(s);
  }

  /** A minus sign followed by a string that ends with a digit is read as the
      negated value of that string. */
  lemma ParseIntOfNegativeDigits(t: string)
    requires |t| >= 2 && t[0] == '-' && IsDigit(t[|t| - 1])
    ensures ParseInt(t) ==
      match ParseDigits(t[1..]) case None => None case Some(m) => Some(-(m as int))
  {
    NumberTextUnchanged(t);
  }

  lemma ReadBackNat(n: nat)
    ensures ParseInt(NatToString(n)) == Some(n)
  {
    var digits := NatToString(n);
    DigitsOfNat(n);
    assert IsDigit(digits[0]);
    ParseIntOfDigits(digits);
  }

  lemma ReadBackNegative(n: nat)
    requires n > 0
    ensures ParseInt(['-'] + NatToString(n)) == Some(-(n as int))
  {
    var digits := NatToString(n);
    var negative := ['-'] + digits;
    DigitsOfNat(n);
    assert negative[1..] == digits;
    assert IsDigit(negative[|negative| - 1]) by {
      assert negative[|negative| - 1] == digits[|digits| - 1];
    }
    ParseIntOfNegativeDigits(negative);
    assert ParseDigits(negative[1..]) == Some(n);
  }

  /** Reading back what `str` wrote gives the same integer. */
  lemma ParseIntOfIntToString(i: int)
    ensures ParseInt(IntToString(i)) == Some(i)
  {
    if i < 0 {
      var n: nat := -i;
      ReadBackNegative(n);
      assert -(n as int) == i;
    } else {
      ReadBackNat(i);
    }
  }
}
