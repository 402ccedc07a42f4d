/** Decimal numerals: their value, their formatting, and Python 2's `int()`
    applied to a byte string. */
module Numerals {
  import opened Wrappers
  import opened Strings

  predicate IsDigit(c: char)
  {
    '0' <= c <= '9'
  }

  predicate AllDigits(s: string)
  {
    forall i :: 0 <= i < |s| ==> IsDigit(s[i])
  }

  /** The value of a string of decimal digits, most significant first. */
  function ValueOf(s: string): nat
    requires AllDigits(s)
    decreases |s|
  {
    if |s| == 0 then 0
    else
      assert IsDigit(s[|s| - 1]);
      ValueOf(s[..|s| - 1]) * 10 + (s[|s| - 1] as int - '0' as int)
  }

  function DigitChar(d: nat): (c: char)
    requires d < 10
    ensures IsDigit(c) && c as int - '0' as int == d
  {
    ('0' as int + d) as char
  }

  /** The shortest decimal numeral for `n`, as Python's `str(n)`. */
  function Decimal(n: nat): (s: string)
    ensures |s| > 0 && AllDigits(s)
  {
    if n < 10 then [DigitChar(n)]
    else Decimal(n / 10) + [DigitChar(n % 10)]
  }

  /** `s` padded on the left with zeros to at least `width` characters. */
  function ZeroPad(s: string, width: nat): (t: string)
    ensures |t| >= width && |t| >= |s|
    decreases width - |s|
  {
    if |s| >= width then s else ZeroPad(['0'] + s, width)
  }

  lemma {:induction false} DecimalValue(n: nat)
    ensures ValueOf(Decimal(n)) == n
  {
    var s := Decimal(n);
    if n >= 10 {
      DecimalValue(n / 10);
      assert s[..|s| - 1] == Decimal(n / 10);
    }
  }

  /** Leading zeros do not change the value of a numeral. */
  lemma {:induction false} LeadingZeroValue(s: string)
    requires AllDigits(s)
    ensures AllDigits(['0'] + s) && ValueOf(['0'] + s) == ValueOf(s)
    decreases |s|
  {
    var z := ['0'] + s;
    if |s| > 0 {
      LeadingZeroValue(s[..|s| - 1]);
      assert z[..|z| - 1] == ['0'] + s[..|s| - 1];
    }
  }

  lemma {:induction false} ZeroPadValue(s: string, width: nat)
    requires AllDigits(s)
    ensures AllDigits(ZeroPad(s, width)) && ValueOf(ZeroPad(s, width)) == ValueOf(s)
    decreases width - |s|
  {
    if |s| < width {
      LeadingZeroValue(s);
      ZeroPadValue(['0'] + s, width);
    }
  }

  /** Python 2's `int(s)` in base 10: surrounding whitespace is ignored, an
      optional sign is allowed, and what remains must be one or more decimal
      digits; anything else raises `ValueError`, here `None`. */
  function ParseInt(s: string): (r: Option<int>)
    ensures r.Some? ==> forall k :: 0 <= k < |s| ==> IsNumeralChar(s[k])
    ensures r.Some? ==> |Strip(s)| > 0 && (r.value < 0 ==> Strip(s)[0] == '-')
  {
    var t := Strip(s);
    if |t| > 0 && (t[0] == '-' || t[0] == '+') then
      var digits := t[1..];
      if |digits| > 0 && AllDigits(digits) then
        NumeralCharacters(s, t);
        var magnitude: int := ValueOf(digits);
        Some(if t[0] == '-' then -magnitude else magnitude)
      else None
    else if |t| > 0 && AllDigits(t) then
      NumeralCharacters(s, t);
      Some(ValueOf(t))
    else None
  }

  /** A character `int()` can accept somewhere in its argument. */
  predicate IsNumeralChar(c: char)
  {
    IsDigit(c) || IsSpace(c) || c == '-' || c == '+'
  }

  /** When the stripped text is a signed or unsigned run of digits, the text
      itself holds only digits, whitespace and signs. */
  lemma NumeralCharacters(s: string, t: string)
    requires t == Strip(s) && |t| > 0
    requires AllDigits(t) || ((t[0] == '-' || t[0] == '+') && AllDigits(t[1..]))
    ensures forall k :: 0 <= k < |s| ==> IsNumeralChar(s[k])
  {
    StripKeepsText(s);
    forall k | 0 <= k < |s| && !IsSpace(s[k])
      ensures IsNumeralChar(s[k])
    {
      var m :| 0 <= m < |t| && t[m] == s[k];
      if m > 0 && !AllDigits(t) {
        assert t[1..][m - 1] == t[m];
      }
    }
  }

  /** A non-empty run of decimal digits parses to its value. */
  lemma ParseIntOfDigits(s: string)
    requires |s| > 0 && AllDigits(s)
    ensures ParseInt(s) == Some(ValueOf(s))
  {
    assert NoSpace(s);
    StripKeepsText(s);
  }

  /** A character that is neither a digit, whitespace nor a sign makes `int()`
      raise; a fractional part such as `"01.999"` is one case. */
  lemma ParseIntRejectsForeign(s: string, k: nat)
    requires k < |s|
    requires !IsDigit(s[k]) && !IsSpace(s[k]) && s[k] != '-' && s[k] != '+'
    ensures ParseInt(s) == None
  {
    var t := Strip(s);
    StripKeepsText(s);
    assert s[k] in t;
    var m :| 0 <= m < |t| && t[m] == s[k];
    if |t| > 0 && (t[0] == '-' || t[0] == '+') {
      assert m > 0 && t[1..][m - 1] == s[k];
    }
  }

  /** The integer a sign and a run of digits denote. */
  function Signed(sign: string, digits: string): int
    requires AllDigits(digits)
  {
    if sign == "-" then -(ValueOf(digits) as int) else ValueOf(digits)
  }

  /** `pre + sign + digits + post` is a numeral as `int()` reads one:
      whitespace, an optional sign, one or more digits, whitespace. */
  predicate IsNumeral(pre: string, sign: string, digits: string, post: string)
  {
    AllSpace(pre) && AllSpace(post) && (sign == "" || sign == "+" || sign == "-") &&
    |digits| > 0 && AllDigits(digits)
  }

  /** Every numeral parses to the value of its sign and digits. */
  lemma ParseIntOfNumeral(pre: string, sign: string, digits: string, post: string)
    requires IsNumeral(pre, sign, digits, post)
    ensures ParseInt(pre + sign + digits + post) == Some(Signed(sign, digits))
  {
    var core := sign + digits;
    assert pre + sign + digits + post == pre + core + post;
    assert core[|core| - 1] == digits[|digits| - 1];
    StripPadded(pre, core, post);
    if sign == "" {
      assert core == digits;
    } else {
      assert core[0] == sign[0];
      assert core[1..] == digits;
    }
  }

  /** Only numerals parse: text `int()` accepts splits into whitespace, an
      optional sign, digits and whitespace, and its value is theirs. */
  lemma ParseIntOnlyNumerals(s: string)
    requires ParseInt(s).Some?
    ensures exists pre, sign, digits, post ::
      IsNumeral(pre, sign, digits, post) &&
      s == pre + sign + digits + post && ParseInt(s) == Some(Signed(sign, digits))
  {
    var pre, sign, digits, post := NumeralParts(s);
    ParseIntOfNumeral(pre, sign, digits, post);
  }

  /** The four parts of text that `ParseInt` accepts. */
  lemma NumeralParts(s: string) returns (pre: string, sign: string, digits: string, post: string)
    requires ParseInt(s).Some?
    ensures IsNumeral(pre, sign, digits, post) && s == pre + sign + digits + post
  {
    StripMiddle(s);
    var i, j :| 0 <= i <= j <= |s| && Strip(s) == s[i..j] && AllSpace(s[..i]) && AllSpace(s[j..]);
    pre, post := s[..i], s[j..];
    SliceThree(s, i, j);
    sign, digits := SignAndDigits(s);
    ConcatAssoc(pre, sign, digits);
  }

  /** The stripped text `ParseInt` accepts is an optional sign and digits. */
  lemma SignAndDigits(s: string) returns (sign: string, digits: string)
    requires ParseInt(s).Some?
    ensures Strip(s) == sign + digits
    ensures (sign == "" || sign == "+" || sign == "-") && |digits| > 0 && AllDigits(digits)
  {
    var t := Strip(s);
    if t[0] == '-' || t[0] == '+' {
      sign, digits := t[..1], t[1..];
    } else {
      sign, digits := "", t;
    }
    assert t == sign + digits;
  }

  /** Inside the stripped text, every character after the first must be a
      digit: inner whitespace and a second sign are rejected. */
  lemma ParseIntRejectsInner(s: string, k: nat)
    requires 0 < k < |Strip(s)| && !IsDigit(Strip(s)[k])
    ensures ParseInt(s) == None
  {
    var t := Strip(s);
    assert t[1..][k - 1] == t[k];
  }

  lemma ParseIntSignedExample()
    ensures ParseInt(" -5 ") == Some(-5)
  {
    assert Signed("-", "5") == -5 by {
      assert ValueOf("5") == 5;
    }
    assert IsNumeral(" ", "-", "5", " ");
    assert " " + "-" + "5" + " " == " -5 ";
    ParseIntOfNumeral(" ", "-", "5", " ");
  }

  /** `int("1 2")`, `int("1-2")` and `int("+-1")` all raise. */
  lemma ParseIntRejectExamples()
    ensures ParseInt("1 2") == None && ParseInt("1-2") == None && ParseInt("+-1") == None
  {
    RejectUnpadded("1 2");
    RejectUnpadded("1-2");
    RejectUnpadded("+-1");
  }

  lemma RejectUnpadded(s: string)
    requires |s| > 1 && !IsSpace(s[0]) && !IsSpace(s[|s| - 1]) && !IsDigit(s[1])
    ensures ParseInt(s) == None
  {
    StripPadded("", s, "");
    assert "" + s + "" == s;
    ParseIntRejectsInner(s, 1);
  }

  /** Text of whitespace alone, the empty string included, is rejected. */
  lemma ParseIntRejectsBlank(s: string)
    requires forall k :: 0 <= k < |s| ==> IsSpace(s[k])
    ensures ParseInt(s) == None
  {
    StripKeepsText(s);
  }
}
