/**
 Decimal integers as Python reads and writes them: `int(text)` on text that has
 already been stripped, and `str(n)` / the `{i}` of an f-string.
 */
module Integers {
  import opened Wrappers

  predicate IsDigit(c: char) {
    '0' <= c <= '9'
  }

  predicate AllDigits(s: string) {
    forall i :: 0 <= i < |s| ==> IsDigit(s[i])
  }

  /** The value of a run of ASCII digits, most significant digit first. */
  function DigitsValue(s: string): nat
    requires AllDigits(s)
  {
    if |s| == 0 then 0 else DigitsValue(s[..|s| - 1]) * 10 + (s[|s| - 1] as int - '0' as int)
  }

  function DigitChar(d: nat): (c: char)
    requires d < 10
    ensures IsDigit(c) && c as int - '0' as int == d
  {
    (d + '0' as int) as char
  }

  /** `str(n)` for a natural number: decimal digits with no leading zero. */
  function ShowNat(n: nat): (r: string)
    ensures |r| > 0 && AllDigits(r)
    ensures r[0] != '0' || |r| == 1
    ensures DigitsValue(r) == n
  {
    if n < 10 then [DigitChar(n)]
    else
      var front := ShowNat(n / 10);
      var r := front + [DigitChar(n % 10)];
      assert r[..|r| - 1] == front;
      r
  }

  /** `str(i)`: a minus sign in front of a negative number. */
  function ShowInt(i: int): string {
    if i < 0 then "-" + ShowNat(-i) else ShowNat(i)
  }

  /**
   `int(text)` on text without surrounding whitespace, for the forms the model
   can produce: an optional `+` or `-` followed by one or more ASCII digits.
   Leading zeros are accepted, as Python accepts them; anything else is None,
   Python's ValueError.
   */
  function ParseInt(s: string): (r: Option<int>)
    ensures r.Some? ==> |s| > 0 && (r.value < 0 ==> s[0] == '-')
    ensures r.Some? ==> IsDigit(s[|s| - 1])
  {
    if |s| > 0 && s[0] == '-' then
      match ParseDigits(s[1..])
      case Some(v) => Some(-(v as int))
      case None => None
    else if |s| > 0 && s[0] == '+' then ParseDigits(s[1..])
    else ParseDigits(s)
  }

  /** The text starts with a minus sign. */
  predicate Negative(s: string) {
    |s| > 0 && s[0] == '-'
  }

  /** The text after an optional leading `+` or `-`. */
  function Unsigned(s: string): string {
    if |s| > 0 && (s[0] == '-' || s[0] == '+') then s[1..] else s
  }

  /** A non-empty run of ASCII digits and its value. */
  function ParseDigits(d: string): Option<nat> {
    if |d| > 0 && AllDigits(d) then Some(DigitsValue(d)) else None
  }

  /**
   What `int()` accepts and what it reads: exactly an optional sign followed by
   one or more digits, read as the digits' value, negated after a `-`. Any
   other text, `"1a2"` or `""` or a lone sign, is rejected.
   */
  lemma ParseIntMeaning(s: string)
    ensures ParseInt(s).Some? <==> |Unsigned(s)| > 0 && AllDigits(Unsigned(s))
    ensures ParseInt(s).Some? ==>
              ParseInt(s).value == if Negative(s) then -(DigitsValue(Unsigned(s)) as int) else DigitsValue(Unsigned(s)) as int
  {
  }

  /** A text with a character that is neither a digit nor a leading sign is rejected. */
  lemma StrayCharacterRejected(s: string, k: nat)
    requires k < |s| && !IsDigit(s[k])
    requires k > 0 || (s[0] != '-' && s[0] != '+')
    ensures ParseInt(s) == None
  {
    ParseIntMeaning(s);
    var u := Unsigned(s);
    var j := if |u| < |s| then k - 1 else k;
    assert u[j] == s[k];
  }

  /** Every integer Python prints is read back as itself. */
  lemma ParseShowInt(i: int)
    ensures ParseInt(ShowInt(i)) == Some(i)
  {
    if i < 0 {
      var s := ShowInt(i);
      assert s[1..] == ShowNat(-i);
    }
  }

  /** Only zeros. */
  predicate AllZeros(z: string) {
    forall i :: 0 <= i < |z| ==> z[i] == '0'
  }

  /** Leading zeros add nothing to a run of digits' value. */
  lemma {:induction false} LeadingZerosValue(z: string, d: string)
    requires AllZeros(z) && AllDigits(d)
    ensures AllDigits(z + d) && DigitsValue(z + d) == DigitsValue(d)
    decreases |z| + |d|
  {
    assert AllDigits(z + d) by {
      forall i | 0 <= i < |z + d|
        ensures IsDigit((z + d)[i])
      {
        if i < |z| { assert (z + d)[i] == z[i]; } else { assert (z + d)[i] == d[i - |z|]; }
      }
    }
    if |d| == 0 {
      assert z + d == z;
      if |z| > 0 {
        var front := z[..|z| - 1];
        assert front + [] == front;
        LeadingZerosValue(front, []);
      }
    } else {
      var front := d[..|d| - 1];
      assert (z + d)[..|z + d| - 1] == z + front;
      LeadingZerosValue(z, front);
    }
  }

  /** `int()` reads past leading zeros: `"007"` is 7 and `"00"` is 0. */
  lemma ZerosIgnored(z: string, d: string)
    requires AllZeros(z) && |d| > 0 && AllDigits(d)
    ensures ParseInt(z + d) == Some(DigitsValue(d) as int)
  {
    LeadingZerosValue(z, d);
    ParseUnsigned(z + d);
  }

  /** A `+` sign changes nothing: `"+5"` and `"+007"` are 5. */
  lemma PlusIgnored(z: string, d: string)
    requires AllZeros(z) && |d| > 0 && AllDigits(d)
    ensures ParseInt("+" + z + d) == Some(DigitsValue(d) as int)
  {
    LeadingZerosValue(z, d);
    assert "+" + z + d == "+" + (z + d);
    ParsePlus(z + d);
  }

  /** Spellings `str` never prints that `int()` still reads. */
  lemma NonCanonicalSpellings()
    ensures ParseInt("+5") == Some(5)
    ensures ParseInt("007") == Some(7)
    ensures ParseInt("-0") == Some(0)
    ensures ParseInt("-007") == Some(-7)
  {
    assert "00" + "7" == "007";
    ZerosIgnored("00", "7");
    assert "+" + "" + "5" == "+5";
    PlusIgnored("", "5");
    assert "-" + "0" == "-0";
    MinusNegates("0");
    assert "-" + "007" == "-007";
    MinusNegates("007");
  }

  /** A `-` before a run of digits reads as the negation of what the digits read as. */
  lemma MinusNegates(t: string)
    requires |t| > 0 && AllDigits(t)
    ensures ParseInt(t).Some? && ParseInt("-" + t) == Some(-ParseInt(t).value)
  {
    ParseUnsigned(t);
    ParseNegative(t);
  }

  /** A bare run of digits reads as its value. */
  lemma ParseUnsigned(d: string)
    requires |d| > 0 && AllDigits(d)
    ensures ParseInt(d) == Some(DigitsValue(d) as int)
  {
    assert IsDigit(d[0]);
  }

  /** A `+` before a run of digits reads as the value of the digits. */
  lemma ParsePlus(d: string)
    requires |d| > 0 && AllDigits(d)
    ensures ParseInt("+" + d) == Some(DigitsValue(d) as int)
  {
    assert ("+" + d)[1..] == d;
  }

  /** The canonical spelling of an integer: what `str` prints. */
  ghost predicate Canonical(s: string) {
    var negative := |s| > 0 && s[0] == '-';
    var digits := if negative then s[1..] else s;
    && |digits| > 0
    && AllDigits(digits)
    && (digits[0] != '0' || (|digits| == 1 && !negative))
  }

  lemma {:induction false} DigitsValueLeading(s: string)
    requires |s| > 0 && AllDigits(s)
    ensures DigitsValue(s) >= s[0] as int - '0' as int
    decreases |s|
  {
    if |s| > 1 {
      DigitsValueLeading(s[..|s| - 1]);
    }
  }

  lemma {:induction false} ShowDigitsValue(d: string)
    requires |d| > 0 && AllDigits(d)
    requires d[0] != '0' || |d| == 1
    ensures ShowNat(DigitsValue(d)) == d
    decreases |d|
  {
    var v := DigitsValue(d);
    var front := d[..|d| - 1];
    if |d| == 1 {
      assert |front| == 0;
      assert DigitsValue(front) == 0;
      assert v == d[0] as int - '0' as int;
      assert [DigitChar(v)] == d;
    } else {
      DigitsValueLeading(front);
      ShowDigitsValue(front);
      assert v / 10 == DigitsValue(front);
      assert DigitChar(v % 10) == d[|d| - 1];
      assert d == front + [d[|d| - 1]];
    }
  }

  /** Reading a canonical spelling and printing the value gives the same text back. */
  lemma ShowParseInt(s: string)
    requires Canonical(s)
    ensures ParseInt(s).Some? && ShowInt(ParseInt(s).value) == s
  {
    if |s| > 0 && s[0] == '-' {
      var digits := s[1..];
      assert s == "-" + digits;
      ParseNegative(digits);
      ShowNegative(digits);
    } else {
      ShowDigitsValue(s);
      assert ParseInt(s) == Some(DigitsValue(s));
    }
  }

  /** A minus sign before a run of digits reads as the negated value. */
  lemma ParseNegative(digits: string)
    requires |digits| > 0 && AllDigits(digits)
    ensures ParseInt("-" + digits) == Some(-(DigitsValue(digits) as int))
  {
    assert ("-" + digits)[1..] == digits;
  }

  /** A negative number prints as a minus sign before its canonical digits. */
  lemma ShowNegative(digits: string)
    requires |digits| > 0 && AllDigits(digits) && digits[0] != '0'
    ensures ShowInt(-(DigitsValue(digits) as int)) == "-" + digits
  {
    DigitsValueLeading(digits);
    ShowDigitsValue(digits);
  }
}
