/** A decimal number parser standing in for Go's strconv.ParseFloat on the
    plain decimal forms: an optional sign, digits, and at most one '.', with at
    least one digit in all ("12", "12.", ".5", "-3.25"). The value is an exact
    real instead of a float64. */
module Decimal {
  import opened Wrappers

  predicate IsDigit(c: char) { '0' <= c <= '9' }

  predicate AllDigits(s: string) { forall i :: 0 <= i < |s| ==> IsDigit(s[i]) }

  /** The characters a number accepted by ParseNum can be made of. */
  predicate IsNumeral(c: char) { IsDigit(c) || c == '.' || c == '+' || c == '-' }

  function DigitValue(c: char): (d: nat)
    requires IsDigit(c)
    ensures d < 10
  {
    c as int - '0' as int
  }

  function DigitChar(d: nat): (c: char)
    requires d < 10
    ensures IsDigit(c) && DigitValue(c) == d
  {
    (d + '0' as int) as char
  }

  function Pow10(k: nat): (p: nat)
    ensures p >= 1
  {
    if k == 0 then 1 else 10 * Pow10(k - 1)
  }

  /** The value of a string of decimal digits, most significant first. */
  function DigitsValue(s: string): nat
    requires AllDigits(s)
  {
    if s == [] then 0 else DigitsValue(s[..|s| - 1]) * 10 + DigitValue(s[|s| - 1])
  }

  /** The position of the first c in s, or |s| when there is none. */
  function IndexOf(s: string, c: char): (i: nat)
    ensures i <= |s|
    ensures i < |s| ==> s[i] == c
    ensures forall j :: 0 <= j < i ==> s[j] != c
  {
    if s == [] then 0 else if s[0] == c then 0 else 1 + IndexOf(s[1..], c)
  }

  /** The value of the digits after a decimal point: 0.d1d2... is (d1 + 0.d2...) / 10. */
  function FractionValue(s: string): (v: real)
    requires AllDigits(s)
    ensures 0.0 <= v < 1.0
  {
    if s == [] then 0.0 else (DigitValue(s[0]) as real + FractionValue(s[1..])) / 10.0
  }

  /** An unsigned decimal: digits, then optionally '.' and more digits, with at
      least one digit on either side of the point. */
  function ParseUnsigned(s: string): Option<real>
  {
    var i := IndexOf(s, '.');
    if i == |s| then
      if s != [] && AllDigits(s) then Some(DigitsValue(s) as real) else None
    else
      var whole, frac := s[..i], s[i + 1..];
      if AllDigits(whole) && AllDigits(frac) && |whole| + |frac| > 0 then
        Some(DigitsValue(whole) as real + FractionValue(frac))
      else
        None
  }

  /** An optionally signed decimal. */
  function ParseNum(s: string): (r: Option<real>)
    ensures s == [] ==> r.None?
  {
    if |s| > 0 && s[0] == '-' then
      match ParseUnsigned(s[1..])
      case Some(v) => Some(-v)
      case None => None
    else if |s| > 0 && s[0] == '+' then
      ParseUnsigned(s[1..])
    else
      ParseUnsigned(s)
  }

  /** The shortest decimal rendering of n. */
  function DecimalDigits(n: nat): (s: string)
    ensures s != [] && AllDigits(s)
  {
    if n < 10 then [DigitChar(n)] else DecimalDigits(n / 10) + [DigitChar(n % 10)]
  }

  lemma {:induction false} DigitsValueAppend(a: string, b: string)
    requires AllDigits(a) && AllDigits(b)
    ensures AllDigits(a + b)
    ensures DigitsValue(a + b) == DigitsValue(a) * Pow10(|b|) + DigitsValue(b)
    decreases |b|
  {
    if b == [] {
      assert a + b == a;
    } else {
      var b' := b[..|b| - 1];
      var d := DigitValue(b[|b| - 1]);
      assert (a + b)[..|a + b| - 1] == a + b';
      assert (a + b)[|a + b| - 1] == b[|b| - 1];
      DigitsValueAppend(a, b');
      var x, p, y := DigitsValue(a), Pow10(|b'|), DigitsValue(b');
      assert DigitsValue(a + b) == (x * p + y) * 10 + d;
      assert DigitsValue(b) == y * 10 + d;
      assert Pow10(|b|) == 10 * p;
      Distribute(x, p, y, d);
    }
  }

  lemma Distribute(x: int, p: int, y: int, d: int)
    ensures (x * p + y) * 10 + d == x * (10 * p) + (y * 10 + d)
  {
  }

  /** DecimalDigits is a right inverse of DigitsValue. */
  lemma {:induction false} DigitsValueOfDecimalDigits(n: nat)
    ensures DigitsValue(DecimalDigits(n)) == n
  {
    if n >= 10 {
      var s := DecimalDigits(n);
      assert s[..|s| - 1] == DecimalDigits(n / 10);
      DigitsValueOfDecimalDigits(n / 10);
    }
  }

  /** A non-empty string of digits parses to its digit value. */
  lemma ParseNumOfDigits(s: string)
    requires s != [] && AllDigits(s)
    ensures ParseNum(s) == Some(DigitsValue(s) as real)
  {
    assert s[0] != '-' && s[0] != '+' by {
      assert IsDigit(s[0]);
    }
    assert ParseNum(s) == ParseUnsigned(s);
    assert IndexOf(s, '.') == |s| by {
      forall j | 0 <= j < |s| ensures s[j] != '.' {
        assert IsDigit(s[j]);
      }
    }
  }

  /** Round trip: rendering a natural number and parsing it back gives the number. */
  lemma ParseNumDecimalDigits(n: nat)
    ensures ParseNum(DecimalDigits(n)) == Some(n as real)
  {
    ParseNumOfDigits(DecimalDigits(n));
    DigitsValueOfDecimalDigits(n);
  }

  lemma ParseUnsignedAlphabet(s: string)
    requires ParseUnsigned(s).Some?
    ensures s != [] && forall k :: 0 <= k < |s| ==> IsDigit(s[k]) || s[k] == '.'
  {
    var i := IndexOf(s, '.');
    forall k | 0 <= k < |s|
      ensures IsDigit(s[k]) || s[k] == '.'
    {
      if i == |s| {
      } else if k < i {
        assert s[k] == s[..i][k];
      } else if k > i {
        assert s[k] == s[i + 1..][k - i - 1];
      }
    }
  }

  /** Whatever ParseNum accepts is non-empty and made of digits, signs and points only;
      in particular a thousands separator ',' is never accepted. (This is a property
      of this plain-decimal grammar: strconv.ParseFloat also accepts exponents,
      "Inf", "NaN" and underscores.) */
  lemma ParseNumAlphabet(s: string)
    requires ParseNum(s).Some?
    ensures s != [] && forall k :: 0 <= k < |s| ==> IsNumeral(s[k])
  {
    if |s| > 0 && (s[0] == '-' || s[0] == '+') {
      ParseUnsignedAlphabet(s[1..]);
      forall k | 1 <= k < |s|
        ensures IsNumeral(s[k])
      {
        assert s[k] == s[1..][k - 1];
      }
    } else {
      ParseUnsignedAlphabet(s);
    }
  }

  /** A second decimal point makes an unsigned decimal malformed: the first
      point ends the whole part, and the second falls in the fraction. */
  lemma ParseUnsignedTwoPoints(u: string, i: nat, j: nat)
    requires i < j < |u| && u[i] == '.' && u[j] == '.'
    ensures ParseUnsigned(u).None?
  {
    var k := IndexOf(u, '.');
    assert k <= i;
    var frac := u[k + 1..];
    assert frac[j - k - 1] == '.';
    assert !AllDigits(frac);
  }

  /** A decimal with two points ("1.2.3") is rejected, signed or not. */
  lemma ParseNumTwoPoints(t: string, i: nat, j: nat)
    requires i < j < |t| && t[i] == '.' && t[j] == '.'
    ensures ParseNum(t).None?
  {
    if t[0] == '-' || t[0] == '+' {
      assert 0 < i;
      ParseUnsignedTwoPoints(t[1..], i - 1, j - 1);
    } else {
      ParseUnsignedTwoPoints(t, i, j);
    }
  }
}
