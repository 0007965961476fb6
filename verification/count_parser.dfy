/** The count parser of lib/mastodon.go: drop every thousands separator ','
    from a counter text, then read what is left as a decimal number. */
module CountParser {
  import opened Wrappers
  import opened Decimal

  /** Every ',' removed, every other character kept, in order
      (strings.Replace with an empty replacement and no limit). */
  function StripCommas(s: string): (r: string)
    ensures ',' !in r
    ensures |r| <= |s|
  {
    if s == [] then [] else (if s[0] == ',' then [] else [s[0]]) + StripCommas(s[1..])
  }

  /** Every character other than ',' is kept as often as it occurs. */
  lemma {:induction false} StripCommasCounts(s: string)
    ensures multiset(StripCommas(s)) == multiset(s)[',' := 0]
  {
    if s != [] {
      assert s == [s[0]] + s[1..];
      StripCommasCounts(s[1..]);
    }
  }

  /** Stripping distributes over concatenation, so the characters that are kept
      stay in their original order. */
  lemma {:induction false} StripCommasAppend(a: string, b: string)
    ensures StripCommas(a + b) == StripCommas(a) + StripCommas(b)
  {
    if a != [] {
      assert (a + b)[1..] == a[1..] + b;
      StripCommasAppend(a[1..], b);
    } else {
      assert a + b == b;
    }
  }

  /** A text without separators passes through unchanged. */
  lemma {:induction false} StripCommasNoComma(s: string)
    requires ',' !in s
    ensures StripCommas(s) == s
  {
    if s != [] {
      assert s[0] in s;
      assert ',' !in s[1..] by {
        forall k | 0 <= k < |s[1..]| ensures s[1..][k] != ',' { assert s[1..][k] == s[k + 1]; }
      }
      StripCommasNoComma(s[1..]);
    }
  }

  lemma StripCommasIdempotent(s: string)
    ensures StripCommas(StripCommas(s)) == StripCommas(s)
  {
    StripCommasNoComma(StripCommas(s));
  }

  /** parseCount: the comma-free text goes to the number parser; when it does
      not parse, the error names exactly that comma-free text. */
  function ParseCount(s: string): (r: Result<real>)
    ensures r.Failure? ==> r.error == MalformedNumber(StripCommas(s)) && ',' !in r.error.num
  {
    var count := StripCommas(s);
    match ParseNum(count)
    case Some(v) => Success(v)
    case None => Failure(MalformedNumber(count))
  }

  /** Separators never change the outcome: the parse of a text equals the parse
      of that text with its separators removed. */
  lemma ParseCountIgnoresCommas(s: string)
    ensures ParseCount(s) == ParseCount(StripCommas(s))
  {
    StripCommasIdempotent(s);
  }

  /** With the plain-decimal number parser, a text that holds a character other
      than a digit, a sign, a point or a separator (a stray letter, a space) is a
      malformed number. strconv.ParseFloat itself also accepts some letters, as in
      "1e3", "Inf" or "NaN". */
  lemma ParseCountRejectsStray(s: string, k: nat)
    requires k < |s| && s[k] != ',' && !IsNumeral(s[k])
    ensures ParseCount(s).Failure?
  {
    var t := StripCommas(s);
    StripCommasCounts(s);
    assert s[k] in multiset(s);
    assert s[k] in multiset(t);
    if ParseNum(t).Some? {
      ParseNumAlphabet(t);
      assert false;
    }
  }

  /** A stripped text that starts with a point still starts with it. */
  lemma StripCommasKeepsPoint(x: string)
    requires x != [] && x[0] == '.'
    ensures StripCommas(x) != [] && StripCommas(x)[0] == '.'
  {
  }

  /** A text with two decimal points ("1.2.3") is a malformed number, wherever
      the separators are. */
  lemma ParseCountRejectsTwoPoints(s: string, i: nat, j: nat)
    requires i < j < |s| && s[i] == '.' && s[j] == '.'
    ensures ParseCount(s).Failure?
  {
    var a, b, c := s[..i], s[i..j], s[j..];
    assert s == a + b + c;
    StripCommasAppend(a + b, c);
    StripCommasAppend(a, b);
    StripCommasKeepsPoint(b);
    StripCommasKeepsPoint(c);
    var sa, sb, sc := StripCommas(a), StripCommas(b), StripCommas(c);
    var t := sa + sb + sc;
    assert StripCommas(s) == t;
    assert t[|sa|] == sb[0] == '.';
    assert t[|sa| + |sb|] == sc[0] == '.';
    ParseNumTwoPoints(t, |sa|, |sa| + |sb|);
  }

  lemma ParseCountExampleTwoPoints()
    ensures ParseCount("1.2.3") == Failure(MalformedNumber("1.2.3"))
  {
    StripCommasNoComma("1.2.3");
    ParseCountRejectsTwoPoints("1.2.3", 1, 3);
  }

  /** The thousands-separated rendering of n that the page shows: "12,345". */
  function Thousands(n: nat): (s: string)
    ensures s != []
  {
    if n < 1000 then DecimalDigits(n)
    else Thousands(n / 1000) + [','] + Pad3(n % 1000)
  }

  /** Three digits with leading zeros. */
  function Pad3(n: nat): (s: string)
    requires n < 1000
    ensures |s| == 3 && AllDigits(s)
  {
    [DigitChar(n / 100), DigitChar(n / 10 % 10), DigitChar(n % 10)]
  }

  lemma Pad3Value(n: nat)
    requires n < 1000
    ensures DigitsValue(Pad3(n)) == n
  {
    var s := Pad3(n);
    assert s[..2][..1] == [s[0]];
    assert [s[0]][..0] == [];
    assert DigitsValue([s[0]]) == n / 100;
    assert DigitsValue(s[..2]) == n / 100 * 10 + n / 10 % 10;
    assert DigitsValue(s) == (n / 100 * 10 + n / 10 % 10) * 10 + n % 10;
    assert n / 10 == n / 100 * 10 + n / 10 % 10;
  }

  /** Removing one separator between a text and a comma-free group. */
  lemma {:induction false} StripJoined(h: string, p: string)
    requires ',' !in p
    ensures StripCommas(h + [','] + p) == StripCommas(h) + p
  {
    var c: string := [','];
    assert StripCommas(c) == [] by {
      assert c[1..] == [];
    }
    StripCommasAppend(h, c);
    assert StripCommas(h + c) == StripCommas(h);
    StripCommasAppend(h + c, p);
    StripCommasNoComma(p);
  }

  /** One step of Thousands: the separators of n are those of n / 1000, and
      one more in front of the last three digits. */
  lemma StripThousandsStep(n: nat)
    requires n >= 1000
    ensures StripCommas(Thousands(n)) == StripCommas(Thousands(n / 1000)) + Pad3(n % 1000)
  {
    var h, p := Thousands(n / 1000), Pad3(n % 1000);
    assert Thousands(n) == h + [','] + p;
    StripJoined(h, p);
  }

  /** Appending three digits multiplies the value by 1000 and adds theirs. */
  lemma AppendGroup(high: string, m: nat)
    requires AllDigits(high) && m < 1000
    ensures AllDigits(high + Pad3(m))
    ensures DigitsValue(high + Pad3(m)) == DigitsValue(high) * 1000 + m
  {
    DigitsValueAppend(high, Pad3(m));
    Pad3Value(m);
    assert Pow10(3) == 1000;
  }

  lemma {:induction false} StripThousands(n: nat)
    ensures StripCommas(Thousands(n)) != []
    ensures AllDigits(StripCommas(Thousands(n)))
    ensures DigitsValue(StripCommas(Thousands(n))) == n
  {
    if n < 1000 {
      StripCommasNoComma(DecimalDigits(n));
      DigitsValueOfDecimalDigits(n);
    } else {
      var q, m := n / 1000, n % 1000;
      StripThousands(q);
      StripThousandsStep(n);
      AppendGroup(StripCommas(Thousands(q)), m);
    }
  }

  /** Round trip: a counter rendered with thousands separators parses back to
      the counter. */
  lemma ParseCountThousands(n: nat)
    ensures ParseCount(Thousands(n)) == Success(n as real)
  {
    StripThousands(n);
    ParseNumOfDigits(StripCommas(Thousands(n)));
  }

  lemma ParseCountExampleMillions()
    ensures ParseCount("1,234,567") == Success(1234567.0)
  {
    assert Thousands(1) == "1";
    assert Pad3(234) == "234";
    assert Thousands(1234) == "1,234";
    assert Pad3(567) == "567";
    assert Thousands(1234567) == "1,234,567";
    ParseCountThousands(1234567);
  }

  lemma ParseCountExampleMalformed()
    ensures ParseCount("").Failure?
    ensures ParseCount("abc") == Failure(MalformedNumber("abc"))
  {
    assert StripCommas("") == "";
    assert IndexOf("", '.') == 0;
    StripCommasNoComma("abc");
    ParseCountRejectsStray("abc", 0);
  }

  /** The counters of a sample page. */
  lemma ParseCountExampleThousands()
    ensures ParseCount("12,345") == Success(12345.0)
  {
    assert Thousands(12) == "12";
    assert Pad3(345) == "345";
    assert Thousands(12345) == "12,345";
    ParseCountThousands(12345);
  }

  lemma ParseCountExampleHundreds()
    ensures ParseCount("678") == Success(678.0)
  {
    assert DecimalDigits(6) == "6";
    assert DecimalDigits(67) == "67";
    assert Thousands(678) == "678";
    ParseCountThousands(678);
  }

  lemma ParseCountExampleUnits()
    ensures ParseCount("9") == Success(9.0)
  {
    assert Thousands(9) == "9";
    ParseCountThousands(9);
  }
}
