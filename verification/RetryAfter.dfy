/** `Retry-After` as a number of seconds (delay-seconds, section 10.2.3 of RFC 9110),
    compared digit by digit so that no long text is ever converted. */
module RetryAfter {
  import opened Wrappers
  import opened Text
  import ObjectGraph

  /** Drop zeros that another digit follows. */
  function Trim(s: string): (r: string)
    requires s != "" && AllDigits(s)
    ensures r != "" && AllDigits(r) && (|r| == 1 || r[0] != '0')
  {
    if |s| > 1 && s[0] == '0' then Trim(s[1..]) else s
  }

  function Bounded(maximum: real): int {
    if maximum.Floor < ObjectGraph.MAX_SAFE_INTEGER then maximum.Floor else ObjectGraph.MAX_SAFE_INTEGER
  }

  /** The comparison as the code makes it: by length, then in dictionary order. */
  predicate TextAbove(digits: string, maximum: string) {
    |digits| > |maximum| || (|digits| == |maximum| && Less(maximum, digits))
  }

  function ParseDeltaSeconds(value: Option<string>, maximum: real): Option<real> {
    if value.None? || value.value == "" || !AllDigits(value.value) then None
    else
      var digits := Trim(value.value);
      if TextAbove(digits, IntText(Bounded(maximum))) then Some(maximum) else Some(DigitsValue(digits) as real)
  }

  // --------------------------------------------------------------- digits

  lemma {:induction false} ValueOfDigit(s: string)
    requires |s| == 1 && AllDigits(s)
    ensures DigitsValue(s) == DigitOf(s[0])
  {
    assert s[..0] == "";
  }

  function Pow10(n: nat): (r: nat)
    ensures r > 0
  {
    if n == 0 then 1 else 10 * Pow10(n - 1)
  }

  lemma {:induction false} ValueBelow(s: string)
    requires AllDigits(s)
    ensures DigitsValue(s) < Pow10(|s|)
  {
    if s != "" { ValueBelow(s[..|s| - 1]); }
  }

  lemma {:induction false} ValueAtLeast(s: string)
    requires s != "" && AllDigits(s) && s[0] != '0'
    ensures DigitsValue(s) >= Pow10(|s| - 1)
  {
    if |s| == 1 {
      ValueOfDigit(s);
    } else {
      ValueAtLeast(s[..|s| - 1]);
    }
  }

  lemma {:induction false} PowGrows(m: nat, n: nat)
    requires m <= n
    ensures Pow10(m) <= Pow10(n)
  {
    if m < n { PowGrows(m, n - 1); }
  }

  /** Of two numbers without leading zeros the longer one is larger. */
  lemma LongerIsLarger(a: string, b: string)
    requires a != "" && AllDigits(a) && AllDigits(b) && b != "" && |a| < |b| && b[0] != '0'
    ensures DigitsValue(a) < DigitsValue(b)
  {
    ValueBelow(a);
    ValueAtLeast(b);
    PowGrows(|a|, |b| - 1);
  }

  lemma {:induction false} LessByLast(a: string, b: string)
    requires |a| == |b| > 0
    ensures var n := |a| - 1; Less(a, b) <==> Less(a[..n], b[..n]) || (a[..n] == b[..n] && a[n] < b[n])
  {
    var n := |a| - 1;
    if n > 0 {
      assert a[..n] == [a[0]] + a[1..][..n - 1] && b[..n] == [b[0]] + b[1..][..n - 1];
      assert a[..n][1..] == a[1..][..n - 1] && b[..n][1..] == b[1..][..n - 1];
      LessByLast(a[1..], b[1..]);
    }
  }

  /** On digit strings of one length dictionary order is numeric order. */
  lemma {:induction false} SameLength(a: string, b: string)
    requires |a| == |b| && AllDigits(a) && AllDigits(b)
    ensures Less(a, b) <==> DigitsValue(a) < DigitsValue(b)
    decreases |a|
  {
    if a != "" {
      var n := |a| - 1;
      LessByLast(a, b);
      SameLength(a[..n], b[..n]);
      SameLength(b[..n], a[..n]);
      LessTotal(a[..n], b[..n]);
      LessIrreflexive(a[..n]);
    }
  }

  lemma {:induction false} TrimKeepsValue(s: string)
    requires s != "" && AllDigits(s)
    ensures DigitsValue(Trim(s)) == DigitsValue(s)
  {
    if |s| > 1 && s[0] == '0' {
      TrimKeepsValue(s[1..]);
      ZeroInFront(s);
    }
  }

  lemma {:induction false} ZeroInFront(s: string)
    requires s != "" && AllDigits(s) && s[0] == '0'
    ensures DigitsValue(s) == DigitsValue(s[1..])
  {
    var n := |s| - 1;
    if n > 0 {
      ZeroInFront(s[..n]);
      assert s[..n][1..] == s[1..][..n - 1];
    } else {
      ValueOfDigit(s);
    }
  }

  /** The comparison of texts is the comparison of numbers, for texts of any length. */
  lemma TextAboveExactly(digits: string, maximum: nat)
    requires digits != "" && AllDigits(digits) && (|digits| == 1 || digits[0] != '0')
    ensures TextAbove(digits, Decimal(maximum)) <==> DigitsValue(digits) > maximum
  {
    var text := Decimal(maximum);
    DecimalValue(maximum);
    if |digits| > |text| {
      LongerIsLarger(text, digits);
    } else if |digits| < |text| {
      LongerIsLarger(digits, text);
    } else {
      SameLength(text, digits);
    }
  }

  /** For a maximum that is not negative: nothing for a text that is not a number, the
      exact number while it is within the maximum and safe, and the maximum above. */
  lemma DeltaExactly(value: Option<string>, maximum: real)
    requires maximum >= 0.0
    ensures ParseDeltaSeconds(value, maximum).None? <==> value.None? || value.value == "" || !AllDigits(value.value)
    ensures ParseDeltaSeconds(value, maximum).Some? ==>
      ParseDeltaSeconds(value, maximum).value ==
        if DigitsValue(value.value) <= Bounded(maximum) then DigitsValue(value.value) as real else maximum
    ensures ParseDeltaSeconds(value, maximum).Some? ==> 0.0 <= ParseDeltaSeconds(value, maximum).value <= maximum
  {
    if ParseDeltaSeconds(value, maximum).Some? {
      TrimKeepsValue(value.value);
      TextAboveExactly(Trim(value.value), Bounded(maximum));
    }
  }

  /** For any maximum: the result exceeds it exactly when the maximum is negative and
      its rendering is longer than the number's. */
  lemma NeverAboveExactly(value: string, maximum: real)
    requires value != "" && AllDigits(value)
    ensures ParseDeltaSeconds(Some(value), maximum).value <= maximum <==>
      maximum >= 0.0 || |Trim(value)| >= |IntText(Bounded(maximum))|
  {
    if maximum >= 0.0 {
      DeltaExactly(Some(value), maximum);
    } else {
      var digits, text := Trim(value), IntText(Bounded(maximum));
      assert text[0] == '-' && '-' < digits[0];
      assert TextAbove(digits, text) <==> |digits| >= |text|;
    }
  }

  /** A negative maximum that a shorter number passes. */
  lemma AboveNegativeMaximum()
    ensures ParseDeltaSeconds(Some("5"), -100.0) == Some(5.0)
  {
    assert (-100.0).Floor == -100;
    assert Decimal(100) == Decimal(10) + "0" && Decimal(10) == Decimal(1) + "0";
    assert Trim("5") == "5";
    ValueOfDigit("5");
  }
}
