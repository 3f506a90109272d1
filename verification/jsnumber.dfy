/**
 * JavaScript's `Number(text)` and `String(n).padStart(2, '0')`, restricted
 * to integer values. `Number` trims white space, reads an empty text as 0,
 * accepts an optional sign followed by decimal digits, and gives NaN for
 * anything else.
 */
module JsNumber {
  import opened Text

  datatype Num = NaN | Fin(v: int)

  predicate AllDigits(s: string) {
    forall i :: 0 <= i < |s| ==> IsDigit(s[i])
  }

  function DigitValue(c: char): nat
    requires IsDigit(c)
  {
    c as int - '0' as int
  }

  function DigitChar(d: nat): (c: char)
    requires d < 10
    ensures IsDigit(c) && DigitValue(c) == d
  {
    ('0' as int + d) as char
  }

  /** The value of a run of decimal digits; the empty run is 0. */
  function DigitsValue(s: string): nat
    requires AllDigits(s)
  {
    if |s| == 0 then 0 else DigitsValue(s[..|s| - 1]) * 10 + DigitValue(s[|s| - 1])
  }

  function ParseNumber(s: string): (r: Num)
  {
    var t := Trim(s);
    if |t| == 0 then Fin(0)
    else if AllDigits(t) then Fin(DigitsValue(t))
    else if |t| >= 2 && (t[0] == '+' || t[0] == '-') && AllDigits(t[1..]) then
      Fin(if t[0] == '-' then 0 - DigitsValue(t[1..]) as int else DigitsValue(t[1..]))
    else NaN
  }

  /** `a * k` on JavaScript numbers: NaN absorbs. */
  function Scale(a: Num, k: int): Num {
    if a.NaN? then NaN else Fin(a.v * k)
  }

  /** `a + b` on JavaScript numbers: NaN absorbs. */
  function Plus(a: Num, b: Num): Num {
    if a.NaN? || b.NaN? then NaN else Fin(a.v + b.v)
  }

  /** `a < b`: every comparison with NaN is false. */
  predicate Below(a: Num, b: Num) {
    a.Fin? && b.Fin? && a.v < b.v
  }

  /** `a >= b`: every comparison with NaN is false. */
  predicate AtLeast(a: Num, b: Num) {
    a.Fin? && b.Fin? && a.v >= b.v
  }

  /** `String(n)` for a natural number. */
  function DecimalString(n: nat): (s: string)
    ensures |s| >= 1 && AllDigits(s)
    ensures n < 10 <==> |s| == 1
    ensures 10 <= n < 100 <==> |s| == 2
  {
    if n < 10 then [DigitChar(n)] else DecimalString(n / 10) + [DigitChar(n % 10)]
  }

  /** `String(n).padStart(2, '0')`. */
  function Pad2(n: nat): (s: string)
    ensures AllDigits(s)
    ensures n < 100 ==> |s| == 2
  {
    var d := DecimalString(n);
    if |d| < 2 then "0" + d else d
  }

  lemma {:induction false} DecimalValue(n: nat)
    ensures DigitsValue(DecimalString(n)) == n
  {
    if n >= 10 {
      DecimalValue(n / 10);
      var s := DecimalString(n);
      assert s[..|s| - 1] == DecimalString(n / 10);
    }
  }

  /** A leading zero does not change the value of a digit run. */
  lemma {:induction false} LeadingZero(s: string)
    requires AllDigits(s)
    ensures AllDigits("0" + s) && DigitsValue("0" + s) == DigitsValue(s)
    decreases |s|
  {
    if |s| > 0 {
      var t := "0" + s;
      assert t[..|t| - 1] == "0" + s[..|s| - 1];
      LeadingZero(s[..|s| - 1]);
    }
  }

  lemma {:induction false} DigitsAreSpaceFree(s: string)
    requires AllDigits(s)
    ensures SpaceFree(s)
  {
    if |s| > 0 {
      DigitsAreSpaceFree(s[1..]);
    }
  }

  /** A two-digit number prints as its tens digit and its units digit. */
  lemma TwoDigits(n: nat)
    requires 10 <= n < 100
    ensures Pad2(n) == [DigitChar(n / 10), DigitChar(n % 10)]
  {
    assert DecimalString(n / 10) == [DigitChar(n / 10)];
  }

  lemma Padded2359()
    ensures Pad2(23) + ":" + Pad2(59) == "23:59"
  {
    TwoDigits(23);
    TwoDigits(59);
  }

  /** Reading back a padded number gives the number. */
  lemma Pad2RoundTrip(n: nat)
    ensures ParseNumber(Pad2(n)) == Fin(n)
  {
    var d := DecimalString(n);
    DecimalValue(n);
    var p := Pad2(n);
    if |d| < 2 {
      LeadingZero(d);
    }
    DigitsAreSpaceFree(p);
    TrimNoSpace(p);
  }

  /** A run of zeros reads as 0. */
  lemma ParseZeros()
    ensures ParseNumber("0") == Fin(0)
    ensures ParseNumber("00") == Fin(0)
  {
    ParseDigits("0");
    ParseDigits("00");
    assert DigitsValue("0") == 0 by {
      assert "0"[..0] == "";
    }
    assert DigitsValue("00") == 0 by {
      assert "00"[..1] == "0";
    }
  }

  /** A run of digits reads as its decimal value. */
  lemma ParseDigits(s: string)
    requires AllDigits(s)
    ensures ParseNumber(s) == Fin(DigitsValue(s))
  {
    DigitsAreSpaceFree(s);
    TrimNoSpace(s);
  }
}
