/**
 Python's `int(ds)` for a string `ds` made only of ASCII decimal digits, which
 is the only kind of argument the calorie extractor ever passes it, and the
 inverse direction `str(n)` used to state round trips.
 */
module PyInt {
  import opened Wrappers
  import opened PyText

  /** CPython's default `sys.get_int_max_str_digits()`: `int()` refuses, with
      a `ValueError`, a decimal string of more digits than this. */
  const MaxStrDigits: nat := 4300

  function DigitValue(c: char): (d: nat)
    requires IsDigit(c)
  {
    c as int - '0' as int
  }

  function DigitChar(d: nat): (c: char)
    requires d < 10
  {
    ('0' as int + d) as char
  }

  function Pow10(n: nat): (p: nat)
    ensures p >= 1
  {
    if n == 0 then 1 else 10 * Pow10(n - 1)
  }

  /** The number a digit string denotes, read most significant digit first;
      leading zeros contribute nothing and the empty string denotes 0. */
  function DecimalValue(ds: string): (n: nat)
    requires AllDigits(ds)
    ensures n < Pow10(|ds|)
  {
    if |ds| == 0 then 0
    else 10 * DecimalValue(ds[..|ds| - 1]) + DigitValue(ds[|ds| - 1])
  }

  /** `int(ds)`: fails on the empty string and on strings longer than the
      interpreter's digit limit; otherwise the decimal value of `ds`. */
  function IntOfDigits(ds: string): (r: Option<nat>)
    requires AllDigits(ds)
    ensures r.Some? <==> 0 < |ds| <= MaxStrDigits
    ensures r.Some? ==> r.value < Pow10(|ds|)
  {
    if |ds| == 0 || |ds| > MaxStrDigits then None else Some(DecimalValue(ds))
  }

  /** `str(n)` for a non-negative integer: its shortest decimal spelling. */
  function ToDecimal(n: nat): (s: string)
    ensures AllDigits(s) && |s| >= 1
    ensures |s| > 1 ==> s[0] != '0'
  {
    if n < 10 then [DigitChar(n)] else ToDecimal(n / 10) + [DigitChar(n % 10)]
  }

  /** Reading back the spelling of `n` gives `n`. */
  lemma {:induction false} ValueOfToDecimal(n: nat)
    ensures DecimalValue(ToDecimal(n)) == n
  {
    var s := ToDecimal(n);
    if n >= 10 {
      ValueOfToDecimal(n / 10);
      assert s[..|s| - 1] == ToDecimal(n / 10);
    }
  }

  /** `int(str(n)) == n` whenever `str(n)` is within the digit limit. */
  lemma IntOfToDecimal(n: nat)
    requires |ToDecimal(n)| <= MaxStrDigits
    ensures IntOfDigits(ToDecimal(n)) == Some(n)
  {
    ValueOfToDecimal(n);
  }

  lemma AllDigitsConcat(a: string, b: string)
    requires AllDigits(a) && AllDigits(b)
    ensures AllDigits(a + b)
  {
    forall k | 0 <= k < |a + b| ensures IsDigit((a + b)[k]) {
      if k < |a| { assert (a + b)[k] == a[k]; } else { assert (a + b)[k] == b[k - |a|]; }
    }
  }

  /** Concatenating two digit strings shifts the first by the length of the
      second: the value of "100" + "200" is 100 * 1000 + 200. */
  lemma {:induction false} ValueOfConcat(a: string, b: string)
    requires AllDigits(a) && AllDigits(b)
    ensures AllDigits(a + b)
    ensures DecimalValue(a + b) == DecimalValue(a) * Pow10(|b|) + DecimalValue(b)
  {
    AllDigitsConcat(a, b);
    if |b| > 0 {
      var b' := b[..|b| - 1];
      var d := DigitValue(b[|b| - 1]);
      assert (a + b)[..|a + b| - 1] == a + b';
      ValueOfConcat(a, b');
      var va, vb' := DecimalValue(a), DecimalValue(b');
      calc {
        DecimalValue(a + b);
        10 * DecimalValue(a + b') + d;
        10 * (va * Pow10(|b'|) + vb') + d;
        { ShiftByTen(va, Pow10(|b'|)); }
        va * Pow10(|b|) + (10 * vb' + d);
      }
    } else {
      assert a + b == a;
    }
  }

  lemma ShiftByTen(v: int, p: int)
    ensures 10 * (v * p) == v * (10 * p)
  {
  }

  /** Leading zeros do not change the value (they only count towards the
      digit limit). */
  lemma LeadingZero(ds: string)
    requires AllDigits(ds)
    ensures AllDigits("0" + ds)
    ensures DecimalValue("0" + ds) == DecimalValue(ds)
  {
    ValueOfConcat("0", ds);
  }

  /** A spelling without leading zero is the spelling of its own value. */
  lemma {:induction false} ToDecimalOfValue(ds: string)
    requires AllDigits(ds) && |ds| >= 1
    requires |ds| > 1 ==> ds[0] != '0'
    ensures ToDecimal(DecimalValue(ds)) == ds
  {
    if |ds| > 1 {
      var init := ds[..|ds| - 1];
      ToDecimalOfValue(init);
      PositiveWithoutLeadingZero(init);
      assert ds == init + [ds[|ds| - 1]];
    }
  }

  lemma {:induction false} PositiveWithoutLeadingZero(ds: string)
    requires AllDigits(ds) && |ds| >= 1 && ds[0] != '0'
    ensures DecimalValue(ds) >= Pow10(|ds| - 1)
  {
    if |ds| > 1 {
      PositiveWithoutLeadingZero(ds[..|ds| - 1]);
    }
  }
}
