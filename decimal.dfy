/**
 Decimal numerals of integers. `IntToDecimal` is Python's `str` on an integer,
 the one conversion the key-index helper in module Index calls. The rest are
 reference definitions that the helper itself never calls: reading a numeral
 back as a number, powers of ten, and the string order of Python's `<`. The
 lemmas in module Index use them to state round-trip, width and ordering
 properties of the keys.
 */
module Decimal {

  datatype Option<T> = None | Some(value: T)

  /** 10 to the power k. */
  function Pow10(k: nat): (r: nat)
    ensures r >= 1
  {
    if k == 0 then 1 else 10 * Pow10(k - 1)
  }

  lemma {:induction false} Pow10Monotone(a: nat, b: nat)
    requires a <= b
    ensures Pow10(a) <= Pow10(b)
    decreases b - a
  {
    if a < b {
      Pow10Monotone(a + 1, b);
    }
  }

  predicate IsDigit(c: char) {
    '0' <= c <= '9'
  }

  predicate AllDigits(s: string) {
    forall i :: 0 <= i < |s| ==> IsDigit(s[i])
  }

  /** The value of a digit character. */
  function DigitVal(c: char): (d: nat)
    requires IsDigit(c)
    ensures d < 10
  {
    c as int - '0' as int
  }

  /** The digit character for a value below ten. */
  function DigitChar(d: nat): (c: char)
    requires d < 10
    ensures IsDigit(c) && DigitVal(c) == d
  {
    ('0' as int + d) as char
  }

  /**
   The decimal numeral of a natural number, most significant digit first and
   without leading zeros: what Python's `str` gives for a non-negative integer.
   */
  function NatToDecimal(n: nat): (s: string)
    ensures |s| >= 1 && AllDigits(s)
    ensures s[0] == '0' <==> n == 0
    decreases n
  {
    if n < 10 then [DigitChar(n)] else NatToDecimal(n / 10) + [DigitChar(n % 10)]
  }

  /**
   Python's `str` on an integer: a negative value is written as '-' followed
   by the numeral of its magnitude.
   */
  function IntToDecimal(i: int): (s: string)
    ensures |s| >= 1
    ensures s[0] == '-' <==> i < 0
    ensures s[0] == '0' <==> i == 0
    ensures i >= 0 ==> AllDigits(s)
  {
    if i < 0 then "-" + NatToDecimal(-i) else NatToDecimal(i)
  }

  /** The number a string of digits denotes; leading zeros contribute nothing. */
  function DigitsValue(s: string): (n: nat)
    requires AllDigits(s)
    ensures n < Pow10(|s|)
  {
    if s == [] then 0
    else
      var v := DigitsValue(s[..|s| - 1]);
      assert v * 10 <= (Pow10(|s| - 1) - 1) * 10;
      v * 10 + DigitVal(s[|s| - 1])
  }

  /**
   Reading a string back as a non-negative decimal number, as Python's `int`
   does for a plain numeral: a non-empty string of digits, leading zeros
   allowed. Anything else is rejected.
   */
  function ParseDecimal(s: string): (r: Option<nat>)
    ensures r.Some? <==> |s| >= 1 && AllDigits(s)
    ensures r.Some? ==> r.value < Pow10(|s|)
  {
    if |s| >= 1 && AllDigits(s) then Some(DigitsValue(s)) else None
  }

  /** Reading a string back as an integer: an optional '-' and then a numeral. */
  function ParseInt(s: string): (r: Option<int>)
    ensures r.Some? && r.value < 0 ==> |s| >= 1 && s[0] == '-'
  {
    if |s| >= 1 && s[0] == '-' then
      match ParseDecimal(s[1..])
      case Some(n) => var m: int := n; Some(-m)
      case None => None
    else
      match ParseDecimal(s)
      case Some(n) => Some(n)
      case None => None
  }

  /**
   Python's `<` on strings: lexicographic by character code, a proper prefix
   coming first.
   */
  predicate LexLess(a: string, b: string) {
    |b| > 0 && (|a| == 0 || a[0] < b[0] || (a[0] == b[0] && LexLess(a[1..], b[1..])))
  }

  lemma {:induction false} LexLessAsymmetric(a: string, b: string)
    ensures LexLess(a, b) ==> !LexLess(b, a)
    decreases |a|
  {
    if |a| > 0 && |b| > 0 && a[0] == b[0] {
      LexLessAsymmetric(a[1..], b[1..]);
    }
  }

  lemma AllDigitsConcat(a: string, b: string)
    requires AllDigits(a) && AllDigits(b)
    ensures AllDigits(a + b)
  {
    forall i | 0 <= i < |a + b| ensures IsDigit((a + b)[i]) {
      if i >= |a| {
        assert (a + b)[i] == b[i - |a|];
      }
    }
  }

  lemma ShiftDigit(x: int, p: int, y: int, d: int)
    ensures (x * p + y) * 10 + d == x * (p * 10) + (y * 10 + d)
  {
  }

  /** Appending digits shifts the value of the front part left by their count. */
  lemma {:induction false} DigitsValueConcat(a: string, b: string)
    requires AllDigits(a) && AllDigits(b)
    ensures AllDigits(a + b)
    ensures DigitsValue(a + b) == DigitsValue(a) * Pow10(|b|) + DigitsValue(b)
    decreases |b|
  {
    AllDigitsConcat(a, b);
    if b == [] {
      assert a + b == a;
    } else {
      var b' := b[..|b| - 1];
      assert (a + b)[..|a + b| - 1] == a + b';
      assert (a + b)[|a + b| - 1] == b[|b| - 1];
      DigitsValueConcat(a, b');
      var x, p, y, d := DigitsValue(a), Pow10(|b'|), DigitsValue(b'), DigitVal(b[|b| - 1]);
      assert Pow10(|b|) == p * 10;
      assert DigitsValue(b) == y * 10 + d;
      assert DigitsValue(a + b) == DigitsValue(a + b') * 10 + d;
      ShiftDigit(x, p, y, d);
    }
  }

  /** A run of zeros has value zero. */
  lemma {:induction false} ZerosValue(z: string)
    requires forall i :: 0 <= i < |z| ==> z[i] == '0'
    ensures AllDigits(z) && DigitsValue(z) == 0
    decreases |z|
  {
    if z != [] {
      ZerosValue(z[..|z| - 1]);
    }
  }

  /** The value of a numeral is its leading digit's place value plus the rest. */
  lemma DigitsValueFront(s: string)
    requires |s| >= 1 && AllDigits(s)
    ensures DigitsValue(s) == DigitVal(s[0]) * Pow10(|s| - 1) + DigitsValue(s[1..])
  {
    var head := [s[0]];
    assert s == head + s[1..];
    assert head[..0] == [];
    assert DigitsValue(head) == DigitVal(s[0]);
    DigitsValueConcat(head, s[1..]);
  }

  lemma ScaleUp(x: int, y: int, p: nat)
    requires x >= y
    ensures x * p >= y * p
  {
  }

  /** Of two numerals of one length, the one whose leading digit is larger is larger. */
  lemma LeadingDigitDecides(a: string, b: string)
    requires |a| == |b| >= 1 && AllDigits(a) && AllDigits(b)
    ensures DigitVal(a[0]) > DigitVal(b[0]) ==> DigitsValue(a) > DigitsValue(b)
  {
    if DigitVal(a[0]) > DigitVal(b[0]) {
      var p := Pow10(|a| - 1);
      DigitsValueFront(a);
      DigitsValueFront(b);
      ScaleUp(DigitVal(a[0]), DigitVal(b[0]) + 1, p);
    }
  }

  /**
   On numerals of one length, string order follows numeric order: the smaller
   number is the lexicographically smaller string.
   */
  lemma {:induction false} NumeralOrder(a: string, b: string)
    requires |a| == |b| && AllDigits(a) && AllDigits(b)
    requires DigitsValue(a) < DigitsValue(b)
    ensures LexLess(a, b)
    decreases |a|
  {
    if |a| >= 1 {
      LeadingDigitDecides(a, b);
      if a[0] == b[0] {
        DigitsValueFront(a);
        DigitsValueFront(b);
        NumeralOrder(a[1..], b[1..]);
      }
    }
  }

  /** Reading back the numeral of n gives n. */
  lemma {:induction false} NatToDecimalRoundTrip(n: nat)
    ensures ParseDecimal(NatToDecimal(n)) == Some(n)
    decreases n
  {
    if n >= 10 {
      NatToDecimalRoundTrip(n / 10);
      var s := NatToDecimal(n);
      assert s[..|s| - 1] == NatToDecimal(n / 10);
    }
  }

  /** Reading back Python's `str` of any integer gives that integer. */
  lemma IntToDecimalRoundTrip(i: int)
    ensures ParseInt(IntToDecimal(i)) == Some(i)
  {
    if i < 0 {
      NatToDecimalRoundTrip(-i);
      assert IntToDecimal(i)[1..] == NatToDecimal(-i);
    } else {
      NatToDecimalRoundTrip(i);
    }
  }

  /** Distinct integers have distinct decimal strings. */
  lemma IntToDecimalInjective(i: int, j: int)
    ensures IntToDecimal(i) == IntToDecimal(j) ==> i == j
  {
    IntToDecimalRoundTrip(i);
    IntToDecimalRoundTrip(j);
  }
}
