/**
 The key-index helper of the Spark I/O layer: `Encode` writes an integer key
 index as a decimal string left-padded with zeros to a fixed width, and
 `Digits` counts the decimal digits of an integer, the width a caller needs so
 that no key is wider than the padding.
 */
module Index {
  import opened Decimal

  function Max(a: int, b: int): int {
    if a < b then b else a
  }

  /** Python's `'0' * n`: n zero characters, and none at all when n <= 0. */
  function Zeros(n: int): (z: string)
    ensures |z| == Max(n, 0)
    ensures forall i :: 0 <= i < |z| ==> z[i] == '0'
  {
    if n <= 0 then [] else seq(n, _ => '0')
  }

  /**
   `Index.encode(index, max_len)`: the decimal string of `index` with enough
   '0' characters in front to make it `maxLen` long. A string already that long
   or longer is returned unchanged; nothing is ever cut off.
   */
  function Encode(index: int, maxLen: int): (r: string)
    ensures |r| == Max(maxLen, |IntToDecimal(index)|)
    ensures r[|r| - |IntToDecimal(index)|..] == IntToDecimal(index)
    ensures forall i :: 0 <= i < |r| - |IntToDecimal(index)| ==> r[i] == '0'
    ensures maxLen <= |IntToDecimal(index)| ==> r == IntToDecimal(index)
  {
    var indexStr := IntToDecimal(index);
    Zeros(maxLen - |indexStr|) + indexStr
  }

  /**
   `Index.digits(x)` on an integer: 1 below ten (negative values included),
   otherwise one more than the count for `x / 10`, Python 2's floor division
   (which Dafny's `/` agrees with on the positive values it is applied to here).
   */
  function Digits(x: int): (r: int)
    ensures r >= 1
    ensures r == 1 <==> x < 10
    decreases x
  {
    if x < 10 then 1 else 1 + Digits(x / 10)
  }

  /** A non-negative index reads back, leading zeros ignored, as itself. */
  lemma EncodeRoundTrip(index: int, maxLen: int)
    requires index >= 0
    ensures ParseDecimal(Encode(index, maxLen)) == Some(index)
  {
    var s := IntToDecimal(index);
    var z := Zeros(maxLen - |s|);
    NatToDecimalRoundTrip(index);
    ZerosValue(z);
    DigitsValueConcat(z, s);
    assert DigitsValue(z) * Pow10(|s|) == 0;
    assert Encode(index, maxLen) == z + s;
  }

  /**
   A negative index keeps its '-' sign after the padding zeros (for instance
   `Encode(-5, 3)` is "0-5"). Unpadded, the key still reads back as a signed
   integer; once any zero is put in front of the sign it no longer does.
   */
  lemma EncodeNegative(index: int, maxLen: int)
    requires index < 0
    ensures Encode(index, maxLen)[|Encode(index, maxLen)| - |IntToDecimal(index)|] == '-'
    ensures ParseDecimal(Encode(index, maxLen)) == None
    ensures maxLen <= |IntToDecimal(index)| ==> ParseInt(Encode(index, maxLen)) == Some(index)
    ensures maxLen > |IntToDecimal(index)| ==> ParseInt(Encode(index, maxLen)) == None
  {
    var r, s := Encode(index, maxLen), IntToDecimal(index);
    assert r[|r| - |s|] == r[|r| - |s|..][0];
    assert !IsDigit(r[|r| - |s|]);
    if maxLen > |s| {
      assert r[0] == '0';
    } else {
      IntToDecimalRoundTrip(index);
    }
  }

  lemma EncodeNegativeExample()
    ensures Encode(-5, 3) == "0-5"
  {
    assert IntToDecimal(-5) == "-5";
    assert Zeros(1) == "0";
  }

  /** Two indexes padded to one width give the same key only if they are equal. */
  lemma EncodeInjective(i: int, j: int, maxLen: int)
    ensures Encode(i, maxLen) == Encode(j, maxLen) ==> i == j
  {
    SameKeySameDecimal(i, j, maxLen);
    SameKeySameDecimal(j, i, maxLen);
    IntToDecimalInjective(i, j);
  }

  lemma SameKeySameDecimal(i: int, j: int, maxLen: int)
    ensures Encode(i, maxLen) == Encode(j, maxLen) && |IntToDecimal(i)| <= |IntToDecimal(j)|
      ==> IntToDecimal(i) == IntToDecimal(j)
  {
    var r, s, t := Encode(i, maxLen), IntToDecimal(i), IntToDecimal(j);
    if r == Encode(j, maxLen) && |s| <= |t| {
      var k := |t| - |s|;
      assert t == r[|r| - |t|..];
      assert t[0] == '0' ==> t == "0";
      assert k == 0;
    }
  }

  /** For x >= 1, Digits(x) is the place of x's leading digit: 10^(d-1) <= x < 10^d. */
  lemma {:induction false} DigitsBounds(x: int)
    requires x >= 1
    ensures Pow10(Digits(x) - 1) <= x < Pow10(Digits(x))
    decreases x
  {
    if x >= 10 {
      DigitsBounds(x / 10);
      var d := Digits(x / 10);
      assert Pow10(Digits(x)) == 10 * Pow10(d);
      assert 10 * Pow10(d - 1) <= 10 * (x / 10) <= x;
      assert x < 10 * (x / 10 + 1) <= 10 * Pow10(d);
    }
  }

  /** On non-negative integers Digits is the length of the decimal string. */
  lemma {:induction false} DigitsIsDecimalLength(x: int)
    requires x >= 0
    ensures Digits(x) == |IntToDecimal(x)|
    decreases x
  {
    if x >= 10 {
      DigitsIsDecimalLength(x / 10);
    }
  }

  /** Padding a non-negative index to its own digit count leaves it as it is. */
  lemma {:induction false} EncodeAtDigitsWidth(x: int)
    requires x >= 0
    ensures Encode(x, Digits(x)) == IntToDecimal(x)
  {
    DigitsIsDecimalLength(x);
  }

  /** Digits never decreases as its argument grows, negative arguments included. */
  lemma {:induction false} DigitsMonotone(x: int, y: int)
    requires x <= y
    ensures Digits(x) <= Digits(y)
    decreases y
  {
    if x >= 10 {
      DigitsMonotone(x / 10, y / 10);
    }
  }

  /** Digits(x) is the least width k >= 1 at which every digit of x fits: x < 10^k. */
  lemma {:induction false} DigitsIsLeastWidth(x: int, k: nat)
    requires x >= 0 && k >= 1
    ensures x < Pow10(k) <==> Digits(x) <= k
  {
    if x == 0 {
      assert Pow10(k) >= 1;
    } else {
      DigitsBounds(x);
      if Digits(x) <= k {
        Pow10Monotone(Digits(x), k);
      } else {
        Pow10Monotone(k, Digits(x) - 1);
      }
    }
  }

  /**
   Non-negative indexes of at most maxLen digits all encode to keys of exactly
   maxLen characters.
   */
  lemma EncodeFixedWidth(index: int, maxLen: int)
    requires index >= 0 && Digits(index) <= maxLen
    ensures |Encode(index, maxLen)| == maxLen
  {
    DigitsIsDecimalLength(index);
  }

  /**
   Zero padding makes string order agree with numeric order: for non-negative
   indexes that fit the width, one key sorts before another exactly when its
   index is smaller.
   */
  lemma EncodeOrder(i: int, j: int, maxLen: int)
    requires 0 <= i && Digits(i) <= maxLen
    requires 0 <= j && Digits(j) <= maxLen
    ensures LexLess(Encode(i, maxLen), Encode(j, maxLen)) <==> i < j
  {
    var a, b := Encode(i, maxLen), Encode(j, maxLen);
    EncodeFixedWidth(i, maxLen);
    EncodeFixedWidth(j, maxLen);
    EncodeRoundTrip(i, maxLen);
    EncodeRoundTrip(j, maxLen);
    LexLessAsymmetric(a, b);
    if i < j {
      NumeralOrder(a, b);
    } else if j < i {
      NumeralOrder(b, a);
    } else {
      LexLessAsymmetric(a, a);
    }
  }
}
