/** Digit-wise GF(base) operations of src/qolds_builder.cpp: `multiplyByFactorInGFN`
    scales every digit by a factor, `bitXorGFN` adds several values digit by digit,
    both reducing each digit modulo the base (the base-3 analogue of XOR). */
module GF3Ops {
  import opened QoldsTables
  import opened DigitCodec

  /** Each digit multiplied by factor and reduced with C++ `%`. */
  function ScaleDigits(ds: seq<int>, factor: int, b: int): (r: seq<int>)
    requires b > 0
    ensures |r| == |ds|
  {
    seq(|ds|, k requires 0 <= k < |ds| => TruncMod(ds[k] * factor, b))
  }

  /** The value computed by `multiplyByFactorInGFN(x, factor, b, len)`. */
  function ScaleGF(x: int, factor: int, b: int, len: nat): int
    requires b > 0
  {
    Value(ScaleDigits(Digits(x, b, len), factor, b), b)
  }

  /** Sum of digit k of lst[0], ..., lst[n-1], each expanded to len digits. */
  function ColumnSum(lst: seq<int>, b: int, len: nat, k: nat, n: nat): int
    requires b > 0 && n <= |lst| && k < len
  {
    if n == 0 then 0 else ColumnSum(lst, b, len, k, n - 1) + Digits(lst[n - 1], b, len)[k]
  }

  /** The digits of `bitXorGFN(b, lst, len, degree)`: column sums reduced with C++ `%`. */
  function CombineDigits(b: int, lst: seq<int>, len: nat, degree: nat): (r: seq<int>)
    requires b > 0 && degree < |lst|
    ensures |r| == len
  {
    seq(len, k requires 0 <= k < len => TruncMod(ColumnSum(lst, b, len, k, degree + 1), b))
  }

  /** The value computed by `bitXorGFN(b, lst, len, degree)`. */
  function CombineGF(b: int, lst: seq<int>, len: nat, degree: nat): int
    requires b > 0 && degree < |lst|
  {
    Value(CombineDigits(b, lst, len, degree), b)
  }

  /** The first n terms are non-negative. */
  predicate NonNegativePrefix(lst: seq<int>, n: nat)
    requires n <= |lst|
  {
    forall j :: 0 <= j < n ==> lst[j] >= 0
  }

  /** With non-negative terms a column sum of n digits lies in [0, n * (b - 1)]. */
  lemma {:induction false} ColumnSumRange(lst: seq<int>, b: int, len: nat, k: nat, n: nat)
    requires b > 0 && n <= |lst| && k < len && NonNegativePrefix(lst, n)
    ensures 0 <= ColumnSum(lst, b, len, k, n) <= n * (b - 1)
  {
    if n > 0 {
      ColumnSumRange(lst, b, len, k, n - 1);
      DigitsRange(lst[n - 1], b, len);
      var d := Digits(lst[n - 1], b, len)[k];
      assert 0 <= d < b;
      BoundStep(ColumnSum(lst, b, len, k, n - 1), d, n, b);
    }
  }

  lemma BoundStep(p: int, d: int, n: nat, b: int)
    requires n > 0 && 0 <= p <= (n - 1) * (b - 1) && 0 <= d <= b - 1
    ensures 0 <= p + d <= n * (b - 1)
  {
    MulDistributes(b - 1, n - 1, 1);
  }

  lemma MulNonNegative(x: int, y: int)
    requires x >= 0 && y >= 0
    ensures x * y >= 0
  {
  }

  // ---------------------------------------------------------------------------
  // Digit-wise scaling

  lemma ScaledDigitsAreDigits(x: int, factor: int, b: int, len: nat)
    requires x >= 0 && factor >= 0 && b > 0
    ensures IsDigitVector(ScaleDigits(Digits(x, b, len), factor, b), b)
  {
    var ds := Digits(x, b, len);
    DigitsRange(x, b, len);
    forall k | 0 <= k < len
      ensures 0 <= ScaleDigits(ds, factor, b)[k] < b
    {
      MulNonNegative(ds[k], factor);
      TruncDivMod(ds[k] * factor, b);
    }
  }

  /** Digit k of the scaled value is (digit k of x) * factor mod b, i.e.
      (floor(x / b^k) mod b) * factor mod b; the result lies in [0, b^len). */
  lemma ScaleDigitAt(x: int, factor: int, b: int, len: nat, k: nat)
    requires x >= 0 && factor >= 0 && b > 0 && k < len
    ensures 0 <= ScaleGF(x, factor, b, len) < Pow(b, len)
    ensures Digits(ScaleGF(x, factor, b, len), b, len)[k] == (Digits(x, b, len)[k] * factor) % b
    ensures Digits(ScaleGF(x, factor, b, len), b, len)[k] == (((x / Pow(b, k)) % b) * factor) % b
  {
    var ds := ScaleDigits(Digits(x, b, len), factor, b);
    DigitsRange(x, b, len);
    ScaledDigitsAreDigits(x, factor, b, len);
    ValueBound(ds, b);
    DigitsOfValue(ds, b);
    MulNonNegative(Digits(x, b, len)[k], factor);
    TruncDivMod(Digits(x, b, len)[k] * factor, b);
    DigitAt(x, b, len, k);
  }

  /** Scaling by 1 keeps the low len digits: the identity on values below b^len. */
  lemma ScaleByOne(x: int, b: int, len: nat)
    requires x >= 0 && b > 0
    ensures ScaleGF(x, 1, b, len) == x % Pow(b, len)
  {
    var ds := Digits(x, b, len);
    DigitsRange(x, b, len);
    forall k | 0 <= k < len
      ensures ScaleDigits(ds, 1, b)[k] == ds[k]
    {
      TruncDivMod(ds[k], b);
      DivModUnique(ds[k], b, 0, ds[k]);
    }
    assert ScaleDigits(ds, 1, b) == ds;
    ValueOfDigits(x, b, len);
  }

  /** Scaling by 0 gives 0, whatever x is. */
  lemma ScaleByZero(x: int, b: int, len: nat)
    requires b > 0
    ensures ScaleGF(x, 0, b, len) == 0
  {
    var ds := ScaleDigits(Digits(x, b, len), 0, b);
    forall k | 0 <= k < len
      ensures ds[k] == 0
    {
      TruncDivMod(0, b);
    }
    ValueOfZeros(ds, b);
  }

  // ---------------------------------------------------------------------------
  // Digit-wise combination

  lemma CombinedDigitsAreDigits(b: int, lst: seq<int>, len: nat, degree: nat)
    requires b > 0 && degree < |lst| && NonNegativePrefix(lst, degree + 1)
    ensures IsDigitVector(CombineDigits(b, lst, len, degree), b)
    ensures forall k :: 0 <= k < len ==>
      CombineDigits(b, lst, len, degree)[k] == ColumnSum(lst, b, len, k, degree + 1) % b
  {
    forall k | 0 <= k < len
      ensures 0 <= CombineDigits(b, lst, len, degree)[k] < b
      ensures CombineDigits(b, lst, len, degree)[k] == ColumnSum(lst, b, len, k, degree + 1) % b
    {
      ColumnSumRange(lst, b, len, k, degree + 1);
      TruncDivMod(ColumnSum(lst, b, len, k, degree + 1), b);
    }
  }

  /** Digit k of the combination is the sum of the terms' digit k, mod b; the result lies
      in [0, b^len). */
  lemma CombineDigitAt(b: int, lst: seq<int>, len: nat, degree: nat, k: nat)
    requires b > 0 && degree < |lst| && NonNegativePrefix(lst, degree + 1) && k < len
    ensures 0 <= CombineGF(b, lst, len, degree) < Pow(b, len)
    ensures Digits(CombineGF(b, lst, len, degree), b, len)[k]
         == ColumnSum(lst, b, len, k, degree + 1) % b
  {
    CombinedDigitsAreDigits(b, lst, len, degree);
    ValueBound(CombineDigits(b, lst, len, degree), b);
    DigitsOfValue(CombineDigits(b, lst, len, degree), b);
  }

  /** With a single term, of either sign, the digit reduction changes nothing. */
  lemma CombineSingleTerm(b: int, x: int, len: nat)
    requires b > 0
    ensures CombineGF(b, [x], len, 0) == Value(Digits(x, b, len), b)
  {
    var ds := Digits(x, b, len);
    DigitsRange(x, b, len);
    forall k | 0 <= k < len
      ensures CombineDigits(b, [x], len, 0)[k] == ds[k]
    {
      assert ColumnSum([x], b, len, k, 1) == ds[k];
      TruncModSmall(ds[k], b);
    }
    assert CombineDigits(b, [x], len, 0) == ds;
  }

  /** With a single term the combination is that term truncated to len digits. */
  lemma CombineSingle(b: int, lst: seq<int>, len: nat)
    requires b > 0 && |lst| > 0 && lst[0] >= 0
    ensures CombineGF(b, lst, len, 0) == lst[0] % Pow(b, len)
  {
    var ds := Digits(lst[0], b, len);
    DigitsRange(lst[0], b, len);
    forall k | 0 <= k < len
      ensures CombineDigits(b, lst, len, 0)[k] == ds[k]
    {
      assert ColumnSum(lst, b, len, k, 1) == ds[k];
      TruncDivMod(ds[k], b);
      DivModUnique(ds[k], b, 0, ds[k]);
    }
    assert CombineDigits(b, lst, len, 0) == ds;
    ValueOfDigits(lst[0], b, len);
  }

  /** GF(3): a value plus its digit-wise negation (scaling by convertToGF3[1] = 2) is 0. */
  lemma CombineWithNegationIsZero(x: int, len: nat)
    requires x >= 0
    ensures CombineGF(3, [x, ScaleGF(x, ConvertToGF3[1], 3, len)], len, 1) == 0
  {
    var y := ScaleGF(x, 2, 3, len);
    assert y >= 0 by {
      if len > 0 {
        ScaleDigitAt(x, 2, 3, len, 0);
      } else {
        assert ScaleDigits(Digits(x, 3, len), 2, 3) == [];
      }
    }
    forall k | 0 <= k < len
      ensures Digits(y, 3, len)[k] == (Digits(x, 3, len)[k] * 2) % 3
    {
      ScaleDigitAt(x, 2, 3, len, k);
    }
    CombineWithDigitNegation(x, y, len);
  }

  /** If every digit of y is twice the digit of x (mod 3), x and y combine to 0. */
  lemma CombineWithDigitNegation(x: int, y: int, len: nat)
    requires x >= 0 && y >= 0
    requires forall k :: 0 <= k < len ==> Digits(y, 3, len)[k] == (Digits(x, 3, len)[k] * 2) % 3
    ensures CombineGF(3, [x, y], len, 1) == 0
  {
    var ds := CombineDigits(3, [x, y], len, 1);
    CombinePairDigits(x, y, len);
    DigitsRange(x, 3, len);
    forall k | 0 <= k < len
      ensures ds[k] == 0
    {
      DigitPlusDouble(Digits(x, 3, len)[k]);
    }
    ValueOfZeros(ds, 3);
  }

  /** In GF(3) a digit plus twice itself is 0. */
  lemma DigitPlusDouble(d: int)
    requires 0 <= d < 3
    ensures (d + (d * 2) % 3) % 3 == 0
  {
  }

  // ---------------------------------------------------------------------------
  // Evaluation from known digit vectors

  /** Scaling a value whose digit vector ds is known: the result is the value of the
      scaled digits e. */
  lemma ScaleKnownDigits(x: int, ds: seq<int>, factor: int, b: int, e: seq<int>)
    requires b > 0 && IsDigitVector(ds, b) && Value(ds, b) == x
    requires |e| == |ds| && forall k :: 0 <= k < |e| ==> e[k] == TruncMod(ds[k] * factor, b)
    ensures ScaleGF(x, factor, b, |ds|) == Value(e, b)
  {
    DigitsOfValue(ds, b);
    assert ScaleDigits(ds, factor, b) == e;
  }

  /** Scaling a value of at most two base-3 digits d0 + 3 * d1, over len >= 2 digits. */
  lemma ScaleTwoDigits(x: int, d0: int, d1: int, factor: int, len: nat)
    requires 0 <= d0 < 3 && 0 <= d1 < 3 && x == d0 + 3 * d1 && factor >= 0 && len >= 2
    ensures ScaleGF(x, factor, 3, len) == (d0 * factor) % 3 + 3 * ((d1 * factor) % 3)
  {
    var ds := [d0, d1] + seq(len - 2, _ => 0);
    var e := [(d0 * factor) % 3, (d1 * factor) % 3] + seq(len - 2, _ => 0);
    ValueTwoDigits(ds, 3);
    ValueTwoDigits(e, 3);
    forall k | 0 <= k < |e|
      ensures e[k] == TruncMod(ds[k] * factor, 3)
    {
      MulNonNegative(ds[k], factor);
      TruncDivMod(ds[k] * factor, 3);
    }
    ScaleKnownDigits(x, ds, factor, 3, e);
  }

  /** Two non-negative terms combine digit by digit. */
  lemma CombinePairDigits(x: int, y: int, len: nat)
    requires x >= 0 && y >= 0
    ensures forall k :: 0 <= k < len ==>
      CombineDigits(3, [x, y], len, 1)[k] == (Digits(x, 3, len)[k] + Digits(y, 3, len)[k]) % 3
  {
    CombinedDigitsAreDigits(3, [x, y], len, 1);
    DigitsRange(x, 3, len);
    DigitsRange(y, 3, len);
    forall k | 0 <= k < len
      ensures ColumnSum([x, y], 3, len, k, 2) == Digits(x, 3, len)[k] + Digits(y, 3, len)[k]
    {
      assert ColumnSum([x, y], 3, len, k, 1) == Digits(x, 3, len)[k];
    }
  }

  lemma CombinePairExpanded(x: int, y: int, dx: seq<int>, dy: seq<int>, e: seq<int>)
    requires |dx| == |dy| == |e| && x >= 0 && y >= 0
    requires Digits(x, 3, |e|) == dx && Digits(y, 3, |e|) == dy
    requires forall k :: 0 <= k < |e| ==> e[k] == (dx[k] + dy[k]) % 3
    ensures CombineDigits(3, [x, y], |e|, 1) == e
  {
    CombinePairDigits(x, y, |e|);
    var c := CombineDigits(3, [x, y], |e|, 1);
    forall k | 0 <= k < |e|
      ensures c[k] == e[k]
    {
    }
  }

  /** Combining two values whose digit vectors dx and dy are known: the result is the
      value of their digit-wise sums mod 3. */
  lemma CombineKnownDigits(x: int, y: int, dx: seq<int>, dy: seq<int>, e: seq<int>)
    requires IsDigitVector(dx, 3) && IsDigitVector(dy, 3) && |dx| == |dy| == |e|
    requires Value(dx, 3) == x && Value(dy, 3) == y
    requires forall k :: 0 <= k < |e| ==> e[k] == (dx[k] + dy[k]) % 3
    ensures CombineGF(3, [x, y], |e|, 1) == Value(e, 3)
  {
    DigitsOfDigitVector(x, dx, 3);
    DigitsOfDigitVector(y, dy, 3);
    CombinePairExpanded(x, y, dx, dy, e);
  }

  // ---------------------------------------------------------------------------
  // The loops of the source

  /** `multiplyByFactorInGFN`: expand, scale every digit in place, recombine. */
  method MultiplyByFactorInGFN(x: int, factor: int, base: int, len: nat) returns (r: int)
    requires base > 0
    ensures r == ScaleGF(x, factor, base, len)
  {
    var digits := IntegerDigits(x, base, len);
    ghost var original := digits;
    var i := 0;
    while i < len
      invariant 0 <= i <= len && |digits| == len
      invariant forall k :: 0 <= k < i ==> digits[k] == TruncMod(original[k] * factor, base)
      invariant forall k :: i <= k < len ==> digits[k] == original[k]
    {
      digits := digits[i := TruncMod(digits[i] * factor, base)];
      i := i + 1;
    }
    assert digits[..len] == ScaleDigits(original, factor, base);
    r := FromDigits(digits, base, len);
  }

  /** `bitXorGFN`: expands lst[0..polynomialDegree] into the rows of a local 10 x 10
      array, sums each column, reduces it modulo the base and recombines. */
  method BitXorGFN(base: int, lst: seq<int>, len: nat, polynomialDegree: nat) returns (r: int)
    requires base > 0 && polynomialDegree < |lst|
    requires polynomialDegree < SequenceLength && len <= SequenceLength
    ensures r == CombineGF(base, lst, len, polynomialDegree)
  {
    var digits := ExpandTerms(base, lst, len, polynomialDegree);
    var finalDigits := SumColumns(base, lst, len, polynomialDegree, digits);
    r := FromDigits(finalDigits[..], base, len);
  }

  /** First phase of `bitXorGFN`: row i of the zeroed table receives the len digits
      of lst[i]. */
  method ExpandTerms(base: int, lst: seq<int>, len: nat, polynomialDegree: nat)
    returns (digits: array2<int>)
    requires base > 0 && polynomialDegree < |lst|
    requires polynomialDegree < SequenceLength && len <= SequenceLength
    ensures fresh(digits) && digits.Length0 == SequenceLength && digits.Length1 == SequenceLength
    ensures forall i, j :: 0 <= i <= polynomialDegree && 0 <= j < len ==>
      digits[i, j] == Digits(lst[i], base, len)[j]
  {
    digits := new int[SequenceLength, SequenceLength]((i, j) => 0);
    var i := 0;
    while i <= polynomialDegree
      modifies digits
      invariant 0 <= i <= polynomialDegree + 1
      invariant forall i', j :: 0 <= i' < i && 0 <= j < len ==>
        digits[i', j] == Digits(lst[i'], base, len)[j]
    {
      var d := IntegerDigits(lst[i], base, len);
      WriteRow(digits, i, d);
      i := i + 1;
    }
  }

  /** The inner loop of the first phase: row i of the table receives the digits d. */
  method WriteRow(digits: array2<int>, i: nat, d: seq<int>)
    requires i < digits.Length0 && |d| <= digits.Length1
    modifies digits
    ensures forall j :: 0 <= j < |d| ==> digits[i, j] == d[j]
    ensures forall i', j :: 0 <= i' < digits.Length0 && 0 <= j < digits.Length1 && i' != i ==>
      digits[i', j] == old(digits[i', j])
  {
    var j := 0;
    while j < |d|
      modifies digits
      invariant 0 <= j <= |d|
      invariant forall j' :: 0 <= j' < j ==> digits[i, j'] == d[j']
      invariant forall i', j' :: 0 <= i' < digits.Length0 && 0 <= j' < digits.Length1 && i' != i ==>
        digits[i', j'] == old(digits[i', j'])
    {
      digits[i, j] := d[j];
      j := j + 1;
    }
  }

  /** Second phase of `bitXorGFN`: digit i of the result is column i of the table
      summed over rows 0..polynomialDegree and reduced with C++ `%`. */
  method SumColumns(base: int, lst: seq<int>, len: nat, polynomialDegree: nat, digits: array2<int>)
    returns (finalDigits: array<int>)
    requires base > 0 && polynomialDegree < |lst|
    requires polynomialDegree < SequenceLength && len <= SequenceLength
    requires digits.Length0 == SequenceLength && digits.Length1 == SequenceLength
    requires forall i, j :: 0 <= i <= polynomialDegree && 0 <= j < len ==>
      digits[i, j] == Digits(lst[i], base, len)[j]
    ensures fresh(finalDigits) && finalDigits.Length == SequenceLength + 1
    ensures finalDigits[..][..len] == CombineDigits(base, lst, len, polynomialDegree)
  {
    finalDigits := new int[SequenceLength + 1](k => 0);
    ghost var target := CombineDigits(base, lst, len, polynomialDegree);
    var i := 0;
    while i < len
      modifies finalDigits
      invariant 0 <= i <= len
      invariant forall k :: 0 <= k < i ==> finalDigits[k] == target[k]
    {
      finalDigits[i] := 0;
      var j := 0;
      while j <= polynomialDegree
        modifies finalDigits
        invariant 0 <= j <= polynomialDegree + 1
        invariant finalDigits[i] == ColumnSum(lst, base, len, i, j)
        invariant forall k :: 0 <= k < i ==> finalDigits[k] == target[k]
      {
        finalDigits[i] := finalDigits[i] + digits[j, i];
        j := j + 1;
      }
      finalDigits[i] := TruncMod(finalDigits[i], base);
      i := i + 1;
    }
    assert finalDigits[..][..len] == target;
  }
}
