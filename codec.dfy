/** The digit codec of src/qolds_builder.cpp: `integerDigits` and `fromDigits`
    convert between an integer and a fixed-length little-endian base-b digit vector. */
module DigitCodec {
  import opened QoldsTables

  /** C++ integer division, which truncates toward zero. */
  function TruncDiv(a: int, b: int): int
    requires b > 0
  {
    if a >= 0 then a / b else -((-a) / b)
  }

  /** C++ `%`, whose result takes the sign of the dividend. */
  function TruncMod(a: int, b: int): int
    requires b > 0
  {
    a - b * TruncDiv(a, b)
  }

  /** The `len` low-order base-b digits of v, least significant first, as the
      digit-by-digit loop of `integerDigits` produces them. */
  function Digits(v: int, b: int, len: nat): (r: seq<int>)
    requires b > 0
    ensures |r| == len
    decreases len
  {
    if len == 0 then [] else [TruncMod(v, b)] + Digits(TruncDiv(v, b), b, len - 1)
  }

  /** The integer whose little-endian base-b digits are ds. */
  function Value(ds: seq<int>, b: int): int
  {
    if ds == [] then 0 else ds[0] + b * Value(ds[1..], b)
  }

  /** Every entry of ds is a base-b digit. */
  predicate IsDigitVector(ds: seq<int>, b: int)
  {
    forall k :: 0 <= k < |ds| ==> 0 <= ds[k] < b
  }

  // ---------------------------------------------------------------------------
  // Arithmetic helpers

  lemma MulAtLeast(d: int, x: int)
    requires d > 0 && x >= 1
    ensures d * x >= d
  {
  }

  lemma MulMonotone(d: int, x: int, y: int)
    requires d > 0 && x <= y
    ensures d * x <= d * y
  {
  }

  /** Euclidean quotient and remainder are the only pair with a remainder in [0, d). */
  lemma DivModUnique(a: int, d: int, q: int, r: int)
    requires d > 0 && a == d * q + r && 0 <= r < d
    ensures a / d == q && a % d == r
  {
    var q0, r0 := a / d, a % d;
    assert a == d * q0 + r0;
    var x := q0 - q;
    assert d * x == r - r0 by {
      assert d * q0 - d * q == d * (q0 - q);
    }
    if x >= 1 {
      MulAtLeast(d, x);
      assert false;
    }
    if x <= -1 {
      MulAtLeast(d, -x);
      MulNeg(d, x);
      assert false;
    }
  }

  lemma MulBounds(x: int, y: int, xMax: int, yMax: int)
    requires 0 <= x <= xMax && 0 <= y <= yMax
    ensures 0 <= x * y <= xMax * yMax
  {
    assert x * y <= xMax * y;
    assert xMax * y <= xMax * yMax;
  }

  lemma MulNeg(b: int, q: int)
    ensures b * (-q) == -(b * q)
  {
  }

  lemma DivModBasics(n: int, b: int)
    requires b > 0
    ensures n == b * (n / b) + n % b && 0 <= n % b < b
    ensures n >= 0 ==> n / b >= 0
  {
  }

  /** On a non-negative dividend C++ division agrees with Dafny's; on a negative one the
      remainder lies in (-b, 0]. */
  lemma TruncDivMod(a: int, b: int)
    requires b > 0
    ensures a >= 0 ==> TruncDiv(a, b) == a / b && TruncMod(a, b) == a % b
    ensures a >= 0 ==> TruncDiv(a, b) >= 0 && 0 <= TruncMod(a, b) < b
    ensures a <= 0 ==> TruncDiv(a, b) <= 0 && -b < TruncMod(a, b) <= 0
  {
    if a < 0 {
      var n := -a;
      var q := n / b;
      DivModBasics(n, b);
      MulNeg(b, q);
      assert TruncDiv(a, b) == -q;
      assert TruncMod(a, b) == a - b * (-q);
    } else {
      DivModBasics(a, b);
    }
  }

  /** A value strictly between -b and b is its own C++ remainder. */
  lemma TruncModSmall(d: int, b: int)
    requires b > 0 && -b < d < b
    ensures TruncMod(d, b) == d
  {
    if d >= 0 {
      DivModUnique(d, b, 0, d);
    } else {
      DivModUnique(-d, b, 0, -d);
    }
  }

  lemma MulAssoc(x: int, y: int, z: int)
    ensures x * (y * z) == (x * y) * z
  {
  }

  lemma MulDistributes(x: int, y: int, z: int)
    ensures x * (y + z) == x * y + x * z
  {
  }

  /** Dividing by b and then by c is dividing by b*c; the remainders nest. */
  lemma DivModNested(a: int, b: int, c: int)
    requires b > 0 && c > 0
    ensures a / (b * c) == (a / b) / c
    ensures a % (b * c) == b * ((a / b) % c) + a % b
  {
    var q, r := a / b, a % b;
    DivModBasics(a, b);
    var q2, r2 := q / c, q % c;
    DivModBasics(q, c);
    MulDistributes(b, c * q2, r2);
    MulAssoc(b, c, q2);
    assert a == (b * c) * q2 + (b * r2 + r);
    MulMonotone(b, r2, c - 1);
    MulDistributes(b, c, -1);
    if r2 > 0 {
      MulAtLeast(b, r2);
    }
    assert 0 <= b * r2 + r < b * c;
    MulAtLeast(b, c);
    DivModUnique(a, b * c, q2, b * r2 + r);
  }

  // ---------------------------------------------------------------------------
  // Properties of Digits and Value

  /** The digits of a non-negative value lie in [0, b); those of a negative value, as
      C++ `%` produces them, in (-b, 0]. */
  lemma {:induction false} DigitsRange(v: int, b: int, len: nat)
    requires b > 0
    ensures v >= 0 ==> IsDigitVector(Digits(v, b, len), b)
    ensures v <= 0 ==> forall k :: 0 <= k < len ==> -b < Digits(v, b, len)[k] <= 0
    decreases len
  {
    if len > 0 {
      TruncDivMod(v, b);
      DigitsRange(TruncDiv(v, b), b, len - 1);
      var ds := Digits(v, b, len);
      assert ds[0] == TruncMod(v, b);
      assert forall k :: 1 <= k < len ==> ds[k] == Digits(TruncDiv(v, b), b, len - 1)[k - 1];
    }
  }

  /** Digit k of a non-negative v is floor(v / b^k) mod b. */
  lemma {:induction false} DigitAt(v: int, b: int, len: nat, k: nat)
    requires v >= 0 && b > 0 && k < len
    ensures Digits(v, b, len)[k] == (v / Pow(b, k)) % b
    decreases k
  {
    TruncDivMod(v, b);
    var q := v / b;
    assert Digits(v, b, len) == [v % b] + Digits(q, b, len - 1);
    if k > 0 {
      DigitAt(q, b, len - 1, k - 1);
      var p := Pow(b, k - 1);
      assert Pow(b, k) == b * p;
      DivModNested(v, b, p);
      assert Digits(v, b, len)[k] == Digits(q, b, len - 1)[k - 1];
    }
  }

  /** Appending a most-significant digit adds x * b^|ds|. */
  lemma {:induction false} ValueSnoc(ds: seq<int>, x: int, b: int)
    ensures Value(ds + [x], b) == Value(ds, b) + x * Pow(b, |ds|)
  {
    if ds != [] {
      assert (ds + [x])[1..] == ds[1..] + [x];
      ValueSnoc(ds[1..], x, b);
      var rest, p := Value(ds[1..], b), Pow(b, |ds| - 1);
      assert Value(ds + [x], b) == ds[0] + b * (rest + x * p);
      MulDistributes(b, rest, x * p);
      MulAssoc(b, x, p);
      MulAssoc(x, b, p);
      assert b * x == x * b;
    }
  }

  /** A digit vector denotes a value in [0, b^|ds|). */
  lemma {:induction false} ValueBound(ds: seq<int>, b: int)
    requires b > 0 && IsDigitVector(ds, b)
    ensures 0 <= Value(ds, b) < Pow(b, |ds|)
  {
    if ds != [] {
      ValueBound(ds[1..], b);
      var rest, p := Value(ds[1..], b), Pow(b, |ds| - 1);
      MulMonotone(b, rest, p - 1);
      MulMonotone(b, 0, rest);
      assert b * (p - 1) == b * p - b;
      assert Value(ds, b) == ds[0] + b * rest;
      assert Pow(b, |ds|) == b * p;
    }
  }

  /** The vector of zero digits denotes 0. */
  lemma {:induction false} ValueOfZeros(ds: seq<int>, b: int)
    requires forall k :: 0 <= k < |ds| ==> ds[k] == 0
    ensures Value(ds, b) == 0
  {
    if ds != [] {
      ValueOfZeros(ds[1..], b);
    }
  }

  /** Round trip, value side: re-encoding the digits of a non-negative v gives
      v mod b^len, so v itself when v < b^len; higher digits are dropped. */
  lemma {:induction false} ValueOfDigits(v: int, b: int, len: nat)
    requires v >= 0 && b > 0
    ensures Value(Digits(v, b, len), b) == v % Pow(b, len)
    decreases len
  {
    if len > 0 {
      TruncDivMod(v, b);
      ValueOfDigits(v / b, b, len - 1);
      var p := Pow(b, len - 1);
      var ds := Digits(v, b, len);
      assert ds == [v % b] + Digits(v / b, b, len - 1);
      assert ds[1..] == Digits(v / b, b, len - 1);
      assert Value(ds, b) == v % b + b * ((v / b) % p);
      assert Pow(b, len) == b * p;
      DivModNested(v, b, p);
    } else {
      DivModUnique(v, 1, v, 0);
    }
  }

  /** Corollary for values that fit: decoding the encoding gives v back. */
  lemma RoundTrip(v: int, b: int, len: nat)
    requires b > 0 && 0 <= v < Pow(b, len)
    ensures Value(Digits(v, b, len), b) == v
  {
    ValueOfDigits(v, b, len);
    DivModUnique(v, Pow(b, len), 0, v);
  }

  /** Round trip, digit side: expanding the value of a digit vector gives the vector back. */
  lemma {:induction false} DigitsOfValue(ds: seq<int>, b: int)
    requires b > 0 && IsDigitVector(ds, b)
    ensures Digits(Value(ds, b), b, |ds|) == ds
  {
    if ds != [] {
      DigitsOfValue(ds[1..], b);
      ValueBound(ds[1..], b);
      var rest := Value(ds[1..], b);
      DivModUnique(Value(ds, b), b, rest, ds[0]);
    }
  }

  /** A digit vector is the expansion of its own value, which is non-negative. */
  lemma DigitsOfDigitVector(v: int, ds: seq<int>, b: int)
    requires b > 0 && IsDigitVector(ds, b) && Value(ds, b) == v
    ensures Digits(v, b, |ds|) == ds && v >= 0
  {
    DigitsOfValue(ds, b);
    ValueBound(ds, b);
  }

  /** The value of a vector whose digits above the second are all zero. */
  lemma ValueTwoDigits(ds: seq<int>, b: int)
    requires |ds| >= 2 && forall k :: 2 <= k < |ds| ==> ds[k] == 0
    ensures Value(ds, b) == ds[0] + b * ds[1]
  {
    ValueOfZeros(ds[2..], b);
    assert ds[1..][1..] == ds[2..];
  }

  /** The same for vectors of non-positive digits, as C++ produces for negative values. */
  lemma {:induction false} DigitsOfValueNonPositive(ds: seq<int>, b: int)
    requires b > 0 && forall k :: 0 <= k < |ds| ==> -b < ds[k] <= 0
    ensures Digits(Value(ds, b), b, |ds|) == ds
  {
    if ds != [] {
      DigitsOfValueNonPositive(ds[1..], b);
      var neg := seq(|ds|, k requires 0 <= k < |ds| => -ds[k]);
      NegatedValue(ds, b);
      ValueBound(neg, b);
      ValueBound(neg[1..], b);
      assert neg[1..] == seq(|ds| - 1, k requires 0 <= k < |ds| - 1 => -ds[1..][k]);
      NegatedValue(ds[1..], b);
      var rest := Value(neg[1..], b);
      assert Value(neg, b) == -ds[0] + b * rest;
      DivModUnique(Value(neg, b), b, rest, -ds[0]);
      assert TruncDiv(Value(ds, b), b) == Value(ds[1..], b);
      assert TruncMod(Value(ds, b), b) == ds[0];
    }
  }

  /** Negating every digit negates the value. */
  lemma {:induction false} NegatedValue(ds: seq<int>, b: int)
    ensures Value(seq(|ds|, k requires 0 <= k < |ds| => -ds[k]), b) == -Value(ds, b)
  {
    if ds != [] {
      var neg := seq(|ds|, k requires 0 <= k < |ds| => -ds[k]);
      assert neg[1..] == seq(|ds| - 1, k requires 0 <= k < |ds| - 1 => -ds[1..][k]);
      NegatedValue(ds[1..], b);
      MulNeg(b, Value(ds[1..], b));
    }
  }

  // ---------------------------------------------------------------------------
  // The loops of the source

  /** `integerDigits`: pushes `val % base` and divides, `len` times. */
  method IntegerDigits(val: int, base: int, len: nat) returns (digits: seq<int>)
    requires base > 0
    ensures digits == Digits(val, base, len)
  {
    digits := [];
    var v := val;
    var i := 0;
    while i < len
      invariant 0 <= i <= len
      invariant digits + Digits(v, base, len - i) == Digits(val, base, len)
    {
      digits := digits + [TruncMod(v, base)];
      v := TruncDiv(v, base);
      i := i + 1;
    }
  }

  /** `fromDigits`: accumulates `pow * digits[i]` over the first `len` digits. */
  method FromDigits(digits: seq<int>, base: int, len: nat) returns (res: int)
    requires len <= |digits|
    ensures res == Value(digits[..len], base)
  {
    var pow := 1;
    res := 0;
    var i := 0;
    while i < len
      invariant 0 <= i <= len
      invariant pow == Pow(base, i)
      invariant res == Value(digits[..i], base)
    {
      assert digits[..i + 1] == digits[..i] + [digits[i]];
      ValueSnoc(digits[..i], digits[i], base);
      res := res + pow * digits[i];
      pow := pow * base;
      i := i + 1;
    }
  }
}
