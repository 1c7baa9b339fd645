/** The direction-number recurrence of src/qolds_builder.cpp (`generateMkGF3`): each
    dimension's seed values are extended in place, entry i-1 being the digit-wise GF(3)
    sum of entry i-degree-1 and shifted, negated-coefficient multiples of the entries
    between them. */
module DirectionNumberGeneration {
  import opened QoldsTables
  import opened DigitCodec
  import opened GF3Ops

  /** The polynomial's coefficients as `generateMkGF3` expands them: the degree+1
      low base-3 digits of the polynomial code. */
  function Polynomial(ipolynomial: int, degree: nat): (r: seq<int>)
    ensures ipolynomial >= 0 ==> WellFormedPolynomial(r, degree)
  {
    DigitsRange(ipolynomial, 3, degree + 1);
    Digits(ipolynomial, 3, degree + 1)
  }

  predicate WellFormedPolynomial(poly: seq<int>, degree: nat)
  {
    |poly| == degree + 1 && IsDigitVector(poly, 3)
  }

  /** Term j (1 <= j <= degree) pushed when entry i-1 is computed:
      `pow3Tab[j] * multiplyByFactorInGFN(msobol[i-j-1], convertToGF3[poly[degree-j]], 3, 10)`. */
  function Term(s: seq<int>, poly: seq<int>, degree: nat, i: nat, j: nat): int
    requires WellFormedPolynomial(poly, degree)
    requires 1 <= j <= degree && j < Pow3TabSize && j + 1 <= i <= |s|
  {
    Pow(3, j) * ScaleGF(s[i - j - 1], ConvertToGF3[poly[degree - j]], 3, SequenceLength)
  }

  /** The list `lst` built for position i: entry i-degree-1 followed by terms 1..degree. */
  function Terms(s: seq<int>, poly: seq<int>, degree: nat, i: nat): (r: seq<int>)
    requires WellFormedPolynomial(poly, degree) && degree < Pow3TabSize && degree + 1 <= i <= |s|
    ensures |r| == degree + 1
  {
    [s[i - degree - 1]] + seq(degree, t requires 0 <= t < degree => Term(s, poly, degree, i, t + 1))
  }

  /** The list grows by one term at a time. */
  lemma TermsPrefix(s: seq<int>, poly: seq<int>, degree: nat, i: nat, j: nat)
    requires WellFormedPolynomial(poly, degree) && degree < Pow3TabSize && degree + 1 <= i <= |s|
    requires 1 <= j <= degree
    ensures Terms(s, poly, degree, i)[..j + 1] == Terms(s, poly, degree, i)[..j] + [Term(s, poly, degree, i, j)]
  {
    var ts := Terms(s, poly, degree, i);
    assert ts[j] == Term(s, poly, degree, i, j);
    SlicePush(ts, j);
  }

  lemma SlicePush(ts: seq<int>, j: nat)
    requires j < |ts|
    ensures ts[..j + 1] == ts[..j] + [ts[j]]
  {
  }

  /** The value `generateMkGF3` stores into entry i-1. */
  function NextDirectionNumber(s: seq<int>, poly: seq<int>, degree: nat, i: nat): int
    requires WellFormedPolynomial(poly, degree) && degree < Pow3TabSize && degree + 1 <= i <= |s|
  {
    CombineGF(3, Terms(s, poly, degree, i), i, degree)
  }

  // ---------------------------------------------------------------------------
  // The loop shape of `generateMkGF3`, for any step

  /** The array after positions start+1..n (1-based) have each been overwritten, in
      increasing order, by step applied to the array as it stands: entries start..n-1. */
  function Recurrence(s: seq<int>, step: (seq<int>, nat) -> int, start: nat, n: nat): (r: seq<int>)
    requires n <= |s|
    ensures |r| == |s|
    ensures forall k :: 0 <= k < |s| && (k < start || n <= k) ==> r[k] == s[k]
    decreases n
  {
    if n <= start then s
    else
      var prev := Recurrence(s, step, start, n - 1);
      prev[n - 1 := step(prev, n)]
  }

  /** The step at position i reads only entries below i-1, and entry i-start-1. */
  ghost predicate StepLocal(step: (seq<int>, nat) -> int, start: nat)
  {
    forall s: seq<int>, t: seq<int>, i: nat ::
      start + 1 <= i <= |s| && i <= |t| &&
      (forall k :: 0 <= k < i - 1 ==> s[k] == t[k]) && s[i - start - 1] == t[i - start - 1]
      ==> step(s, i) == step(t, i)
  }

  /** Recomputing position i of s after it has been written gives the same value. */
  ghost predicate SettledAt(step: (seq<int>, nat) -> int, s: seq<int>, i: nat)
    requires 1 <= i <= |s|
  {
    step(s[i - 1 := step(s, i)], i) == step(s, i)
  }

  ghost predicate StepSettled(step: (seq<int>, nat) -> int, start: nat)
  {
    forall s: seq<int>, i: nat :: start + 1 <= i <= |s| ==> SettledAt(step, s, i)
  }

  /** On non-negative inputs the step yields a value of at most i base-3 digits. */
  ghost predicate StepBounded(step: (seq<int>, nat) -> int, start: nat)
  {
    forall s: seq<int>, i: nat ::
      start + 1 <= i <= |s| && (forall k :: 0 <= k < i - 1 ==> s[k] >= 0) && s[i - start - 1] >= 0
      ==> 0 <= step(s, i) < Pow(3, i)
  }

  /** Entries written by an earlier position are never rewritten by a later one. */
  lemma {:induction false} RecurrenceStable(s: seq<int>, step: (seq<int>, nat) -> int, start: nat, n: nat, n': nat)
    requires n <= n' <= |s|
    ensures forall k :: 0 <= k < n ==> Recurrence(s, step, start, n')[k] == Recurrence(s, step, start, n)[k]
    decreases n'
  {
    if n' <= start {
      assert Recurrence(s, step, start, n') == s;
      assert Recurrence(s, step, start, n) == s;
    } else if n < n' {
      RecurrenceStable(s, step, start, n, n' - 1);
    }
  }

  /** With a local step, the generated prefix depends only on the entries it reads as seeds. */
  lemma {:induction false} RecurrenceDependsOnSeeds(s: seq<int>, t: seq<int>, step: (seq<int>, nat) -> int, start: nat, n: nat)
    requires StepLocal(step, start) && n <= |s| && n <= |t|
    requires forall k :: 0 <= k < n && (k < start || start == 0) ==> s[k] == t[k]
    ensures forall k :: 0 <= k < n ==> Recurrence(s, step, start, n)[k] == Recurrence(t, step, start, n)[k]
    decreases n
  {
    if n > start {
      RecurrenceDependsOnSeeds(s, t, step, start, n - 1);
      var ps, pt := Recurrence(s, step, start, n - 1), Recurrence(t, step, start, n - 1);
      assert ps[n - start - 1] == pt[n - start - 1];
      assert step(ps, n) == step(pt, n);
    } else {
      assert Recurrence(s, step, start, n) == s;
      assert Recurrence(t, step, start, n) == t;
    }
  }

  lemma {:induction false} RecurrenceFixedPointUpTo(s: seq<int>, step: (seq<int>, nat) -> int, start: nat, n: nat, m: nat)
    requires StepLocal(step, start) && StepSettled(step, start) && m <= n <= |s|
    ensures Recurrence(Recurrence(s, step, start, n), step, start, m) == Recurrence(s, step, start, n)
    decreases m
  {
    var r := Recurrence(s, step, start, n);
    if m > start {
      RecurrenceFixedPointUpTo(s, step, start, n, m - 1);
      var front := Recurrence(s, step, start, m - 1);
      var w := front[m - 1 := step(front, m)];
      RecurrenceStable(s, step, start, m, n);
      assert forall k :: 0 <= k < m ==> r[k] == w[k];
      assert r[m - start - 1] == w[m - start - 1];
      assert step(r, m) == step(w, m);
      assert SettledAt(step, front, m);
      assert r[m - 1 := step(r, m)] == r;
    } else {
      assert Recurrence(r, step, start, m) == r;
    }
  }

  /** With a local, settled step, running the loop again on its own output changes nothing. */
  lemma RecurrenceIdempotent(s: seq<int>, step: (seq<int>, nat) -> int, start: nat, n: nat)
    requires StepLocal(step, start) && StepSettled(step, start) && n <= |s|
    ensures Recurrence(Recurrence(s, step, start, n), step, start, n) == Recurrence(s, step, start, n)
  {
    RecurrenceFixedPointUpTo(s, step, start, n, n);
  }

  /** With a bounded step and non-negative seeds every entry is non-negative, and entry k
      written by the loop has at most k+1 base-3 digits. */
  lemma {:induction false} RecurrenceBound(s: seq<int>, step: (seq<int>, nat) -> int, start: nat, n: nat)
    requires StepBounded(step, start) && n <= |s|
    requires forall k :: 0 <= k < n && (k < start || start == 0) ==> s[k] >= 0
    ensures forall k :: 0 <= k < n ==> Recurrence(s, step, start, n)[k] >= 0
    ensures forall k :: start <= k < n ==> Recurrence(s, step, start, n)[k] < Pow(3, k + 1)
    decreases n
  {
    if n > start {
      RecurrenceBound(s, step, start, n - 1);
      var prev := Recurrence(s, step, start, n - 1);
      assert prev[n - start - 1] >= 0;
      assert 0 <= step(prev, n) < Pow(3, n);
    }
  }

  // ---------------------------------------------------------------------------
  // The GF(3) step and its properties

  /** The step of `generateMkGF3` for a given polynomial; the guard always holds inside
      the loop, where degree + 1 <= i <= 10. */
  function Step(poly: seq<int>, degree: nat): (seq<int>, nat) -> int
    requires WellFormedPolynomial(poly, degree)
  {
    (s: seq<int>, i: nat) =>
      if degree < Pow3TabSize && degree + 1 <= i <= |s| then NextDirectionNumber(s, poly, degree, i) else 0
  }

  /** The array after the loop of `generateMkGF3` has handled positions degree+1..n. */
  function DirectionNumbers(s: seq<int>, poly: seq<int>, degree: nat, n: nat): (r: seq<int>)
    requires WellFormedPolynomial(poly, degree) && n <= |s|
    ensures |r| == |s|
    ensures forall k :: 0 <= k < |s| && (k < degree || n <= k) ==> r[k] == s[k]
  {
    Recurrence(s, Step(poly, degree), degree, n)
  }

  /** One more position: entry n-1 becomes the next direction number of the array so far. */
  lemma DirectionNumbersStep(s: seq<int>, poly: seq<int>, degree: nat, n: nat)
    requires WellFormedPolynomial(poly, degree) && degree < n <= |s| && n <= SequenceLength
    ensures DirectionNumbers(s, poly, degree, n)
         == DirectionNumbers(s, poly, degree, n - 1)[n - 1 :=
              NextDirectionNumber(DirectionNumbers(s, poly, degree, n - 1), poly, degree, n)]
  {
  }

  /** One iteration of the outer loop of `generateMkGF3`, in terms of the array before
      and after the write. */
  lemma DirectionNumbersAdvance(s: seq<int>, poly: seq<int>, degree: nat, n: nat,
                                current: seq<int>, next: int, after: seq<int>)
    requires WellFormedPolynomial(poly, degree) && degree < n <= |s| && n <= SequenceLength
    requires current == DirectionNumbers(s, poly, degree, n - 1)
    requires next == NextDirectionNumber(current, poly, degree, n) && after == current[n - 1 := next]
    ensures after == DirectionNumbers(s, poly, degree, n)
  {
    DirectionNumbersStep(s, poly, degree, n);
  }

  /** Entry i-1 is computed only from entries with smaller index, and from entry i-1
      itself when degree is 0. */
  lemma NextDirectionNumberLocal(s: seq<int>, t: seq<int>, poly: seq<int>, degree: nat, i: nat)
    requires WellFormedPolynomial(poly, degree) && degree < Pow3TabSize
    requires degree + 1 <= i <= |s| && i <= |t|
    requires forall k :: 0 <= k < i - 1 ==> s[k] == t[k]
    requires s[i - degree - 1] == t[i - degree - 1]
    ensures NextDirectionNumber(s, poly, degree, i) == NextDirectionNumber(t, poly, degree, i)
  {
    var ts, tt := Terms(s, poly, degree, i), Terms(t, poly, degree, i);
    forall m | 0 <= m < degree + 1
      ensures ts[m] == tt[m]
    {
      if m > 0 {
        assert ts[m] == Term(s, poly, degree, i, m);
        assert s[i - m - 1] == t[i - m - 1];
      }
    }
    assert ts == tt;
  }

  /** Degree 0 recomputes entry i-1 from itself; doing so twice is doing so once. */
  lemma DegreeZeroStepIdempotent(x: int, len: nat)
    ensures CombineGF(3, [CombineGF(3, [x], len, 0)], len, 0) == CombineGF(3, [x], len, 0)
  {
    CombineSingleTerm(3, x, len);
    var v := Value(Digits(x, 3, len), 3);
    CombineSingleTerm(3, v, len);
    DigitsRange(x, 3, len);
    if x >= 0 {
      DigitsOfValue(Digits(x, 3, len), 3);
    } else {
      DigitsOfValueNonPositive(Digits(x, 3, len), 3);
    }
  }

  lemma TermNonNegative(s: seq<int>, poly: seq<int>, degree: nat, i: nat, j: nat)
    requires WellFormedPolynomial(poly, degree)
    requires 1 <= j <= degree && j < Pow3TabSize && j + 1 <= i <= |s| && s[i - j - 1] >= 0
    ensures 0 <= Term(s, poly, degree, i, j)
  {
    var x := s[i - j - 1];
    ScaleDigitAt(x, ConvertToGF3[poly[degree - j]], 3, SequenceLength, 0);
    MulNonNegative(Pow(3, j), ScaleGF(x, ConvertToGF3[poly[degree - j]], 3, SequenceLength));
  }

  /** Every term fits in a signed 32-bit integer, so the C++ `int32_t` list never overflows:
      3^9 * (3^10 - 1) < 2^31. */
  lemma TermFitsInt32(s: seq<int>, poly: seq<int>, degree: nat, i: nat, j: nat)
    requires WellFormedPolynomial(poly, degree)
    requires 1 <= j <= degree && j + 1 <= i <= |s| && i <= SequenceLength && s[i - j - 1] >= 0
    ensures 0 <= Term(s, poly, degree, i, j) < 0x8000_0000
  {
    var x := s[i - j - 1];
    var f := ConvertToGF3[poly[degree - j]];
    ScaleDigitAt(x, f, 3, SequenceLength, 0);
    var scaled := ScaleGF(x, f, 3, SequenceLength);
    assert Pow(3, SequenceLength) == 59049;
    PowMonotone(3, j, 9);
    assert Pow(3, 9) == 19683;
    MulBounds(Pow(3, j), scaled, 19683, 59048);
  }

  /** On non-negative inputs the next direction number is non-negative and has at most
      i base-3 digits. */
  lemma NextDirectionNumberBounded(s: seq<int>, poly: seq<int>, degree: nat, i: nat)
    requires WellFormedPolynomial(poly, degree) && degree < Pow3TabSize && degree + 1 <= i <= |s|
    requires forall k :: 0 <= k < i - 1 ==> s[k] >= 0
    requires s[i - degree - 1] >= 0
    ensures 0 <= NextDirectionNumber(s, poly, degree, i) < Pow(3, i)
  {
    var terms := Terms(s, poly, degree, i);
    forall j | 0 <= j < degree + 1
      ensures terms[j] >= 0
    {
      if j > 0 {
        TermNonNegative(s, poly, degree, i, j);
      }
    }
    CombineDigitAt(3, terms, i, degree, 0);
  }

  lemma StepIsLocal(poly: seq<int>, degree: nat)
    requires WellFormedPolynomial(poly, degree)
    ensures StepLocal(Step(poly, degree), degree)
  {
    var step := Step(poly, degree);
    forall s: seq<int>, t: seq<int>, i: nat |
      degree + 1 <= i <= |s| && i <= |t| &&
      (forall k :: 0 <= k < i - 1 ==> s[k] == t[k]) && s[i - degree - 1] == t[i - degree - 1]
      ensures step(s, i) == step(t, i)
    {
      if degree < Pow3TabSize {
        NextDirectionNumberLocal(s, t, poly, degree, i);
      }
    }
  }

  /** Recomputing entry i-1 after it has been written: for degree > 0 the entry is not
      read; for degree 0 the recomputation truncates an already truncated value. */
  lemma NextDirectionNumberSettled(s: seq<int>, poly: seq<int>, degree: nat, i: nat)
    requires WellFormedPolynomial(poly, degree) && degree < Pow3TabSize && degree + 1 <= i <= |s|
    ensures NextDirectionNumber(s[i - 1 := NextDirectionNumber(s, poly, degree, i)], poly, degree, i)
         == NextDirectionNumber(s, poly, degree, i)
  {
    var w := s[i - 1 := NextDirectionNumber(s, poly, degree, i)];
    if degree > 0 {
      NextDirectionNumberLocal(w, s, poly, degree, i);
    } else {
      assert Terms(s, poly, 0, i) == [s[i - 1]];
      assert Terms(w, poly, 0, i) == [w[i - 1]];
      DegreeZeroStepIdempotent(s[i - 1], i);
    }
  }

  lemma StepIsSettled(poly: seq<int>, degree: nat)
    requires WellFormedPolynomial(poly, degree)
    ensures StepSettled(Step(poly, degree), degree)
  {
    forall s: seq<int>, i: nat | degree + 1 <= i <= |s|
      ensures SettledAt(Step(poly, degree), s, i)
    {
      StepSettledAt(poly, degree, s, i);
    }
  }

  lemma StepSettledAt(poly: seq<int>, degree: nat, s: seq<int>, i: nat)
    requires WellFormedPolynomial(poly, degree) && degree + 1 <= i <= |s|
    ensures SettledAt(Step(poly, degree), s, i)
  {
    var step := Step(poly, degree);
    if degree < Pow3TabSize {
      var v := NextDirectionNumber(s, poly, degree, i);
      assert step(s, i) == v;
      var w := s[i - 1 := v];
      assert step(w, i) == NextDirectionNumber(w, poly, degree, i);
      NextDirectionNumberSettled(s, poly, degree, i);
    }
  }

  lemma StepIsBounded(poly: seq<int>, degree: nat)
    requires WellFormedPolynomial(poly, degree)
    ensures StepBounded(Step(poly, degree), degree)
  {
    var step := Step(poly, degree);
    forall s: seq<int>, i: nat |
      degree + 1 <= i <= |s| && (forall k :: 0 <= k < i - 1 ==> s[k] >= 0) && s[i - degree - 1] >= 0
      ensures 0 <= step(s, i) < Pow(3, i)
    {
      if degree < Pow3TabSize {
        NextDirectionNumberBounded(s, poly, degree, i);
      }
    }
  }

  // ---------------------------------------------------------------------------
  // Properties of the direction numbers

  /** Entries written by an earlier position are never rewritten by a later one. */
  lemma DirectionNumbersStable(s: seq<int>, poly: seq<int>, degree: nat, n: nat, n': nat)
    requires WellFormedPolynomial(poly, degree) && n <= n' <= |s|
    ensures forall k :: 0 <= k < n ==>
      DirectionNumbers(s, poly, degree, n')[k] == DirectionNumbers(s, poly, degree, n)[k]
  {
    RecurrenceStable(s, Step(poly, degree), degree, n, n');
  }

  /** The generated prefix depends only on the seed entries 0..degree-1 (every entry
      for degree 0). */
  lemma DirectionNumbersDependOnSeeds(s: seq<int>, t: seq<int>, poly: seq<int>, degree: nat, n: nat)
    requires WellFormedPolynomial(poly, degree) && n <= |s| && n <= |t|
    requires forall k :: 0 <= k < n && (k < degree || degree == 0) ==> s[k] == t[k]
    ensures forall k :: 0 <= k < n ==>
      DirectionNumbers(s, poly, degree, n)[k] == DirectionNumbers(t, poly, degree, n)[k]
  {
    StepIsLocal(poly, degree);
    RecurrenceDependsOnSeeds(s, t, Step(poly, degree), degree, n);
  }

  /** Running the recurrence again on its own output changes nothing, so rebuilding
      from an already extended array is idempotent. */
  lemma DirectionNumbersIdempotent(s: seq<int>, poly: seq<int>, degree: nat, n: nat)
    requires WellFormedPolynomial(poly, degree) && n <= |s|
    ensures DirectionNumbers(DirectionNumbers(s, poly, degree, n), poly, degree, n)
         == DirectionNumbers(s, poly, degree, n)
  {
    StepIsLocal(poly, degree);
    StepIsSettled(poly, degree);
    RecurrenceIdempotent(s, Step(poly, degree), degree, n);
  }

  /** The entries the recurrence reads as seeds are non-negative: entries 0..degree-1,
      or, for degree 0, every entry (each is re-read before it is rewritten). */
  predicate SeedsNonNegative(s: seq<int>, degree: nat, n: nat)
    requires n <= |s|
  {
    forall k :: 0 <= k < n && (k < degree || degree == 0) ==> s[k] >= 0
  }

  /** Bound: with non-negative seeds every entry is non-negative, and entry k written by
      the recurrence (degree <= k < n) has at most k+1 base-3 digits. */
  lemma DirectionNumbersBound(s: seq<int>, poly: seq<int>, degree: nat, n: nat)
    requires WellFormedPolynomial(poly, degree) && n <= |s|
    requires SeedsNonNegative(s, degree, n)
    ensures forall k :: 0 <= k < n ==> DirectionNumbers(s, poly, degree, n)[k] >= 0
    ensures forall k :: degree <= k < n ==> DirectionNumbers(s, poly, degree, n)[k] < Pow(3, k + 1)
  {
    StepIsBounded(poly, degree);
    RecurrenceBound(s, Step(poly, degree), degree, n);
  }

  /** Degree 0: no coefficient terms, so each entry k is only truncated in place to
      k+1 base-3 digits. */
  lemma {:induction false} DegreeZeroTruncates(s: seq<int>, poly: seq<int>, n: nat)
    requires WellFormedPolynomial(poly, 0) && n <= SequenceLength && n <= |s|
    requires forall k :: 0 <= k < n ==> s[k] >= 0
    ensures forall k :: 0 <= k < n ==> DirectionNumbers(s, poly, 0, n)[k] == s[k] % Pow(3, k + 1)
    decreases n
  {
    if n > 0 {
      DegreeZeroTruncates(s, poly, n - 1);
      var prev := DirectionNumbers(s, poly, 0, n - 1);
      DirectionNumbersStep(s, poly, 0, n);
      assert Terms(prev, poly, 0, n) == [s[n - 1]];
      CombineSingle(3, [s[n - 1]], n);
    }
  }

  /** 1 = [1, 0] and 6 = [0, 2] in base 3 sum digit-wise to [1, 2] = 7. */
  lemma CombineOneAndSix(x: int, y: int)
    requires x == 1 && y == 6
    ensures CombineGF(3, [x, y], 2, 1) == 7
  {
    CombineKnownDigits(x, y, [1, 0], [0, 2], [1, 2]);
  }

  /** 7 = [1, 2, 0] and 15 = [0, 2, 1] in base 3 sum digit-wise to [1, 1, 1] = 13. */
  lemma CombineSevenAndFifteen(x: int, y: int)
    requires x == 7 && y == 15
    ensures CombineGF(3, [x, y], 3, 1) == 13
  {
    CombineKnownDigits(x, y, [1, 2, 0], [0, 2, 1], [1, 1, 1]);
  }

  /** With degree 1 the list for position i is entry i-2 and one term. */
  lemma NextOfDegreeOne(s: seq<int>, poly: seq<int>, i: nat)
    requires WellFormedPolynomial(poly, 1) && 2 <= i <= |s|
    ensures NextDirectionNumber(s, poly, 1, i) == CombineGF(3, [s[i - 2], Term(s, poly, 1, i, 1)], i, 1)
  {
    assert Terms(s, poly, 1, i) == [s[i - 2], Term(s, poly, 1, i, 1)];
  }

  /** With degree 1 the single term is 3 times entry i-2 scaled by the negated
      leading coefficient. */
  lemma TermOfDegreeOne(s: seq<int>, poly: seq<int>, i: nat, v: int)
    requires WellFormedPolynomial(poly, 1) && 2 <= i <= |s|
    requires ScaleGF(s[i - 2], ConvertToGF3[poly[0]], 3, SequenceLength) == v
    ensures Term(s, poly, 1, i, 1) == 3 * v
  {
  }

  lemma ScaleOneByTwo(x: int, factor: int)
    requires x == 1 && factor == 2
    ensures ScaleGF(x, factor, 3, SequenceLength) == 2
  {
    assert (1 * factor) % 3 + 3 * ((0 * factor) % 3) == 2;
    ScaleTwoDigits(x, 1, 0, factor, SequenceLength);
  }

  lemma ScaleSevenByTwo(x: int, factor: int)
    requires x == 7 && factor == 2
    ensures ScaleGF(x, factor, 3, SequenceLength) == 5
  {
    assert (1 * factor) % 3 + 3 * ((2 * factor) % 3) == 5;
    ScaleTwoDigits(x, 1, 2, factor, SequenceLength);
  }

  /** Worked example, position 2, with coefficients [1, 0] and seed 1: the term is
      3 * (1 scaled by 2) = 6. */
  lemma WorkedSecondTerm(s: seq<int>, poly: seq<int>)
    requires SequenceLength <= |s| && s[0] == 1 && poly == [1, 0]
    ensures Term(s, poly, 1, 2, 1) == 6
  {
    ScaleOneByTwo(s[0], ConvertToGF3[poly[0]]);
    TermOfDegreeOne(s, poly, 2, 2);
  }

  /** ... and the digit-wise sum of [1, 6] is 7. */
  lemma WorkedSecondNext(s: seq<int>, poly: seq<int>)
    requires SequenceLength <= |s| && s[0] == 1 && poly == [1, 0]
    ensures NextDirectionNumber(s, poly, 1, 2) == 7
  {
    var t := Term(s, poly, 1, 2, 1);
    NextOfDegreeOne(s, poly, 2);
    WorkedSecondTerm(s, poly);
    CombineOneAndSix(s[0], t);
  }

  /** Worked example, position 3: with entry 1 equal to 7 the term is 3 * (7 scaled by 2)
      = 15 ... */
  lemma WorkedThirdTerm(s: seq<int>, poly: seq<int>)
    requires SequenceLength <= |s| && s[1] == 7 && poly == [1, 0]
    ensures Term(s, poly, 1, 3, 1) == 15
  {
    ScaleSevenByTwo(s[1], ConvertToGF3[poly[0]]);
    TermOfDegreeOne(s, poly, 3, 5);
  }

  /** ... and the digit-wise sum of [7, 15] is 13. */
  lemma WorkedThirdNext(s: seq<int>, poly: seq<int>)
    requires SequenceLength <= |s| && s[1] == 7 && poly == [1, 0]
    ensures NextDirectionNumber(s, poly, 1, 3) == 13
  {
    var t := Term(s, poly, 1, 3, 1);
    NextOfDegreeOne(s, poly, 3);
    WorkedThirdTerm(s, poly);
    CombineSevenAndFifteen(s[1], t);
  }

  /** Worked example: degree 1, polynomial code 1 (coefficients [1, 0]) and seed 1
      give the direction numbers 1, 7, 13. */
  lemma WorkedRecurrence(s: seq<int>)
    requires SequenceLength <= |s| && s[0] == 1
    ensures DirectionNumbers(s, Polynomial(1, 1), 1, SequenceLength)[..3] == [1, 7, 13]
  {
    PolynomialOfOne(1, 1);
    WorkedRecurrenceFor(s, Polynomial(1, 1));
  }

  /** Polynomial code 1 of degree 1 has coefficients [1, 0]. */
  lemma PolynomialOfOne(ipolynomial: int, degree: nat)
    requires ipolynomial == 1 && degree == 1
    ensures Polynomial(ipolynomial, degree) == [1, 0]
  {
    var ds := [1, 0];
    assert Value(ds[1..], 3) == 0;
    DigitsOfDigitVector(ipolynomial, ds, 3);
  }

  lemma WorkedRecurrenceFor(s: seq<int>, poly: seq<int>)
    requires SequenceLength <= |s| && s[0] == 1 && poly == [1, 0]
    ensures DirectionNumbers(s, poly, 1, SequenceLength)[..3] == [1, 7, 13]
  {
    DirectionNumbersStep(s, poly, 1, 2);
    assert DirectionNumbers(s, poly, 1, 1) == s;
    WorkedSecondNext(s, poly);
    var s2 := DirectionNumbers(s, poly, 1, 2);
    DirectionNumbersStep(s, poly, 1, 3);
    WorkedThirdNext(s2, poly);
    var s3 := DirectionNumbers(s, poly, 1, 3);
    assert s3[..3] == [1, 7, 13];
    DirectionNumbersStable(s, poly, 1, 3, SequenceLength);
  }

  // ---------------------------------------------------------------------------
  // The in-place loop of the source

  /** Row r of a two-dimensional array, the `int32_t*` that `generateMkGF3` receives. */
  ghost function Row(a: array2<int>, r: int): (s: seq<int>)
    reads a
    requires 0 <= r < a.Length0
    ensures |s| == a.Length1
  {
    seq(a.Length1, k requires 0 <= k < a.Length1 reads a => a[r, k])
  }

  /** The inner loop of `generateMkGF3`: the list for position i, read from row `row`. */
  method CollectTerms(msobol: array2<int>, row: int, polynomial: seq<int>, degree: nat, i: nat)
    returns (lst: seq<int>)
    requires 0 <= row < msobol.Length0 && i <= msobol.Length1
    requires WellFormedPolynomial(polynomial, degree) && degree < Pow3TabSize && degree + 1 <= i
    ensures lst == Terms(Row(msobol, row), polynomial, degree, i)
  {
    ghost var current := Row(msobol, row);
    lst := [msobol[row, i - degree - 1]];
    assert Terms(current, polynomial, degree, i)[..1] == lst;
    var j := 1;
    while j < degree + 1
      invariant 1 <= j <= degree + 1
      invariant lst == Terms(current, polynomial, degree, i)[..j]
    {
      assert msobol[row, i - j - 1] == current[i - j - 1];
      var scaled := MultiplyByFactorInGFN(msobol[row, i - j - 1],
        ConvertToGF3[polynomial[degree - j]], 3, SequenceLength);
      TermsPrefix(current, polynomial, degree, i, j);
      Pow3TabIsPow(j);
      lst := lst + [Pow3Tab[j] * scaled];
      j := j + 1;
    }
  }

  /** One iteration of the outer loop of `generateMkGF3`: entry i-1 of the row becomes
      the combination of the list collected for position i. */
  method WriteNext(msobol: array2<int>, row: int, polynomial: seq<int>, degree: nat, i: nat,
                   ghost seeds: seq<int>)
    requires 0 <= row < msobol.Length0 && SequenceLength <= msobol.Length1
    requires WellFormedPolynomial(polynomial, degree) && degree + 1 <= i <= SequenceLength
    requires |seeds| == msobol.Length1
    requires Row(msobol, row) == DirectionNumbers(seeds, polynomial, degree, i - 1)
    modifies msobol
    ensures Row(msobol, row) == DirectionNumbers(seeds, polynomial, degree, i)
    ensures forall r, k :: 0 <= r < msobol.Length0 && r != row && 0 <= k < msobol.Length1 ==>
      msobol[r, k] == old(msobol[r, k])
  {
    var next := ComputeNext(msobol, row, polynomial, degree, i, seeds);
    WriteEntry(msobol, row, i - 1, next);
  }

  /** `msobol[col] = x` on row `row` of the table. */
  method WriteEntry(msobol: array2<int>, row: int, col: int, x: int)
    requires 0 <= row < msobol.Length0 && 0 <= col < msobol.Length1
    modifies msobol
    ensures Row(msobol, row) == old(Row(msobol, row))[col := x]
    ensures forall r, k :: 0 <= r < msobol.Length0 && r != row && 0 <= k < msobol.Length1 ==>
      msobol[r, k] == old(msobol[r, k])
  {
    ghost var before := Row(msobol, row);
    msobol[row, col] := x;
    RowAfterWrite(msobol, row, col, before, x, before[col := x]);
  }

  /** The value the outer loop of `generateMkGF3` computes for position i: the list of
      terms combined digit-wise. */
  method ComputeNext(msobol: array2<int>, row: int, polynomial: seq<int>, degree: nat, i: nat,
                     ghost seeds: seq<int>)
    returns (next: int)
    requires 0 <= row < msobol.Length0 && SequenceLength <= msobol.Length1
    requires WellFormedPolynomial(polynomial, degree) && degree + 1 <= i <= SequenceLength
    requires |seeds| == msobol.Length1
    requires Row(msobol, row) == DirectionNumbers(seeds, polynomial, degree, i - 1)
    ensures Row(msobol, row)[i - 1 := next] == DirectionNumbers(seeds, polynomial, degree, i)
  {
    var lst := CollectTerms(msobol, row, polynomial, degree, i);
    next := BitXorGFN(3, lst, i, degree);
    DirectionNumbersAdvance(seeds, polynomial, degree, i, Row(msobol, row), next, Row(msobol, row)[i - 1 := next]);
  }

  /** Writing one entry of a row updates that entry of the row's sequence. */
  lemma RowAfterWrite(a: array2<int>, row: int, col: int, before: seq<int>, x: int, after: seq<int>)
    requires 0 <= row < a.Length0 && 0 <= col < a.Length1 && |before| == a.Length1
    requires a[row, col] == x && after == before[col := x]
    requires forall k :: 0 <= k < a.Length1 && k != col ==> a[row, k] == before[k]
    ensures Row(a, row) == after
  {
  }

  /** `generateMkGF3(ipolynomial, polynomialDegree, msobol, 3)` with msobol = row `row`
      of the direction-number table. */
  method GenerateMkGF3(ipolynomial: int, polynomialDegree: int, msobol: array2<int>, row: int)
    requires 0 <= row < msobol.Length0 && SequenceLength <= msobol.Length1
    requires ipolynomial >= 0 && polynomialDegree >= 0
    modifies msobol
    ensures Row(msobol, row) == DirectionNumbers(old(Row(msobol, row)),
      Polynomial(ipolynomial, polynomialDegree), polynomialDegree, SequenceLength)
    ensures forall r :: 0 <= r < msobol.Length0 && r != row ==> Row(msobol, r) == old(Row(msobol, r))
  {
    var polynomial := IntegerDigits(ipolynomial, 3, polynomialDegree + 1);
    assert polynomial == Polynomial(ipolynomial, polynomialDegree);
    RegenerateRow(polynomial, polynomialDegree, msobol, row);
  }

  /** The outer loop of `generateMkGF3`: positions degree+1..10 in increasing order. */
  method RegenerateRow(polynomial: seq<int>, polynomialDegree: nat, msobol: array2<int>, row: int)
    requires 0 <= row < msobol.Length0 && SequenceLength <= msobol.Length1
    requires WellFormedPolynomial(polynomial, polynomialDegree)
    modifies msobol
    ensures Row(msobol, row) == DirectionNumbers(old(Row(msobol, row)), polynomial, polynomialDegree, SequenceLength)
    ensures forall r :: 0 <= r < msobol.Length0 && r != row ==> Row(msobol, r) == old(Row(msobol, r))
  {
    ghost var seeds := Row(msobol, row);
    var i := polynomialDegree + 1;
    while i <= SequenceLength
      invariant polynomialDegree + 1 <= i
      invariant i <= SequenceLength + 1 || i == polynomialDegree + 1
      invariant Row(msobol, row) == DirectionNumbers(seeds, polynomial, polynomialDegree,
        if i - 1 <= SequenceLength then i - 1 else SequenceLength)
      invariant forall r, k :: 0 <= r < msobol.Length0 && r != row && 0 <= k < msobol.Length1 ==>
        msobol[r, k] == old(msobol[r, k])
    {
      WriteNext(msobol, row, polynomial, polynomialDegree, i, seeds);
      i := i + 1;
    }
    forall r | 0 <= r < msobol.Length0 && r != row
      ensures Row(msobol, r) == old(Row(msobol, r))
    {
    }
  }
}
