/** The generator matrices of src/qolds_builder.cpp: `fillMatrix` writes the base-3
    digits of direction number c into column c, most significant digit on top, and
    `buildMatrices` flattens the top-left m x m block of every matrix, row by row. */
module GeneratorMatrices {
  import opened QoldsTables
  import opened DigitCodec

  /** A matrix as nested rows, the `std::vector<std::vector<int32_t>>` of the source. */
  type Matrix = seq<seq<int>>

  predicate IsSquare(g: Matrix, n: nat)
  {
    |g| == n && forall r :: 0 <= r < n ==> |g[r]| == n
  }

  /** Entry (r, c): digit c-r of col[c] over c+1 digits on and above the diagonal, the
      zero of the freshly allocated matrix below it. */
  function Entry(col: seq<int>, r: nat, c: nat): int
    requires c < |col|
  {
    if r <= c then Digits(col[c], 3, c + 1)[c - r] else 0
  }

  /** The 20 x 20 matrix that `fillMatrix` leaves in a zeroed matrix, from the direction
      numbers col[0..19] of one dimension. */
  function GeneratorMatrix(col: seq<int>): (g: Matrix)
    requires MatrixSize <= |col|
    ensures IsSquare(g, MatrixSize)
  {
    seq(MatrixSize, r requires 0 <= r < MatrixSize =>
      seq(MatrixSize, c requires 0 <= c < MatrixSize => Entry(col, r, c)))
  }

  /** Column c read from the diagonal upwards: the least significant digit first. */
  function ColumnDigits(g: Matrix, c: nat): (ds: seq<int>)
    requires IsSquare(g, MatrixSize) && c < MatrixSize
    ensures |ds| == c + 1
  {
    seq(c + 1, j requires 0 <= j < c + 1 => g[c - j][c])
  }

  /** Below the diagonal every entry is zero. */
  lemma GeneratorMatrixUpperTriangular(col: seq<int>, r: nat, c: nat)
    requires MatrixSize <= |col| && c < r < MatrixSize
    ensures GeneratorMatrix(col)[r][c] == 0
  {
  }

  /** Reading column c upwards from the diagonal gives back the c+1 digits of col[c]. */
  lemma ColumnDigitsAreDigits(col: seq<int>, c: nat)
    requires MatrixSize <= |col| && c < MatrixSize
    ensures ColumnDigits(GeneratorMatrix(col), c) == Digits(col[c], 3, c + 1)
  {
    var g := GeneratorMatrix(col);
    forall j | 0 <= j < c + 1
      ensures ColumnDigits(g, c)[j] == Digits(col[c], 3, c + 1)[j]
    {
      assert g[c - j][c] == Entry(col, c - j, c);
    }
  }

  /** For non-negative direction numbers every entry is a GF(3) element. */
  lemma GeneratorMatrixEntriesAreDigits(col: seq<int>, r: nat, c: nat)
    requires MatrixSize <= |col| && r < MatrixSize && c < MatrixSize && col[c] >= 0
    ensures 0 <= GeneratorMatrix(col)[r][c] < 3
  {
    DigitsRange(col[c], 3, c + 1);
  }

  /** The diagonal holds the lowest digit: col[c] reduced with C++ `%`, which is
      col[c] mod 3 for a non-negative direction number. */
  lemma GeneratorMatrixDiagonal(col: seq<int>, c: nat)
    requires MatrixSize <= |col| && c < MatrixSize
    ensures GeneratorMatrix(col)[c][c] == TruncMod(col[c], 3)
    ensures col[c] >= 0 ==> GeneratorMatrix(col)[c][c] == col[c] % 3
  {
    TruncDivMod(col[c], 3);
  }

  /** Column c denotes col[c] mod 3^(c+1): the matrix keeps exactly the c+1 low digits. */
  lemma GeneratorMatrixColumnValue(col: seq<int>, c: nat)
    requires MatrixSize <= |col| && c < MatrixSize && col[c] >= 0
    ensures Value(ColumnDigits(GeneratorMatrix(col), c), 3) == col[c] % Pow(3, c + 1)
  {
    ColumnDigitsAreDigits(col, c);
    ValueOfDigits(col[c], 3, c + 1);
  }

  /** ... and a direction number below 3^(c+1) is recovered exactly. */
  lemma GeneratorMatrixColumnRoundTrip(col: seq<int>, c: nat)
    requires MatrixSize <= |col| && c < MatrixSize && 0 <= col[c] < Pow(3, c + 1)
    ensures Value(ColumnDigits(GeneratorMatrix(col), c), 3) == col[c]
  {
    ColumnDigitsAreDigits(col, c);
    RoundTrip(col[c], 3, c + 1);
  }

  /** A column whose direction number has the known digit vector ds. */
  lemma KnownColumn(col: seq<int>, c: nat, ds: seq<int>)
    requires MatrixSize <= |col| && c < MatrixSize && |ds| == c + 1
    requires IsDigitVector(ds, 3) && Value(ds, 3) == col[c]
    ensures forall r :: 0 <= r <= c ==> GeneratorMatrix(col)[r][c] == ds[c - r]
  {
    DigitsOfDigitVector(col[c], ds, 3);
    forall r | 0 <= r <= c
      ensures GeneratorMatrix(col)[r][c] == ds[c - r]
    {
      assert GeneratorMatrix(col)[r][c] == Entry(col, r, c);
    }
  }

  /** The top-left block for the direction numbers 1, 7, 13 (base 3: 1, 21, 111). */
  lemma WorkedMatrix(col: seq<int>)
    requires MatrixSize <= |col| && col[0] == 1 && col[1] == 7 && col[2] == 13
    ensures var g := GeneratorMatrix(col);
      g[0][0] == 1 && g[0][1] == 2 && g[0][2] == 1 &&
      g[1][0] == 0 && g[1][1] == 1 && g[1][2] == 1 &&
      g[2][0] == 0 && g[2][1] == 0 && g[2][2] == 1
  {
    KnownColumn(col, 0, [1]);
    KnownColumn(col, 1, [1, 2]);
    KnownColumn(col, 2, [1, 1, 1]);
    GeneratorMatrixUpperTriangular(col, 1, 0);
    GeneratorMatrixUpperTriangular(col, 2, 0);
    GeneratorMatrixUpperTriangular(col, 2, 1);
  }

  // ---------------------------------------------------------------------------
  // Flattening for upload

  /** Rows 0..rows-1 of the top-left m x m block of g, concatenated. */
  function BlockRows(g: Matrix, m: nat, rows: nat): (b: seq<int>)
    requires rows <= |g| && forall r :: 0 <= r < rows ==> m <= |g[r]|
    decreases rows
  {
    if rows == 0 then [] else BlockRows(g, m, rows - 1) + g[rows - 1][..m]
  }

  /** The m x m block of g in row-major order. */
  function Block(g: Matrix, m: nat): seq<int>
    requires m <= |g| && forall r :: 0 <= r < m ==> m <= |g[r]|
  {
    BlockRows(g, m, m)
  }

  /** Every matrix is at least m x m. */
  predicate AllAtLeast(mats: seq<Matrix>, m: nat)
  {
    forall d :: 0 <= d < |mats| ==> m <= |mats[d]| && forall r :: 0 <= r < m ==> m <= |mats[d][r]|
  }

  /** The blocks of all matrices, one after another: `m_flattenedMatrices`. */
  function Flatten(mats: seq<Matrix>, m: nat): seq<int>
    requires AllAtLeast(mats, m)
    decreases |mats|
  {
    if mats == [] then [] else Flatten(mats[..|mats| - 1], m) + Block(mats[|mats| - 1], m)
  }

  lemma MulStep(a: int, m: int)
    ensures (a + 1) * m == a * m + m
  {
  }

  /** Row r, column c of the block sits at r * m + c. */
  lemma {:induction false} BlockRowsLayout(g: Matrix, m: nat, rows: nat, r: nat, c: nat)
    requires rows <= |g| && forall r' :: 0 <= r' < rows ==> m <= |g[r']|
    requires r < rows && c < m
    ensures |BlockRows(g, m, rows)| == rows * m
    ensures r * m + c < rows * m && BlockRows(g, m, rows)[r * m + c] == g[r][c]
    decreases rows
  {
    BlockRowsLength(g, m, rows - 1);
    MulStep(rows - 1, m);
    if r < rows - 1 {
      BlockRowsLayout(g, m, rows - 1, r, c);
    } else {
      assert r * m + c - (rows - 1) * m == c;
    }
  }

  lemma {:induction false} BlockRowsLength(g: Matrix, m: nat, rows: nat)
    requires rows <= |g| && forall r :: 0 <= r < rows ==> m <= |g[r]|
    ensures |BlockRows(g, m, rows)| == rows * m
    decreases rows
  {
    if rows > 0 {
      BlockRowsLength(g, m, rows - 1);
      MulStep(rows - 1, m);
    }
  }

  lemma {:induction false} FlattenLength(mats: seq<Matrix>, m: nat)
    requires AllAtLeast(mats, m)
    ensures |Flatten(mats, m)| == |mats| * (m * m)
    decreases |mats|
  {
    if mats != [] {
      var n := |mats| - 1;
      assert AllAtLeast(mats[..n], m);
      FlattenLength(mats[..n], m);
      BlockRowsLength(mats[n], m, m);
      MulStep(n, m * m);
    }
  }

  /** Position of entry (r, c) of matrix d in the `[D][m][m]` row-major layout. */
  function Offset(m: nat, d: nat, r: nat, c: nat): nat
  {
    d * (m * m) + r * m + c
  }

  /** Entry (r, c) of matrix d sits at d * m^2 + r * m + c of the flattened data,
      the `[D][m][m]` row-major layout the header promises. */
  lemma {:induction false} FlattenLayout(mats: seq<Matrix>, m: nat, d: nat, r: nat, c: nat)
    requires AllAtLeast(mats, m) && d < |mats| && r < m && c < m
    ensures |Flatten(mats, m)| == |mats| * (m * m)
    ensures Offset(m, d, r, c) < |Flatten(mats, m)|
    ensures Flatten(mats, m)[Offset(m, d, r, c)] == mats[d][r][c]
    decreases |mats|
  {
    FlattenLength(mats, m);
    var n := |mats| - 1;
    assert AllAtLeast(mats[..n], m);
    FlattenLength(mats[..n], m);
    BlockRowsLayout(mats[d], m, m, r, c);
    MulStep(n, m * m);
    if d < n {
      FlattenLayout(mats[..n], m, d, r, c);
      assert mats[..n][d] == mats[d];
      MulStep(d, m * m);
      MulMonotoneNat(d + 1, n, m * m);
    } else {
      assert d * (m * m) + r * m + c - n * (m * m) == r * m + c;
    }
  }

  lemma MulMonotoneNat(x: nat, y: nat, k: nat)
    requires x <= y
    ensures x * k <= y * k
  {
  }
}
