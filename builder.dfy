/** `QOLDSBuilder` of src/qolds_builder.hpp and src/qolds_builder.cpp: the object that
    holds the per-dimension initialisation tables, regenerates the direction numbers in
    place, and keeps the generated matrices, their flattened upload form and the
    scrambling seeds. */
module QoldsBuilderClass {
  import opened QoldsTables
  import opened DigitCodec
  import opened DirectionNumberGeneration
  import opened GeneratorMatrices

  newtype uint32 = x: int | 0 <= x < 0x1_0000_0000

  /** Width of each row of `m_sobol_mk`. */
  const MkColumns: int := 32

  /** The range `buildMatrices` is meant to accept: at least one dimension, every
      dimension d (1-based) a valid row of the 48-row tables, and 1..10 digits. */
  predicate Accepts(dimensions: int, digits: int)
  {
    1 <= dimensions < MaxDimensions && 1 <= digits <= SequenceLength
  }

  /** The guard as the source writes it: `dimensions > QOLDS_MAX_DIMENSIONS` rejects,
      so 48 itself passes. */
  predicate AcceptsAsWritten(dimensions: int, digits: int)
  {
    !(dimensions < 1 || dimensions > MaxDimensions) && !(digits < 1 || digits > SequenceLength)
  }

  /** The written guard lets dimensions = 48 through, and the loop of `buildMatrices`
      then reads row 48 of tables that have rows 0..47 only. */
  lemma AsWrittenAdmitsMissingRow(dimensions: int, digits: int)
    requires dimensions == MaxDimensions && digits == 1
    ensures AcceptsAsWritten(dimensions, digits)
    ensures !(dimensions < MaxDimensions)
  {
  }

  /** The corrected guard is the written one minus exactly that value. */
  lemma AcceptsIsAsWrittenWithoutLastRow(dimensions: int, digits: int)
    ensures Accepts(dimensions, digits) <==> AcceptsAsWritten(dimensions, digits) && dimensions != MaxDimensions
  {
  }

  /** The seed `std::default_random_engine` is constructed with: the master seed, or a
      hardware seed when the master seed is 0. */
  function EffectiveSeed(masterSeed: uint32, deviceSeed: uint32): (seed: uint32)
    ensures masterSeed != 0 ==> seed == masterSeed
    ensures masterSeed == 0 ==> seed == deviceSeed
  {
    if masterSeed == 0 then deviceSeed else masterSeed
  }

  /** A non-zero master seed makes the scrambling seeds reproducible: the hardware seed
      does not matter. */
  lemma SeedsReproducible(masterSeed: uint32, device1: uint32, device2: uint32,
                          engine: (uint32, nat) -> uint32, count: nat)
    requires masterSeed != 0
    ensures ScrambleSeeds(count, EffectiveSeed(masterSeed, device1), engine)
         == ScrambleSeeds(count, EffectiveSeed(masterSeed, device2), engine)
  {
  }

  /** The first count outputs of the engine started from seed. */
  function ScrambleSeeds(count: nat, seed: uint32, engine: (uint32, nat) -> uint32): (r: seq<uint32>)
    ensures |r| == count
  {
    seq(count, k requires 0 <= k < count => engine(seed, k))
  }

  /** Drawing one more seed appends the engine's next output. */
  lemma ScrambleSeedsSnoc(count: nat, seed: uint32, engine: (uint32, nat) -> uint32)
    ensures ScrambleSeeds(count + 1, seed, engine) == ScrambleSeeds(count, seed, engine) + [engine(seed, count)]
  {
    var longer, shorter := ScrambleSeeds(count + 1, seed, engine), ScrambleSeeds(count, seed, engine);
    forall k | 0 <= k < count + 1
      ensures longer[k] == (shorter + [engine(seed, count)])[k]
    {
    }
  }

  /** Every matrix is 20 x 20. */
  predicate AllSquare(mats: seq<Matrix>)
  {
    forall d :: 0 <= d < |mats| ==> IsSquare(mats[d], MatrixSize)
  }

  lemma AllSquareAtLeast(mats: seq<Matrix>, m: nat)
    requires AllSquare(mats) && m <= MatrixSize
    ensures AllAtLeast(mats, m)
  {
    forall d | 0 <= d < |mats|
      ensures m <= |mats[d]| && forall r :: 0 <= r < m ==> m <= |mats[d][r]|
    {
      assert IsSquare(mats[d], MatrixSize);
    }
  }

  /** The rows of the direction-number table. */
  ghost function Rows(mk: array2<int>): (rs: seq<seq<int>>)
    reads mk
    ensures |rs| == mk.Length0 && forall k :: 0 <= k < mk.Length0 ==> rs[k] == Row(mk, k)
  {
    seq(mk.Length0, k requires 0 <= k < mk.Length0 reads mk => Row(mk, k))
  }

  /** A row after `generateMkGF3(aj, sj, row, 3)`: the recurrence of degree sj (the count
      the source passes as the degree) over the coefficients of aj. */
  ghost function Regenerated(row: seq<int>, aj: int, sj: int): seq<int>
    requires aj >= 0 && sj >= 0 && SequenceLength <= |row|
  {
    DirectionNumbers(row, Polynomial(aj, sj), sj, SequenceLength)
  }

  /** A two-dimensional array read as nested rows: the copy `push_back` makes. */
  function Grid(a: array2<int>): (g: Matrix)
    reads a
    ensures |g| == a.Length0 && forall r :: 0 <= r < a.Length0 ==> |g[r]| == a.Length1
    ensures forall r, c :: 0 <= r < a.Length0 && 0 <= c < a.Length1 ==> g[r][c] == a[r, c]
  {
    seq(a.Length0, r requires 0 <= r < a.Length0 reads a =>
      seq(a.Length1, c requires 0 <= c < a.Length1 reads a => a[r, c]))
  }

  class QoldsBuilder {
    var dimensions: int
    var digits: int
    /** `m_sobol_dj`, `m_sobol_sj`, `m_sobol_aj`: polynomial degree, number of given
        direction numbers, polynomial code; never written after loading. */
    const sobolDj: array<int>
    const sobolSj: array<int>
    const sobolAj: array<int>
    /** `m_sobol_mk`: the direction numbers, regenerated in place by every build. */
    const sobolMk: array2<int>
    var matrices: seq<Matrix>
    var flattened: seq<int>
    var seeds: seq<uint32>

    /** The tables have the header's shapes and hold non-negative codes and counts in
        rows 1..47, the rows the loader fills and the builder reads; row 0 is unused. */
    ghost predicate TablesValid()
      reads sobolSj, sobolAj
    {
      sobolDj.Length == MaxDimensions && sobolSj.Length == MaxDimensions &&
      sobolAj.Length == MaxDimensions &&
      sobolMk.Length0 == MaxDimensions && sobolMk.Length1 == MkColumns &&
      (forall d :: 1 <= d < MaxDimensions ==> sobolSj[d] >= 0 && sobolAj[d] >= 0)
    }

    /** ... and the built data agree with each other: one matrix per dimension, and the
        upload data are the flattened digits x digits blocks. */
    ghost predicate Valid()
      reads this, sobolSj, sobolAj
    {
      TablesValid() &&
      0 <= dimensions < MaxDimensions && 0 <= digits <= SequenceLength &&
      |matrices| == dimensions && AllSquare(matrices) &&
      AllAtLeast(matrices, digits) && flattened == Flatten(matrices, digits)
    }

    /** A builder over tables as `loadInitData` leaves them; nothing is built yet. */
    constructor (dj: array<int>, sj: array<int>, aj: array<int>, mk: array2<int>)
      requires dj.Length == MaxDimensions && sj.Length == MaxDimensions && aj.Length == MaxDimensions
      requires mk.Length0 == MaxDimensions && mk.Length1 == MkColumns
      requires forall d :: 1 <= d < MaxDimensions ==> sj[d] >= 0 && aj[d] >= 0
      ensures Valid()
      ensures sobolDj == dj && sobolSj == sj && sobolAj == aj && sobolMk == mk
      ensures dimensions == 0 && digits == 0
      ensures matrices == [] && flattened == [] && seeds == []
    {
      sobolDj, sobolSj, sobolAj, sobolMk := dj, sj, aj, mk;
      dimensions, digits := 0, 0;
      matrices, flattened, seeds := [], [], [];
    }

    /** `fillMatrix(sobolMkIndex, matrix)`: column i receives the i+1 digits of
        direction number i, the least significant at row i; entries below the diagonal
        keep their value. */
    method FillMatrix(sobolMkIndex: int, matrix: array2<int>)
      requires TablesValid() && 0 <= sobolMkIndex < MaxDimensions
      requires matrix.Length0 == MatrixSize && matrix.Length1 == MatrixSize && matrix != sobolMk
      modifies matrix
      ensures forall r, c :: 0 <= r < MatrixSize && 0 <= c < MatrixSize ==>
        matrix[r, c] == if r <= c then Digits(sobolMk[sobolMkIndex, c], 3, c + 1)[c - r] else old(matrix[r, c])
    {
      var i := 0;
      while i < MatrixSize
        invariant 0 <= i <= MatrixSize
        invariant forall r, c :: 0 <= r < MatrixSize && 0 <= c < i ==>
          matrix[r, c] == if r <= c then Digits(sobolMk[sobolMkIndex, c], 3, c + 1)[c - r] else old(matrix[r, c])
        invariant forall r, c :: 0 <= r < MatrixSize && i <= c < MatrixSize ==> matrix[r, c] == old(matrix[r, c])
      {
        var val := sobolMk[sobolMkIndex, i];
        var len := i + 1;
        var ds := IntegerDigits(val, 3, len);
        var j := 0;
        while j < len
          invariant 0 <= j <= len
          invariant forall r, c :: 0 <= r < MatrixSize && 0 <= c < i ==>
            matrix[r, c] == if r <= c then Digits(sobolMk[sobolMkIndex, c], 3, c + 1)[c - r] else old(matrix[r, c])
          invariant forall r, c :: 0 <= r < MatrixSize && i < c < MatrixSize ==> matrix[r, c] == old(matrix[r, c])
          invariant forall r :: 0 <= r < MatrixSize ==>
            matrix[r, i] == if len - j <= r < len then ds[i - r] else old(matrix[r, i])
        {
          matrix[len - j - 1, i] := ds[j];
          j := j + 1;
        }
        i := i + 1;
      }
    }

    /** `buildMatrices(dimensions, digits)` with the corrected guard: a rejected request
        changes nothing; otherwise rows 1..dimensions of the direction-number table are
        regenerated in place, one 20 x 20 matrix per dimension is kept, and the top-left
        digits x digits blocks are flattened in order. */
    method BuildMatrices(dims: int, m: int)
      requires Valid()
      modifies this, sobolMk
      ensures Valid()
      ensures !Accepts(dims, m) ==> unchanged(this) && unchanged(sobolMk)
      ensures Accepts(dims, m) ==> dimensions == dims && digits == m && seeds == old(seeds)
      ensures Accepts(dims, m) ==> forall d :: 1 <= d <= dims ==>
        Row(sobolMk, d) == Regenerated(old(Row(sobolMk, d)), sobolAj[d], sobolSj[d])
      ensures forall d :: 0 <= d < MaxDimensions && !(1 <= d <= dims) ==>
        Row(sobolMk, d) == old(Row(sobolMk, d))
      ensures Accepts(dims, m) ==> forall d :: 0 <= d < dims ==>
        matrices[d] == GeneratorMatrix(Row(sobolMk, d + 1))
    {
      if Accepts(dims, m) {
        BuildAccepted(dims, m);
      }
    }

    /** `buildMatrices` past its guard. */
    method BuildAccepted(dims: int, m: int)
      requires Valid() && Accepts(dims, m)
      modifies this, sobolMk
      ensures Valid()
      ensures dimensions == dims && digits == m && seeds == old(seeds)
      ensures forall d :: 1 <= d <= dims ==>
        Row(sobolMk, d) == Regenerated(old(Row(sobolMk, d)), sobolAj[d], sobolSj[d])
      ensures forall d :: 0 <= d < MaxDimensions && !(1 <= d <= dims) ==>
        Row(sobolMk, d) == old(Row(sobolMk, d))
      ensures forall d :: 0 <= d < dims ==> matrices[d] == GeneratorMatrix(Row(sobolMk, d + 1))
    {
      ghost var initial := Rows(sobolMk);
      BuildAllDimensions(dims, m);
      dimensions := dims;
      digits := m;
      ghost var rows := Rows(sobolMk);
      BuiltAll(rows, initial, sobolAj[..], sobolSj[..], matrices, dims);
      forall d | 0 <= d < MaxDimensions
        ensures Row(sobolMk, d) == rows[d] && old(Row(sobolMk, d)) == initial[d]
      {
      }
    }

    /** The clearing of the results and the loop of `buildMatrices` over dimensions
        1..dims. */
    method BuildAllDimensions(dims: int, m: int)
      requires TablesValid() && Accepts(dims, m)
      modifies this`matrices, this`flattened, sobolMk
      ensures AllSquare(matrices) && AllAtLeast(matrices, m) && flattened == Flatten(matrices, m)
      ensures Built(Rows(sobolMk), old(Rows(sobolMk)), sobolAj[..], sobolSj[..], matrices, dims + 1)
    {
      matrices := [];
      flattened := [];
      ghost var initial := Rows(sobolMk);
      BuiltNothing(initial, sobolAj[..], sobolSj[..]);
      var d := 1;
      while d <= dims
        invariant 1 <= d <= dims + 1
        invariant AllSquare(matrices) && AllAtLeast(matrices, m)
        invariant flattened == Flatten(matrices, m)
        invariant Built(Rows(sobolMk), initial, sobolAj[..], sobolSj[..], matrices, d)
        modifies this`matrices, this`flattened, sobolMk
      {
        ghost var rows := Rows(sobolMk);
        ghost var mats := matrices;
        BuildDimension(d, m, rows[d]);
        BuiltStep(rows, Rows(sobolMk), initial, sobolAj[..], sobolSj[..], mats, matrices, d);
        d := d + 1;
      }
    }

    /** `generateScrambleSeeds(masterSeed)`: one seed per dimension of the last accepted
        build, drawn in order from an engine seeded with the master seed, or with the
        hardware seed deviceSeed when the master seed is 0. The engine's k-th output
        from a given seed is engine(seed, k). */
    method GenerateScrambleSeeds(masterSeed: uint32, deviceSeed: uint32, engine: (uint32, nat) -> uint32)
      requires Valid()
      modifies this`seeds
      ensures Valid()
      ensures seeds == ScrambleSeeds(dimensions, EffectiveSeed(masterSeed, deviceSeed), engine)
      ensures |seeds| == dimensions
    {
      seeds := [];
      var seed := if masterSeed == 0 then deviceSeed else masterSeed;
      var d := 0;
      while d < dimensions
        invariant 0 <= d <= dimensions
        invariant seeds == ScrambleSeeds(d, EffectiveSeed(masterSeed, deviceSeed), engine)
      {
        ScrambleSeedsSnoc(d, seed, engine);
        seeds := seeds + [engine(seed, d)];
        d := d + 1;
      }
    }

    /** `getMatrixData()`: the digits x digits blocks of the matrices, flattened in
        order (FlattenLayout places each entry), so dimensions * digits^2 values. */
    function GetMatrixData(): (r: seq<int>)
      reads this, sobolSj, sobolAj
      requires Valid()
      ensures r == Flatten(matrices, digits)
      ensures |r| == dimensions * (digits * digits)
    {
      FlattenLength(matrices, digits);
      flattened
    }

    /** `getScrambleSeeds()`. */
    function GetScrambleSeeds(): (r: seq<uint32>)
      reads this
      ensures r == seeds
    {
      seeds
    }

    /** `getDimensions()`: one matrix per dimension, at most 47 of them. */
    function GetDimensions(): (r: int)
      reads this, sobolSj, sobolAj
      requires Valid()
      ensures 0 <= r < MaxDimensions && r == |matrices|
    {
      dimensions
    }

    /** `getDigits()`: the block size m, at most 10. */
    function GetDigits(): (r: int)
      reads this, sobolSj, sobolAj
      requires Valid()
      ensures r == digits
      ensures 0 <= r <= SequenceLength && AllAtLeast(matrices, r)
    {
      digits
    }

    /** `getMaxPoints()`: 3^digits, exact for every digit count the builder accepts. */
    function GetMaxPoints(): (r: int)
      reads this, sobolSj, sobolAj
      requires Valid()
      ensures r == Pow(3, digits) && r >= 1
    {
      Pow3TabIsPow(digits);
      Pow3Tab[digits]
    }

    /** One iteration of the loop of `buildMatrices`: regenerate row d of the
        direction-number table, fill a fresh matrix from it, keep the matrix and append
        its flattened block. */
    method BuildDimension(d: int, m: int, ghost start: seq<int>)
      requires TablesValid() && 1 <= d < MaxDimensions && 1 <= m <= SequenceLength
      requires Row(sobolMk, d) == start
      requires AllSquare(matrices) && AllAtLeast(matrices, m) && flattened == Flatten(matrices, m)
      modifies this`matrices, this`flattened, sobolMk
      ensures Row(sobolMk, d) == Regenerated(start, sobolAj[d], sobolSj[d])
      ensures forall k :: 0 <= k < MaxDimensions && k != d ==> Row(sobolMk, k) == old(Row(sobolMk, k))
      ensures matrices == old(matrices) + [GeneratorMatrix(Regenerated(start, sobolAj[d], sobolSj[d]))]
      ensures AllSquare(matrices) && AllAtLeast(matrices, m) && flattened == Flatten(matrices, m)
    {
      GenerateMkGF3(sobolAj[d], sobolSj[d], sobolMk, d);
      var matrix := new int[MatrixSize, MatrixSize]((r, c) => 0);
      FillMatrix(d, matrix);
      GridIsGeneratorMatrix(matrix, sobolMk, d);
      ghost var before := matrices;
      matrices := matrices + [Grid(matrix)];
      assert matrices[..|matrices| - 1] == before;
      AllSquareAtLeast(matrices, m);
      AppendBlock(matrix, m);
    }

    /** The flattening loops of `buildMatrices` for one matrix: its top-left m x m block
        is appended row by row. */
    method AppendBlock(matrix: array2<int>, m: int)
      requires matrix.Length0 == MatrixSize && matrix.Length1 == MatrixSize && 0 <= m <= MatrixSize
      modifies this`flattened
      ensures flattened == old(flattened) + Block(Grid(matrix), m)
    {
      ghost var g := Grid(matrix);
      ghost var start := flattened;
      var row := 0;
      while row < m
        invariant 0 <= row <= m
        invariant flattened == start + BlockRows(g, m, row)
      {
        var col := 0;
        while col < m
          invariant 0 <= col <= m
          invariant flattened == start + BlockRows(g, m, row) + g[row][..col]
        {
          assert g[row][..col + 1] == g[row][..col] + [matrix[row, col]];
          flattened := flattened + [matrix[row, col]];
          col := col + 1;
        }
        row := row + 1;
      }
    }
  }

  /** After the loop of `buildMatrices` has handled dimensions 1..d-1: those rows are
      regenerated from their initial contents, every other row is untouched, and matrix k
      is the generator matrix of row k+1. */
  ghost predicate Built(rows: seq<seq<int>>, initial: seq<seq<int>>, aj: seq<int>, sj: seq<int>,
                        mats: seq<Matrix>, d: int)
  {
    |rows| == MaxDimensions && |initial| == MaxDimensions && |aj| == MaxDimensions &&
    |sj| == MaxDimensions && 1 <= d <= MaxDimensions && |mats| == d - 1 &&
    (forall k :: 0 <= k < MaxDimensions ==> |rows[k]| == MkColumns && |initial[k]| == MkColumns) &&
    (forall k :: 1 <= k < d ==>
      aj[k] >= 0 && sj[k] >= 0 && rows[k] == Regenerated(initial[k], aj[k], sj[k])) &&
    (forall k :: 0 <= k < MaxDimensions && !(1 <= k < d) ==> rows[k] == initial[k]) &&
    (forall k :: 0 <= k < d - 1 ==> mats[k] == GeneratorMatrix(rows[k + 1]))
  }

  lemma BuiltNothing(initial: seq<seq<int>>, aj: seq<int>, sj: seq<int>)
    requires |initial| == MaxDimensions && |aj| == MaxDimensions && |sj| == MaxDimensions
    requires forall k :: 0 <= k < MaxDimensions ==> |initial[k]| == MkColumns
    ensures Built(initial, initial, aj, sj, [], 1)
  {
  }

  /** One more dimension handled. */
  lemma BuiltStep(rows: seq<seq<int>>, rows': seq<seq<int>>, initial: seq<seq<int>>,
                  aj: seq<int>, sj: seq<int>, mats: seq<Matrix>, mats': seq<Matrix>, d: int)
    requires Built(rows, initial, aj, sj, mats, d) && d < MaxDimensions
    requires aj[d] >= 0 && sj[d] >= 0 && |rows'| == MaxDimensions
    requires rows'[d] == Regenerated(rows[d], aj[d], sj[d])
    requires forall k :: 0 <= k < MaxDimensions && k != d ==> rows'[k] == rows[k]
    requires mats' == mats + [GeneratorMatrix(rows'[d])]
    ensures Built(rows', initial, aj, sj, mats', d + 1)
  {
    forall k | 0 <= k < d
      ensures mats'[k] == GeneratorMatrix(rows'[k + 1])
    {
      if k < d - 1 {
        assert mats'[k] == mats[k];
      }
    }
  }

  /** The state the loop of `buildMatrices` ends in, read back dimension by dimension. */
  lemma BuiltAll(rows: seq<seq<int>>, initial: seq<seq<int>>, aj: seq<int>, sj: seq<int>,
                 mats: seq<Matrix>, dims: int)
    requires 1 <= dims < MaxDimensions && Built(rows, initial, aj, sj, mats, dims + 1)
    ensures forall d :: 1 <= d <= dims ==> rows[d] == Regenerated(initial[d], aj[d], sj[d])
    ensures forall d :: 0 <= d < MaxDimensions && !(1 <= d <= dims) ==> rows[d] == initial[d]
    ensures |mats| == dims && forall d :: 0 <= d < dims ==> mats[d] == GeneratorMatrix(rows[d + 1])
  {
  }

  /** The fresh zero matrix filled from row d of the direction-number table is the
      generator matrix of that row. */
  lemma GridIsGeneratorMatrix(matrix: array2<int>, mk: array2<int>, d: int)
    requires matrix.Length0 == MatrixSize && matrix.Length1 == MatrixSize
    requires 0 <= d < mk.Length0 && MatrixSize <= mk.Length1
    requires forall r, c :: 0 <= r < MatrixSize && 0 <= c < MatrixSize ==>
      matrix[r, c] == if r <= c then Digits(mk[d, c], 3, c + 1)[c - r] else 0
    ensures Grid(matrix) == GeneratorMatrix(Row(mk, d))
  {
    var g, h := Grid(matrix), GeneratorMatrix(Row(mk, d));
    forall r | 0 <= r < MatrixSize
      ensures g[r] == h[r]
    {
      forall c | 0 <= c < MatrixSize
        ensures g[r][c] == h[r][c]
      {
        assert h[r][c] == Entry(Row(mk, d), r, c);
      }
    }
  }
}
