/** Constants and lookup tables of the QOLDS generator-matrix builder
    (src/qolds_builder.hpp). */
module QoldsTables {

  /** Number of slots in the per-dimension initialisation tables. */
  const MaxDimensions: int := 48
  /** Number of direction numbers generated per dimension; 3^10 = 59049 points. */
  const SequenceLength: int := 10
  /** Side of the square matrix that each dimension's column data is written into. */
  const MatrixSize: int := 20

  /** `pow3Tab`: the powers of three from 3^0 to 3^20, as the header lists them. */
  const Pow3Tab: seq<int> := [1, 3, 9, 27, 81, 243, 729, 2187, 6561, 19683, 59049,
    177147, 531441, 1594323, 4782969, 14348907, 43046721, 129140163, 387420489,
    1162261467, 3486784401]

  /** Number of entries of `pow3Tab`, the 21 of its declaration. It is the length of
      `Pow3Tab` (`Pow3TabSizeIsLength`), written as a literal so that index bounds do not
      make the verifier evaluate the length of the table literal. */
  const Pow3TabSize: int := 21

  lemma Pow3TabSizeIsLength()
    ensures Pow3TabSize == |Pow3Tab|
  {
  }

  /** `convertToGF3`: the GF(3) negation table. */
  const ConvertToGF3: seq<int> := [0, 2, 1]

  /** b^k on unbounded integers. */
  function Pow(b: int, k: nat): (r: int)
    ensures b > 0 ==> r > 0
  {
    if k == 0 then 1 else b * Pow(b, k - 1)
  }

  lemma {:induction false} PowMonotone(b: int, j: nat, k: nat)
    requires b > 0 && j <= k
    ensures Pow(b, j) <= Pow(b, k)
  {
    if j < k {
      PowMonotone(b, j, k - 1);
    }
  }

  /** Every entry of `pow3Tab` is the matching power of three. */
  lemma {:induction false} Pow3TabIsPow(k: nat)
    requires k < Pow3TabSize
    ensures k < |Pow3Tab| && Pow3Tab[k] == Pow(3, k)
  {
    if k > 0 {
      Pow3TabIsPow(k - 1);
      Pow3TabStep(k);
    }
  }

  /** Each entry of `pow3Tab` is three times the one before it. */
  lemma Pow3TabStep(k: nat)
    requires 0 < k < Pow3TabSize
    ensures k < |Pow3Tab| && Pow3Tab[k] == 3 * Pow3Tab[k - 1]
  {
  }

  /** `convertToGF3[v]` is the additive inverse of v in GF(3), and negating twice is the identity. */
  lemma ConvertToGF3IsNegation(v: int)
    requires 0 <= v < 3
    ensures 0 <= ConvertToGF3[v] < 3
    ensures (v + ConvertToGF3[v]) % 3 == 0
    ensures ConvertToGF3[ConvertToGF3[v]] == v
    ensures ConvertToGF3[v] == (3 - v) % 3
  {
  }
}
