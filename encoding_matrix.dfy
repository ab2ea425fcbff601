/** What fixedVandermond computes, as functions on matrices held as
    sequences of rows, and what is proved about it. */
module EncodingMatrix {
  import opened Errors
  import opened Galois

  type Matrix = seq<seq<Byte>>

  /** Every row has `cols` entries. */
  predicate Shape(M: Matrix, cols: nat) {
    forall i :: 0 <= i < |M| ==> |M[i]| == cols
  }

  predicate IsMatrix(M: Matrix, rows: nat, cols: nat) {
    |M| == rows && Shape(M, cols)
  }

  /** Go's byte(r): the row index truncated to its low eight bits, so it
      repeats every 256 rows. */
  function ByteOf(r: nat): (b: Byte)
    ensures r >= 256 ==> b == ByteOf(r - 256)
  {
    (r % 256) as Byte
  }

  /** The unit row e_k of length `cols`. */
  function Unit(cols: nat, k: nat): (u: seq<Byte>)
    ensures |u| == cols
  {
    seq(cols, j requires 0 <= j < cols => if j == k then 1 else 0)
  }

  /** The rows from 0 to top - 1 (as far as they exist) are unit rows. */
  predicate UnitRowsBelow(M: Matrix, cols: nat, top: nat) {
    forall i :: 0 <= i < |M| && i < top ==> M[i] == Unit(cols, i)
  }

  /** The fill loop: entry (r, c) is galExp(byte(r), c). */
  function Vandermonde(F: Field, rows: nat, cols: nat): (V: Matrix)
    ensures IsMatrix(V, rows, cols)
  {
    seq(rows, r requires 0 <= r < rows =>
      seq(cols, c requires 0 <= c < cols => F.exp(ByteOf(r), c)))
  }

  /** The division loop: column r of every row from r down is divided by
      `factor`; rows above r are not visited. */
  function DivideColumn(F: Field, M: Matrix, cols: nat, r: nat, factor: Byte): (D: Matrix)
    requires Shape(M, cols) && r < cols
    ensures IsMatrix(D, |M|, cols)
  {
    seq(|M|, i requires 0 <= i < |M| =>
      if i < r then M[i] else M[i][r := F.div(M[i][r], factor)])
  }

  /** One pass of the subtraction loop for column c1: every row from r down
      gets `multiplier` times its column-r entry XOR-ed into column c1. */
  function SubtractColumn(F: Field, M: Matrix, cols: nat, r: nat, c1: nat, multiplier: Byte): (S: Matrix)
    requires Shape(M, cols) && r < cols && c1 < cols
    ensures IsMatrix(S, |M|, cols)
  {
    seq(|M|, i requires 0 <= i < |M| =>
      if i < r then M[i] else M[i][c1 := Add(M[i][c1], F.mul(multiplier, M[i][r]))])
  }

  /** The subtraction loop from column c1 on, skipping column r. The
      multiplier of each pass is read from row r just before that pass. */
  function SubtractFrom(F: Field, M: Matrix, cols: nat, r: nat, c1: nat): (S: Matrix)
    requires Shape(M, cols) && r < cols && r < |M| && c1 <= cols
    ensures IsMatrix(S, |M|, cols)
    decreases cols - c1
  {
    if c1 == cols then M
    else if c1 == r then SubtractFrom(F, M, cols, r, c1 + 1)
    else SubtractFrom(F, SubtractColumn(F, M, cols, r, c1, M[r][c1]), cols, r, c1 + 1)
  }

  /** The body of the elimination loop for column r. Reading result[r][r]
      with r >= rows is an index panic; a zero pivot makes the first call of
      the division loop divide by zero. A pivot equal to 1 skips the
      division loop. */
  function Step(F: Field, M: Matrix, cols: nat, r: nat): (res: Result<Matrix>)
    requires Shape(M, cols) && 1 <= r < cols
    ensures res.Success? ==> IsMatrix(res.value, |M|, cols)
  {
    if r >= |M| then Failure(IndexOutOfRange)
    else
      var factor := M[r][r];
      if factor == 0 then Failure(DivisionByZero)
      else
        var D := if factor != 1 then DivideColumn(F, M, cols, r, factor) else M;
        Success(SubtractFrom(F, D, cols, r, 0))
  }

  /** The elimination loop from column r on, stopping at the first failure. */
  function Eliminate(F: Field, M: Matrix, cols: nat, r: nat): (res: Result<Matrix>)
    requires Shape(M, cols) && 1 <= r
    ensures res.Success? ==> IsMatrix(res.value, |M|, cols)
    decreases cols - r
  {
    if r >= cols then Success(M)
    else
      match Step(F, M, cols, r)
      case Failure(e) => Failure(e)
      case Success(S) => Eliminate(F, S, cols, r + 1)
  }

  /** fixedVandermond(rows, cols): fill, then eliminate columns 1 to cols - 1. */
  function SystematicVandermonde(F: Field, rows: nat, cols: nat): (res: Result<Matrix>)
    ensures res.Success? ==> IsMatrix(res.value, rows, cols)
  {
    Eliminate(F, Vandermonde(F, rows, cols), cols, 1)
  }

  // ---------------------------------------------------------------------
  // The fill

  /** Because the row index is truncated to a byte, rows 256 apart coincide. */
  lemma VandermondeRowsRepeat(F: Field, rows: nat, cols: nat, r: nat)
    requires r + 256 < rows
    ensures Vandermonde(F, rows, cols)[r + 256] == Vandermonde(F, rows, cols)[r]
  {
    assert (r + 256) % 256 == r % 256;
    var V := Vandermonde(F, rows, cols);
    forall c | 0 <= c < cols
      ensures V[r + 256][c] == V[r][c]
    {
      assert ByteOf(r + 256) == ByteOf(r);
    }
  }

  /** Row 0 of the filled matrix is already the unit row e_0. */
  lemma VandermondeRowZero(F: Field, rows: nat, cols: nat)
    requires Laws(F) && rows >= 1
    ensures Vandermonde(F, rows, cols)[0] == Unit(cols, 0)
  {
    var V := Vandermonde(F, rows, cols);
    forall c | 0 <= c < cols
      ensures V[0][c] == Unit(cols, 0)[c]
    {
      assert ByteOf(0) == 0;
      if c >= 1 {
        assert F.exp(0, c) == 0;
      }
    }
  }

  // ---------------------------------------------------------------------
  // One elimination step

  /** Skipping the division loop when the pivot is 1 changes nothing:
      dividing by 1 is the identity. */
  lemma DivideByOneIsIdentity(F: Field, M: Matrix, cols: nat, r: nat)
    requires Laws(F) && Shape(M, cols) && r < cols
    ensures DivideColumn(F, M, cols, r, 1) == M
  {
    var D := DivideColumn(F, M, cols, r, 1);
    forall i | 0 <= i < |M|
      ensures D[i] == M[i]
    {
      if i >= r {
        assert F.div(M[i][r], 1) == M[i][r];
        assert M[i][r := M[i][r]] == M[i];
      }
    }
  }

  /** The subtraction loop never writes a row above r, nor column r. */
  lemma {:induction false} SubtractFromFrame(F: Field, M: Matrix, cols: nat, r: nat, c1: nat)
    requires Shape(M, cols) && r < cols && r < |M| && c1 <= cols
    ensures var S := SubtractFrom(F, M, cols, r, c1);
      && (forall i :: 0 <= i < r ==> S[i] == M[i])
      && (forall i :: 0 <= i < |M| ==> S[i][r] == M[i][r])
    decreases cols - c1
  {
    if c1 < cols {
      if c1 == r {
        SubtractFromFrame(F, M, cols, r, c1 + 1);
      } else {
        var M' := SubtractColumn(F, M, cols, r, c1, M[r][c1]);
        SubtractFromFrame(F, M', cols, r, c1 + 1);
      }
    }
  }

  /** With pivot 1, the subtraction loop from column c1 on clears every entry
      of row r from column c1 on except the pivot, and keeps the others. */
  lemma {:induction false} SubtractFromClearsPivotRow(F: Field, M: Matrix, cols: nat, r: nat, c1: nat)
    requires Laws(F) && Shape(M, cols) && r < cols && r < |M| && c1 <= cols
    requires M[r][r] == 1
    ensures var S := SubtractFrom(F, M, cols, r, c1);
      forall j :: 0 <= j < cols ==> S[r][j] == if j == r || j < c1 then M[r][j] else 0
    decreases cols - c1
  {
    if c1 < cols {
      if c1 == r {
        SubtractFromClearsPivotRow(F, M, cols, r, c1 + 1);
      } else {
        var m := M[r][c1];
        var M' := SubtractColumn(F, M, cols, r, c1, m);
        assert M'[r][c1] == 0 by {
          assert F.mul(m, 1) == m;
        }
        assert forall j :: 0 <= j < cols && j != c1 ==> M'[r][j] == M[r][j];
        SubtractFromClearsPivotRow(F, M', cols, r, c1 + 1);
      }
    }
  }

  /** The step fails exactly when the pivot row is missing (index panic) or
      the pivot is zero (division by zero), in that order. */
  lemma StepFailure(F: Field, M: Matrix, cols: nat, r: nat)
    requires Shape(M, cols) && 1 <= r < cols
    ensures Step(F, M, cols, r) == Failure(IndexOutOfRange) <==> r >= |M|
    ensures Step(F, M, cols, r) == Failure(DivisionByZero) <==> r < |M| && M[r][r] == 0
  {
  }

  /** The step for column r leaves every row above r unchanged, and changes
      column r only by dividing it by the pivot. */
  lemma StepFrame(F: Field, M: Matrix, cols: nat, r: nat)
    requires Shape(M, cols) && 1 <= r < cols
    requires Step(F, M, cols, r).Success?
    ensures var S := Step(F, M, cols, r).value;
      && (forall i :: 0 <= i < r ==> S[i] == M[i])
      && (forall i :: r <= i < |M| ==>
            S[i][r] == if M[r][r] == 1 then M[i][r] else F.div(M[i][r], M[r][r]))
  {
    var factor := M[r][r];
    var D := if factor != 1 then DivideColumn(F, M, cols, r, factor) else M;
    SubtractFromFrame(F, D, cols, r, 0);
  }

  /** After the step for column r, row r is the unit row e_r. */
  lemma StepUnitRow(F: Field, M: Matrix, cols: nat, r: nat)
    requires Laws(F) && Shape(M, cols) && 1 <= r < cols
    requires Step(F, M, cols, r).Success?
    ensures Step(F, M, cols, r).value[r] == Unit(cols, r)
  {
    var factor := M[r][r];
    var D := if factor != 1 then DivideColumn(F, M, cols, r, factor) else M;
    assert D[r][r] == 1 by {
      if factor != 1 {
        assert F.div(factor, factor) == 1;
      }
    }
    SubtractFromClearsPivotRow(F, D, cols, r, 0);
    var S := Step(F, M, cols, r).value;
    assert forall j :: 0 <= j < cols ==> S[r][j] == Unit(cols, r)[j];
  }

  // ---------------------------------------------------------------------
  // The whole elimination

  /** The elimination from column r on never changes a row above r; in
      particular row 0 is never written. */
  lemma {:induction false} EliminateKeepsRowsAbove(F: Field, M: Matrix, cols: nat, r: nat)
    requires Shape(M, cols) && 1 <= r
    requires Eliminate(F, M, cols, r).Success?
    ensures forall i :: 0 <= i < r && i < |M| ==> Eliminate(F, M, cols, r).value[i] == M[i]
    decreases cols - r
  {
    if r < cols {
      var S := Step(F, M, cols, r).value;
      StepFrame(F, M, cols, r);
      EliminateKeepsRowsAbove(F, S, cols, r + 1);
    }
  }

  /** If the rows above r are unit rows, the elimination from column r on
      makes every row up to cols - 1 a unit row: a row fixed by its own step
      is never touched by a later one. */
  lemma {:induction false} EliminateUnitRows(F: Field, M: Matrix, cols: nat, r: nat)
    requires Laws(F) && Shape(M, cols) && 1 <= r
    requires Eliminate(F, M, cols, r).Success?
    requires UnitRowsBelow(M, cols, r)
    ensures UnitRowsBelow(Eliminate(F, M, cols, r).value, cols, cols)
    decreases cols - r
  {
    if r < cols {
      var S := Step(F, M, cols, r).value;
      StepFrame(F, M, cols, r);
      StepUnitRow(F, M, cols, r);
      assert UnitRowsBelow(S, cols, r + 1);
      EliminateUnitRows(F, S, cols, r + 1);
    }
  }

  /** Elimination of two or more columns reaches result[cols-1][cols-1], so
      it succeeds only on a matrix with at least cols rows. */
  lemma {:induction false} EliminateNeedsTallMatrix(F: Field, M: Matrix, cols: nat, r: nat)
    requires Shape(M, cols) && 1 <= r < cols
    requires Eliminate(F, M, cols, r).Success?
    ensures cols <= |M|
    decreases cols - r
  {
    var S := Step(F, M, cols, r).value;
    if r + 1 < cols {
      EliminateNeedsTallMatrix(F, S, cols, r + 1);
    }
  }

  /** The systematic property of the encoding matrix: when the construction
      succeeds it has shape rows x cols, and its top cols rows are the
      identity matrix (all of it when cols <= rows, which holds whenever
      cols >= 2). */
  lemma EncodingMatrixIsSystematic(F: Field, rows: nat, cols: nat)
    requires Laws(F)
    requires SystematicVandermonde(F, rows, cols).Success?
    ensures IsMatrix(SystematicVandermonde(F, rows, cols).value, rows, cols)
    ensures UnitRowsBelow(SystematicVandermonde(F, rows, cols).value, cols, cols)
    ensures cols >= 2 ==> cols <= rows
  {
    var V := Vandermonde(F, rows, cols);
    if rows >= 1 {
      VandermondeRowZero(F, rows, cols);
    }
    assert UnitRowsBelow(V, cols, 1);
    EliminateUnitRows(F, V, cols, 1);
    if cols >= 2 {
      EliminateNeedsTallMatrix(F, V, cols, 1);
    }
  }

  // ---------------------------------------------------------------------
  // Rows that wrap around

  /** A row from r down whose column-r entry is 0 passes through the
      subtraction loop unchanged. */
  lemma {:induction false} SubtractFromKeepsZeroPivotRow(F: Field, M: Matrix, cols: nat, r: nat, c1: nat, i: nat)
    requires ZeroLaws(F) && Shape(M, cols) && r < cols && r < |M| && c1 <= cols
    requires i < |M| && M[i][r] == 0
    ensures SubtractFrom(F, M, cols, r, c1)[i] == M[i]
    decreases cols - c1
  {
    if c1 < cols {
      if c1 == r {
        SubtractFromKeepsZeroPivotRow(F, M, cols, r, c1 + 1, i);
      } else {
        var M' := SubtractColumn(F, M, cols, r, c1, M[r][c1]);
        assert M'[i] == M[i] by {
          if i >= r {
            assert F.mul(M[r][c1], 0) == 0;
            assert M[i][c1 := M[i][c1]] == M[i];
          }
        }
        SubtractFromKeepsZeroPivotRow(F, M', cols, r, c1 + 1, i);
      }
    }
  }

  /** Every step keeps a copy of e_0 below the pivot row as it is. */
  lemma StepKeepsRowZeroCopy(F: Field, M: Matrix, cols: nat, r: nat, i: nat)
    requires ZeroLaws(F) && Shape(M, cols) && 1 <= r < cols
    requires Step(F, M, cols, r).Success?
    requires i < |M| && M[i] == Unit(cols, 0)
    ensures Step(F, M, cols, r).value[i] == Unit(cols, 0)
  {
    var factor := M[r][r];
    var D := if factor != 1 then DivideColumn(F, M, cols, r, factor) else M;
    assert D[i] == M[i] by {
      if factor != 1 && i >= r {
        assert F.div(0, factor) == 0;
        assert M[i][r := M[i][r]] == M[i];
      }
    }
    SubtractFromKeepsZeroPivotRow(F, D, cols, r, 0, i);
  }

  /** The elimination keeps every copy of e_0 as it is. */
  lemma {:induction false} EliminateKeepsRowZeroCopy(F: Field, M: Matrix, cols: nat, r: nat, i: nat)
    requires ZeroLaws(F) && Shape(M, cols) && 1 <= r
    requires Eliminate(F, M, cols, r).Success?
    requires i < |M| && M[i] == Unit(cols, 0)
    ensures Eliminate(F, M, cols, r).value[i] == Unit(cols, 0)
    decreases cols - r
  {
    if r < cols {
      StepKeepsRowZeroCopy(F, M, cols, r, i);
      EliminateKeepsRowZeroCopy(F, Step(F, M, cols, r).value, cols, r + 1, i);
    }
  }

  /** With more than 256 rows, byte(256) == byte(0) makes row 256 of the
      encoding matrix a second copy of row 0, so those two shards carry the
      same code row. */
  lemma WrappedRowRepeatsRowZero(F: Field, rows: nat, cols: nat)
    requires Laws(F) && ZeroLaws(F) && rows > 256
    requires SystematicVandermonde(F, rows, cols).Success?
    ensures SystematicVandermonde(F, rows, cols).value[256] == SystematicVandermonde(F, rows, cols).value[0]
  {
    var V := Vandermonde(F, rows, cols);
    VandermondeRowZero(F, rows, cols);
    VandermondeRowsRepeat(F, rows, cols, 0);
    EliminateKeepsRowZeroCopy(F, V, cols, 1, 256);
    EliminateKeepsRowsAbove(F, V, cols, 1);
  }
}
