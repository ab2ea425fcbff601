# raid6_GF: the systematic encoding matrix

This project models how the RAID-6 style erasure code of raid6_GF builds its
encoding matrix, and proves what that construction promises. The code works
over GF(2^8). `NewRaidSystem(dataShards, parityShards)` records the shard
counts and stores `fixedVandermond(dataShards + parityShards, dataShards)` as
the encoding matrix. `fixedVandermond` does three things:

1. It allocates a zero-filled matrix with `buildMatrix`.
2. It fills in a Vandermonde matrix, `result[r][c] = galExp(byte(r), c)`.
3. It runs an in-place Gauss-Jordan elimination on columns, with no row swaps.

The elimination makes the top `dataShards` rows the identity matrix, so the
code is systematic. The same column operations also reach the parity rows
below.

Files:

- `errors.dfy` (module `Errors`): the failures. The Go code has no error
  returns in this part; each failure is one of its run-time panics.
- `galois.dfy` (module `Galois`): the field primitives `galMultiply`,
  `galDivide` and `galExp`. raid6/raid6.go calls them; their definitions
  are not part of this model. The model passes them in as a `Field` value
  and states the laws the construction relies on:
  - `Laws`: `mul(m, 1) == m`; `div(f, f) == 1` for `f != 0`;
    `div(x, 1) == x`; `exp(x, 0) == 1`; `exp(0, c) == 0` for `c >= 1`.
  - `ZeroLaws`: `mul(m, 0) == 0`; `div(0, f) == 0` for `f != 0`.
  - Field addition is XOR. `GalDivide` fails with `DivisionByZero` on a
    zero divisor.
- `encoding_matrix.dfy` (module `EncodingMatrix`): the specification. It
  says what the construction computes, as functions on matrices held as
  sequences of rows: `Vandermonde`, `DivideColumn`, `SubtractColumn`,
  `SubtractFrom`, `Step`, `Eliminate` and `SystematicVandermonde`. The lemmas
  about them are here too.
- `raid6.dfy` (module `Raid6`): the code itself, in place on an
  `array2<bv8>`. It holds `BuildMatrix`, the fill loop, the division and
  subtraction loops, `FixedVandermonde` and `NewRaidSystem`, and the
  `RaidSystem` class for the `raid6` struct. The postconditions of
  `DivideColumnInPlace`, `SubtractColumnInPlace` and `EliminationStep` tie
  the array's new contents to the specification function of its old
  contents. `BuildMatrix` returns a fresh all-zero array. `FillVandermonde`
  leaves the array equal to `Vandermonde` of its dimensions.
  `FixedVandermonde` and `NewRaidSystem` return a fresh array equal to
  `SystematicVandermonde` of their inputs.

Run-time panics of the Go code become `Failure` results:

- Reading `result[r][r]` with `r >= rows` panics. It is `IndexOutOfRange`.
- A zero pivot makes the first call of the division loop divide by zero
  (`galDivide(result[r][r], 0)`). It is `DivisionByZero`.

When the construction succeeds, the top block is the identity. Proving that
needs only the laws above; it does not need the proof that Vandermonde
pivots are non-zero.

## Model

| member | source | states |
|---|---|---|
| `Raid6.BuildMatrix` | raid6/raid6.go:19-25 | a fresh matrix with exactly `rows` rows of `cols` entries, every entry zero |
| `Raid6.FillVandermonde` | raid6/raid6.go:32-36 | afterwards entry (r, c) is `galExp(byte(r), c)` for every row and column, and the shape is unchanged |
| `EncodingMatrix.ByteOf` | raid6/raid6.go:34 | Go's `byte(r)`: the row index truncated to its low eight bits, so its value repeats every 256 rows |
| `Galois.GalDivide` | raid6/raid6.go:48 | the divide of the division loop: fails with DivisionByZero exactly when the divisor is 0; under the field laws dividing by 1 gives the dividend, dividing a non-zero value by itself gives 1, and 0 divided by a non-zero value gives 0 |
| `EncodingMatrix.SystematicVandermonde` | raid6/raid6.go:27-71 | the whole of fixedVandermond: fill, then eliminate columns 1 to cols - 1, stopping at the first panic; on success the result has shape rows x cols |
| `EncodingMatrix.Vandermonde` | raid6/raid6.go:30-36 | the filled matrix has shape rows x cols |
| `EncodingMatrix.VandermondeRowsRepeat` | raid6/raid6.go:32-36 | because `byte(r)` wraps, rows r and r + 256 of the filled matrix are equal |
| `EncodingMatrix.VandermondeRowZero` | raid6/raid6.go:34-41 | under the field laws, row 0 of the filled matrix is already the unit row e_0, which is why the elimination starts at column 1 |
| `EncodingMatrix.DivideColumn` | raid6/raid6.go:46-50 | dividing column r keeps the shape rows x cols |
| `EncodingMatrix.SubtractColumn` | raid6/raid6.go:58-63 | one subtraction pass keeps the shape rows x cols |
| `EncodingMatrix.SubtractFrom` | raid6/raid6.go:54-65 | the whole subtraction loop keeps the shape rows x cols |
| `EncodingMatrix.Step` | raid6/raid6.go:42-65 | a successful elimination step keeps the shape rows x cols |
| `EncodingMatrix.Eliminate` | raid6/raid6.go:41-68 | a successful elimination keeps the shape rows x cols |
| `Raid6.DivideColumnInPlace` | raid6/raid6.go:46-50 | fails with DivisionByZero exactly when the factor is 0; otherwise column r of every row from r down is divided by the factor and nothing else changes |
| `Raid6.SubtractColumnInPlace` | raid6/raid6.go:58-63 | every row from r down gets `multiplier * row[r]` XOR-ed into column c1, and nothing else changes |
| `Raid6.EliminationStep` | raid6/raid6.go:42-65 | the in-place step for column r fails exactly as `Step` does and otherwise leaves the array holding `Step` of its old contents |
| `EncodingMatrix.DivideByOneIsIdentity` | raid6/raid6.go:46-50 | skipping the division when the factor is 1 changes nothing, since dividing a column by 1 leaves the matrix as it is |
| `EncodingMatrix.SubtractFromFrame` | raid6/raid6.go:54-65 | the subtraction loop never writes a row above r, nor column r, because both row loops start at r and `c1 == r` is skipped |
| `EncodingMatrix.SubtractFromClearsPivotRow` | raid6/raid6.go:53-65 | with pivot 1, each pass clears row r's entry in column c1 (`m ^ m*1 == 0`); entries of row r not yet visited are kept |
| `EncodingMatrix.StepFailure` | raid6/raid6.go:41-48 | the step fails with IndexOutOfRange exactly when row r does not exist, and with DivisionByZero exactly when the pivot is 0 |
| `EncodingMatrix.StepFrame` | raid6/raid6.go:41-65 | the step for column r keeps every row above r; column r of each row from r down is only divided by the pivot, or kept if the pivot is 1 |
| `EncodingMatrix.StepUnitRow` | raid6/raid6.go:42-65 | after a successful step for column r, row r is the unit row e_r |
| `EncodingMatrix.EliminateKeepsRowsAbove` | raid6/raid6.go:41-68 | the elimination from column r on never changes a row above r; with r = 1, row 0 is never written |
| `EncodingMatrix.EliminateUnitRows` | raid6/raid6.go:41-68 | if the rows above r are unit rows, then after the elimination every row below cols is a unit row, because a row fixed at its own step is never touched again |
| `EncodingMatrix.EliminateNeedsTallMatrix` | raid6/raid6.go:41-42 | an elimination over two or more columns succeeds only when there are at least cols rows |
| `EncodingMatrix.EncodingMatrixIsSystematic` | raid6/raid6.go:27-71 | when the construction succeeds the result has shape rows x cols, its top cols rows are the identity, and cols <= rows whenever cols >= 2 |
| `Raid6.FixedVandermonde` | raid6/raid6.go:27-71 | the in-place construction fails exactly as `SystematicVandermonde` does; otherwise it returns a fresh rows x cols array holding `SystematicVandermonde` of the inputs, whose top cols rows are the identity |
| `EncodingMatrix.SubtractFromKeepsZeroPivotRow` | raid6/raid6.go:60-63 | a row whose column-r entry is 0 passes through the subtraction loop unchanged |
| `EncodingMatrix.StepKeepsRowZeroCopy` | raid6/raid6.go:46-65 | every step keeps a copy of e_0 as it is |
| `EncodingMatrix.EliminateKeepsRowZeroCopy` | raid6/raid6.go:41-68 | the whole elimination keeps every copy of e_0 as it is |
| `EncodingMatrix.WrappedRowRepeatsRowZero` | raid6/raid6.go:32-71 | with more than 256 rows, row 256 of the finished encoding matrix equals row 0, so two shards get the same code row |
| `Raid6.RaidSystem.constructor` | raid6/raid6.go:81-85 | the struct literal sets the two shard counts and `totalShards` equal to their sum, and leaves every matrix nil |
| `Raid6.NewRaidSystem` | raid6/raid6.go:73-90 | succeeds exactly when `fixedVandermond(d + p, d)` does; then `totalShards == d + p` and the encoding matrix is a fresh (d + p) x d array holding that result, with its top d rows the identity |

## Left out

- The tracing output (`fmt.Println` / `fmt.Printf` at raid6/raid6.go:37, 43,
  51, 59 and 67) only logs. It does not change `result`.
- The field primitives `galExp`, `galMultiply` and `galDivide`, their
  log/exp tables and the primitive polynomial are not part of this model.
  They are a parameter with stated laws. The constants `gfMaxSize` and
  `generator` (raid6/raid6.go:5-6) are therefore unused.
- `galDivide` is not defined in raid6/raid6.go; the model takes it to fail
  on any zero divisor, including `0 / 0`. A variant that returned 0 for a
  zero dividend before checking the divisor would behave differently on a
  zero pivot: it would still panic as soon as some entry of column r below
  row r is non-zero. If there is none, the step completes, and row r keeps
  its zero pivot, so the top block is not the identity.
- Vandermonde non-singularity is not proved. That is the fact that every
  pivot is non-zero when `cols <= 256`: the pivot `result[r][r]` of step r
  depends only on the top `cols` rows, whose points `byte(0)` to
  `byte(cols - 1)` are then distinct. It needs field algebra the
  construction does not carry. The model therefore states the zero-pivot
  case as a `DivisionByZero` result instead of excluding it.
- The parity rows are not characterised beyond the frame lemmas, such as
  "any dataShards rows are invertible". That needs the same field algebra.
- Negative Go `int` arguments are excluded by `nat` parameters. Go does not
  always panic on them: `buildMatrix(0, cols)` with `cols < 0` returns an
  empty matrix, so `NewRaidSystem(-k, k)` and `NewRaidSystem(1, -1)` succeed
  with `totalShards == 0`. Other negative inputs panic in `make` or at
  `result[r][r]`. The model does not represent these configurations.
- A Go `[][]byte` is a slice of separately allocated rows. `buildMatrix`
  allocates every row afresh, so no two rows alias. The model uses one
  rectangular `array2` and does not model row aliasing.
- main.go calls `BuildRaidSystem`, `Split`, `Encode`, `DropShard`,
  `DetectBrokenDisk` and `Join` (main.go:10-24). None of them, and no matrix
  multiply, inversion, verify or reconstruction, is defined in raid6.go or
  utils.go. `disk_matrix` and `disk_parity` stay nil.
- The demo driver `main.go` and the helpers `Print2DArray` and `StrToBin` in
  `raid6/utils.go` are console output and debug formatting.
