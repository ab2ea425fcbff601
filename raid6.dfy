/** raid6/raid6.go: the encoding matrix built in place on a byte matrix, and
    the RAID system that owns it. */
module Raid6 {
  import opened Errors
  import opened Galois
  import opened EncodingMatrix

  /** The row-major view of a byte matrix. */
  function Contents(m: array2<Byte>): (M: Matrix)
    reads m
    ensures IsMatrix(M, m.Length0, m.Length1)
    ensures forall i, j :: 0 <= i < m.Length0 && 0 <= j < m.Length1 ==> M[i][j] == m[i, j]
  {
    seq(m.Length0, i requires 0 <= i < m.Length0 reads m =>
      seq(m.Length1, j requires 0 <= j < m.Length1 reads m => m[i, j]))
  }

  /** buildMatrix: a fresh rows x cols matrix, every entry zero. Each row is
      allocated zero-filled on its own, as make([]byte, cols) does. */
  method BuildMatrix(rows: nat, cols: nat) returns (m: array2<Byte>)
    ensures fresh(m)
    ensures m.Length0 == rows && m.Length1 == cols
    ensures forall i, j :: 0 <= i < rows && 0 <= j < cols ==> m[i, j] == 0
  {
    m := new Byte[rows, cols];
    var i := 0;
    while i < rows
      invariant 0 <= i <= rows
      invariant forall i', j :: 0 <= i' < i && 0 <= j < cols ==> m[i', j] == 0
    {
      forall j | 0 <= j < cols {
        m[i, j] := 0;
      }
      i := i + 1;
    }
  }

  /** The fill loop of fixedVandermond: result[r][c] = galExp(byte(r), c). */
  method FillVandermonde(F: Field, m: array2<Byte>)
    modifies m
    ensures Contents(m) == Vandermonde(F, m.Length0, m.Length1)
  {
    var r := 0;
    while r < m.Length0
      invariant 0 <= r <= m.Length0
      invariant forall i, j :: 0 <= i < r && 0 <= j < m.Length1 ==> m[i, j] == F.exp(ByteOf(i), j)
    {
      var c := 0;
      while c < m.Length1
        invariant 0 <= c <= m.Length1
        invariant forall i, j :: 0 <= i < r && 0 <= j < m.Length1 ==> m[i, j] == F.exp(ByteOf(i), j)
        invariant forall j :: 0 <= j < c ==> m[r, j] == F.exp(ByteOf(r), j)
      {
        m[r, c] := F.exp(ByteOf(r), c);
        c := c + 1;
      }
      r := r + 1;
    }
    var V := Vandermonde(F, m.Length0, m.Length1);
    assert forall i :: 0 <= i < m.Length0 ==> Contents(m)[i] == V[i];
  }

  /** The division loop for column r: rows r to rows - 1 have their column-r
      entry divided by `factor` through galDivide, which fails on a zero
      divisor before anything is written. */
  method DivideColumnInPlace(F: Field, m: array2<Byte>, r: nat, factor: Byte) returns (out: Outcome)
    requires r < m.Length0 && r < m.Length1
    modifies m
    ensures out.Fail? <==> factor == 0
    ensures out.Fail? ==> out.error == DivisionByZero
    ensures out.Pass? ==> Contents(m) == DivideColumn(F, old(Contents(m)), m.Length1, r, factor)
  {
    ghost var M := Contents(m);
    var rows, cols := m.Length0, m.Length1;
    var r1 := r;
    while r1 < rows
      invariant r <= r1 <= rows
      invariant factor == 0 ==> r1 == r
      invariant forall i, j :: 0 <= i < rows && 0 <= j < cols ==>
        m[i, j] == if r <= i < r1 && j == r then F.div(M[i][j], factor) else M[i][j]
    {
      var q := GalDivide(F, m[r1, r], factor);
      if q.Failure? {
        return Fail(q.error);
      }
      m[r1, r] := q.value;
      r1 := r1 + 1;
    }
    var D := DivideColumn(F, M, cols, r, factor);
    assert forall i :: 0 <= i < rows ==> Contents(m)[i] == D[i];
    return Pass;
  }

  /** One pass of the subtraction loop: rows r to rows - 1 get
      `multiplier` times their column-r entry XOR-ed into column c1. */
  method SubtractColumnInPlace(F: Field, m: array2<Byte>, r: nat, c1: nat, multiplier: Byte)
    requires r < m.Length0 && r < m.Length1 && c1 < m.Length1 && c1 != r
    modifies m
    ensures Contents(m) == SubtractColumn(F, old(Contents(m)), m.Length1, r, c1, multiplier)
  {
    ghost var M := Contents(m);
    var rows, cols := m.Length0, m.Length1;
    var r1 := r;
    while r1 < rows
      invariant r <= r1 <= rows
      invariant forall i, j :: 0 <= i < rows && 0 <= j < cols ==>
        m[i, j] == if r <= i < r1 && j == c1 then Add(M[i][c1], F.mul(multiplier, M[i][r])) else M[i][j]
    {
      m[r1, c1] := Add(m[r1, c1], F.mul(multiplier, m[r1, r]));
      r1 := r1 + 1;
    }
    var S := SubtractColumn(F, M, cols, r, c1, multiplier);
    assert forall i :: 0 <= i < rows ==> Contents(m)[i] == S[i];
  }

  /** The body of the elimination loop for column r, in place. */
  method EliminationStep(F: Field, m: array2<Byte>, r: nat) returns (out: Outcome)
    requires 1 <= r < m.Length1
    modifies m
    ensures out.Fail? ==> Step(F, old(Contents(m)), m.Length1, r) == Failure(out.error)
    ensures out.Pass? ==> Step(F, old(Contents(m)), m.Length1, r) == Success(Contents(m))
  {
    ghost var M := Contents(m);
    var rows, cols := m.Length0, m.Length1;
    if r >= rows {
      // result[r][r] is out of range
      return Fail(IndexOutOfRange);
    }
    var factor := m[r, r];
    if factor != 1 {
      out := DivideColumnInPlace(F, m, r, factor);
      if out.Fail? {
        return out;
      }
    }
    ghost var D := Contents(m);
    assert D == if factor != 1 then DivideColumn(F, M, cols, r, factor) else M;
    var c1 := 0;
    while c1 < cols
      invariant 0 <= c1 <= cols
      invariant SubtractFrom(F, Contents(m), cols, r, c1) == SubtractFrom(F, D, cols, r, 0)
    {
      if c1 != r {
        var multiplier := m[r, c1];
        SubtractColumnInPlace(F, m, r, c1, multiplier);
      }
      c1 := c1 + 1;
    }
    return Pass;
  }

  /** fixedVandermond(rows, cols): the filled Vandermonde matrix after the
      column elimination, or the panic that stops it. On success the top
      cols rows are the identity matrix. */
  method FixedVandermonde(F: Field, rows: nat, cols: nat) returns (res: Result<array2<Byte>>)
    requires Laws(F)
    ensures res.Failure? ==> SystematicVandermonde(F, rows, cols) == Failure(res.error)
    ensures res.Success? ==>
      && fresh(res.value)
      && res.value.Length0 == rows && res.value.Length1 == cols
      && SystematicVandermonde(F, rows, cols) == Success(Contents(res.value))
      && UnitRowsBelow(Contents(res.value), cols, cols)
  {
    var m := BuildMatrix(rows, cols);
    FillVandermonde(F, m);
    ghost var V := Contents(m);
    var r := 1;
    while r < cols
      invariant 1 <= r
      invariant fresh(m) && m.Length0 == rows && m.Length1 == cols
      invariant Eliminate(F, Contents(m), cols, r) == Eliminate(F, V, cols, 1)
      decreases cols - r
    {
      var out := EliminationStep(F, m, r);
      if out.Fail? {
        return Failure(out.error);
      }
      r := r + 1;
    }
    EncodingMatrixIsSystematic(F, rows, cols);
    return Success(m);
  }

  /** The raid6 struct. The two disk matrices are filled by operations that
      are not part of this model and stay unset here. */
  class RaidSystem {
    var dataShards: nat
    var parityShards: nat
    var totalShards: nat
    var encodingMatrix: array2?<Byte>
    var diskMatrix: array2?<Byte>
    var diskParity: array2?<Byte>

    /** The state NewRaidSystem leaves behind (the bare struct literal does
        not have it yet): the encoding matrix is set and is a systematic
        (dataShards + parityShards) x dataShards matrix. */
    ghost predicate HasSystematicEncoding()
      reads this, encodingMatrix
    {
      && totalShards == dataShards + parityShards
      && encodingMatrix != null
      && encodingMatrix.Length0 == totalShards
      && encodingMatrix.Length1 == dataShards
      && UnitRowsBelow(Contents(encodingMatrix), dataShards, dataShards)
    }

    /** The struct literal: the shard counts are set, every matrix is nil. */
    constructor (dataShards: nat, parityShards: nat)
      ensures this.dataShards == dataShards && this.parityShards == parityShards
      ensures totalShards == dataShards + parityShards
      ensures encodingMatrix == null && diskMatrix == null && diskParity == null
    {
      this.dataShards := dataShards;
      this.parityShards := parityShards;
      totalShards := dataShards + parityShards;
      encodingMatrix := null;
      diskMatrix := null;
      diskParity := null;
    }
  }

  /** NewRaidSystem(dataShards, parityShards): totalShards is their sum and
      the encoding matrix is fixedVandermond(totalShards, dataShards), whose
      top dataShards rows are the identity matrix. */
  method NewRaidSystem(F: Field, dataShards: nat, parityShards: nat) returns (res: Result<RaidSystem>)
    requires Laws(F)
    ensures res.Failure? ==>
      SystematicVandermonde(F, dataShards + parityShards, dataShards) == Failure(res.error)
    ensures res.Success? ==>
      var s := res.value;
      && fresh(s) && s.encodingMatrix != null && fresh(s.encodingMatrix)
      && s.diskMatrix == null && s.diskParity == null
      && s.dataShards == dataShards && s.parityShards == parityShards
      && s.totalShards == dataShards + parityShards
      && SystematicVandermonde(F, s.totalShards, s.dataShards) == Success(Contents(s.encodingMatrix))
      && s.HasSystematicEncoding()
  {
    var s := new RaidSystem(dataShards, parityShards);
    var em := FixedVandermonde(F, s.totalShards, s.dataShards);
    if em.Failure? {
      return Failure(em.error);
    }
    s.encodingMatrix := em.value;
    return Success(s);
  }
}
