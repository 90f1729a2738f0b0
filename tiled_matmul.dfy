/** The tiled matrix-multiply kernel, simulated one work-group at a time.

    The kernel is launched on the range `{M, N}` in groups of `{1, T}`: the
    items of a group share the row `m` and cover the columns `n0 .. n0 + T - 1`.
    For every block offset `l = 0, T, 2T, ...` below `K` the group first loads
    `A[m][l .. l + T - 1]` into the scratch tile, one slot per item (load
    phase), then every item multiplies the whole tile against its column of
    `B` (compute phase). The two barriers of the kernel are the boundaries
    between these phases. At the end each item writes its sum to `C[m][n]`. */
module TiledMatMul {
  import Arith
  import opened Matrices
  import opened MatMulSpec
  import opened WorkPartition

  /** The result buffer `C` (`M x N`, written through a write-only accessor).
      `writes(i, j)` counts the writes to element `[i][j]`, so that "each
      element is written exactly once" can be stated. */
  class ResultBuffer {
    const rows: nat
    const cols: nat
    const cells: array2<int>
    ghost var writes: (nat, nat) -> nat

    ghost predicate Valid()
      reads this
    {
      cells.Length0 == rows && cells.Length1 == cols
    }

    /** A buffer with no initial data: its cells hold arbitrary values. */
    constructor (rows: nat, cols: nat)
      ensures Valid() && fresh(cells)
      ensures this.rows == rows && this.cols == cols
      ensures forall i: nat, j: nat :: writes(i, j) == 0
    {
      this.rows := rows;
      this.cols := cols;
      cells := new int[rows, cols];
      writes := (i, j) => 0;
    }

    /** `accC[r][c] = v`. */
    method Write(r: nat, c: nat, v: int)
      requires Valid() && r < rows && c < cols
      modifies this, cells
      ensures Valid()
      ensures cells[r, c] == v
      ensures forall i, j :: 0 <= i < rows && 0 <= j < cols && (i != r || j != c) ==>
                cells[i, j] == old(cells[i, j])
      ensures forall i: nat, j: nat :: writes(i, j) == old(writes(i, j)) + if i == r && j == c then 1 else 0
    {
      cells[r, c] := v;
      var before := writes;
      writes := (i, j) => before(i, j) + if i == r && j == c then 1 else 0;
    }
  }

  /** Load phase: item `i` copies `A[m][l + i]` into slot `i` of the tile.
      Distinct items write distinct slots. */
  method LoadPhase(a: Matrix, m: nat, l: nat, tile: array<int>)
    requires a.Valid() && m < a.rows && l + tile.Length <= a.cols
    modifies tile
    ensures forall k :: 0 <= k < tile.Length ==> tile[k] == a.Get(m, l + k)
  {
    for i := 0 to tile.Length
      invariant forall k :: 0 <= k < i ==> tile[k] == a.Get(m, l + k)
    {
      tile[i] := a.Get(m, l + i);
    }
  }

  /** Compute phase: item `i` runs over the whole tile, adding
      `tile[k] * B[l + k][n0 + i]` to its own `sum[i]`. */
  method ComputePhase(a: Matrix, b: Matrix, m: nat, n0: nat, l: nat,
                      tile: array<int>, sum: array<int>)
    requires Conformable(a, b) && m < a.rows
    requires tile.Length == sum.Length && tile != sum
    requires l + tile.Length <= a.cols && n0 + sum.Length <= b.cols
    requires forall k :: 0 <= k < tile.Length ==> tile[k] == a.Get(m, l + k)
    modifies sum
    ensures forall j :: 0 <= j < sum.Length ==>
              sum[j] == old(sum[j]) + TileDot(a, b, m, n0 + j, l, tile.Length)
  {
    var T := tile.Length;
    for i := 0 to T
      invariant forall j :: 0 <= j < i ==> sum[j] == old(sum[j]) + TileDot(a, b, m, n0 + j, l, T)
      invariant forall j :: i <= j < T ==> sum[j] == old(sum[j])
    {
      for k := 0 to T
        invariant sum[i] == old(sum[i]) + TileDot(a, b, m, n0 + i, l, k)
        invariant forall j :: 0 <= j < T && j != i ==> sum[j] == old(sum[j]) + (if j < i then TileDot(a, b, m, n0 + j, l, T) else 0)
      {
        sum[i] := sum[i] + tile[k] * b.Get(l + k, n0 + i);
      }
    }
  }

  /** Item `i` writes its sum to `C[m][n0 + i]`, once. */
  method WritePhase(c: ResultBuffer, m: nat, n0: nat, sum: array<int>)
    requires c.Valid() && m < c.rows && n0 + sum.Length <= c.cols
    modifies c, c.cells
    ensures c.Valid()
    ensures forall i :: 0 <= i < sum.Length ==> c.cells[m, n0 + i] == sum[i]
    ensures forall r, q :: 0 <= r < c.rows && 0 <= q < c.cols && (r != m || q < n0 || n0 + sum.Length <= q) ==>
              c.cells[r, q] == old(c.cells[r, q])
    ensures forall i: nat, j: nat :: c.writes(i, j) == old(c.writes(i, j)) + if i == m && n0 <= j < n0 + sum.Length then 1 else 0
  {
    for i := 0 to sum.Length
      invariant c.Valid()
      invariant forall j :: 0 <= j < i ==> c.cells[m, n0 + j] == sum[j]
      invariant forall r, q :: 0 <= r < c.rows && 0 <= q < c.cols && (r != m || q < n0 || n0 + i <= q) ==>
                  c.cells[r, q] == old(c.cells[r, q])
      invariant forall i': nat, j: nat :: c.writes(i', j) == old(c.writes(i', j)) + if i' == m && n0 <= j < n0 + i then 1 else 0
    {
      c.Write(m, n0 + i, sum[i]);
    }
  }

  /** The block loop of one work-group: row `m`, columns `n0 .. n0 + T - 1`.
      Returns each item's final sum and, as a ghost, the block offsets visited. */
  method AccumulateBlocks(a: Matrix, b: Matrix, T: nat, m: nat, n0: nat)
    returns (sum: array<int>, ghost visited: seq<nat>)
    requires Conformable(a, b)
    requires 0 < T && a.cols % T == 0 && m < a.rows && n0 + T <= b.cols
    ensures fresh(sum) && sum.Length == T
    ensures visited == BlockOffsets(a.cols, T, 0)
    ensures forall n :: n0 <= n < n0 + T ==> sum[n - n0] == Dot(a, b, m, n, a.cols)
  {
    var K := a.cols;
    var tile := new int[T];
    sum := new int[T](_ => 0);
    visited := [];
    var l := 0;
    while l < K
      invariant l <= K && l % T == 0
      invariant BlockOffsets(K, T, 0) == visited + BlockOffsets(K, T, l)
      invariant forall j :: 0 <= j < T ==> sum[j] == BlockedDot(a, b, m, n0 + j, T, l)
      decreases K - l
    {
      Arith.MultipleStepUp(l, K, T);
      LoadPhase(a, m, l, tile);
      // barrier: the whole tile is loaded before any item reads it
      ComputePhase(a, b, m, n0, l, tile, sum);
      // barrier: every item is done with the tile before the next load
      visited := visited + [l];
      l := l + T;
    }
    forall n | n0 <= n < n0 + T
      ensures sum[n - n0] == Dot(a, b, m, n, K)
    {
      BlockedEqualsDot(a, b, m, n, T, K);
    }
  }

  /** Rows `0 .. g - 1` of `C` hold the product `A * B`. */
  ghost predicate RowsComputed(c: ResultBuffer, a: Matrix, b: Matrix, g: nat)
    requires Conformable(a, b) && c.Valid() && c.rows == a.rows && c.cols == b.cols && g <= a.rows
    reads c, c.cells
  {
    forall r, q :: 0 <= r < g && 0 <= q < c.cols ==> c.cells[r, q] == Dot(a, b, r, q, a.cols)
  }

  /** One work-group: accumulate, then write each item's sum to its element
      of `C`, and nothing else. */
  method RunWorkGroup(a: Matrix, b: Matrix, c: ResultBuffer, T: nat, m: nat, n0: nat)
    returns (ghost visited: seq<nat>)
    requires Conformable(a, b) && c.Valid() && c.rows == a.rows && c.cols == b.cols
    requires 0 < T && a.cols % T == 0 && m < a.rows && n0 + T <= b.cols
    modifies c, c.cells
    ensures c.Valid()
    ensures visited == BlockOffsets(a.cols, T, 0)
    ensures forall n :: n0 <= n < n0 + T ==> c.cells[m, n] == Dot(a, b, m, n, a.cols)
    ensures forall r, q :: 0 <= r < c.rows && 0 <= q < c.cols && (r != m || q < n0 || n0 + T <= q) ==>
              c.cells[r, q] == old(c.cells[r, q])
    ensures forall i: nat, j: nat :: c.writes(i, j) == old(c.writes(i, j)) + if i == m && n0 <= j < n0 + T then 1 else 0
  {
    var sum;
    sum, visited := AccumulateBlocks(a, b, T, m, n0);
    WritePhase(c, m, n0, sum);
    forall n | n0 <= n < n0 + T
      ensures c.cells[m, n] == Dot(a, b, m, n, a.cols)
    {
      assert c.cells[m, n0 + (n - n0)] == sum[n - n0];
    }
  }

  /** The groups `(m, 0), (m, 1), ...` of row `m`, one after another: they
      set the whole row to the product, whatever `C` held before, and leave
      every other row alone. */
  method RunGroupRow(a: Matrix, b: Matrix, c: ResultBuffer, range: NdRange, m: nat)
    requires Conformable(a, b) && c.Valid() && c.rows == a.rows && c.cols == b.cols
    requires range == TiledRange(a.rows, b.cols, range.local1) && range.Valid()
    requires a.cols % range.local1 == 0 && m < a.rows
    modifies c, c.cells
    ensures c.Valid()
    ensures forall n :: 0 <= n < b.cols ==> c.cells[m, n] == Dot(a, b, m, n, a.cols)
    ensures forall r, q :: 0 <= r < c.rows && 0 <= q < c.cols && r != m ==> c.cells[r, q] == old(c.cells[r, q])
    ensures forall i: nat, j: nat :: c.writes(i, j) == old(c.writes(i, j)) + if i == m && j < b.cols then 1 else 0
  {
    var T, N := range.local1, b.cols;
    ghost var done := 0;
    for g1 := 0 to range.Groups1()
      invariant c.Valid() && done == g1 * T && done <= N
      invariant forall n :: 0 <= n < done ==> c.cells[m, n] == Dot(a, b, m, n, a.cols)
      invariant forall r, q :: 0 <= r < c.rows && 0 <= q < c.cols && r != m ==> c.cells[r, q] == old(c.cells[r, q])
      invariant forall i: nat, j: nat :: c.writes(i, j) == old(c.writes(i, j)) + if i == m && j < done then 1 else 0
    {
      var (m', n0) := range.GlobalId(m, g1, 0, 0);
      assert m' == m && n0 == done;
      Arith.GroupFits(g1, T, N);
      ghost var _ := RunWorkGroup(a, b, c, T, m', n0);
      Arith.MulSucc(g1, T);
      done := done + T;
    }
    Arith.GroupsCover(T, N);
  }

  /** `parallel_for` over the `{M, N}` range in `{1, T}` groups, the groups
      taken one after another. Every `C[m][n]` ends up as the dot product
      of row `m` of `A` and column `n` of `B`; every element of `C` is
      written exactly once and nothing outside `C` is written. */
  method Dispatch(a: Matrix, b: Matrix, T: nat) returns (c: ResultBuffer)
    requires Conformable(a, b)
    requires 0 < T && b.cols % T == 0 && a.cols % T == 0
    ensures fresh(c) && fresh(c.cells) && c.Valid()
    ensures c.rows == a.rows && c.cols == b.cols
    ensures forall m, n :: 0 <= m < a.rows && 0 <= n < b.cols ==> c.cells[m, n] == Dot(a, b, m, n, a.cols)
    ensures forall i: nat, j: nat :: c.writes(i, j) == if i < a.rows && j < b.cols then 1 else 0
  {
    var M, N := a.rows, b.cols;
    var range := TiledRange(M, N, T);
    c := new ResultBuffer(M, N);
    for g0 := 0 to range.Groups0()
      invariant fresh(c) && fresh(c.cells) && c.Valid() && c.rows == M && c.cols == N
      invariant RowsComputed(c, a, b, g0)
      invariant forall i: nat, j: nat :: c.writes(i, j) == if i < g0 && j < N then 1 else 0
    {
      RunGroupRow(a, b, c, range, g0);
    }
    assert RowsComputed(c, a, b, M);
  }

  /** The host's check: for every `j, i < N` recompute `gold` as the sum of
      `A[j * N + k] * B[k * N + i]` and compare with `C[j][i]`. Exact
      arithmetic replaces the floating-point tolerance, so the comparison is
      equality. */
  method ReferenceCheck(A: seq<int>, B: seq<int>, C: array2<int>, N: nat) returns (passed: bool)
    requires |A| == N * N && |B| == N * N && C.Length0 == N && C.Length1 == N
    ensures passed <==> forall j, i :: 0 <= j < N && 0 <= i < N ==> C[j, i] == Gold(A, B, N, j, i, N)
  {
    passed := true;
    for j := 0 to N
      invariant passed <==> forall j', i' :: 0 <= j' < j && 0 <= i' < N ==> C[j', i'] == Gold(A, B, N, j', i', N)
    {
      ghost var before := passed;
      for i := 0 to N
        invariant passed <==> before && forall i' :: 0 <= i' < i ==> C[j, i'] == Gold(A, B, N, j, i', N)
      {
        var gold := 0;
        for k := 0 to N
          invariant gold == Gold(A, B, N, j, i, k)
        {
          IndexBound(j, k, N, N);
          IndexBound(k, i, N, N);
          gold := gold + A[j * N + k] * B[k * N + i];
        }
        if gold != C[j, i] {
          passed := false;
        }
      }
    }
  }

  const Size: nat := 256
  const TileSize: nat := 16

  /** The host program: square `256 x 256` operands, tile size 16, the kernel,
      then the reference check, which passes for every choice of operands. */
  method TiledMatMulProgram(A: seq<int>, B: seq<int>) returns (passed: bool)
    requires |A| == Size * Size && |B| == Size * Size
    ensures passed
  {
    var a := Matrix(Size, Size, A);
    var b := Matrix(Size, Size, B);
    var c := Dispatch(a, b, TileSize);
    passed := ReferenceCheck(A, B, c.cells, Size);
    forall j, i | 0 <= j < Size && 0 <= i < Size
      ensures c.cells[j, i] == Gold(A, B, Size, j, i, Size)
    {
      GoldIsDot(A, B, Size, j, i, Size);
    }
  }
}
