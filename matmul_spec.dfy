/** What the tiled kernel computes, stated on values: the naive dot product,
    one tile's share of it, the blocked sum over tiles, the block offsets the
    kernel's outer loop visits, and the host's flat-vector reference sum. */
module MatMulSpec {
  import Arith
  import opened Matrices

  /** `a` is `M x K`, `b` is `K x N`. */
  predicate Conformable(a: Matrix, b: Matrix) {
    a.Valid() && b.Valid() && a.cols == b.rows
  }

  /** Sum over `k < h` of `a[m][k] * b[k][n]`, accumulated in increasing `k`. */
  function Dot(a: Matrix, b: Matrix, m: nat, n: nat, h: nat): int
    requires Conformable(a, b) && m < a.rows && n < b.cols && h <= a.cols
  {
    if h == 0 then 0 else Dot(a, b, m, n, h - 1) + a.Get(m, h - 1) * b.Get(h - 1, n)
  }

  /** One tile's contribution: sum over `k < t` of `a[m][l + k] * b[l + k][n]`. */
  function TileDot(a: Matrix, b: Matrix, m: nat, n: nat, l: nat, t: nat): int
    requires Conformable(a, b) && m < a.rows && n < b.cols && l + t <= a.cols
  {
    if t == 0 then 0
    else TileDot(a, b, m, n, l, t - 1) + a.Get(m, l + t - 1) * b.Get(l + t - 1, n)
  }

  /** The blocked accumulation after the blocks at offsets `0, T, ..., l - T`. */
  function BlockedDot(a: Matrix, b: Matrix, m: nat, n: nat, T: nat, l: nat): int
    requires Conformable(a, b) && m < a.rows && n < b.cols
    requires 0 < T && l <= a.cols && l % T == 0
    decreases l
  {
    if l == 0 then 0
    else
      Arith.MultipleStepDown(l, T);
      BlockedDot(a, b, m, n, T, l - T) + TileDot(a, b, m, n, l - T, T)
  }

  /** The offsets `l, l + T, l + 2T, ...` below `K` that the block loop visits from `l`. */
  function BlockOffsets(K: nat, T: nat, l: nat): seq<nat>
    requires 0 < T
    decreases K - l
  {
    if K <= l then [] else [l] + BlockOffsets(K, T, l + T)
  }

  /** The host's reference sum over flat vectors: sum over `k < h` of
      `A[j * N + k] * B[k * N + i]`, with `N` used for every dimension. */
  function Gold(A: seq<int>, B: seq<int>, N: nat, j: nat, i: nat, h: nat): int
    requires |A| == N * N && |B| == N * N && j < N && i < N && h <= N
  {
    if h == 0 then 0
    else
      IndexBound(j, h - 1, N, N);
      IndexBound(h - 1, i, N, N);
      Gold(A, B, N, j, i, h - 1) + A[j * N + (h - 1)] * B[(h - 1) * N + i]
  }

  /** A tile starting at `l` extends the dot product from `l` to `l + t`. */
  lemma {:induction false} TileDotExtends(a: Matrix, b: Matrix, m: nat, n: nat, l: nat, t: nat)
    requires Conformable(a, b) && m < a.rows && n < b.cols && l + t <= a.cols
    ensures Dot(a, b, m, n, l + t) == Dot(a, b, m, n, l) + TileDot(a, b, m, n, l, t)
  {
    if t > 0 {
      TileDotExtends(a, b, m, n, l, t - 1);
    }
  }

  /** The blocked accumulation equals the plain dot product at every block boundary. */
  lemma {:induction false} BlockedEqualsDot(a: Matrix, b: Matrix, m: nat, n: nat, T: nat, l: nat)
    requires Conformable(a, b) && m < a.rows && n < b.cols
    requires 0 < T && l <= a.cols && l % T == 0
    ensures BlockedDot(a, b, m, n, T, l) == Dot(a, b, m, n, l)
    decreases l
  {
    if l > 0 {
      Arith.MultipleStepDown(l, T);
      BlockedEqualsDot(a, b, m, n, T, l - T);
      TileDotExtends(a, b, m, n, l - T, T);
    }
  }

  /** Any two tile sizes that divide `K` give the same result. */
  lemma TileSizeIndependent(a: Matrix, b: Matrix, m: nat, n: nat, T1: nat, T2: nat)
    requires Conformable(a, b) && m < a.rows && n < b.cols
    requires 0 < T1 && a.cols % T1 == 0
    requires 0 < T2 && a.cols % T2 == 0
    ensures BlockedDot(a, b, m, n, T1, a.cols) == BlockedDot(a, b, m, n, T2, a.cols)
  {
    BlockedEqualsDot(a, b, m, n, T1, a.cols);
    BlockedEqualsDot(a, b, m, n, T2, a.cols);
  }

  /** From a multiple `l` of `T`, with `T` dividing `K`, the loop visits
      `(K - l) / T` offsets, the `q`-th being `l + q * T`, and each block
      `[l + q * T, l + q * T + T)` lies inside `[0, K)`. */
  lemma {:induction false} BlockOffsetsFrom(K: nat, T: nat, l: nat)
    requires 0 < T && K % T == 0 && l <= K && l % T == 0
    ensures |BlockOffsets(K, T, l)| * T == K - l
    ensures forall q :: 0 <= q < |BlockOffsets(K, T, l)| ==>
              BlockOffsets(K, T, l)[q] == l + q * T && BlockOffsets(K, T, l)[q] + T <= K
    decreases K - l
  {
    if l < K {
      Arith.MultipleStepUp(l, K, T);
      BlockOffsetsFrom(K, T, l + T);
      var rest := BlockOffsets(K, T, l + T);
      var all := BlockOffsets(K, T, l);
      assert all == [l] + rest;
      Arith.MulSucc(|rest|, T);
      forall q | 0 <= q < |all|
        ensures all[q] == l + q * T && all[q] + T <= K
      {
        if q > 0 {
          Arith.MulSucc(q - 1, T);
          assert all[q] == rest[q - 1];
        }
      }
    }
  }

  /** The block loop runs exactly `K / T` times, at offsets `0, T, 2T, ...`,
      and every index `l + i` it reads, for `i < T`, is below `K`
      (the block ends at or before `K`). */
  lemma BlockLoopShape(K: nat, T: nat)
    requires 0 < T && K % T == 0
    ensures |BlockOffsets(K, T, 0)| == K / T
    ensures forall q :: 0 <= q < |BlockOffsets(K, T, 0)| ==>
              BlockOffsets(K, T, 0)[q] == q * T && BlockOffsets(K, T, 0)[q] + T <= K
  {
    BlockOffsetsFrom(K, T, 0);
    Arith.DivModUnique(K, |BlockOffsets(K, T, 0)|, 0, T);
  }

  /** The two boundary cases: `K == T` is one block at offset 0 and `K == 2T`
      is two blocks at offsets 0 and `T`. */
  lemma BoundaryBlocks(T: nat)
    requires 0 < T
    ensures BlockOffsets(T, T, 0) == [0]
    ensures BlockOffsets(2 * T, T, 0) == [0, T]
  {
    assert BlockOffsets(T, T, T) == [];
    assert BlockOffsets(2 * T, T, 2 * T) == [];
    assert BlockOffsets(2 * T, T, T) == [T];
  }

  /** On square `N x N` operands the host's flat-vector reference is the dot
      product of the two-dimensional views. */
  lemma {:induction false} GoldIsDot(A: seq<int>, B: seq<int>, N: nat, j: nat, i: nat, h: nat)
    requires |A| == N * N && |B| == N * N && j < N && i < N && h <= N
    ensures Gold(A, B, N, j, i, h) == Dot(Matrix(N, N, A), Matrix(N, N, B), j, i, h)
  {
    if h > 0 {
      GoldIsDot(A, B, N, j, i, h - 1);
    }
  }
}
