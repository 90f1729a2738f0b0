/** The two-dimensional `nd_range`: a global index space split into
    work-groups of a fixed local shape. A work-item is named by its group id
    and its local id; its global id in each dimension is
    `group * localSize + local`. */
module WorkPartition {
  import Arith
  import Matrices

  datatype NdRange = NdRange(global0: nat, global1: nat, local0: nat, local1: nat) {

    /** The runtime only accepts a local range that divides the global range. */
    predicate Valid() {
      0 < local0 && 0 < local1 && global0 % local0 == 0 && global1 % local1 == 0
    }

    function Groups0(): nat requires Valid() { global0 / local0 }
    function Groups1(): nat requires Valid() { global1 / local1 }

    predicate IsItem(g0: nat, g1: nat, i0: nat, i1: nat)
      requires Valid()
    {
      g0 < Groups0() && g1 < Groups1() && i0 < local0 && i1 < local1
    }

    /** `get_global_id()` of the item with group id `(g0, g1)` and local id
        `(i0, i1)`. The group and local ids are recovered from it by division
        and remainder by the local size. */
    function GlobalId(g0: nat, g1: nat, i0: nat, i1: nat): (id: (nat, nat))
      requires Valid() && i0 < local0 && i1 < local1
      ensures id.0 / local0 == g0 && id.0 % local0 == i0
      ensures id.1 / local1 == g1 && id.1 % local1 == i1
    {
      (Matrices.Index(g0, i0, local0), Matrices.Index(g1, i1, local1))
    }
  }

  /** The range the tiled kernel is launched on: one work-item per result
      element of an `M x N` product, in groups of `1 x tile` items. */
  function TiledRange(M: nat, N: nat, tile: nat): (r: NdRange)
    ensures r.Valid() <==> 0 < tile && N % tile == 0
  {
    NdRange(M, N, 1, tile)
  }

  /** Every item's global id lies inside the global range. */
  lemma GlobalIdInRange(r: NdRange, g0: nat, g1: nat, i0: nat, i1: nat)
    requires r.Valid() && r.IsItem(g0, g1, i0, i1)
    ensures r.GlobalId(g0, g1, i0, i1).0 < r.global0
    ensures r.GlobalId(g0, g1, i0, i1).1 < r.global1
  {
    Arith.GroupFits(g0, r.local0, r.global0);
    Arith.GroupFits(g1, r.local1, r.global1);
  }

  /** Two distinct items never share a global id. */
  lemma GlobalIdInjective(r: NdRange, g0: nat, g1: nat, i0: nat, i1: nat,
                          h0: nat, h1: nat, j0: nat, j1: nat)
    requires r.Valid() && r.IsItem(g0, g1, i0, i1) && r.IsItem(h0, h1, j0, j1)
    requires r.GlobalId(g0, g1, i0, i1) == r.GlobalId(h0, h1, j0, j1)
    ensures g0 == h0 && g1 == h1 && i0 == j0 && i1 == j1
  {
    Matrices.IndexInjective(g0, i0, h0, j0, r.local0);
    Matrices.IndexInjective(g1, i1, h1, j1, r.local1);
  }

  /** Every point of the global range is the global id of some item: the one
      in group `(m / local0, n / local1)` with local id `(m % local0, n % local1)`. */
  lemma GlobalIdCovers(r: NdRange, m: nat, n: nat)
    requires r.Valid() && m < r.global0 && n < r.global1
    ensures r.IsItem(m / r.local0, n / r.local1, m % r.local0, n % r.local1)
    ensures r.GlobalId(m / r.local0, n / r.local1, m % r.local0, n % r.local1) == (m, n)
  {
    GroupIdInRange(m, r.local0, r.global0);
    GroupIdInRange(n, r.local1, r.global1);
  }

  lemma GroupIdInRange(x: nat, t: nat, n: nat)
    requires 0 < t && x < n && n % t == 0
    ensures x / t < n / t && x == (x / t) * t + x % t
  {
    if n / t <= x / t {
      Arith.MulMono(n / t, x / t, t);
      assert false;
    }
  }

  /** In the tiled range all items of a group share the row `m` (the group's
      first id), and the local id `i1` picks the column inside the group's strip. */
  lemma TiledGroupSharesRow(M: nat, N: nat, tile: nat, g0: nat, g1: nat, i0: nat, i1: nat)
    requires 0 < tile && N % tile == 0
    requires TiledRange(M, N, tile).IsItem(g0, g1, i0, i1)
    ensures TiledRange(M, N, tile).GlobalId(g0, g1, i0, i1) == (g0, g1 * tile + i1)
  {
  }
}
