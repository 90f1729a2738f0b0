/** Dense matrices stored row-major in a flat vector, and the two-dimensional
    view a `buffer<T, 2>` accessor gives of that vector: element `[r][c]` of
    a `rows x cols` buffer is element `r * cols + c` of the vector. */
module Matrices {
  import Arith

  /** Flat offset of element `[r][c]` in a row-major layout with `cols` columns.
      The offset decodes back to the row and the column. */
  function Index(r: nat, c: nat, cols: nat): (p: nat)
    requires c < cols
    ensures p / cols == r && p % cols == c
  {
    Arith.DivModUnique(r * cols + c, r, c, cols);
    r * cols + c
  }

  /** An in-range row and column land inside the vector. */
  lemma IndexBound(r: nat, c: nat, rows: nat, cols: nat)
    requires r < rows && c < cols
    ensures Index(r, c, cols) < rows * cols
  {
    Arith.MulMono(r + 1, rows, cols);
  }

  /** Two distinct in-range coordinates never share an offset. */
  lemma IndexInjective(r1: nat, c1: nat, r2: nat, c2: nat, cols: nat)
    requires c1 < cols && c2 < cols
    requires Index(r1, c1, cols) == Index(r2, c2, cols)
    ensures r1 == r2 && c1 == c2
  {
  }

  /** A row-major matrix: `rows x cols` elements in the flat vector `elems`. */
  datatype Matrix = Matrix(rows: nat, cols: nat, elems: seq<int>) {

    predicate Valid() {
      |elems| == rows * cols
    }

    /** The accessor `acc[r][c]`: element `r * cols + c` of the vector,
        which lies inside it. */
    function Get(r: nat, c: nat): (v: int)
      requires Valid() && r < rows && c < cols
      ensures r * cols + c < |elems| && v == elems[r * cols + c]
    {
      IndexBound(r, c, rows, cols);
      elems[Index(r, c, cols)]
    }
  }

  /** Every element of the flat vector is seen through the view, at the row
      and column its offset decodes to. */
  lemma ViewCoversVector(a: Matrix, p: nat)
    requires a.Valid() && p < |a.elems|
    ensures a.cols > 0 && p / a.cols < a.rows && p % a.cols < a.cols
    ensures a.Get(p / a.cols, p % a.cols) == a.elems[p]
  {
    if a.cols == 0 {
      assert false;
    }
    var r, c := p / a.cols, p % a.cols;
    assert p == r * a.cols + c;
    if a.rows <= r {
      Arith.MulMono(a.rows, r, a.cols);
      assert false;
    }
    Arith.DivModUnique(p, r, c, a.cols);
  }
}
