/** The overflow-checked matrix product of two `int` matrices. */
module MatrixProduct {
  import opened BoundedInt
  import opened Errors
  import opened Matrices

  // ---------------------------------------------------------------------
  // Specification
  // ---------------------------------------------------------------------

  /** Every element of `g` is at least zero. */
  ghost predicate NonNegative(g: Grid)
    requires WellFormed(g)
  {
    forall i: nat, j: nat :: i < g.rows && j < g.columns ==> 0 <= Entry(g, i, j)
  }

  /** Two grids that can be multiplied: the columns of `a` match the rows of `b`. */
  predicate Conformable(a: Grid, b: Grid) {
    WellFormed(a) && WellFormed(b) && a.columns == b.rows
  }

  /** The exact sum over `k` in `[0, n)` of `a[i][k] * b[k][j]`. */
  function PartialSum(a: Grid, b: Grid, i: nat, j: nat, n: nat): (s: int)
    requires Conformable(a, b) && i < a.rows && j < b.columns && n <= a.columns
  {
    if n == 0 then 0
    else PartialSum(a, b, i, j, n - 1) + Entry(a, i, n - 1) * Entry(b, n - 1, j)
  }

  /** Element (`i`, `j`) of the mathematical product `a * b`. */
  function Dot(a: Grid, b: Grid, i: nat, j: nat): (s: int)
    requires Conformable(a, b) && i < a.rows && j < b.columns
  {
    PartialSum(a, b, i, j, a.columns)
  }

  /** With non-negative operands the partial sums are non-negative and grow
      with `n`: once one exceeds MAX, the whole sum does. */
  lemma {:induction false} PartialSumMonotone(a: Grid, b: Grid, i: nat, j: nat, m: nat, n: nat)
    requires Conformable(a, b) && i < a.rows && j < b.columns
    requires NonNegative(a) && NonNegative(b)
    requires m <= n <= a.columns
    ensures 0 <= PartialSum(a, b, i, j, m) <= PartialSum(a, b, i, j, n)
  {
    if m < n {
      PartialSumMonotone(a, b, i, j, m, n - 1);
      MulNonNegative(Entry(a, i, n - 1), Entry(b, n - 1, j));
    } else if 0 < m {
      PartialSumMonotone(a, b, i, j, m - 1, m - 1);
      MulNonNegative(Entry(a, i, m - 1), Entry(b, m - 1, j));
    }
  }

  /** Element (`i`, `j`) of the product does not fit in the element type. */
  ghost predicate OverflowsAt(a: Grid, b: Grid, i: nat, j: nat)
    requires Conformable(a, b)
  {
    i < a.rows && j < b.columns && Dot(a, b, i, j) > MAX
  }

  /** (`i`, `j`) is the first overflowing element in row-major order: the
      position the product loop reports. */
  ghost predicate FirstOverflow(a: Grid, b: Grid, i: nat, j: nat)
    requires Conformable(a, b)
  {
    OverflowsAt(a, b, i, j) &&
    forall r: nat, c: nat :: (r < i && c < b.columns) || (r == i && c < j) ==> !OverflowsAt(a, b, r, c)
  }

  /** `p` is the product of `a` and `b`: `a.rows` by `b.columns`, each element the dot product. */
  ghost predicate IsProduct(a: Grid, b: Grid, p: Grid)
    requires Conformable(a, b)
  {
    WellFormed(p) && p.rows == a.rows && p.columns == b.columns &&
    forall i: nat, j: nat :: i < p.rows && j < p.columns ==> Entry(p, i, j) == Dot(a, b, i, j)
  }

  /** No element of the product overflows. */
  ghost predicate NoOverflow(a: Grid, b: Grid)
    requires Conformable(a, b)
  {
    forall i: nat, j: nat :: !OverflowsAt(a, b, i, j)
  }

  /** `p` holds the exact product at every position before (`i`, `j`) in
      row-major order, and none of those positions overflows. */
  ghost predicate FilledBefore(a: Grid, b: Grid, p: Grid, i: nat, j: nat)
    requires Conformable(a, b) && WellFormed(p) && p.rows == a.rows && p.columns == b.columns
  {
    forall r: nat, c: nat :: r < p.rows && c < p.columns && (r < i || (r == i && c < j)) ==>
      !OverflowsAt(a, b, r, c) && Entry(p, r, c) == Dot(a, b, r, c)
  }

  /** Storing the exact, non-overflowing element (`i`, `j`) extends the filled part by one position. */
  lemma FilledBeforeStep(a: Grid, b: Grid, p: Grid, i: nat, j: nat, v: Int32)
    requires Conformable(a, b) && WellFormed(p) && p.rows == a.rows && p.columns == b.columns
    requires i < p.rows && j < p.columns
    requires FilledBefore(a, b, p, i, j)
    requires v == Dot(a, b, i, j)
    ensures FilledBefore(a, b, Updated(p, i, j, v), i, j + 1)
  {
    var q := Updated(p, i, j, v);
    forall r: nat, c: nat | r < p.rows && c < p.columns && (r < i || (r == i && c <= j))
      ensures !OverflowsAt(a, b, r, c) && Entry(q, r, c) == Dot(a, b, r, c)
    {
      EntryOfUpdated(p, i, j, v, r, c);
    }
  }

  /** A completely filled grid is the product, and no element overflowed. */
  lemma FilledBeforeComplete(a: Grid, b: Grid, p: Grid)
    requires Conformable(a, b) && WellFormed(p) && p.rows == a.rows && p.columns == b.columns
    requires FilledBefore(a, b, p, p.rows, 0)
    ensures IsProduct(a, b, p) && NoOverflow(a, b)
  {
  }

  // ---------------------------------------------------------------------
  // Laws of the product and worked examples
  // ---------------------------------------------------------------------

  /** The `n` by `n` identity matrix. */
  function Identity(n: nat): (g: Grid)
    ensures WellFormed(g) && g.rows == n && g.columns == n
  {
    Grid(n, n, seq(n * n, k => if n != 0 && k / n == k % n then 1 else 0))
  }

  lemma IdentityEntry(n: nat, r: nat, c: nat)
    requires r < n && c < n
    ensures Entry(Identity(n), r, c) == if r == c then 1 else 0
  {
    IndexSplit(n, r, c);
    IndexInRange(n, n, r, c);
  }

  lemma {:induction false} PartialSumWithIdentity(g: Grid, i: nat, j: nat, n: nat)
    requires WellFormed(g) && i < g.rows && j < g.columns && n <= g.columns
    ensures Conformable(g, Identity(g.columns))
    ensures PartialSum(g, Identity(g.columns), i, j, n) == if j < n then Entry(g, i, j) else 0
  {
    if n > 0 {
      PartialSumWithIdentity(g, i, j, n - 1);
      IdentityEntry(g.columns, n - 1, j);
    }
  }

  /** Multiplying by the identity on the right gives back the matrix, with no overflow. */
  lemma ProductWithIdentity(g: Grid)
    requires WellFormed(g)
    ensures Conformable(g, Identity(g.columns))
    ensures NoOverflow(g, Identity(g.columns)) && IsProduct(g, Identity(g.columns), g)
  {
    var e := Identity(g.columns);
    forall i: nat, j: nat | i < g.rows && j < g.columns
      ensures Dot(g, e, i, j) == Entry(g, i, j)
    {
      PartialSumWithIdentity(g, i, j, g.columns);
    }
  }

  /** A 2 by 2 grid from its rows. */
  function Grid2(a: Int32, b: Int32, c: Int32, d: Int32): (g: Grid)
    ensures WellFormed(g) && g.rows == 2 && g.columns == 2
  {
    Grid(2, 2, [a, b, c, d])
  }

  /** `[[1, 2], [3, 4]] * [[5, 6], [7, 8]] == [[19, 22], [43, 50]]`. */
  lemma ExampleProduct()
    ensures Conformable(Grid2(1, 2, 3, 4), Grid2(5, 6, 7, 8))
    ensures NoOverflow(Grid2(1, 2, 3, 4), Grid2(5, 6, 7, 8))
    ensures IsProduct(Grid2(1, 2, 3, 4), Grid2(5, 6, 7, 8), Grid2(19, 22, 43, 50))
  {
    var a, b, p := Grid2(1, 2, 3, 4), Grid2(5, 6, 7, 8), Grid2(19, 22, 43, 50);
    forall i: nat, j: nat | i < 2 && j < 2
      ensures Dot(a, b, i, j) == Entry(p, i, j)
    {
      assert Dot(a, b, i, j) == Entry(a, i, 0) * Entry(b, 0, j) + Entry(a, i, 1) * Entry(b, 1, j);
    }
  }

  /** `[[2^30]] * [[2]]`: the single term already exceeds MAX, and the
      multiplication guard is what trips. */
  lemma ExampleMultiplicationOverflow()
    ensures Conformable(Grid(1, 1, [0x4000_0000]), Grid(1, 1, [2]))
    ensures MulExceedsMax(0x4000_0000, 2)
    ensures FirstOverflow(Grid(1, 1, [0x4000_0000]), Grid(1, 1, [2]), 0, 0)
  {
    MulExceedsMaxExact(0x4000_0000, 2);
    assert Dot(Grid(1, 1, [0x4000_0000]), Grid(1, 1, [2]), 0, 0) == 0x8000_0000;
  }

  /** `[[2^30, 2^30]] * [[1], [1]]`: neither term exceeds MAX, so the
      multiplication guard never trips, but their sum does: only the
      accumulation guard catches it. */
  lemma ExampleAccumulationOverflow()
    ensures Conformable(Grid(1, 2, [0x4000_0000, 0x4000_0000]), Grid(2, 1, [1, 1]))
    ensures !MulExceedsMax(0x4000_0000, 1)
    ensures FirstOverflow(Grid(1, 2, [0x4000_0000, 0x4000_0000]), Grid(2, 1, [1, 1]), 0, 0)
  {
    MulExceedsMaxExact(0x4000_0000, 1);
    var a, b := Grid(1, 2, [0x4000_0000, 0x4000_0000]), Grid(2, 1, [1, 1]);
    assert Dot(a, b, 0, 0) == Entry(a, 0, 0) * Entry(b, 0, 0) + Entry(a, 0, 1) * Entry(b, 1, 0);
  }

  /** `[[-1]] * [[1]]`: the product `[[-1]]` fits, yet the multiplication
      guard as written trips on its only term. */
  lemma ExampleSpuriousOverflow()
    ensures Conformable(Grid(1, 1, [-1]), Grid(1, 1, [1]))
    ensures NoOverflow(Grid(1, 1, [-1]), Grid(1, 1, [1]))
    ensures IsProduct(Grid(1, 1, [-1]), Grid(1, 1, [1]), Grid(1, 1, [-1]))
    ensures MulGuardAsWritten(-1, 1)
  {
    MulGuardTripsWithoutOverflow(-1, 1);
    assert Dot(Grid(1, 1, [-1]), Grid(1, 1, [1]), 0, 0) == -1;
  }

  // ---------------------------------------------------------------------
  // The computation
  // ---------------------------------------------------------------------

  /** The inner loop for output element (`i`, `j`): the running sum of
      `m1[i][k] * m2_t[j][k]`, with the multiplication guard checked before
      each product and the accumulation guard before each addition. `b` is the
      second operand, of which `m2t` holds the transpose. */
  method CellProduct(m1: Matrix, m2t: Matrix, ghost b: Grid, i: nat, j: nat) returns (r: Result<Int32>)
    requires m1.Valid() && m2t.Valid() && WellFormed(b)
    requires m2t.Value() == Transposed(b) && Conformable(m1.Value(), b)
    requires NonNegative(m1.Value()) && NonNegative(b)
    requires i < m1.rows && j < b.columns
    ensures r.Ok? <==> Dot(m1.Value(), b, i, j) <= MAX
    ensures r.Ok? ==> r.value == Dot(m1.Value(), b, i, j)
    ensures r.Err? ==> r.error == Overflow(i, j)
  {
    ghost var a := m1.Value();
    var sum: Int32 := 0;
    var k, columns := 0, m1.ColumnsNum();
    while k < columns
      invariant k <= m1.columns
      invariant sum == PartialSum(a, b, i, j, k)
      invariant 0 <= sum <= MAX
    {
      var x := m1.GetElement(i, k).value;
      var y := m2t.GetElement(j, k).value;
      TransposedEntry(b, k, j);
      assert 0 <= x && 0 <= y;
      PartialSumMonotone(a, b, i, j, k + 1, a.columns);
      MulExceedsMaxExact(x, y);
      if MulExceedsMax(x, y) {
        return Err(Overflow(i, j));
      }
      var term: Int32 := x * y;
      if MAX - term < sum {
        return Err(Overflow(i, j));
      }
      sum := sum + term;
      k := k + 1;
    }
    return Ok(sum);
  }

  /** `m1 * m2`: fails on mismatched inner dimensions, on a product shape with
      more than MAX elements, and at the first element (row-major) whose value
      exceeds MAX; otherwise a fresh matrix holding the exact product. */
  method GetMatrixProduct(m1: Matrix, m2: Matrix) returns (res: Result<Matrix>)
    requires m1.Valid() && m2.Valid()
    requires NonNegative(m1.Value()) && NonNegative(m2.Value())
    ensures res == Err(DimMismatch) <==> m1.columns != m2.rows
    ensures res == Err(InvalidDims) <==> m1.columns == m2.rows && m1.rows * m2.columns > MAX
    ensures res.Err? && m1.columns == m2.rows && m1.rows * m2.columns <= MAX ==> res.error.Overflow?
    ensures res.Ok? <==>
      m1.columns == m2.rows && m1.rows * m2.columns <= MAX && NoOverflow(m1.Value(), m2.Value())
    ensures res.Err? && res.error.Overflow? ==>
      Conformable(m1.Value(), m2.Value()) &&
      FirstOverflow(m1.Value(), m2.Value(), res.error.row, res.error.column)
    ensures res.Ok? ==> fresh(res.value) && fresh(res.value.buffer) && res.value.Valid()
    ensures res.Ok? ==>
      Conformable(m1.Value(), m2.Value()) && IsProduct(m1.Value(), m2.Value(), res.value.Value())
  {
    if m1.ColumnsNum() != m2.RowsNum() {
      return Err(DimMismatch);
    }
    ghost var a, b := m1.Value(), m2.Value();
    var productRows, productColumns := m1.RowsNum(), m2.ColumnsNum();
    var created := Matrix.Create(productRows, productColumns);
    if created.Err? {
      return Err(created.error);
    }
    var product := created.value;
    var m2t := Transpose(m2);

    var i := 0;
    while i < productRows
      invariant i <= productRows
      invariant m2t.Value() == Transposed(b) && product.buffer != m2t.buffer
      invariant FilledBefore(a, b, product.Value(), i, 0)
    {
      var j := 0;
      while j < productColumns
        invariant j <= productColumns
        invariant m2t.Value() == Transposed(b)
        invariant FilledBefore(a, b, product.Value(), i, j)
      {
        var cell := CellProduct(m1, m2t, b, i, j);
        if cell.Err? {
          assert OverflowsAt(a, b, i, j);
          return Err(cell.error);
        }
        FilledBeforeStep(a, b, product.Value(), i, j, cell.value);
        var status := product.SetElement(i, j, cell.value);
        assert status == Pass;
        j := j + 1;
      }
      i := i + 1;
    }
    FilledBeforeComplete(a, b, product.Value());
    return Ok(product);
  }
}
