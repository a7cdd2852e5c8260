/** The matrix container: a dense grid of `int` stored row-major in one flat
    buffer of length `rows * columns`, with bounds-checked access and
    transposition. */
module Matrices {
  import opened BoundedInt
  import opened Errors

  // ---------------------------------------------------------------------
  // Row-major layout
  // ---------------------------------------------------------------------

  /** Position of element (`row`, `column`) in the flat buffer. */
  function Index(columns: nat, row: nat, column: nat): (k: nat) {
    row * columns + column
  }

  lemma IndexInRange(rows: nat, columns: nat, row: nat, column: nat)
    requires row < rows && column < columns
    ensures Index(columns, row, column) < rows * columns
  {
    MulNonNegative(rows - row - 1, columns);
    assert rows * columns == (rows - row - 1) * columns + row * columns + columns;
  }

  /** The row-major layout can be undone: a position splits back into its row
      (the quotient) and its column (the remainder). */
  lemma IndexSplit(columns: nat, row: nat, column: nat)
    requires column < columns
    ensures Index(columns, row, column) / columns == row
    ensures Index(columns, row, column) % columns == column
  {
    var k := Index(columns, row, column);
    var q, s := k / columns, k % columns;
    assert k == q * columns + s && 0 <= s < columns;
    assert (q - row) * columns == column - s;
    MulMonotone(q - row, columns);
  }

  /** Every position of a `rows` by `columns` buffer is the position of exactly
      one element (`k / columns`, `k % columns`) of the grid. */
  lemma FlatIndexSplit(rows: nat, columns: nat, k: nat)
    requires k < rows * columns
    ensures 0 < columns
    ensures k / columns < rows && k % columns < columns
    ensures Index(columns, k / columns, k % columns) == k
  {
    var q := k / columns;
    assert k == q * columns + k % columns;
    assert q * columns == (q - rows) * columns + rows * columns;
    MulMonotone(q - rows, columns);
  }

  /** Distinct elements live at distinct positions of the buffer. */
  lemma IndexInjective(columns: nat, r1: nat, c1: nat, r2: nat, c2: nat)
    requires c1 < columns && c2 < columns
    ensures Index(columns, r1, c1) == Index(columns, r2, c2) <==> r1 == r2 && c1 == c2
  {
    IndexSplit(columns, r1, c1);
    IndexSplit(columns, r2, c2);
  }

  // ---------------------------------------------------------------------
  // The value of a matrix
  // ---------------------------------------------------------------------

  /** The dimensions and the row-major cells of a matrix. */
  datatype Grid = Grid(rows: nat, columns: nat, cells: seq<Int32>)

  predicate WellFormed(g: Grid) {
    |g.cells| == g.rows * g.columns
  }

  /** Element (`row`, `column`) of a grid. */
  function Entry(g: Grid, row: nat, column: nat): (v: Int32)
    requires WellFormed(g) && row < g.rows && column < g.columns
  {
    IndexInRange(g.rows, g.columns, row, column);
    g.cells[Index(g.columns, row, column)]
  }

  /** Two grids of the same dimensions with the same elements are the same. */
  lemma GridExtensionality(g: Grid, h: Grid)
    requires WellFormed(g) && WellFormed(h)
    requires g.rows == h.rows && g.columns == h.columns
    requires forall i: nat, j: nat :: i < g.rows && j < g.columns ==> Entry(g, i, j) == Entry(h, i, j)
    ensures g == h
  {
    forall k | 0 <= k < |g.cells|
      ensures g.cells[k] == h.cells[k]
    {
      FlatIndexSplit(g.rows, g.columns, k);
      assert Entry(g, k / g.columns, k % g.columns) == Entry(h, k / g.columns, k % g.columns);
    }
  }

  /** A grid whose every element is zero. */
  function Zeros(rows: nat, columns: nat): (g: Grid)
    ensures WellFormed(g) && g.rows == rows && g.columns == columns
  {
    Grid(rows, columns, seq(rows * columns, _ => 0))
  }

  lemma ZerosEntry(rows: nat, columns: nat, i: nat, j: nat)
    requires i < rows && j < columns
    ensures Entry(Zeros(rows, columns), i, j) == 0
  {
    IndexInRange(rows, columns, i, j);
  }

  /** `g` with element (`row`, `column`) replaced by `v`. */
  function Updated(g: Grid, row: nat, column: nat, v: Int32): (h: Grid)
    requires WellFormed(g) && row < g.rows && column < g.columns
    ensures WellFormed(h) && h.rows == g.rows && h.columns == g.columns
  {
    IndexInRange(g.rows, g.columns, row, column);
    g.(cells := g.cells[Index(g.columns, row, column) := v])
  }

  /** Writing one element then reading it gives the written value, and every
      other element reads as before. */
  lemma EntryOfUpdated(g: Grid, row: nat, column: nat, v: Int32, r: nat, c: nat)
    requires WellFormed(g) && row < g.rows && column < g.columns
    requires r < g.rows && c < g.columns
    ensures Entry(Updated(g, row, column, v), r, c) == if r == row && c == column then v else Entry(g, r, c)
  {
    IndexInjective(g.columns, row, column, r, c);
    IndexInRange(g.rows, g.columns, r, c);
  }

  /** The transpose: `columns` by `rows`, element (`j`, `i`) taken from (`i`, `j`). */
  function Transposed(g: Grid): (t: Grid)
    requires WellFormed(g)
    ensures WellFormed(t) && t.rows == g.columns && t.columns == g.rows
  {
    Grid(g.columns, g.rows,
      seq(g.columns * g.rows, k requires 0 <= k < g.columns * g.rows =>
        FlatIndexSplit(g.columns, g.rows, k);
        Entry(g, k % g.rows, k / g.rows)))
  }

  lemma TransposedEntry(g: Grid, i: nat, j: nat)
    requires WellFormed(g) && i < g.rows && j < g.columns
    ensures Entry(Transposed(g), j, i) == Entry(g, i, j)
  {
    IndexSplit(g.rows, j, i);
    IndexInRange(g.columns, g.rows, j, i);
  }

  /** Transposing twice gives back the original grid. */
  lemma TransposeInvolution(g: Grid)
    requires WellFormed(g)
    ensures Transposed(Transposed(g)) == g
  {
    var t := Transposed(g);
    forall i: nat, j: nat | i < g.rows && j < g.columns
      ensures Entry(Transposed(t), i, j) == Entry(g, i, j)
    {
      TransposedEntry(t, j, i);
      TransposedEntry(g, i, j);
    }
    GridExtensionality(Transposed(t), g);
  }

  // ---------------------------------------------------------------------
  // The container
  // ---------------------------------------------------------------------

  /** The constructor's dimension test as written, `rows == 0 || columns == 0
      || MAX / rows < columns`, rejects exactly the empty shapes and those
      with more than MAX elements. */
  lemma DimsCheckExact(rows: nat, columns: nat)
    ensures (rows == 0 || columns == 0 || MAX / rows < columns)
        <==> (rows == 0 || columns == 0 || rows * columns > MAX)
  {
    if rows != 0 {
      PositiveDivGuard(rows, columns);
    }
  }

  class Matrix {
    const rows: nat
    const columns: nat
    /** The flat row-major buffer; its length never changes. */
    const buffer: array<Int32>

    ghost predicate Valid() {
      0 < rows && 0 < columns && rows * columns <= MAX && buffer.Length == rows * columns
    }

    /** The matrix as a grid value. */
    function Value(): (g: Grid)
      requires Valid()
      reads buffer
      ensures WellFormed(g) && g.rows == rows && g.columns == columns
    {
      Grid(rows, columns, buffer[..])
    }

    constructor Init(rows: nat, columns: nat)
      requires 0 < rows && 0 < columns && rows * columns <= MAX
      ensures Valid() && fresh(buffer)
      ensures this.rows == rows && this.columns == columns
      ensures Value() == Zeros(rows, columns)
    {
      this.rows := rows;
      this.columns := columns;
      buffer := new Int32[rows * columns](_ => 0);
    }

    /** Construction: fails on a zero dimension or on more than MAX elements;
        otherwise a fresh zero-filled matrix of exactly these dimensions. */
    static method Create(rows: nat, columns: nat) returns (res: Result<Matrix>)
      ensures res.Err? <==> rows == 0 || columns == 0 || rows * columns > MAX
      ensures res.Err? ==> res.error == InvalidDims
      ensures res.Ok? ==> fresh(res.value) && fresh(res.value.buffer) && res.value.Valid()
      ensures res.Ok? ==> res.value.rows == rows && res.value.columns == columns
      ensures res.Ok? ==> res.value.Value() == Zeros(rows, columns)
    {
      DimsCheckExact(rows, columns);
      if rows == 0 || columns == 0 || MAX / rows < columns {
        return Err(InvalidDims);
      }
      var m := new Matrix.Init(rows, columns);
      return Ok(m);
    }

    /** Bounds-checked read of element (`row`, `column`). */
    function GetElement(row: nat, column: nat): (r: Result<Int32>)
      requires Valid()
      reads buffer
      ensures r.Ok? <==> row < rows && column < columns
      ensures r.Ok? ==> r.value == Entry(Value(), row, column)
      ensures r.Err? ==> r.error == OutOfRange
    {
      if row >= rows || column >= columns then
        Err(OutOfRange)
      else
        IndexInRange(rows, columns, row, column);
        Ok(buffer[row * columns + column])
    }

    /** The number of rows: positive, and with the columns within MAX elements. */
    function RowsNum(): (n: nat)
      requires Valid()
      ensures n == rows
      ensures 0 < n && n * columns <= MAX
    {
      rows
    }

    /** The number of columns: positive, and with the rows within MAX elements. */
    function ColumnsNum(): (n: nat)
      requires Valid()
      ensures n == columns
      ensures 0 < n && rows * n <= MAX
    {
      columns
    }

    /** Bounds-checked write of element (`row`, `column`). */
    method SetElement(row: nat, column: nat, value: Int32) returns (status: Outcome)
      requires Valid()
      modifies buffer
      ensures status == if row < rows && column < columns then Pass else Fail(OutOfRange)
      ensures status.Pass? ==> Value() == Updated(old(Value()), row, column, value)
      ensures status.Fail? ==> Value() == old(Value())
      ensures status.Pass? ==> GetElement(row, column) == Ok(value)
      ensures forall r: nat, c: nat :: r != row || c != column ==> GetElement(r, c) == old(GetElement(r, c))
    {
      if row >= rows || column >= columns {
        return Fail(OutOfRange);
      }
      IndexInRange(rows, columns, row, column);
      buffer[row * columns + column] := value;
      status := Pass;
      ghost var before := old(Value());
      assert Value() == Updated(before, row, column, value);
      forall r: nat, c: nat | r != row || c != column
        ensures GetElement(r, c) == old(GetElement(r, c))
      {
        if r < rows && c < columns {
          EntryOfUpdated(before, row, column, value, r, c);
        }
      }
      EntryOfUpdated(before, row, column, value, row, column);
    }
  }

  /** A fresh matrix holding the transpose of `m`; `m` is left unchanged. */
  method Transpose(m: Matrix) returns (t: Matrix)
    requires m.Valid()
    ensures fresh(t) && fresh(t.buffer) && t.Valid()
    ensures t.rows == m.columns && t.columns == m.rows
    ensures t.Value() == Transposed(m.Value())
    ensures forall i: nat, j: nat :: t.GetElement(j, i) == m.GetElement(i, j)
  {
    t := new Matrix.Init(m.ColumnsNum(), m.RowsNum());
    var i := 0;
    while i < m.RowsNum()
      invariant i <= m.rows
      invariant forall r: nat, c: nat :: r < i && c < m.columns ==> t.GetElement(c, r) == m.GetElement(r, c)
    {
      var j := 0;
      while j < m.ColumnsNum()
        invariant j <= m.columns
        invariant forall r: nat, c: nat :: (r < i && c < m.columns) || (r == i && c < j) ==>
          t.GetElement(c, r) == m.GetElement(r, c)
      {
        var status := t.SetElement(j, i, m.GetElement(i, j).value);
        assert status == Pass;
        j := j + 1;
      }
      i := i + 1;
    }
    forall a: nat, b: nat | a < t.rows && b < t.columns
      ensures Entry(t.Value(), a, b) == Entry(Transposed(m.Value()), a, b)
    {
      assert t.GetElement(a, b) == m.GetElement(b, a);
      TransposedEntry(m.Value(), b, a);
    }
    GridExtensionality(t.Value(), Transposed(m.Value()));
  }
}
