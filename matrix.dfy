/** The index and layout half of the fixed-size matrix type (src/basemath/matrix.rs). A matrix of
    `rows` by `cols` stores its elements column-major, `data[col][row]`; a vector is a matrix with
    one column. The abstract view of a matrix is a `Grid`, the sequence of its rows. Element
    values are only moved, never computed with, so they are `real`s. */
module Matrices {

  /** Rows of equal length: `g[r][c]` is the element in row `r` and column `c`. */
  type Grid = seq<seq<real>>

  predicate IsGrid(g: Grid, m: nat, n: nat)
  {
    |g| == m && forall r :: 0 <= r < m ==> |g[r]| == n
  }

  /** Every element equal to `x`. */
  function Filled(m: nat, n: nat, x: real): (g: Grid)
    ensures IsGrid(g, m, n)
    ensures forall r, c :: 0 <= r < m && 0 <= c < n ==> g[r][c] == x
  {
    seq(m, r => seq(n, c => x))
  }

  /** Rows become columns. */
  function Transposed(g: Grid, m: nat, n: nat): (t: Grid)
    requires IsGrid(g, m, n)
    ensures IsGrid(t, n, m)
  {
    seq(n, c requires 0 <= c < n => seq(m, r requires 0 <= r < m => g[r][c]))
  }

  /** Position of row `r`, column `c` in a slice laid out row by row, `n` to a row. */
  lemma RowMajorIndex(r: nat, c: nat, m: nat, n: nat)
    requires r < m && c < n
    ensures r * n + c < m * n
  {
    assert (r + 1) * n <= m * n;
  }

  /** The grid read from a slice laid out row by row (`from_row_major_slice`). */
  function RowMajorGrid(s: seq<real>, m: nat, n: nat): (g: Grid)
    requires |s| >= m * n
    ensures IsGrid(g, m, n)
  {
    seq(m, r requires 0 <= r < m =>
      seq(n, c requires 0 <= c < n => RowMajorIndex(r, c, m, n); s[r * n + c]))
  }

  /** The grid read from a slice laid out column by column (`from_col_major_slice`). */
  function ColMajorGrid(s: seq<real>, m: nat, n: nat): (g: Grid)
    requires |s| >= m * n
    ensures IsGrid(g, m, n)
  {
    seq(m, r requires 0 <= r < m =>
      seq(n, c requires 0 <= c < n => RowMajorIndex(c, r, n, m); s[c * m + r]))
  }

  /** Ones on the diagonal, zeros elsewhere. */
  function IdentityGrid(n: nat): (g: Grid)
    ensures IsGrid(g, n, n)
  {
    seq(n, r => seq(n, c => if r == c then 1.0 else 0.0))
  }

  /** `d` on the diagonal, zeros elsewhere. */
  function DiagGrid(d: seq<real>): (g: Grid)
    ensures IsGrid(g, |d|, |d|)
  {
    seq(|d|, r requires 0 <= r < |d| => seq(|d|, c => if r == c then d[r] else 0.0))
  }

  /** Column `c` of a grid, top to bottom. */
  function ColumnOf(g: Grid, m: nat, n: nat, c: nat): (v: seq<real>)
    requires IsGrid(g, m, n) && c < n
    ensures |v| == m
  {
    seq(m, r requires 0 <= r < m => g[r][c])
  }

  /** A sequence as a one-column grid. */
  function ColumnGrid(v: seq<real>): (g: Grid)
    ensures IsGrid(g, |v|, 1)
  {
    seq(|v|, r requires 0 <= r < |v| => [v[r]])
  }

  // ---------------------------------------------------------------------------
  // Properties of the layouts

  /** Transposing twice gives the grid back. */
  lemma TransposeTwice(g: Grid, m: nat, n: nat)
    requires IsGrid(g, m, n)
    ensures Transposed(Transposed(g, m, n), n, m) == g
  {
    var t := Transposed(Transposed(g, m, n), n, m);
    forall r | 0 <= r < m
      ensures t[r] == g[r]
    {
    }
  }

  /** Transposing swaps the indices of every element. */
  lemma TransposedAt(g: Grid, m: nat, n: nat, r: nat, c: nat)
    requires IsGrid(g, m, n) && r < n && c < m
    ensures Transposed(g, m, n)[r][c] == g[c][r]
  {
  }

  /** A slice read column by column as `m` by `n` is the transpose of the same slice read row by
      row as `n` by `m`. */
  lemma ColMajorIsTransposedRowMajor(s: seq<real>, m: nat, n: nat)
    requires |s| >= m * n
    ensures ColMajorGrid(s, m, n) == Transposed(RowMajorGrid(s, n, m), n, m)
  {
    var a := ColMajorGrid(s, m, n);
    var b := Transposed(RowMajorGrid(s, n, m), n, m);
    forall r | 0 <= r < m
      ensures a[r] == b[r]
    {
    }
  }

  /** The identity is the diagonal of ones, and is its own transpose. */
  lemma IdentityIsDiagonal(n: nat)
    ensures IdentityGrid(n) == DiagGrid(seq(n, i => 1.0))
    ensures Transposed(IdentityGrid(n), n, n) == IdentityGrid(n)
  {
    var t := Transposed(IdentityGrid(n), n, n);
    forall r | 0 <= r < n
      ensures t[r] == IdentityGrid(n)[r]
    {
    }
  }

  /** A diagonal grid is its own transpose. */
  lemma DiagSymmetric(d: seq<real>)
    ensures Transposed(DiagGrid(d), |d|, |d|) == DiagGrid(d)
  {
    var t := Transposed(DiagGrid(d), |d|, |d|);
    forall r | 0 <= r < |d|
      ensures t[r] == DiagGrid(d)[r]
    {
    }
  }

  /** Row `c` of the transpose is column `c`, and column `r` of the transpose is row `r`. */
  lemma TransposeSwapsRowsAndColumns(g: Grid, m: nat, n: nat, c: nat, r: nat)
    requires IsGrid(g, m, n) && c < n && r < m
    ensures Transposed(g, m, n)[c] == ColumnOf(g, m, n, c)
    ensures ColumnOf(Transposed(g, m, n), n, m, r) == g[r]
  {
  }

  // ---------------------------------------------------------------------------
  // The matrix

  class Matrix {
    /** `M`, the number of rows. */
    const rows: nat
    /** `N`, the number of columns. */
    const cols: nat
    /** Column-major storage: `data[c, r]` is row `r` of column `c`. */
    const data: array2<real>

    ghost predicate Valid()
    {
      data.Length0 == cols && data.Length1 == rows
    }

    /** The elements, row by row. */
    ghost function Cells(): (g: Grid)
      reads data
      requires Valid()
      ensures IsGrid(g, rows, cols)
    {
      seq(rows, r requires 0 <= r < rows reads data =>
        seq(cols, c requires 0 <= c < cols reads data => data[c, r]))
    }

    /** `data` holds `g`, element by element. */
    ghost predicate Holds(g: Grid)
      reads data
      requires Valid()
    {
      IsGrid(g, rows, cols) && forall r, c :: 0 <= r < rows && 0 <= c < cols ==> data[c, r] == g[r][c]
    }

    lemma CellsAre(g: Grid)
      requires Valid() && Holds(g)
      ensures Cells() == g
    {
      var h := Cells();
      forall r | 0 <= r < rows
        ensures h[r] == g[r]
      {
      }
    }

    // -------------------------------------------------------------------------
    // Constructors (src/basemath/matrix.rs:36-141)

    /** `zeros`. */
    constructor Zeros(m: nat, n: nat)
      ensures Valid() && rows == m && cols == n && fresh(data)
      ensures Cells() == Filled(m, n, 0.0)
    {
      rows, cols := m, n;
      data := new real[n, m]((c, r) => 0.0);
      new;
      CellsAre(Filled(m, n, 0.0));
    }

    /** `ones`. */
    constructor Ones(m: nat, n: nat)
      ensures Valid() && rows == m && cols == n && fresh(data)
      ensures Cells() == Filled(m, n, 1.0)
    {
      rows, cols := m, n;
      data := new real[n, m]((c, r) => 1.0);
      new;
      CellsAre(Filled(m, n, 1.0));
    }

    /** `from_col_major_array`: the argument is the storage itself, a list of `n` columns. */
    constructor FromColMajorArray(a: Grid, m: nat, n: nat)
      requires IsGrid(a, n, m)
      ensures Valid() && rows == m && cols == n && fresh(data)
      ensures Cells() == Transposed(a, n, m)
    {
      rows, cols := m, n;
      data := new real[n, m]((c, r) requires 0 <= c < n && 0 <= r < m => a[c][r]);
      new;
      CellsAre(Transposed(a, n, m));
    }

    /** `from_row_major_array`: start from zeros and copy element `(i, j)` of the rows into
        `data[j][i]`. */
    constructor FromRowMajorArray(a: Grid, m: nat, n: nat)
      requires IsGrid(a, m, n)
      ensures Valid() && rows == m && cols == n && fresh(data)
      ensures Cells() == a
    {
      rows, cols := m, n;
      data := new real[n, m]((c, r) => 0.0);
      new;
      var i := 0;
      while i < m
        invariant 0 <= i <= m
        invariant forall r, c :: 0 <= r < i && 0 <= c < n ==> data[c, r] == a[r][c]
      {
        var j := 0;
        while j < n
          invariant 0 <= j <= n
          invariant forall r, c :: 0 <= r < i && 0 <= c < n ==> data[c, r] == a[r][c]
          invariant forall c :: 0 <= c < j ==> data[c, i] == a[i][c]
        {
          data[j, i] := a[i][j];
          j := j + 1;
        }
        i := i + 1;
      }
      CellsAre(a);
    }

    /** `from_col_major_slice`: column `i`, row `j` is element `i * m + j` of the slice, which
        must hold at least `m * n` elements (the indexing panics otherwise). */
    constructor FromColMajorSlice(s: seq<real>, m: nat, n: nat)
      requires |s| >= m * n
      ensures Valid() && rows == m && cols == n && fresh(data)
      ensures Cells() == ColMajorGrid(s, m, n)
    {
      rows, cols := m, n;
      data := new real[n, m]((c, r) => 0.0);
      new;
      var i := 0;
      while i < n
        invariant 0 <= i <= n
        invariant forall c, r :: 0 <= c < i && 0 <= r < m ==> data[c, r] == ColMajorGrid(s, m, n)[r][c]
      {
        var j := 0;
        while j < m
          invariant 0 <= j <= m
          invariant forall c, r :: 0 <= c < i && 0 <= r < m ==> data[c, r] == ColMajorGrid(s, m, n)[r][c]
          invariant forall r :: 0 <= r < j ==> data[i, r] == ColMajorGrid(s, m, n)[r][i]
        {
          RowMajorIndex(i, j, n, m);
          data[i, j] := s[i * m + j];
          j := j + 1;
        }
        i := i + 1;
      }
      CellsAre(ColMajorGrid(s, m, n));
    }

    /** `from_row_major_slice`: row `i`, column `j` is element `i * n + j` of the slice, which
        must hold at least `m * n` elements. */
    constructor FromRowMajorSlice(s: seq<real>, m: nat, n: nat)
      requires |s| >= m * n
      ensures Valid() && rows == m && cols == n && fresh(data)
      ensures Cells() == RowMajorGrid(s, m, n)
    {
      rows, cols := m, n;
      data := new real[n, m]((c, r) => 0.0);
      new;
      var i := 0;
      while i < m
        invariant 0 <= i <= m
        invariant forall r, c :: 0 <= r < i && 0 <= c < n ==> data[c, r] == RowMajorGrid(s, m, n)[r][c]
      {
        var j := 0;
        while j < n
          invariant 0 <= j <= n
          invariant forall r, c :: 0 <= r < i && 0 <= c < n ==> data[c, r] == RowMajorGrid(s, m, n)[r][c]
          invariant forall c :: 0 <= c < j ==> data[c, i] == RowMajorGrid(s, m, n)[i][c]
        {
          RowMajorIndex(i, j, m, n);
          data[j, i] := s[i * n + j];
          j := j + 1;
        }
        i := i + 1;
      }
      CellsAre(RowMajorGrid(s, m, n));
    }

    /** `identity`: zeros, then a one at `data[i][i]` for every `i`. */
    constructor Identity(n: nat)
      ensures Valid() && rows == n && cols == n && fresh(data)
      ensures Cells() == IdentityGrid(n)
    {
      rows, cols := n, n;
      data := new real[n, n]((c, r) => 0.0);
      new;
      var i := 0;
      while i < n
        invariant 0 <= i <= n
        invariant forall c, r :: 0 <= c < n && 0 <= r < n ==>
                    data[c, r] == if c == r && c < i then 1.0 else 0.0
      {
        data[i, i] := 1.0;
        i := i + 1;
      }
      CellsAre(IdentityGrid(n));
    }

    /** `diag_from_vector`: zeros, then element `i` of the vector at `data[i][i]`. */
    constructor DiagFromVector(d: Matrix)
      requires d.Valid() && d.cols == 1
      ensures Valid() && rows == d.rows && cols == d.rows && fresh(data)
      ensures Cells() == DiagGrid(d.AsSlice())
    {
      var n := d.rows;
      rows, cols := n, n;
      data := new real[n, n]((c, r) => 0.0);
      new;
      var i := 0;
      while i < n
        invariant 0 <= i <= n
        invariant forall c, r :: 0 <= c < n && 0 <= r < n ==>
                    data[c, r] == if c == r && c < i then d.data[0, c] else 0.0
      {
        data[i, i] := d.VectorAt(i);
        i := i + 1;
      }
      CellsAre(DiagGrid(d.AsSlice()));
    }

    /** `from_vec`: the array is the vector's single column. */
    constructor FromVec(v: seq<real>)
      ensures Valid() && rows == |v| && cols == 1 && fresh(data)
      ensures AsSlice() == v && Cells() == ColumnGrid(v)
    {
      rows, cols := |v|, 1;
      data := new real[1, |v|]((c, r) requires 0 <= r < |v| => v[r]);
      new;
      CellsAre(ColumnGrid(v));
    }

    /** `from_slice`: zeros, then `copy_from_slice`, which panics unless the slice has exactly
        `n` elements. */
    constructor FromSlice(s: seq<real>, n: nat)
      requires |s| == n
      ensures Valid() && rows == n && cols == 1 && fresh(data)
      ensures AsSlice() == s && Cells() == ColumnGrid(s)
    {
      rows, cols := n, 1;
      data := new real[1, n]((c, r) => 0.0);
      new;
      var i := 0;
      while i < n
        invariant 0 <= i <= n
        invariant forall r :: 0 <= r < i ==> data[0, r] == s[r]
      {
        data[0, i] := s[i];
        i := i + 1;
      }
      CellsAre(ColumnGrid(s));
    }

    // -------------------------------------------------------------------------
    // Shape and element access (src/basemath/matrix.rs:156-173, 571-641, 850-852)

    function Rows(): nat
    {
      rows
    }

    function Cols(): nat
    {
      cols
    }

    /** `m[(r, c)]`: row `r` of column `c`. */
    function At(r: nat, c: nat): (x: real)
      reads data
      requires Valid() && r < rows && c < cols
      ensures x == Cells()[r][c]
    {
      data[c, r]
    }

    /** `m[(r, c)] = x`: only that element changes. */
    method SetAt(r: nat, c: nat, x: real)
      modifies data
      requires Valid() && r < rows && c < cols
      ensures Cells() == old(Cells())[r := old(Cells())[r][c := x]]
    {
      data[c, r] := x;
      CellsAre(old(Cells())[r := old(Cells())[r][c := x]]);
    }

    /** `get(row, col)` reads `data[row][col]`: the element `m[(col, row)]`, so `row` must be a
        column index and `col` a row index. */
    function Get(row: nat, col: nat): (x: real)
      reads data
      requires Valid() && row < cols && col < rows
      ensures x == At(col, row)
    {
      data[row, col]
    }

    /** `set(row, col, x)` writes `data[row][col]`: the element `m[(col, row)]` changes and no
        other. */
    method Set(row: nat, col: nat, x: real)
      modifies data
      requires Valid() && row < cols && col < rows
      ensures Cells() == old(Cells())[col := old(Cells())[col][row := x]]
      ensures Get(row, col) == x
    {
      data[row, col] := x;
      CellsAre(old(Cells())[col := old(Cells())[col][row := x]]);
    }

    /** The elements of a one-column matrix, top to bottom (`as_slice`). */
    function AsSlice(): (v: seq<real>)
      reads data
      requires Valid() && cols == 1
      ensures |v| == rows && forall r :: 0 <= r < rows ==> v[r] == Cells()[r][0]
    {
      seq(rows, r requires 0 <= r < rows reads data => data[0, r])
    }

    /** `v[i]` of a vector: element `i` of its single column. */
    function VectorAt(i: nat): (x: real)
      reads data
      requires Valid() && cols == 1 && i < rows
      ensures x == At(i, 0) && x == AsSlice()[i]
    {
      data[0, i]
    }

    /** `v[i] = x` of a vector: only that element changes. */
    method VectorSetAt(i: nat, x: real)
      modifies data
      requires Valid() && cols == 1 && i < rows
      ensures AsSlice() == old(AsSlice())[i := x]
    {
      data[0, i] := x;
    }

    // -------------------------------------------------------------------------
    // Transpose, column and row (src/basemath/matrix.rs:186-240)

    /** `transpose`: a new `cols` by `rows` matrix with `data[j][i]` copied from `data[i][j]`. */
    method Transpose() returns (t: Matrix)
      requires Valid()
      ensures t.Valid() && t.rows == cols && t.cols == rows && fresh(t.data)
      ensures t.Cells() == Transposed(Cells(), rows, cols)
    {
      t := new Matrix.Zeros(cols, rows);
      var i := 0;
      while i < cols
        invariant 0 <= i <= cols
        invariant forall c, r :: 0 <= c < rows && 0 <= r < i ==> t.data[c, r] == data[r, c]
      {
        var j := 0;
        while j < rows
          invariant 0 <= j <= rows
          invariant forall c, r :: 0 <= c < rows && 0 <= r < i ==> t.data[c, r] == data[r, c]
          invariant forall c :: 0 <= c < j ==> t.data[c, i] == data[i, c]
        {
          t.data[j, i] := data[i, j];
          j := j + 1;
        }
        i := i + 1;
      }
      t.CellsAre(Transposed(Cells(), rows, cols));
    }

    /** `column(col)`: a vector holding a copy of the storage column `data[col]`. */
    method Column(col: nat) returns (v: Matrix)
      requires Valid() && col < cols
      ensures v.Valid() && v.cols == 1 && fresh(v.data)
      ensures v.AsSlice() == ColumnOf(Cells(), rows, cols, col)
    {
      var copy := seq(rows, r requires 0 <= r < rows reads data => data[col, r]);
      v := new Matrix.FromVec(copy);
    }

    /** `row(row)`: a vector whose element `i` is `data[i][row]`, filled in a loop. */
    method Row(row: nat) returns (v: Matrix)
      requires Valid() && (cols == 0 || row < rows)
      ensures v.Valid() && v.cols == 1 && fresh(v.data)
      ensures |v.AsSlice()| == cols
      ensures row < rows ==> v.AsSlice() == Cells()[row]
    {
      v := new Matrix.Zeros(cols, 1);
      var i := 0;
      while i < cols
        invariant 0 <= i <= cols
        invariant forall c :: 0 <= c < i ==> v.data[0, c] == data[c, row]
      {
        v.data[0, i] := data[i, row];
        i := i + 1;
      }
    }
  }
}
