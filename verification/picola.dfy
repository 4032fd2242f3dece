/**
 * The small matrix and vector library of libs/picola.py. A `Matrix` keeps
 * its elements in one flat row-major list next to a shape, which is unset
 * (`None`), empty (the `()` left by `Matrix([])`) or a pair (rows, columns);
 * a `Vector` wraps a list. Python exceptions are the `Raised` result.
 * Elements are integers.
 */
module Picola {
  import opened Wrappers
  import opened Bitwise

  /** A matrix shape: `None`, the empty tuple, or `(rows, columns)`. */
  datatype Shape = Unset | Empty | Dims(rows: nat, columns: nat)

  /** The flat list fits the shape: an unset or empty shape holds no data, a pair has at least one row. */
  predicate ShapeFits(shape: Shape, n: nat)
  {
    match shape
    case Unset => n == 0
    case Empty => n == 0
    case Dims(rows, columns) => rows >= 1 && n == rows * columns
  }

  /** The cell (r, c) of an r-by-c layout lies inside the flat list. */
  lemma IndexInRange(rows: nat, cols: nat, r: nat, c: nat)
    requires r < rows && c < cols
    ensures r * cols + c < rows * cols
  {
    MulAtLeast(rows - r, cols);
    assert rows * cols == r * cols + (rows - r) * cols;
  }

  /** Distinct cells of a layout with `cols` columns sit at distinct flat positions. */
  lemma IndexInjective(cols: nat, r: nat, c: nat, i: nat, j: nat)
    requires c < cols && j < cols
    requires r * cols + c == i * cols + j
    ensures r == i && c == j
  {
    ModUnique(r * cols + c, cols, r, c);
    ModUnique(i * cols + j, cols, i, j);
  }

  /** Two different cells never share a flat position. */
  lemma IndexDistinct(cols: nat, r: nat, c: nat, i: nat, j: nat)
    requires c < cols && j < cols && (r != i || c != j)
    ensures r * cols + c != i * cols + j
  {
    if r * cols + c == i * cols + j {
      IndexInjective(cols, r, c, i, j);
    }
  }

  /** Element (r, c) of row-major data with `cols` columns: `data[r*cols + c]`. */
  function Cell(data: seq<int>, rows: nat, cols: nat, r: nat, c: nat): int
    requires |data| == rows * cols && r < rows && c < cols
  {
    assert r * cols + c < |data| by {
      IndexInRange(rows, cols, r, c);
    }
    data[r * cols + c]
  }

  /** The data with element (r, c) replaced by v. */
  function SetCell(data: seq<int>, rows: nat, cols: nat, r: nat, c: nat, v: int): (d: seq<int>)
    requires |data| == rows * cols && r < rows && c < cols
    ensures |d| == |data|
  {
    assert r * cols + c < |data| by {
      IndexInRange(rows, cols, r, c);
    }
    data[r * cols + c := v]
  }

  /** Writing one cell changes that cell and no other. */
  lemma CellUpdate(data: seq<int>, rows: nat, cols: nat, r: nat, c: nat, v: int, i: nat, j: nat)
    requires |data| == rows * cols && r < rows && c < cols && i < rows && j < cols
    ensures Cell(SetCell(data, rows, cols, r, c, v), rows, cols, i, j)
            == if i == r && j == c then v else Cell(data, rows, cols, i, j)
  {
    IndexInRange(rows, cols, r, c);
    IndexInRange(rows, cols, i, j);
    if i != r || j != c {
      IndexDistinct(cols, r, c, i, j);
    }
  }

  /** Appending a row of `cols` elements adds a last row and keeps every earlier cell. */
  lemma CellAppend(data: seq<int>, row: seq<int>, rows: nat, cols: nat, i: nat, j: nat)
    requires |data| == rows * cols && |row| == cols && i <= rows && j < cols
    ensures |data + row| == (rows + 1) * cols
    ensures Cell(data + row, rows + 1, cols, i, j) == if i < rows then Cell(data, rows, cols, i, j) else row[j]
  {
    assert (rows + 1) * cols == rows * cols + cols;
    if i < rows {
      IndexInRange(rows, cols, i, j);
    }
  }

  /** Appending one more row to data laid out as `rows` rows of `cols`, cell by cell. */
  lemma AllCellsAppend(data: seq<int>, row: seq<int>, rows: nat, cols: nat)
    requires |data| == rows * cols && |row| == cols
    ensures |data + row| == (rows + 1) * cols
    ensures forall i: nat, j: nat :: i < rows && j < cols ==>
              Cell(data + row, rows + 1, cols, i, j) == Cell(data, rows, cols, i, j)
    ensures forall j: nat :: j < cols ==> Cell(data + row, rows + 1, cols, rows, j) == row[j]
  {
    assert (rows + 1) * cols == rows * cols + cols;
    forall i: nat, j: nat | i <= rows && j < cols
      ensures Cell(data + row, rows + 1, cols, i, j) == if i < rows then Cell(data, rows, cols, i, j) else row[j]
    {
      CellAppend(data, row, rows, cols, i, j);
    }
  }

  /** The rows concatenated in order, as `extend` builds them. */
  function Flatten(rows: seq<seq<int>>): seq<int>
  {
    if |rows| == 0 then [] else Flatten(rows[..|rows| - 1]) + rows[|rows| - 1]
  }

  /** Every row has `cols` elements. */
  predicate Uniform(rows: seq<seq<int>>, cols: nat)
  {
    forall k :: 0 <= k < |rows| ==> |rows[k]| == cols
  }

  /** Some row differs in length from the first. */
  predicate Ragged(rows: seq<seq<int>>)
  {
    exists k :: 0 <= k < |rows| && |rows[k]| != |rows[0]|
  }

  /** Concatenating equal-length rows lays them out row-major: cell (i, j) is `rows[i][j]`. */
  lemma {:induction false} FlattenCells(rows: seq<seq<int>>, cols: nat)
    requires Uniform(rows, cols)
    ensures |Flatten(rows)| == |rows| * cols
    ensures forall i: nat, j: nat :: i < |rows| && j < cols ==> Cell(Flatten(rows), |rows|, cols, i, j) == rows[i][j]
  {
    if |rows| > 0 {
      var init := rows[..|rows| - 1];
      assert Uniform(init, cols);
      FlattenCells(init, cols);
      AllCellsAppend(Flatten(init), rows[|rows| - 1], |init|, cols);
    }
  }

  /** `[-d for d in s]`. */
  function Negated(s: seq<int>): (r: seq<int>)
    ensures |r| == |s| && forall i :: 0 <= i < |s| ==> r[i] == -s[i]
  {
    if |s| == 0 then [] else [-s[0]] + Negated(s[1..])
  }

  /** `[s + o for s, o in zip(a, b)]`: zip stops at the shorter list. */
  function Sums(a: seq<int>, b: seq<int>): (r: seq<int>)
    ensures |r| == if |a| <= |b| then |a| else |b|
    ensures forall i :: 0 <= i < |r| ==> r[i] == a[i] + b[i]
  {
    if |a| == 0 || |b| == 0 then [] else [a[0] + b[0]] + Sums(a[1..], b[1..])
  }

  /** `[k * d for d in s]`. */
  function Scaled(k: int, s: seq<int>): (r: seq<int>)
    ensures |r| == |s| && forall i :: 0 <= i < |s| ==> r[i] == k * s[i]
  {
    if |s| == 0 then [] else [k * s[0]] + Scaled(k, s[1..])
  }

  /** `[s * o for s, o in zip(a, b)]`. */
  function Products(a: seq<int>, b: seq<int>): (r: seq<int>)
    ensures |r| == if |a| <= |b| then |a| else |b|
    ensures forall i :: 0 <= i < |r| ==> r[i] == a[i] * b[i]
  {
    if |a| == 0 || |b| == 0 then [] else [a[0] * b[0]] + Products(a[1..], b[1..])
  }

  /** `sum(s)`. */
  function Total(s: seq<int>): int
  {
    if |s| == 0 then 0 else s[0] + Total(s[1..])
  }

  /**
   * `(-v).dot(w) == -(v.dot(w))`: `Vector.Neg` yields `Negated(v)` and
   * `Vector.Dot` the total of the products, so negating before the dot
   * product negates its result.
   */
  lemma {:induction false} NegThenDot(a: seq<int>, b: seq<int>)
    ensures Total(Products(Negated(a), b)) == -Total(Products(a, b))
  {
    if |a| != 0 && |b| != 0 {
      assert Negated(a)[1..] == Negated(a[1..]);
      NegThenDot(a[1..], b[1..]);
      MulNeg(b[0], a[0]);
    }
  }

  lemma MulNeg(x: int, y: int)
    ensures x * -y == -(x * y)
  {
  }

  /** `[data[c*columns + k] for c in range(rows)]`: column k read top to bottom. */
  function Column(data: seq<int>, rows: nat, columns: nat, k: nat): (r: seq<int>)
    requires |data| == rows * columns && k < columns
    ensures |r| == rows && forall j :: 0 <= j < rows ==> r[j] == Cell(data, rows, columns, j, k)
  {
    seq(rows, c requires 0 <= c < rows => Cell(data, rows, columns, c, k))
  }

  /** Columns laid out one after the other as rows: cell (i, j) of the result is cell (j, i) of the source. */
  lemma TransposedCells(columnRows: seq<seq<int>>, data: seq<int>, rows: nat, columns: nat)
    requires |data| == rows * columns && |columnRows| == columns
    requires forall i :: 0 <= i < columns ==> columnRows[i] == Column(data, rows, columns, i)
    ensures |Flatten(columnRows)| == columns * rows
    ensures forall i: nat, j: nat :: i < columns && j < rows ==>
              Cell(Flatten(columnRows), columns, rows, i, j) == Cell(data, rows, columns, j, i)
  {
    FlattenCells(columnRows, rows);
    forall i: nat, j: nat | i < columns && j < rows
      ensures Cell(Flatten(columnRows), columns, rows, i, j) == Cell(data, rows, columns, j, i)
    {
      assert columnRows[i] == Column(data, rows, columns, i);
    }
  }

  /**
   * The sum over k < n of a[i][k] * b[k][j] for an r-by-m matrix a and an
   * m-by-p matrix b, accumulated in the order of the innermost loop of `__mul__`.
   */
  function RowTimesColumn(a: seq<int>, b: seq<int>, r: nat, m: nat, p: nat, i: nat, j: nat, n: nat): int
    requires |a| == r * m && |b| == m * p && i < r && j < p && n <= m
  {
    if n == 0 then 0
    else RowTimesColumn(a, b, r, m, p, i, j, n - 1) + Cell(a, r, m, i, n - 1) * Cell(b, m, p, n - 1, j)
  }

  /** `Vector`: a list of numbers with bounds-checked indexing. */
  class Vector {
    var data: seq<int>

    constructor (data: seq<int>)
      ensures this.data == data
    {
      this.data := data;
    }

    /** `v[idx]`: raises outside 0 <= idx <= len - 1 (negative indices are refused). */
    function Get(idx: int): (r: Result<int>)
      reads this
      ensures r.Raised? <==> idx < 0 || idx > |data| - 1
      ensures r.Ok? ==> r.value == data[idx]
    {
      if idx < 0 || idx > |data| - 1 then Raised else Ok(data[idx])
    }

    /** `v[idx] = val`: writes one element and returns `val`, or raises with the vector unchanged. */
    method Set(idx: int, val: int) returns (r: Result<int>)
      modifies this
      ensures r.Raised? <==> idx < 0 || idx > |old(data)| - 1
      ensures r.Raised? ==> data == old(data)
      ensures r.Ok? ==> r.value == val && data == old(data)[idx := val]
    {
      if idx < 0 || idx > |data| - 1 {
        return Raised;
      }
      data := data[idx := val];
      return Ok(val);
    }

    /** `-v`. */
    method Neg() returns (v: Vector)
      ensures fresh(v) && v.data == Negated(data)
    {
      v := new Vector(Negated(data));
    }

    /** `v + other`: raises on a length mismatch, otherwise the elementwise sum. */
    method Add(other: Vector) returns (r: Result<Vector>)
      ensures r.Raised? <==> |data| != |other.data|
      ensures r.Ok? ==> fresh(r.value) && r.value.data == Sums(data, other.data) && |r.value.data| == |data|
    {
      if |data| != |other.data| {
        return Raised;
      }
      var v := new Vector(Sums(data, other.data));
      return Ok(v);
    }

    /** `v * k` for a number k: every element scaled. */
    method Scale(k: int) returns (v: Vector)
      ensures fresh(v) && v.data == Scaled(k, data)
    {
      v := new Vector(Scaled(k, data));
    }

    /**
     * `v * other` for a vector: the outer product, built row by row with
     * `append_row`; entry (i, j) is `v[i] * other[j]`, and an empty `v`
     * leaves the shape unset.
     */
    method Outer(other: Vector) returns (m: Matrix)
      ensures fresh(m) && m.Valid() && m.dims == 2
      ensures m.shape == if |data| == 0 then Unset else Dims(|data|, |other.data|)
      ensures |m.data| == |data| * |other.data|
      ensures forall i: nat, j: nat :: i < |data| && j < |other.data| ==>
                Cell(m.data, |data|, |other.data|, i, j) == data[i] * other.data[j]
    {
      m := new Matrix(2);
      var n := |other.data|;
      ghost var rows: seq<seq<int>> := [];
      for i := 0 to |data|
        invariant m.dims == 2 && m.shape == (if i == 0 then Unset else Dims(i, n))
        invariant |rows| == i && m.data == Flatten(rows)
        invariant forall p :: 0 <= p < i ==> rows[p] == Scaled(data[p], other.data)
      {
        var rowData := Scaled(data[i], other.data);
        var ok := m.AppendRow(rowData);
        assert (rows + [rowData])[..i] == rows;
        rows := rows + [rowData];
      }
      FlattenCells(rows, n);
    }

    /** `v.dot(other)`: raises on a length mismatch, otherwise the sum of the products. */
    method Dot(other: Vector) returns (r: Result<int>)
      ensures r.Raised? <==> |data| != |other.data|
      ensures r.Ok? ==> r.value == Total(Products(data, other.data))
    {
      if |data| != |other.data| {
        return Raised;
      }
      return Ok(Total(Products(data, other.data)));
    }
  }

  /** `Matrix`: a flat row-major list with a shape and a `dims` tag. */
  class Matrix {
    var dims: int
    var shape: Shape
    var data: seq<int>

    /** The invariant every matrix built through the library keeps. */
    predicate Valid()
      reads this
    {
      ShapeFits(shape, |data|)
    }

    /** `Matrix(dims=dims)` without data. */
    constructor (dims: int)
      ensures this.dims == dims && shape == Unset && data == [] && Valid()
    {
      this.dims := dims;
      shape := Unset;
      data := [];
    }

    /**
     * `append_row(*row)`: the first row sets the shape to (1, len(row)), a
     * later row of the right length adds a row; a row of the wrong length,
     * or an empty shape, raises with nothing changed.
     */
    method AppendRow(row: seq<int>) returns (ok: bool)
      modifies this`shape, this`data
      ensures ok == (old(shape).Unset? || (old(shape).Dims? && old(shape).columns == |row|))
      ensures ok ==> data == old(data) + row
      ensures ok && old(shape).Unset? ==> shape == Dims(1, |row|)
      ensures ok && old(shape).Dims? ==> shape == Dims(old(shape).rows + 1, old(shape).columns)
      ensures !ok ==> shape == old(shape) && data == old(data)
      ensures old(Valid()) ==> Valid()
    {
      var s := shape;
      if s.Unset? {
        s := Dims(1, |row|);
      } else if s.Empty? {
        return false;
      } else {
        if s.columns != |row| {
          return false;
        }
        s := Dims(s.rows + 1, s.columns);
      }
      data := data + row;
      shape := s;
      return true;
    }

    /**
     * `__from_data(rows)`: appends the rows one after the other; the shape
     * becomes (number of rows, length of the first row), or the empty
     * tuple for no rows. A row whose length differs from the first raises.
     */
    method FromData(rows: seq<seq<int>>) returns (ok: bool)
      modifies this`shape, this`data
      ensures ok == !Ragged(rows)
      ensures ok ==> data == old(data) + Flatten(rows)
      ensures ok ==> shape == if |rows| == 0 then Empty else Dims(|rows|, |rows[0]|)
      ensures !ok ==> shape == old(shape)
    {
      var sh: seq<nat> := [];
      var initialized := false;
      for i := 0 to |rows|
        invariant initialized == (i > 0)
        invariant sh == if i == 0 then [] else [i, |rows[0]|]
        invariant forall k :: 0 <= k < i ==> |rows[k]| == |rows[0]|
        invariant data == old(data) + Flatten(rows[..i])
        invariant shape == old(shape)
      {
        var d := rows[i];
        if !initialized {
          sh := [1, |d|];
          initialized := true;
        } else {
          if |d| != sh[1] {
            return false;
          }
          sh := sh[0 := sh[0] + 1];
        }
        assert rows[..i + 1][..i] == rows[..i];
        data := data + d;
      }
      assert rows[..|rows|] == rows;
      shape := if |sh| == 0 then Empty else Dims(sh[0], sh[1]);
      return true;
    }

    /** `Matrix(rows, dims)`: a new matrix filled by `__from_data`. */
    static method FromRows(rows: seq<seq<int>>, dims: int) returns (r: Result<Matrix>)
      ensures r.Raised? <==> Ragged(rows)
      ensures r.Ok? ==> fresh(r.value) && r.value.Valid() && r.value.dims == dims
      ensures r.Ok? ==> r.value.data == Flatten(rows)
      ensures r.Ok? ==> r.value.shape == if |rows| == 0 then Empty else Dims(|rows|, |rows[0]|)
      ensures r.Ok? ==> forall i: nat, j: nat :: i < |rows| && j < |rows[0]| ==>
                          Cell(r.value.data, |rows|, |rows[0]|, i, j) == rows[i][j]
    {
      var m := new Matrix(dims);
      var ok := m.FromData(rows);
      if !ok {
        return Raised;
      }
      if |rows| > 0 {
        FlattenCells(rows, |rows[0]|);
      }
      return Ok(m);
    }

    /**
     * `m[row][column]` through `AccessProxy`: the flat index
     * `row * columns + column` read with Python list indexing, so neither the
     * row nor the column is checked against the shape; only an index outside
     * the list, or a shape that is not a pair, raises.
     */
    function Get(row: int, column: int): (r: Result<int>)
      reads this
      ensures !shape.Dims? ==> r.Raised?
      ensures shape.Dims? ==> (r.Ok? <==> -|data| <= row * shape.columns + column < |data|)
      ensures r.Ok? ==> var idx := row * shape.columns + column;
                        r.value == data[if idx < 0 then idx + |data| else idx]
    {
      if !shape.Dims? then Raised
      else
        var d, idx := data, row * shape.columns + column;
        if -|d| <= idx < |d| then Ok(d[if idx < 0 then idx + |d| else idx]) else Raised
    }

    /**
     * `m[row][column] = value` through `AccessProxy`: the same flat index,
     * written in place.
     */
    method Set(row: int, column: int, value: int) returns (ok: bool)
      modifies this`data
      ensures ok == (shape.Dims? && -|old(data)| <= row * shape.columns + column < |old(data)|)
      ensures !ok ==> data == old(data)
      ensures ok ==> var idx := row * shape.columns + column;
                     data == old(data)[if idx < 0 then idx + |old(data)| else idx := value]
    {
      if !shape.Dims? {
        return false;
      }
      var idx := row * shape.columns + column;
      if !(-|data| <= idx < |data|) {
        return false;
      }
      data := data[if idx < 0 then idx + |data| else idx := value];
      return true;
    }

    /**
     * `transpose()`: a new matrix whose row i is column i of this one, built
     * with `append_row`; it raises unless the shape is a pair, and a matrix
     * with no columns gives a matrix with no shape.
     */
    method Transpose() returns (r: Result<Matrix>)
      requires Valid()
      ensures r.Raised? <==> !shape.Dims?
      ensures r.Ok? ==> fresh(r.value) && r.value.Valid() && r.value.dims == 2
      ensures r.Ok? ==> r.value.shape == if shape.columns == 0 then Unset else Dims(shape.columns, shape.rows)
      ensures r.Ok? ==> |r.value.data| == shape.columns * shape.rows
      ensures r.Ok? ==> forall i: nat, j: nat :: i < shape.columns && j < shape.rows ==>
                          Cell(r.value.data, shape.columns, shape.rows, i, j) == Cell(data, shape.rows, shape.columns, j, i)
    {
      if !shape.Dims? {
        return Raised;
      }
      var m := new Matrix(2);
      var rows, columns := shape.rows, shape.columns;
      var src := data;
      ghost var built: seq<seq<int>> := [];
      for row := 0 to columns
        invariant m.dims == 2 && m.shape == (if row == 0 then Unset else Dims(row, rows))
        invariant |built| == row && m.data == Flatten(built)
        invariant forall i :: 0 <= i < row ==> built[i] == Column(src, rows, columns, i)
      {
        var rowData := Column(src, rows, columns, row);
        var ok := m.AppendRow(rowData);
        assert (built + [rowData])[..row] == built;
        built := built + [rowData];
      }
      TransposedCells(built, src, rows, columns);
      return Ok(m);
    }

    /** `-m`: every element negated, shape and `dims` kept. */
    method Neg() returns (m: Matrix)
      ensures fresh(m) && m.data == Negated(data) && m.shape == shape && m.dims == dims
      ensures Valid() ==> m.Valid()
    {
      m := new Matrix(2);
      m.data := Negated(data);
      m.shape := shape;
      m.dims := dims;
    }

    /** `m + other`: raises unless the shapes are equal; otherwise the elementwise sum with this shape and `dims`. */
    method Add(other: Matrix) returns (r: Result<Matrix>)
      requires Valid() && other.Valid()
      ensures r.Raised? <==> shape != other.shape
      ensures r.Ok? ==> fresh(r.value) && r.value.Valid()
      ensures r.Ok? ==> r.value.shape == shape && r.value.dims == dims
      ensures r.Ok? ==> r.value.data == Sums(data, other.data) && |r.value.data| == |data|
    {
      if shape != other.shape {
        return Raised;
      }
      var m := new Matrix(2);
      m.data := Sums(data, other.data);
      m.shape := shape;
      m.dims := dims;
      return Ok(m);
    }

    /** `m - other`: the same shape check, then `m + (-other)`, the elementwise difference. */
    method Sub(other: Matrix) returns (r: Result<Matrix>)
      requires Valid() && other.Valid()
      ensures r.Raised? <==> shape != other.shape
      ensures r.Ok? ==> fresh(r.value) && r.value.Valid()
      ensures r.Ok? ==> r.value.shape == shape && r.value.dims == dims
      ensures r.Ok? ==> r.value.data == Sums(data, Negated(other.data))
      ensures r.Ok? ==> |r.value.data| == |data| && forall i :: 0 <= i < |data| ==> r.value.data[i] == data[i] - other.data[i]
    {
      if shape != other.shape {
        return Raised;
      }
      var negated := other.Neg();
      r := Add(negated);
    }

    /**
     * `m * other`: raises unless both shapes are pairs and this matrix has as
     * many columns as `other` has rows; otherwise the rows-by-columns product,
     * each entry accumulated over the shared dimension in order.
     */
    method Mul(other: Matrix) returns (r: Result<Matrix>)
      requires Valid() && other.Valid()
      ensures r.Raised? <==> !(shape.Dims? && other.shape.Dims? && shape.columns == other.shape.rows)
      ensures r.Ok? ==> fresh(r.value) && r.value.Valid() && r.value.dims == 2
      ensures r.Ok? ==> r.value.shape == Dims(shape.rows, other.shape.columns)
      ensures r.Ok? ==> |r.value.data| == shape.rows * other.shape.columns
      ensures r.Ok? ==> forall i: nat, j: nat :: i < shape.rows && j < other.shape.columns ==>
                          Cell(r.value.data, shape.rows, other.shape.columns, i, j)
                          == RowTimesColumn(data, other.data, shape.rows, shape.columns, other.shape.columns, i, j, shape.columns)
    {
      if !(shape.Dims? && other.shape.Dims? && shape.columns == other.shape.rows) {
        return Raised;
      }
      var m := new Matrix(2);
      var rows, srcColumns, columns := shape.rows, shape.columns, other.shape.columns;
      var a, b := data, other.data;
      for row := 0 to rows
        invariant m.dims == 2 && m.shape == (if row == 0 then Unset else Dims(row, columns))
        invariant |m.data| == row * columns
        invariant forall i: nat, j: nat :: i < row && j < columns ==>
                    Cell(m.data, row, columns, i, j) == RowTimesColumn(a, b, rows, srcColumns, columns, i, j, srcColumns)
      {
        var rowData := RowProducts(a, b, rows, srcColumns, columns, row);
        AllCellsAppend(m.data, rowData, row, columns);
        var ok := m.AppendRow(rowData);
      }
      return Ok(m);
    }
  }

  /** One row of a matrix product: the two inner loops of `__mul__`. */
  method RowProducts(a: seq<int>, b: seq<int>, rows: nat, srcColumns: nat, columns: nat, row: nat) returns (rowData: seq<int>)
    requires |a| == rows * srcColumns && |b| == srcColumns * columns && row < rows
    ensures |rowData| == columns
    ensures forall j :: 0 <= j < columns ==> rowData[j] == RowTimesColumn(a, b, rows, srcColumns, columns, row, j, srcColumns)
  {
    rowData := [];
    for column := 0 to columns
      invariant |rowData| == column
      invariant forall j :: 0 <= j < column ==> rowData[j] == RowTimesColumn(a, b, rows, srcColumns, columns, row, j, srcColumns)
    {
      var dot := 0;
      for srcColumn := 0 to srcColumns
        invariant dot == RowTimesColumn(a, b, rows, srcColumns, columns, row, column, srcColumn)
      {
        dot := dot + Cell(a, rows, srcColumns, row, srcColumn) * Cell(b, srcColumns, columns, srcColumn, column);
      }
      rowData := rowData + [dot];
    }
  }

  /**
   * `AccessProxy` reads inside the shape are the row-major cells: element
   * (row, column) of a valid r-by-c matrix is `data[row*c + column]`.
   */
  lemma GetCell(m: Matrix, row: nat, column: nat)
    requires m.Valid() && m.shape.Dims? && row < m.shape.rows && column < m.shape.columns
    ensures m.Get(row, column) == Ok(Cell(m.data, m.shape.rows, m.shape.columns, row, column))
  {
    IndexInRange(m.shape.rows, m.shape.columns, row, column);
  }

  /**
   * `AccessProxy` does not check the column against the shape: in a valid
   * matrix with at least two rows, `m[0][columns]` reads the first element of
   * the second row.
   */
  lemma ColumnSpillsIntoNextRow(m: Matrix)
    requires m.Valid() && m.shape.Dims? && m.shape.rows >= 2 && m.shape.columns >= 1
    ensures m.Get(0, m.shape.columns) == Ok(Cell(m.data, m.shape.rows, m.shape.columns, 1, 0))
  {
    GetCell(m, 1, 0);
  }
}
