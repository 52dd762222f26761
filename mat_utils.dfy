/** Matrices as Java stores them: an array of row arrays (`double[][]`). */
module MatUtils {
  import opened Cells

  type Matrix = array<array<Cell>>

  /** The contents of a matrix, row by row. */
  ghost function Grid(a: Matrix): seq<seq<Cell>>
    reads a, a[..]
  {
    seq(a.Length, i requires 0 <= i < a.Length reads a, a[..] => a[i][..])
  }

  /** A matrix whose rows hold `rows` has `rows` as its contents. */
  lemma GridRows(a: Matrix, rows: seq<seq<Cell>>)
    requires a.Length == |rows| && forall i :: 0 <= i < a.Length ==> a[i][..] == rows[i]
    ensures Grid(a) == rows
  {
  }

  /** Non-empty (at least one row and one column) and rectangular. */
  ghost predicate IsMatrix(g: seq<seq<Cell>>)
  {
    |g| > 0 && |g[0]| > 0 && forall i :: 0 <= i < |g| ==> |g[i]| == |g[0]|
  }

  /** Column `j` of a dataset, in row order. */
  function Column(g: seq<seq<Cell>>, j: nat): seq<Cell>
    requires forall i :: 0 <= i < |g| ==> j < |g[i]|
  {
    seq(|g|, i requires 0 <= i < |g| => g[i][j])
  }

  /** No two rows of the matrix are the same array. */
  ghost predicate DistinctRows(a: Matrix)
    reads a
  {
    forall i, k :: 0 <= i < k < a.Length ==> a[i] != a[k]
  }

  /** `MatUtils.getColumn`: reads column `j` out of the matrix. */
  method GetColumn(a: Matrix, j: nat) returns (c: seq<Cell>)
    requires forall i :: 0 <= i < a.Length ==> j < a[i].Length
    ensures c == Column(Grid(a), j)
  {
    c := [];
    var i := 0;
    while i < a.Length
      invariant 0 <= i <= a.Length
      invariant |c| == i
      invariant forall k :: 0 <= k < i ==> c[k] == a[k][j]
    {
      c := c + [a[i][j]];
      i := i + 1;
    }
  }

  /** `MatUtils.copy`: a deep copy, every row a new array. */
  method Copy(a: Matrix) returns (b: Matrix)
    ensures fresh(b) && b.Length == a.Length
    ensures forall i :: 0 <= i < b.Length ==> fresh(b[i])
    ensures DistinctRows(b)
    ensures Grid(b) == Grid(a)
  {
    var rows: seq<array<Cell>> := [];
    var i := 0;
    while i < a.Length
      invariant 0 <= i <= a.Length
      invariant |rows| == i
      invariant forall k :: 0 <= k < i ==> fresh(rows[k])
      invariant forall k, l :: 0 <= k < l < i ==> rows[k] != rows[l]
      invariant forall k :: 0 <= k < i ==> rows[k][..] == a[k][..]
    {
      var src := a[i][..];
      var row := new Cell[|src|](k requires 0 <= k < |src| => src[k]);
      rows := rows + [row];
      i := i + 1;
    }
    b := new array<Cell>[|rows|](k requires 0 <= k < |rows| => rows[k]);
  }
}
