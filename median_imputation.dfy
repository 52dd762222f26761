/** Median imputation: every missing cell of a dataset is replaced by the
    median of the observed cells of its column, on a copy of the dataset. */
module Impute {
  import opened Cells
  import opened VecUtils
  import opened MatUtils

  /** A source of randomness, kept only as a reference; nothing here draws from it. */
  class Random {
    constructor () {}
  }

  /** Default verbosity of every imputation planner. */
  const DEF_VERBOSE := false

  /** Configuration of a median imputation: a verbosity flag and a seed. */
  class MedianImputationPlanner {
    var verbose: bool
    var seed: Random

    constructor ()
      ensures verbose == DEF_VERBOSE && fresh(seed)
    {
      verbose := DEF_VERBOSE;
      seed := new Random();
    }

    function GetSeed(): Random
      reads this
    {
      seed
    }

    function GetVerbose(): bool
      reads this
    {
      verbose
    }

    /** Replaces the seed only; returns this planner for chaining. */
    method SetSeed(seed: Random) returns (self: MedianImputationPlanner)
      modifies this
      ensures self == this
      ensures GetSeed() == seed && GetVerbose() == old(GetVerbose())
    {
      this.seed := seed;
      self := this;
    }

    /** Replaces the verbosity only; returns this planner for chaining. */
    method SetVerbose(b: bool) returns (self: MedianImputationPlanner)
      modifies this
      ensures self == this
      ensures GetVerbose() == b && GetSeed() == old(GetSeed())
    {
      verbose := b;
      self := this;
    }
  }

  /** What `Operate` produces: the imputed copy together with the number of
      cells replaced in each column, or the rejection of an illegal input. */
  datatype Outcome =
    | Imputed(copy: Matrix, nanCounts: seq<nat>)
    | IllegalInput

  class MedianImputation {
    var seed: Random
    var verbose: bool

    /** Built from a default planner. */
    constructor ()
      ensures verbose == DEF_VERBOSE && fresh(seed)
    {
      var planner := new MedianImputationPlanner();
      seed := planner.seed;
      verbose := planner.verbose;
    }

    /** Built from a planner: takes over its seed and its verbosity. */
    constructor FromPlanner(planner: MedianImputationPlanner)
      ensures seed == planner.GetSeed() && verbose == planner.GetVerbose()
    {
      seed := planner.GetSeed();
      verbose := planner.GetVerbose();
    }

    function GetSeed(): Random
      reads this
    {
      seed
    }

    /** A new imputation with a new planner holding the same seed and verbosity. */
    method Copy() returns (c: MedianImputation)
      ensures fresh(c) && c != this
      ensures c.GetSeed() == GetSeed() && c.verbose == verbose
    {
      var planner := new MedianImputationPlanner();
      planner := planner.SetSeed(GetSeed());
      planner := planner.SetVerbose(verbose);
      c := new MedianImputation.FromPlanner(planner);
    }

    /** The imputation itself; `dat` is only read, the result is a new matrix. */
    method Operate(dat: Matrix) returns (r: Outcome)
      ensures r.Imputed? <==> IsMatrix(Grid(dat))
      ensures r.Imputed? ==>
        fresh(r.copy) && (forall i :: 0 <= i < r.copy.Length ==> fresh(r.copy[i])) && DistinctRows(r.copy)
      ensures r.Imputed? ==> SameShape(Grid(dat), Grid(r.copy))
      ensures r.Imputed? ==> KeepsObserved(Grid(dat), Grid(r.copy))
      ensures r.Imputed? ==> FillsMissing(Grid(dat), Grid(r.copy))
      ensures r.Imputed? ==> CountsMissing(Grid(dat), r.nanCounts)
      ensures r.Imputed? && NoMissing(Grid(dat)) ==> Grid(r.copy) == Grid(dat)
      ensures r.Imputed? ==> EmptyColumnsStayMissing(Grid(dat), Grid(r.copy), r.nanCounts)
    {
      var ok := CheckMat(dat);
      if !ok {
        return IllegalInput;
      }
      ghost var g := Grid(dat);
      var copy := MatUtils.Copy(dat);
      var counts := ImputeColumns(copy, g);
      ImputedBeforeAll(g, counts);
      return Imputed(copy, counts);
    }
  }

  /** The column loop of the imputation: imputes every column of `a`, a copy
      of the dataset `g`, and counts the replaced cells of each column. */
  method ImputeColumns(a: Matrix, ghost g: seq<seq<Cell>>) returns (counts: seq<nat>)
    requires IsMatrix(g) && DistinctRows(a) && Grid(a) == g
    modifies a[..]
    ensures Grid(a) == ImputedBefore(g, |g[0]|)
    ensures |counts| == |g[0]|
    ensures forall j :: 0 <= j < |counts| ==> counts[j] == MissingCount(Column(g, j))
  {
    assert |a[0][..]| == |Grid(a)[0]|;
    var n := a[0].Length;
    ImputedBeforeNone(g);
    counts := [];
    for col := 0 to n
      invariant Grid(a) == ImputedBefore(g, col)
      invariant |counts| == col
      invariant forall j :: 0 <= j < col ==> counts[j] == MissingCount(Column(g, j))
    {
      var count := ImputeColumn(a, col, g);
      counts := counts + [count];
    }
  }

  /** One iteration of the column loop: imputes column `col` of `a`, whose
      columns before `col` are already imputed, and counts the replaced cells. */
  method ImputeColumn(a: Matrix, col: nat, ghost g: seq<seq<Cell>>) returns (count: nat)
    requires IsMatrix(g) && col < |g[0]|
    requires DistinctRows(a) && Grid(a) == ImputedBefore(g, col)
    modifies a[..]
    ensures Grid(a) == ImputedBefore(g, col + 1)
    ensures count == MissingCount(Column(g, col))
  {
    ImputeStep(g, col);
    assert forall i :: 0 <= i < a.Length ==> Grid(a)[i] == a[i][..];
    // Earlier iterations wrote only earlier columns, so column `col` of `a`
    // is still column `col` of the input.
    var column := GetColumn(a, col);
    assert column == Column(g, col);
    var median := NanMedian(column);
    count := FillColumn(a, col, median);
  }

  /** The inner loop of the imputation: overwrites every missing cell of
      column `col` with `median` and counts the cells it overwrote. */
  method FillColumn(a: Matrix, col: nat, median: Cell) returns (count: nat)
    requires DistinctRows(a)
    requires forall i :: 0 <= i < a.Length ==> col < a[i].Length
    modifies a[..]
    ensures Grid(a) == FillAt(old(Grid(a)), col, median)
    ensures count == MissingCount(old(Column(Grid(a), col)))
  {
    ghost var g := Grid(a);
    ghost var column := Column(g, col);
    ghost var filled := FillAt(g, col, median);
    assert forall i :: 0 <= i < a.Length ==> g[i] == a[i][..];
    count := 0;
    for row := 0 to a.Length
      invariant forall i :: 0 <= i < row ==> a[i][..] == filled[i]
      invariant forall i :: row <= i < a.Length ==> a[i][..] == g[i]
      invariant count == MissingCount(column[..row])
    {
      MissingCountStep(column, row);
      assert column[row] == g[row][col] == a[row][col];
      var replaced := FillCell(a[row], col, median);
      if replaced {
        count := count + 1;
      }
    }
    assert column[..a.Length] == column;
    GridRows(a, filled);
  }

  /** One step of the inner loop: overwrites cell `col` of `row` with
      `median` when it is missing, and says whether it did. */
  method FillCell(row: array<Cell>, col: nat, median: Cell) returns (replaced: bool)
    requires col < row.Length
    modifies row
    ensures replaced == old(row[col]).Missing?
    ensures row[..] == if replaced then old(row[..])[col := median] else old(row[..])
  {
    replaced := row[col].Missing?;
    if replaced {
      row[col] := median;
    }
  }

  /** `g` with every missing cell of column `col` replaced by `median`. */
  ghost function FillAt(g: seq<seq<Cell>>, col: nat, median: Cell): seq<seq<Cell>>
    requires forall i :: 0 <= i < |g| ==> col < |g[i]|
  {
    seq(|g|, i requires 0 <= i < |g| =>
      if g[i][col].Missing? then g[i][col := median] else g[i])
  }

  /** The dataset once the columns before `c` have been imputed: every missing
      cell there holds the median of the observed cells of its column. */
  ghost function ImputedBefore(g: seq<seq<Cell>>, c: nat): seq<seq<Cell>>
    requires IsMatrix(g) && c <= |g[0]|
  {
    seq(|g|, i requires 0 <= i < |g| =>
      seq(|g[i]|, j requires 0 <= j < |g[i]| =>
        if j < c && g[i][j].Missing? then NanMedian(Column(g, j)) else g[i][j]))
  }

  /** Before the column loop nothing has been imputed yet. */
  lemma ImputedBeforeNone(g: seq<seq<Cell>>)
    requires IsMatrix(g)
    ensures ImputedBefore(g, 0) == g
  {
    forall i | 0 <= i < |g|
      ensures ImputedBefore(g, 0)[i] == g[i]
    {
    }
  }

  /** One iteration of the column loop: column `c` is still the input's
      column `c`, and filling it with its median imputes one more column. */
  lemma ImputeStep(g: seq<seq<Cell>>, c: nat)
    requires IsMatrix(g) && c < |g[0]|
    ensures Column(ImputedBefore(g, c), c) == Column(g, c)
    ensures FillAt(ImputedBefore(g, c), c, NanMedian(Column(g, c))) == ImputedBefore(g, c + 1)
  {
    var h, h' := ImputedBefore(g, c), ImputedBefore(g, c + 1);
    var median := NanMedian(Column(g, c));
    forall i | 0 <= i < |g|
      ensures h[i][c] == g[i][c]
      ensures FillAt(h, c, median)[i] == h'[i]
    {
      ImputeStepRow(g, c, i);
    }
  }

  lemma ImputeStepRow(g: seq<seq<Cell>>, c: nat, i: nat)
    requires IsMatrix(g) && c < |g[0]| && i < |g|
    ensures ImputedBefore(g, c)[i][c] == g[i][c]
    ensures FillAt(ImputedBefore(g, c), c, NanMedian(Column(g, c)))[i] == ImputedBefore(g, c + 1)[i]
  {
    var row, row' := ImputedBefore(g, c)[i], ImputedBefore(g, c + 1)[i];
    var median := NanMedian(Column(g, c));
    var filled := if g[i][c].Missing? then row[c := median] else row;
    assert FillAt(ImputedBefore(g, c), c, median)[i] == filled;
    assert |filled| == |row'|;
    forall j | 0 <= j < |row'|
      ensures filled[j] == row'[j]
    {
    }
  }

  /** Once every column has been processed, the dataset has the shape of the
      input, keeps its observed cells and fills its missing ones. */
  lemma ImputedBeforeAll(g: seq<seq<Cell>>, counts: seq<nat>)
    requires IsMatrix(g) && |counts| == |g[0]|
    requires forall j :: 0 <= j < |counts| ==> counts[j] == MissingCount(Column(g, j))
    ensures SameShape(g, ImputedBefore(g, |g[0]|))
    ensures KeepsObserved(g, ImputedBefore(g, |g[0]|))
    ensures FillsMissing(g, ImputedBefore(g, |g[0]|))
    ensures CountsMissing(g, counts)
    ensures NoMissing(g) ==> ImputedBefore(g, |g[0]|) == g
    ensures EmptyColumnsStayMissing(g, ImputedBefore(g, |g[0]|), counts)
  {
    var out := ImputedBefore(g, |g[0]|);
    if NoMissing(g) {
      NoMissingUnchanged(g, out);
    }
    EmptyColumns(g, out, counts);
  }

  /** `out` has the rows of `g`, each of the same length. */
  ghost predicate SameShape(g: seq<seq<Cell>>, out: seq<seq<Cell>>)
  {
    |out| == |g| && forall i :: 0 <= i < |g| ==> |out[i]| == |g[i]|
  }

  /** Every observed cell of `g` has the same value in `out`. */
  ghost predicate KeepsObserved(g: seq<seq<Cell>>, out: seq<seq<Cell>>)
  {
    SameShape(g, out) &&
    forall i, j :: 0 <= i < |g| && 0 <= j < |g[i]| && g[i][j].Value? ==> out[i][j] == g[i][j]
  }

  /** Every missing cell of `g` holds, in `out`, the median of the observed
      cells of its column in `g`. */
  ghost predicate FillsMissing(g: seq<seq<Cell>>, out: seq<seq<Cell>>)
  {
    IsMatrix(g) && SameShape(g, out) &&
    forall i, j :: 0 <= i < |g| && 0 <= j < |g[i]| && g[i][j].Missing? ==>
      out[i][j] == NanMedian(Column(g, j))
  }

  /** `counts` holds, per column of `g`, the number of its missing cells. */
  ghost predicate CountsMissing(g: seq<seq<Cell>>, counts: seq<nat>)
  {
    IsMatrix(g) && |counts| == |g[0]| &&
    forall j :: 0 <= j < |counts| ==> counts[j] == MissingCount(Column(g, j))
  }

  /** No cell of `g` is missing. */
  ghost predicate NoMissing(g: seq<seq<Cell>>)
  {
    forall i, j :: 0 <= i < |g| && 0 <= j < |g[i]| ==> g[i][j].Value?
  }

  /** Every column of `g` without an observed cell is still entirely missing
      in `out`, and all of its cells are counted as replaced. */
  ghost predicate EmptyColumnsStayMissing(g: seq<seq<Cell>>, out: seq<seq<Cell>>, counts: seq<nat>)
  {
    IsMatrix(g) && SameShape(g, out) && |counts| == |g[0]| &&
    forall j :: 0 <= j < |g[0]| && Observed(Column(g, j)) == [] ==>
      counts[j] == |g| && forall i :: 0 <= i < |g| ==> out[i][j].Missing?
  }

  /** A dataset without missing cells comes out exactly as it went in. */
  lemma NoMissingUnchanged(g: seq<seq<Cell>>, out: seq<seq<Cell>>)
    requires KeepsObserved(g, out) && NoMissing(g)
    ensures out == g
  {
    forall i | 0 <= i < |g|
      ensures out[i] == g[i]
    {
      assert forall j :: 0 <= j < |g[i]| ==> out[i][j] == g[i][j];
    }
  }

  /** A column without any observed cell keeps all its cells missing, and
      every one of them is counted as replaced. */
  lemma EmptyColumn(g: seq<seq<Cell>>, out: seq<seq<Cell>>, counts: seq<nat>, j: nat)
    requires FillsMissing(g, out) && CountsMissing(g, counts)
    requires j < |g[0]| && Observed(Column(g, j)) == []
    ensures counts[j] == |g|
    ensures forall i :: 0 <= i < |g| ==> out[i][j].Missing?
  {
    var col := Column(g, j);
    AllMissingIff(col);
    forall i | 0 <= i < |g|
      ensures out[i][j].Missing?
    {
      assert col[i] == g[i][j];
    }
  }

  lemma EmptyColumns(g: seq<seq<Cell>>, out: seq<seq<Cell>>, counts: seq<nat>)
    requires FillsMissing(g, out) && CountsMissing(g, counts)
    ensures EmptyColumnsStayMissing(g, out, counts)
  {
    forall j | 0 <= j < |g[0]| && Observed(Column(g, j)) == []
      ensures counts[j] == |g| && forall i :: 0 <= i < |g| ==> out[i][j].Missing?
    {
      EmptyColumn(g, out, counts, j);
    }
  }

  /** `checkMat`: accepts exactly the non-empty rectangular matrices. */
  method CheckMat(dat: Matrix) returns (ok: bool)
    ensures ok <==> IsMatrix(Grid(dat))
  {
    if dat.Length == 0 || dat[0].Length == 0 {
      return false;
    }
    var n := dat[0].Length;
    for i := 1 to dat.Length
      invariant forall k :: 0 <= k < i ==> dat[k].Length == n
    {
      if dat[i].Length != n {
        assert |Grid(dat)[i]| != |Grid(dat)[0]|;
        return false;
      }
    }
    return true;
  }
}

/** A caller's view: the three-row example with two missing cells in the
    second column, whose only observed value 5 fills both. */
module ImputeExample {
  import opened Cells
  import opened VecUtils
  import opened MatUtils
  import opened Impute

  /** The example's first column has nothing missing; its second column has
      two missing cells and 5 as its only observed value. */
  lemma ThreeRowsColumns(g: seq<seq<Cell>>)
    requires g == [[Value(1.0), Missing], [Value(3.0), Value(5.0)], [Value(5.0), Missing]]
    ensures MissingCount(Column(g, 0)) == 0
    ensures MissingCount(Column(g, 1)) == 2
    ensures NanMedian(Column(g, 1)) == Value(5.0)
  {
    var c0, c1 := Column(g, 0), Column(g, 1);
    assert c0 == [Value(1.0), Value(3.0), Value(5.0)];
    assert c1 == [Missing, Value(5.0), Missing];
    assert c0[1..][1..][1..] == [] && c1[1..][1..][1..] == [];
    assert Observed(c1) == [5.0];
  }

  /** Whatever satisfies the contract of `Operate` on the example is the
      expected output. */
  lemma ThreeRowsImputed(g: seq<seq<Cell>>, out: seq<seq<Cell>>, counts: seq<nat>)
    requires g == [[Value(1.0), Missing], [Value(3.0), Value(5.0)], [Value(5.0), Missing]]
    requires KeepsObserved(g, out) && FillsMissing(g, out) && CountsMissing(g, counts)
    ensures out == [[Value(1.0), Value(5.0)], [Value(3.0), Value(5.0)], [Value(5.0), Value(5.0)]]
    ensures counts == [0, 2]
  {
    ThreeRowsColumns(g);
    assert out[0] == [Value(1.0), Value(5.0)];
    assert out[1] == [Value(3.0), Value(5.0)];
    assert out[2] == [Value(5.0), Value(5.0)];
  }

  /** Builds the example dataset as an array of rows. */
  method ThreeRowsInput() returns (dat: Matrix)
    ensures Grid(dat) == [[Value(1.0), Missing], [Value(3.0), Value(5.0)], [Value(5.0), Missing]]
  {
    var r0 := new Cell[2](_ => Missing);
    var r1 := new Cell[2](_ => Missing);
    var r2 := new Cell[2](_ => Missing);
    r0[0] := Value(1.0);
    r1[0], r1[1] := Value(3.0), Value(5.0);
    r2[0] := Value(5.0);
    var rows := [r0, r1, r2];
    dat := new array<Cell>[3](i requires 0 <= i < 3 => rows[i]);
    assert dat[0] == r0 && dat[1] == r1 && dat[2] == r2;
    assert r0[..] == [Value(1.0), Missing] && r1[..] == [Value(3.0), Value(5.0)] && r2[..] == [Value(5.0), Missing];
  }

  method ThreeRows()
  {
    var dat := ThreeRowsInput();
    ghost var g := Grid(dat);
    assert IsMatrix(g);
    var imputer := new MedianImputation();
    var r := imputer.Operate(dat);
    ghost var out := Grid(r.copy);
    ThreeRowsImputed(g, out, r.nanCounts);
    assert out[0] == r.copy[0][..] && out[2] == r.copy[2][..];
    assert r.copy[0][1] == r.copy[2][1] == Value(5.0);
  }
}
