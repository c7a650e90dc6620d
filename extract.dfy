/**
 * The numeric helpers nested in `_parse_cadassembly_metrics_xml`:
 * `extract_matrix`, `extract_xyz_vector` (= `extract_xyz_point`) and `get_scalar`.
 */
module Extract {
  import opened Wrappers
  import opened Xml
  import opened Numbers
  import opened Records

  /** A sub-element the code dereferences without a None check: its absence raises AttributeError. */
  function Required(found: Option<Element>, tag: string): (r: Outcome<Element>)
    ensures r.Ok? <==> found.Some?
    ensures r.Ok? ==> r.value == found.value
    ensures r.Err? ==> r.error == MissingElement(tag)
  {
    if found.None? then Err(MissingElement(tag)) else Ok(found.value)
  }

  // ---------------------------------------------------------------- extract_matrix

  const RowsPath: seq<Step> := [Child("Rows"), Child("Row")]

  function Columns(row: Element): seq<Element>
  {
    FindAll(row, [Child("Column")])
  }

  /** `dim`, defaulting to a 3x3 grid when the caller passes none. */
  function Dims(dim: Option<(nat, nat)>): (nat, nat)
  {
    if dim.None? then (3, 3) else dim.value
  }

  predicate IsShape(g: Grid, rows: nat, cols: nat)
  {
    |g| == rows && forall i | 0 <= i < rows :: |g[i]| == cols
  }

  /** `[[0 for col in xrange(cols)] for row in xrange(rows)]`. */
  function Zeros(rows: nat, cols: nat): (g: Grid)
    ensures IsShape(g, rows, cols)
    ensures forall i, j | 0 <= i < rows && 0 <= j < cols :: g[i][j] == Zero
  {
    seq(rows, _ => seq(cols, _ => Zero))
  }

  /** `matrix[i][j] = float(col.get('Value'))`: the value is parsed before the grid is indexed. */
  function SetCell(g: Grid, i: nat, j: nat, col: Element): (r: Outcome<Grid>)
    ensures ParseNum(Get(col, "Value")).Err? ==> r == Err(ParseNum(Get(col, "Value")).error)
    ensures ParseNum(Get(col, "Value")).Ok? ==> (r.Ok? <==> i < |g| && j < |g[i]|)
    ensures r.Err? ==> r.error.NotANumber? || r.error == IndexOutOfRange
    ensures r.Ok? ==> i < |g| == |r.value| && j < |g[i]| == |r.value[i]|
                      && Ok(r.value[i][j]) == ParseNum(Get(col, "Value"))
  {
    var v :- ParseNum(Get(col, "Value"));
    if i < |g| && j < |g[i]| then Ok(g[i := g[i][j := v]]) else Err(IndexOutOfRange)
  }

  /** The inner loop: the cells of row `i`, column by column. */
  function FillRow(g: Grid, i: nat, cols: seq<Element>): Outcome<Grid>
    decreases |cols|
  {
    if cols == [] then Ok(g)
    else
      var g' :- FillRow(g, i, cols[..|cols| - 1]);
      SetCell(g', i, |cols| - 1, cols[|cols| - 1])
  }

  /** The outer loop: the rows, in order. */
  function FillRows(g: Grid, rows: seq<Element>): Outcome<Grid>
    decreases |rows|
  {
    if rows == [] then Ok(g)
    else
      var g' :- FillRows(g, rows[..|rows| - 1]);
      FillRow(g', |rows| - 1, Columns(rows[|rows| - 1]))
  }

  /** What `extract_matrix(element, dim)` returns or raises. */
  function MatrixOf(e: Element, dim: Option<(nat, nat)>): (r: Outcome<Grid>)
    ensures r.Ok? <==> RowsOk(FindAll(e, RowsPath), Dims(dim).0, Dims(dim).1)
    ensures r.Ok? ==> IsShape(r.value, Dims(dim).0, Dims(dim).1)
  {
    var (nr, nc) := Dims(dim);
    FillRowsCells(Zeros(nr, nc), FindAll(e, RowsPath), nr, nc);
    FillRows(Zeros(nr, nc), FindAll(e, RowsPath))
  }

  /** A cell that parses and lies inside the grid. */
  predicate CellOk(i: nat, j: nat, col: Element, nr: nat, nc: nat)
  {
    ParseNum(Get(col, "Value")).Ok? && i < nr && j < nc
  }

  predicate RowOk(i: nat, cols: seq<Element>, nr: nat, nc: nat)
  {
    forall j | 0 <= j < |cols| :: CellOk(i, j, cols[j], nr, nc)
  }

  predicate RowsOk(rows: seq<Element>, nr: nat, nc: nat)
  {
    forall i | 0 <= i < |rows| :: RowOk(i, Columns(rows[i]), nr, nc)
  }

  method ExtractMatrix(element: Element, dim: Option<(nat, nat)>) returns (r: Outcome<Grid>)
    ensures r == MatrixOf(element, dim)
  {
    var (nr, nc) := Dims(dim);
    var matrix := Zeros(nr, nc);
    var rows := FindAll(element, RowsPath);
    ghost var zeros := matrix;
    assert rows[..0] == [];
    var ri := 0;
    while ri < |rows|
      invariant 0 <= ri <= |rows|
      invariant FillRows(zeros, rows[..ri]) == Ok(matrix)
    {
      FillRowsStep(zeros, rows, ri);
      var filled := FillRowOf(matrix, ri, Columns(rows[ri]));
      if filled.Err? {
        FillRowsErrExtends(zeros, rows, ri + 1);
        return Err(filled.error);
      }
      matrix := filled.value;
      ri := ri + 1;
    }
    assert rows[..ri] == rows;
    return Ok(matrix);
  }

  /** The inner loop of `extract_matrix`: the Columns of row `i`, in order, each parsed before it is stored. */
  method FillRowOf(matrix: Grid, i: nat, cols: seq<Element>) returns (r: Outcome<Grid>)
    ensures r == FillRow(matrix, i, cols)
  {
    var g := matrix;
    assert cols[..0] == [];
    var j := 0;
    while j < |cols|
      invariant 0 <= j <= |cols|
      invariant FillRow(matrix, i, cols[..j]) == Ok(g)
    {
      FillRowStep(matrix, i, cols, j);
      var v := ParseNum(Get(cols[j], "Value"));
      if v.Err? || i >= |g| || j >= |g[i]| {
        FillRowErrExtends(matrix, i, cols, j + 1);
        return if v.Err? then Err(v.error) else Err(IndexOutOfRange);
      }
      g := g[i := g[i][j := v.value]];
      j := j + 1;
    }
    assert cols[..j] == cols;
    return Ok(g);
  }

  lemma FillRowStep(g: Grid, i: nat, cols: seq<Element>, k: nat)
    requires k < |cols| && FillRow(g, i, cols[..k]).Ok?
    ensures FillRow(g, i, cols[..k + 1]) == SetCell(FillRow(g, i, cols[..k]).value, i, k, cols[k])
  {
    assert cols[..k + 1][..k] == cols[..k];
  }

  lemma FillRowsStep(g: Grid, rows: seq<Element>, k: nat)
    requires k < |rows| && FillRows(g, rows[..k]).Ok?
    ensures FillRows(g, rows[..k + 1]) == FillRow(FillRows(g, rows[..k]).value, k, Columns(rows[k]))
  {
    assert rows[..k + 1][..k] == rows[..k];
  }

  lemma {:induction false} FillRowErrExtends(g: Grid, i: nat, cols: seq<Element>, k: nat)
    requires k <= |cols| && FillRow(g, i, cols[..k]).Err?
    ensures FillRow(g, i, cols) == FillRow(g, i, cols[..k])
    decreases |cols|
  {
    if k < |cols| {
      var front := cols[..|cols| - 1];
      assert front[..k] == cols[..k];
      FillRowErrExtends(g, i, front, k);
    } else {
      assert cols[..k] == cols;
    }
  }

  lemma {:induction false} FillRowsErrExtends(g: Grid, rows: seq<Element>, k: nat)
    requires k <= |rows| && FillRows(g, rows[..k]).Err?
    ensures FillRows(g, rows) == FillRows(g, rows[..k])
    decreases |rows|
  {
    if k < |rows| {
      var front := rows[..|rows| - 1];
      assert front[..k] == rows[..k];
      FillRowsErrExtends(g, front, k);
    } else {
      assert rows[..k] == rows;
    }
  }

  /** Cell (a, b) after filling row `i` from `cols`: parsed from its Column if it has one, else as before. */
  predicate RowCell(before: Grid, after: Grid, i: nat, cols: seq<Element>, a: nat, b: nat)
    requires a < |before| && a < |after| && b < |before[a]| && b < |after[a]|
  {
    if a == i && b < |cols| then ParseNum(Get(cols[b], "Value")) == Ok(after[a][b])
    else after[a][b] == before[a][b]
  }

  /** Filling row `i` sets exactly its first |cols| cells, and fails iff one of them is bad. */
  lemma {:induction false} FillRowCells(g: Grid, i: nat, cols: seq<Element>, nr: nat, nc: nat)
    requires IsShape(g, nr, nc)
    ensures FillRow(g, i, cols).Ok? <==> RowOk(i, cols, nr, nc)
    ensures FillRow(g, i, cols).Ok? ==>
              IsShape(FillRow(g, i, cols).value, nr, nc)
              && forall a, b | 0 <= a < nr && 0 <= b < nc :: RowCell(g, FillRow(g, i, cols).value, i, cols, a, b)
    decreases |cols|
  {
    if cols != [] {
      var n := |cols| - 1;
      var front := cols[..n];
      FillRowCells(g, i, front, nr, nc);
      assert forall j | 0 <= j < n :: front[j] == cols[j];
      assert RowOk(i, cols, nr, nc) <==> RowOk(i, front, nr, nc) && CellOk(i, n, cols[n], nr, nc);
      var prev := FillRow(g, i, front);
      if prev.Ok? {
        var g1 := prev.value;
        var v := ParseNum(Get(cols[n], "Value"));
        if v.Ok? && i < nr && n < nc {
          var g2 := g1[i := g1[i][n := v.value]];
          assert FillRow(g, i, cols) == Ok(g2);
          assert IsShape(g2, nr, nc);
          forall a, b | 0 <= a < nr && 0 <= b < nc
            ensures RowCell(g, g2, i, cols, a, b)
          {
            assert RowCell(g, g1, i, front, a, b);
            if !(a == i && b == n) {
              assert g2[a][b] == g1[a][b];
              if a == i && b < n {
                assert front[b] == cols[b];
              }
            }
          }
        }
      }
    }
  }

  /** Cell (a, b) after filling `rows`: parsed from its Row's Column if there is one, else as before. */
  predicate GridCell(before: Grid, after: Grid, rows: seq<Element>, a: nat, b: nat)
    requires a < |before| && a < |after| && b < |before[a]| && b < |after[a]|
  {
    if a < |rows| && b < |Columns(rows[a])| then ParseNum(Get(Columns(rows[a])[b], "Value")) == Ok(after[a][b])
    else after[a][b] == before[a][b]
  }

  lemma {:induction false} FillRowsCells(g: Grid, rows: seq<Element>, nr: nat, nc: nat)
    requires IsShape(g, nr, nc)
    ensures FillRows(g, rows).Ok? <==> RowsOk(rows, nr, nc)
    ensures FillRows(g, rows).Ok? ==>
              IsShape(FillRows(g, rows).value, nr, nc)
              && forall a, b | 0 <= a < nr && 0 <= b < nc :: GridCell(g, FillRows(g, rows).value, rows, a, b)
    decreases |rows|
  {
    if rows != [] {
      var n := |rows| - 1;
      var front := rows[..n];
      FillRowsCells(g, front, nr, nc);
      assert forall j | 0 <= j < n :: front[j] == rows[j];
      assert RowsOk(rows, nr, nc) <==> RowsOk(front, nr, nc) && RowOk(n, Columns(rows[n]), nr, nc);
      var prev := FillRows(g, front);
      if prev.Ok? {
        var g1 := prev.value;
        var cols := Columns(rows[n]);
        FillRowCells(g1, n, cols, nr, nc);
        if FillRow(g1, n, cols).Ok? {
          var g2 := FillRow(g1, n, cols).value;
          assert FillRows(g, rows) == Ok(g2);
          GridCellsStep(g, g1, g2, rows, front, n, nr, nc);
        }
      }
    }
  }

  /** Cells after Row n: those of the Rows before it, then row n's own. */
  lemma GridCellsStep(g: Grid, g1: Grid, g2: Grid, rows: seq<Element>, front: seq<Element>, n: nat, nr: nat, nc: nat)
    requires n + 1 == |rows| && front == rows[..n]
    requires IsShape(g, nr, nc) && IsShape(g1, nr, nc) && IsShape(g2, nr, nc)
    requires forall a, b | 0 <= a < nr && 0 <= b < nc :: GridCell(g, g1, front, a, b)
    requires forall a, b | 0 <= a < nr && 0 <= b < nc :: RowCell(g1, g2, n, Columns(rows[n]), a, b)
    ensures forall a, b | 0 <= a < nr && 0 <= b < nc :: GridCell(g, g2, rows, a, b)
  {
    forall a, b | 0 <= a < nr && 0 <= b < nc
      ensures GridCell(g, g2, rows, a, b)
    {
      assert GridCell(g, g1, front, a, b);
      assert RowCell(g1, g2, n, Columns(rows[n]), a, b);
      if a < n {
        assert front[a] == rows[a];
      }
    }
  }

  /**
   * `extract_matrix` returns a full `dim[0]` x `dim[1]` grid (3x3 by default) in
   * which cell (i, j) holds the j-th Column of the i-th Row and every cell with
   * no Row/Column keeps the pre-filled 0; it raises iff some Column's Value does
   * not parse or lies outside the grid.
   */
  lemma MatrixCells(e: Element, dim: Option<(nat, nat)>)
    ensures var (nr, nc) := Dims(dim);
            var rows := FindAll(e, RowsPath);
            (MatrixOf(e, dim).Ok? <==> RowsOk(rows, nr, nc))
            && (MatrixOf(e, dim).Ok? ==>
                  var g := MatrixOf(e, dim).value;
                  IsShape(g, nr, nc)
                  && forall i, j | 0 <= i < nr && 0 <= j < nc ::
                       if i < |rows| && j < |Columns(rows[i])|
                       then ParseNum(Get(Columns(rows[i])[j], "Value")) == Ok(g[i][j])
                       else g[i][j] == Zero)
  {
    var (nr, nc) := Dims(dim);
    var rows := FindAll(e, RowsPath);
    var zeros := Zeros(nr, nc);
    FillRowsCells(zeros, rows, nr, nc);
    if MatrixOf(e, dim).Ok? {
      var g := MatrixOf(e, dim).value;
      forall i, j | 0 <= i < nr && 0 <= j < nc
        ensures if i < |rows| && j < |Columns(rows[i])|
                then ParseNum(Get(Columns(rows[i])[j], "Value")) == Ok(g[i][j])
                else g[i][j] == Zero
      {
        assert GridCell(zeros, g, rows, i, j);
      }
    }
  }

  // ---------------------------------------------------------------- extract_xyz_vector

  /** `[float(e.get('X')), float(e.get('Y')), float(e.get('Z'))]`. */
  function XyzVector(e: Element): (r: Outcome<seq<Num>>)
    ensures r.Ok? <==> ParseNum(Get(e, "X")).Ok? && ParseNum(Get(e, "Y")).Ok? && ParseNum(Get(e, "Z")).Ok?
    ensures r.Ok? ==> |r.value| == 3
                      && Ok(r.value[0]) == ParseNum(Get(e, "X"))
                      && Ok(r.value[1]) == ParseNum(Get(e, "Y"))
                      && Ok(r.value[2]) == ParseNum(Get(e, "Z"))
  {
    var x :- ParseNum(Get(e, "X"));
    var y :- ParseNum(Get(e, "Y"));
    var z :- ParseNum(Get(e, "Z"));
    Ok([x, y, z])
  }

  // ---------------------------------------------------------------- get_scalar

  function ScalarPath(name: string): seq<Step>
  {
    [Child("Scalars"), ChildWith("Scalar", "Name", name)]
  }

  /** `get_scalar(mc, name)`: the first matching Scalar's Value as a number, or None when there is none. */
  function GetScalar(mc: Element, name: string): (r: Outcome<Value>)
    ensures r == Ok(Null) <==> Find(mc, ScalarPath(name)).None?
    ensures Find(mc, ScalarPath(name)).Some? ==>
              var v := ParseNum(Get(Find(mc, ScalarPath(name)).value, "Value"));
              (r.Ok? <==> v.Ok?) && (r.Ok? ==> r.value == Number(v.value))
  {
    var scalar := Find(mc, ScalarPath(name));
    if scalar.None? then Ok(Null)
    else
      var v :- ParseNum(Get(scalar.value, "Value"));
      Ok(Number(v))
  }

  /** `get_scalar` finds nothing exactly when no Scalars child holds a Scalar of that Name. */
  lemma ScalarAbsent(mc: Element, name: string)
    ensures GetScalar(mc, name) == Ok(Null) <==>
              forall c <- mc.children, x <- c.children ::
                !(c.tag == "Scalars" && x.tag == "Scalar" && Get(x, "Name") == Some(name))
  {
    var path := ScalarPath(name);
    forall x
      ensures x in FindAll(mc, path) <==>
                exists c <- mc.children :: Matches(c, path[0]) && x in c.children && Matches(x, path[1])
    {
      FindAllTwoSteps(mc, path[0], path[1], x);
    }
    assert path == [path[0], path[1]];
    var all := FindAll(mc, path);
    if all != [] {
      assert all[0] in all;
      var c :| c in mc.children && Matches(c, path[0]) && all[0] in c.children && Matches(all[0], path[1]);
    } else {
      forall c <- mc.children, x <- c.children
        ensures !(c.tag == "Scalars" && x.tag == "Scalar" && Get(x, "Name") == Some(name))
      {
        if c.tag == "Scalars" && x.tag == "Scalar" && Get(x, "Name") == Some(name) {
          assert Matches(c, path[0]) && Matches(x, path[1]);
          assert false;
        }
      }
    }
  }
}
