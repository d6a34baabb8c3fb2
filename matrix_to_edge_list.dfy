/**
 * MatrixToEdgeList: turning a distance matrix into the edge list the engine's
 * loader reads. The matrix is an array of parsed rows; writing the edge file is
 * rendered as producing the sequence of lines `i j w`, one EdgeLine each.
 */
module MatrixToEdgeList {

  datatype EdgeLine = EdgeLine(i: int, j: int, w: int)

  /** What the nested scan needs: every row has at least n entries, n being the row count. */
  predicate Square(m: seq<seq<int>>)
  {
    forall i :: 0 <= i < |m| ==> |m[i]| >= |m|
  }

  /** The lines for the non-zero cells of row i among its first c columns, left to right. */
  function RowLines(m: seq<seq<int>>, i: int, c: nat): seq<EdgeLine>
    requires 0 <= i < |m| && c <= |m[i]|
  {
    if c == 0 then []
    else RowLines(m, i, c - 1) + (if m[i][c - 1] != 0 then [EdgeLine(i, c - 1, m[i][c - 1])] else [])
  }

  /** The lines for the first r rows of the leading n-by-n square, row after row. */
  function Lines(m: seq<seq<int>>, r: nat): seq<EdgeLine>
    requires Square(m) && r <= |m|
  {
    if r == 0 then [] else Lines(m, r - 1) + RowLines(m, r - 1, |m|)
  }

  /** The whole edge list of the matrix. */
  function EdgeList(m: seq<seq<int>>): seq<EdgeLine>
    requires Square(m)
  {
    Lines(m, |m|)
  }

  /** Row-major order: `a` is emitted before `b`. */
  predicate Before(a: EdgeLine, b: EdgeLine)
  {
    a.i < b.i || (a.i == b.i && a.j < b.j)
  }

  /** The non-zero cells of the leading n-by-n square. */
  ghost function NonZeroCells(m: seq<seq<int>>): set<(int, int)>
    requires Square(m)
  {
    set i, j | 0 <= i < |m| && 0 <= j < |m| && m[i][j] != 0 :: (i, j)
  }

  /** readMatrixFromFile's copy of the parsed rows into the matrix: row i is input line i. */
  method ReadMatrix(rows: seq<seq<int>>) returns (matrix: array<seq<int>>)
    ensures fresh(matrix) && matrix[..] == rows
  {
    matrix := new seq<int>[|rows|];
    for i := 0 to |rows|
      invariant forall k :: 0 <= k < i ==> matrix[k] == rows[k]
    {
      matrix[i] := rows[i];
    }
  }

  /** writeEdgeListToFile: the nested row-major scan writing a line for every non-zero cell. */
  method WriteEdgeList(matrix: array<seq<int>>) returns (lines: seq<EdgeLine>)
    requires Square(matrix[..])
    ensures lines == EdgeList(matrix[..])
  {
    ghost var m := matrix[..];
    var n := matrix.Length;
    lines := [];
    for i := 0 to n
      invariant lines == Lines(m, i)
    {
      for j := 0 to n
        invariant lines == Lines(m, i) + RowLines(m, i, j)
      {
        if matrix[i][j] != 0 {
          lines := lines + [EdgeLine(i, j, matrix[i][j])];
        }
      }
    }
  }

  lemma {:induction false} RowLinesSound(m: seq<seq<int>>, i: int, c: nat)
    requires 0 <= i < |m| && c <= |m[i]|
    ensures forall k :: 0 <= k < |RowLines(m, i, c)| ==>
      var l := RowLines(m, i, c)[k];
      l.i == i && 0 <= l.j < c && l.w == m[i][l.j] && l.w != 0
    ensures forall a, b :: 0 <= a < b < |RowLines(m, i, c)| ==> RowLines(m, i, c)[a].j < RowLines(m, i, c)[b].j
  {
    if c > 0 {
      RowLinesSound(m, i, c - 1);
    }
  }

  lemma {:induction false} RowLinesComplete(m: seq<seq<int>>, i: int, c: nat, j: int)
    requires 0 <= i < |m| && c <= |m[i]| && 0 <= j < c && m[i][j] != 0
    ensures EdgeLine(i, j, m[i][j]) in RowLines(m, i, c)
  {
    if j < c - 1 {
      RowLinesComplete(m, i, c - 1, j);
    }
  }

  lemma {:induction false} LinesSound(m: seq<seq<int>>, r: nat)
    requires Square(m) && r <= |m|
    ensures forall k :: 0 <= k < |Lines(m, r)| ==>
      var l := Lines(m, r)[k];
      0 <= l.i < r && 0 <= l.j < |m| && l.w == m[l.i][l.j] && l.w != 0
    ensures forall a, b :: 0 <= a < b < |Lines(m, r)| ==> Before(Lines(m, r)[a], Lines(m, r)[b])
  {
    if r > 0 {
      LinesSound(m, r - 1);
      RowLinesSound(m, r - 1, |m|);
      var prev, row := Lines(m, r - 1), RowLines(m, r - 1, |m|);
      assert Lines(m, r) == prev + row;
      forall k | 0 <= k < |prev + row|
        ensures var l: EdgeLine := (prev + row)[k]; 0 <= l.i < r && 0 <= l.j < |m| && l.w == m[l.i][l.j] && l.w != 0
      {
        if k >= |prev| {
          assert (prev + row)[k] == row[k - |prev|];
        }
      }
      forall a, b | 0 <= a < b < |prev + row| ensures Before((prev + row)[a], (prev + row)[b]) {
        if b < |prev| {
        } else if a >= |prev| {
          assert (prev + row)[a] == row[a - |prev|];
          assert (prev + row)[b] == row[b - |prev|];
        } else {
          assert (prev + row)[a] == prev[a];
          assert (prev + row)[b] == row[b - |prev|];
        }
      }
    }
  }

  lemma {:induction false} LinesComplete(m: seq<seq<int>>, r: nat, i: int, j: int)
    requires Square(m) && r <= |m| && 0 <= i < r && 0 <= j < |m| && m[i][j] != 0
    ensures EdgeLine(i, j, m[i][j]) in Lines(m, r)
  {
    if i < r - 1 {
      LinesComplete(m, r - 1, i, j);
    } else {
      RowLinesComplete(m, i, |m|, j);
    }
  }

  /** Only non-zero cells of the leading n-by-n square are emitted, each with its own value:
      columns at index n or more are never looked at. */
  lemma EdgeListSound(m: seq<seq<int>>)
    requires Square(m)
    ensures forall l :: l in EdgeList(m) ==> 0 <= l.i < |m| && 0 <= l.j < |m| && l.w == m[l.i][l.j] && l.w != 0
  {
    LinesSound(m, |m|);
  }

  /** Every non-zero cell of the leading n-by-n square is emitted. */
  lemma EdgeListComplete(m: seq<seq<int>>)
    requires Square(m)
    ensures forall i, j :: 0 <= i < |m| && 0 <= j < |m| && m[i][j] != 0 ==> EdgeLine(i, j, m[i][j]) in EdgeList(m)
  {
    forall i, j | 0 <= i < |m| && 0 <= j < |m| && m[i][j] != 0 ensures EdgeLine(i, j, m[i][j]) in EdgeList(m) {
      LinesComplete(m, |m|, i, j);
    }
  }

  /** Lines come out in row-major order, strictly increasing in the row and then in the column,
      so no cell is emitted twice. */
  lemma EdgeListOrdered(m: seq<seq<int>>)
    requires Square(m)
    ensures forall a, b :: 0 <= a < b < |EdgeList(m)| ==> Before(EdgeList(m)[a], EdgeList(m)[b])
    ensures forall a, b ::
      (0 <= a < |EdgeList(m)| && 0 <= b < |EdgeList(m)| &&
       EdgeList(m)[a].i == EdgeList(m)[b].i && EdgeList(m)[a].j == EdgeList(m)[b].j) ==> a == b
  {
    LinesSound(m, |m|);
  }

  /** The cells of a sequence of lines. */
  ghost function Cells(L: seq<EdgeLine>): set<(int, int)>
  {
    set k | 0 <= k < |L| :: (L[k].i, L[k].j)
  }

  /** Lines in strictly increasing row-major order name as many distinct cells as there are lines. */
  lemma {:induction false} OrderedCellsCount(L: seq<EdgeLine>)
    requires forall a, b :: 0 <= a < b < |L| ==> Before(L[a], L[b])
    ensures |Cells(L)| == |L|
  {
    if L != [] {
      var init := L[..|L| - 1];
      var last := L[|L| - 1];
      OrderedCellsCount(init);
      assert Cells(L) == Cells(init) + {(last.i, last.j)} by {
        forall k | 0 <= k < |init| ensures init[k] == L[k] { }
      }
      assert (last.i, last.j) !in Cells(init) by {
        forall k | 0 <= k < |init| ensures (init[k].i, init[k].j) != (last.i, last.j) {
          assert Before(L[k], L[|L| - 1]);
        }
      }
    }
  }

  /** The number of emitted lines is the number of non-zero cells of the leading n-by-n square. */
  lemma EdgeListCount(m: seq<seq<int>>)
    requires Square(m)
    ensures |EdgeList(m)| == |NonZeroCells(m)|
  {
    var L := EdgeList(m);
    LinesSound(m, |m|);
    EdgeListComplete(m);
    OrderedCellsCount(L);
    assert Cells(L) == NonZeroCells(m) by {
      forall c | c in NonZeroCells(m) ensures c in Cells(L) {
        var i, j := c.0, c.1;
        var k :| 0 <= k < |L| && L[k] == EdgeLine(i, j, m[i][j]);
      }
    }
  }
}
