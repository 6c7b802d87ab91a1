/**
 * The four selection operators of the query language, each a function of
 * two endpoint tuples and the column count: box, reversed box, linear range
 * and reversed linear range.
 */
module Selection {
  import opened Outcomes
  import opened Arith
  import opened Coords

  /** The indices of row `y`, columns `x0` up to (not including) `xEnd`, left to right. */
  function RowIndices(y: int, x0: int, xEnd: int, numCols: int): seq<int>
    decreases xEnd - x0
  {
    if xEnd <= x0 then []
    else RowIndices(y, x0, xEnd - 1, numCols) + [TupleToInt(Pos(xEnd - 1, y), numCols)]
  }

  /** Rows `y0` up to (not including) `yEnd`, top to bottom, each row as RowIndices. */
  function BoxIndices(y0: int, yEnd: int, x0: int, xEnd: int, numCols: int): seq<int>
    decreases yEnd - y0
  {
    if yEnd <= y0 then []
    else BoxIndices(y0, yEnd - 1, x0, xEnd, numCols) + RowIndices(yEnd - 1, x0, xEnd, numCols)
  }

  /** Element k of a row is column `x0 + k`. */
  lemma {:induction false} RowIndicesAt(y: int, x0: int, xEnd: int, numCols: int)
    requires x0 <= xEnd
    ensures |RowIndices(y, x0, xEnd, numCols)| == xEnd - x0
    ensures forall k :: 0 <= k < xEnd - x0 ==>
      RowIndices(y, x0, xEnd, numCols)[k] == y * numCols + x0 + k
    decreases xEnd - x0
  {
    if xEnd > x0 {
      RowIndicesAt(y, x0, xEnd - 1, numCols);
    }
  }

  /**
   * Element k of a box of width w is in row `y0 + k / w` and column
   * `x0 + k % w`: rows outer, columns inner.
   */
  lemma {:induction false} BoxIndicesAt(y0: int, yEnd: int, x0: int, xEnd: int, numCols: int)
    requires x0 < xEnd && y0 <= yEnd
    ensures |BoxIndices(y0, yEnd, x0, xEnd, numCols)| == (xEnd - x0) * (yEnd - y0)
    ensures forall k :: 0 <= k < |BoxIndices(y0, yEnd, x0, xEnd, numCols)| ==>
      BoxIndices(y0, yEnd, x0, xEnd, numCols)[k] ==
        (y0 + k / (xEnd - x0)) * numCols + x0 + k % (xEnd - x0)
    decreases yEnd - y0
  {
    var w := xEnd - x0;
    if yEnd > y0 {
      var h := yEnd - 1 - y0;
      BoxIndicesAt(y0, yEnd - 1, x0, xEnd, numCols);
      RowIndicesAt(yEnd - 1, x0, xEnd, numCols);
      var prev := BoxIndices(y0, yEnd - 1, x0, xEnd, numCols);
      var row := RowIndices(yEnd - 1, x0, xEnd, numCols);
      assert |prev| == w * h;
      assert w * (yEnd - y0) == w * h + w;
      forall k | |prev| <= k < |prev| + w
        ensures (prev + row)[k] == (y0 + k / w) * numCols + x0 + k % w
      {
        DivModUnique(h, k - |prev|, w);
      }
    }
  }

  /**
   * `box_select`: both endpoint coordinates must grow strictly (columns
   * first, then rows); the result lists the closed rectangle row by row,
   * each row left to right.
   */
  function BoxSelection(start: Pos, end: Pos, numCols: int): (r: Result<seq<int>>)
    ensures r.Failure? <==> !(start.col < end.col && start.row < end.row)
    ensures r.Failure? ==>
      r.error == if start.col < end.col then BoxRowsNotIncreasing else BoxColumnsNotIncreasing
    ensures r.Success? ==>
      var w := end.col - start.col + 1;
      |r.value| == w * (end.row - start.row + 1) &&
      forall k :: 0 <= k < |r.value| ==>
        r.value[k] == (start.row + k / w) * numCols + start.col + k % w
  {
    if start.col >= end.col then Failure(BoxColumnsNotIncreasing)
    else if start.row >= end.row then Failure(BoxRowsNotIncreasing)
    else
      BoxIndicesAt(start.row, end.row + 1, start.col, end.col + 1, numCols);
      Success(BoxIndices(start.row, end.row + 1, start.col, end.col + 1, numCols))
  }

  /** `box_select` as the source runs it: nested loops appending to a list. */
  method BoxSelect(start: Pos, end: Pos, numCols: int) returns (r: Result<seq<int>>)
    ensures r == BoxSelection(start, end, numCols)
  {
    if start.col >= end.col {
      return Failure(BoxColumnsNotIncreasing);
    }
    if start.row >= end.row {
      return Failure(BoxRowsNotIncreasing);
    }
    var out: seq<int> := [];
    var y := start.row;
    while y < end.row + 1
      invariant start.row <= y <= end.row + 1
      invariant out == BoxIndices(start.row, y, start.col, end.col + 1, numCols)
    {
      var x := start.col;
      while x < end.col + 1
        invariant start.col <= x <= end.col + 1
        invariant out == BoxIndices(start.row, y, start.col, end.col + 1, numCols) +
                         RowIndices(y, start.col, x, numCols)
      {
        out := out + [TupleToInt(Pos(x, y), numCols)];
        x := x + 1;
      }
      y := y + 1;
    }
    return Success(out);
  }

  /**
   * Every cell of the rectangle appears in a box selection, at its row-major
   * offset inside the rectangle.
   */
  lemma BoxSelectionCovers(start: Pos, end: Pos, numCols: int, cell: Pos)
    requires start.col < end.col && start.row < end.row
    requires start.col <= cell.col <= end.col && start.row <= cell.row <= end.row
    ensures var w := end.col - start.col + 1;
      var k := (cell.row - start.row) * w + (cell.col - start.col);
      0 <= k < |BoxSelection(start, end, numCols).value| &&
      BoxSelection(start, end, numCols).value[k] == TupleToInt(cell, numCols)
  {
    var w := end.col - start.col + 1;
    var h := end.row - start.row + 1;
    var q, m := cell.row - start.row, cell.col - start.col;
    DivModUnique(q, m, w);
    MulMonotone(w, q + 1, h);
    assert w * q == q * w;
  }

  /** Python's `s[::-1]`. */
  function Reverse<T>(s: seq<T>): (r: seq<T>)
    ensures |r| == |s|
    ensures forall k :: 0 <= k < |s| ==> r[k] == s[|s| - 1 - k]
    decreases |s|
  {
    if s == [] then [] else [s[|s| - 1]] + Reverse(s[..|s| - 1])
  }

  /**
   * The reversed box counted from its far corner: element k is in row
   * `end.row - k / w` and column `end.col - k % w`.
   */
  lemma ReversedBoxAt(start: Pos, end: Pos, numCols: int, k: int)
    requires start.col < end.col && start.row < end.row
    requires 0 <= k < |BoxSelection(start, end, numCols).value|
    ensures var s := BoxSelection(start, end, numCols).value;
      var w := end.col - start.col + 1;
      s[|s| - 1 - k] == (end.row - k / w) * numCols + end.col - k % w
  {
    var w := end.col - start.col + 1;
    var h := end.row - start.row + 1;
    var q, m := k / w, k % w;
    assert k == w * q + m;
    assert w * h - 1 - k == w * (h - 1 - q) + (w - 1 - m);
    DivModUnique(h - 1 - q, w - 1 - m, w);
  }

  /**
   * `reverse_box_select`: the box selection reversed as a whole, failing
   * exactly when the box selection fails; it runs rows bottom to top, each
   * row right to left.
   */
  function ReverseBoxSelection(start: Pos, end: Pos, numCols: int): (r: Result<seq<int>>)
    ensures r.Failure? <==> BoxSelection(start, end, numCols).Failure?
    ensures r.Failure? ==> r.error == BoxSelection(start, end, numCols).error
    ensures r.Success? ==>
      var w := end.col - start.col + 1;
      |r.value| == w * (end.row - start.row + 1) &&
      forall k :: 0 <= k < |r.value| ==>
        r.value[k] == (end.row - k / w) * numCols + end.col - k % w
  {
    var s :- BoxSelection(start, end, numCols);
    var r := Reverse(s);
    assert forall k :: 0 <= k < |r| ==>
      r[k] == (end.row - k / (end.col - start.col + 1)) * numCols + end.col - k % (end.col - start.col + 1) by {
      forall k | 0 <= k < |r|
        ensures r[k] == (end.row - k / (end.col - start.col + 1)) * numCols + end.col - k % (end.col - start.col + 1)
      {
        ReversedBoxAt(start, end, numCols, k);
      }
    }
    Success(r)
  }

  /**
   * The inclusive range `lo..hi` in ascending order: exactly the integers
   * between the bounds, each once, so empty when `lo > hi`.
   */
  function Span(lo: int, hi: int): (r: seq<int>)
    ensures |r| == if lo <= hi then hi - lo + 1 else 0
    ensures forall x :: x in r <==> lo <= x <= hi
    ensures forall i, j :: 0 <= i < j < |r| ==> r[i] < r[j]
  {
    var r := seq(if lo <= hi then hi - lo + 1 else 0, k => lo + k);
    assert forall x :: lo <= x <= hi ==> x in r by {
      forall x | lo <= x <= hi ensures x in r {
        assert r[x - lo] == x;
      }
    }
    r
  }

  /** `linear_select`: every index from the start's to the end's, inclusive. */
  function LinearSelection(start: Pos, end: Pos, numCols: int): (r: seq<int>)
    ensures var lo, hi := TupleToInt(start, numCols), TupleToInt(end, numCols);
      |r| == (if lo <= hi then hi - lo + 1 else 0) &&
      (forall k :: 0 <= k < |r| ==> r[k] == lo + k) &&
      (forall x :: x in r <==> lo <= x <= hi)
  {
    Span(TupleToInt(start, numCols), TupleToInt(end, numCols))
  }

  /**
   * `reverse_linear_select`: the linear selection reversed, counting down
   * from the end's index to the start's.
   */
  function ReverseLinearSelection(start: Pos, end: Pos, numCols: int): (r: seq<int>)
    ensures var lo, hi := TupleToInt(start, numCols), TupleToInt(end, numCols);
      |r| == (if lo <= hi then hi - lo + 1 else 0) &&
      (forall k :: 0 <= k < |r| ==> r[k] == hi - k) &&
      (forall x :: x in r <==> lo <= x <= hi)
  {
    var s := LinearSelection(start, end, numCols);
    var r := Reverse(s);
    assert forall x :: x in r <==> x in s by {
      forall x | x in s ensures x in r {
        var i :| 0 <= i < |s| && s[i] == x;
        assert r[|s| - 1 - i] == x;
      }
    }
    r
  }
}
