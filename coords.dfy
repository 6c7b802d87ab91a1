/**
 * Grid coordinates: the row-major linear index of a cell, its `(col, row)`
 * tuple, and the parser for one coordinate of the query language.
 */
module Coords {
  import opened Outcomes
  import opened Arith
  import opened Text

  /** A grid position as the slicer's tuples hold it: column (x) first, then row (y). */
  datatype Pos = Pos(col: int, row: int)

  /** What `parse_coord` returns: a linear index, or a tuple when asked for one. */
  datatype Coord = Index(index: int) | Tuple(pos: Pos)

  /** `grid_int_to_tuple`: Python's `(i % num_cols, i // num_cols)`. */
  function IntToTuple(i: int, numCols: int): (p: Pos)
    requires numCols != 0
    ensures numCols > 0 ==> 0 <= p.col < numCols && p == Pos(i % numCols, i / numCols)
    ensures numCols < 0 ==> numCols < p.col <= 0
  {
    Pos(FloorMod(i, numCols), FloorDiv(i, numCols))
  }

  /** `grid_tuple_to_int`: the row-major index `row * num_cols + col`. */
  function TupleToInt(p: Pos, numCols: int): (r: int)
    ensures 0 <= p.col < numCols ==> p.row * numCols <= r < p.row * numCols + numCols
  {
    p.row * numCols + p.col
  }

  /** Converting an index to a tuple and back gives the index again. */
  lemma IntTupleRoundTrip(i: int, numCols: int)
    requires numCols != 0
    ensures TupleToInt(IntToTuple(i, numCols), numCols) == i
  {
  }

  /** A tuple whose column lies in the grid survives the trip through its index. */
  lemma TupleIntRoundTrip(p: Pos, numCols: int)
    requires 0 <= p.col < numCols
    ensures IntToTuple(TupleToInt(p, numCols), numCols) == p
  {
    DivModUnique(p.row, p.col, numCols);
  }

  /** Distinct in-grid tuples have distinct indices. */
  lemma TupleToIntInjective(p: Pos, q: Pos, numCols: int)
    requires 0 <= p.col < numCols && 0 <= q.col < numCols
    requires TupleToInt(p, numCols) == TupleToInt(q, numCols)
    ensures p == q
  {
    TupleIntRoundTrip(p, numCols);
    TupleIntRoundTrip(q, numCols);
  }

  /**
   * `parse_coord(text, num_cols, to_tuple)`. A text with a comma is
   * `row,col`, where a column of exactly `$` means the last column; only the
   * first two comma-separated parts are read, the column before the row, and
   * the column must then be below `num_cols`. A text without a comma is a
   * linear index, turned into a tuple on request.
   */
  function ParseCoord(text: string, numCols: int, toTuple: bool): (r: Result<Coord>)
    ensures r.Success? ==> (r.value.Tuple? <==> toTuple)
    ensures r.Success? && toTuple && Contains(text, ",") ==> r.value.pos.col < numCols
    ensures r.Success? && toTuple && numCols > 0 && !Contains(text, ",") ==>
      0 <= r.value.pos.col < numCols
    ensures !Contains(text, ",") && ParseInt(text).None? ==> r == Failure(InvalidLiteral(text))
    ensures Contains(text, ",") && Split(text, ",")[1] != "$" && ParseInt(Split(text, ",")[1]).None? ==>
      r == Failure(InvalidLiteral(Split(text, ",")[1]))
    ensures (Contains(text, ",") && (Split(text, ",")[1] == "$" || ParseInt(Split(text, ",")[1]).Some?) &&
             ParseInt(Split(text, ",")[0]).None?) ==>
      r == Failure(InvalidLiteral(Split(text, ",")[0]))
  {
    if Contains(text, ",") then
      var parts := Split(text, ",");
      ResolvePair(parts[0], parts[1], numCols, toTuple)
    else
      ResolveBare(text, numCols, toTuple)
  }

  /** The `row,col` branch of `parse_coord`, given the first two comma parts. */
  function ResolvePair(rowText: string, colText: string, numCols: int, toTuple: bool): (r: Result<Coord>)
    ensures r.Success? ==> (r.value.Tuple? <==> toTuple)
    ensures r.Success? && toTuple ==> r.value.pos.col < numCols
    ensures colText != "$" && ParseInt(colText).None? ==> r == Failure(InvalidLiteral(colText))
    ensures (colText == "$" || ParseInt(colText).Some?) && ParseInt(rowText).None? ==>
      r == Failure(InvalidLiteral(rowText))
    ensures colText == "$" ==> (r.Success? <==> ParseInt(rowText).Some?)
    ensures (colText == "$" || ParseInt(colText).Some?) && ParseInt(rowText).Some? ==>
      var col := if colText == "$" then numCols - 1 else ParseInt(colText).value;
      var row := ParseInt(rowText).value;
      (col >= numCols ==> r == Failure(ColumnOutOfRange(col, numCols))) &&
      (col < numCols ==> r == Success(if toTuple then Tuple(Pos(col, row)) else Index(row * numCols + col)))
  {
    var col :- if colText == "$" then Success(numCols - 1) else IntOf(colText);
    var row :- IntOf(rowText);
    if col >= numCols then Failure(ColumnOutOfRange(col, numCols))
    else
      var p := Pos(col, row);
      Success(if toTuple then Tuple(p) else Index(TupleToInt(p, numCols)))
  }

  /** The bare-index branch of `parse_coord`. */
  function ResolveBare(text: string, numCols: int, toTuple: bool): (r: Result<Coord>)
    ensures r.Success? ==> (r.value.Tuple? <==> toTuple)
    ensures r.Success? && toTuple && numCols > 0 ==> 0 <= r.value.pos.col < numCols
    ensures ParseInt(text).None? ==> r == Failure(InvalidLiteral(text))
    ensures ParseInt(text).Some? && !toTuple ==> r == Success(Index(ParseInt(text).value))
    ensures ParseInt(text).Some? && toTuple && numCols == 0 ==> r == Failure(DivisionByZero)
    ensures ParseInt(text).Some? && toTuple && numCols != 0 ==>
      r == Success(Tuple(IntToTuple(ParseInt(text).value, numCols)))
  {
    var i :- IntOf(text);
    if !toTuple then Success(Index(i))
    else if numCols == 0 then Failure(DivisionByZero)
    else Success(Tuple(IntToTuple(i, numCols)))
  }

  /** A text whose first two comma parts are `rowText` and `colText` resolves as that pair. */
  lemma ParseCoordPair(text: string, rowText: string, colText: string, numCols: int, toTuple: bool)
    requires Contains(text, ",") && Split(text, ",")[..2] == [rowText, colText]
    ensures ParseCoord(text, numCols, toTuple) == ResolvePair(rowText, colText, numCols, toTuple)
  {
    var parts := Split(text, ",");
    assert parts[0] == rowText && parts[1] == colText by {
      assert parts[..2][0] == parts[0] && parts[..2][1] == parts[1];
    }
  }

  /** The two result forms of `parse_coord` agree: the index is the tuple's linear form. */
  lemma CoordModesAgree(text: string, numCols: int)
    requires numCols != 0
    ensures ParseCoord(text, numCols, false) ==
      match ParseCoord(text, numCols, true)
      case Failure(e) => Failure(e)
      case Success(c) => Success(Index(TupleToInt(c.pos, numCols)))
  {
    if !Contains(text, ",") && ParseInt(text).Some? {
      IntTupleRoundTrip(ParseInt(text).value, numCols);
    }
  }

  /** Two numerals with an in-range column resolve to that position. */
  lemma ResolveShown(row: int, col: int, numCols: int, toTuple: bool)
    requires col < numCols
    ensures ResolvePair(Show(row), Show(col), numCols, toTuple) ==
      Success(if toTuple then Tuple(Pos(col, row)) else Index(row * numCols + col))
  {
    ParseShow(row);
    ParseShow(col);
    ShowLacks(col, '$');
    assert Show(col) != "$";
  }

  /**
   * A `row,col` coordinate with an in-range column: the tuple `(col, row)`,
   * or the index `row * num_cols + col`. Parts after a second comma are
   * ignored.
   */
  lemma ParsePair(row: int, col: int, rest: string, numCols: int, toTuple: bool)
    requires col < numCols
    requires rest == [] || rest[0] == ','
    ensures ParseCoord(Show(row) + "," + Show(col) + rest, numCols, toTuple) ==
      Success(if toTuple then Tuple(Pos(col, row)) else Index(row * numCols + col))
  {
    var text := Show(row) + "," + Show(col) + rest;
    assert Contains(text, ",") && Split(text, ",")[..2] == [Show(row), Show(col)] by {
      ShowLacks(row, ',');
      ShowLacks(col, ',');
      SplitTwo(Show(row), Show(col), rest, ',');
    }
    ParseCoordPair(text, Show(row), Show(col), numCols, toTuple);
    ResolveShown(row, col, numCols, toTuple);
  }

  /** A `row,col` coordinate whose column is not below `num_cols` fails the assertion. */
  lemma ParsePairOutOfRange(row: int, col: int, numCols: int, toTuple: bool)
    requires col >= numCols
    ensures ParseCoord(Show(row) + "," + Show(col), numCols, toTuple) ==
      Failure(ColumnOutOfRange(col, numCols))
  {
    ShowLacks(row, ',');
    ShowLacks(col, ',');
    SplitTwo(Show(row), Show(col), "", ',');
    assert Show(row) + "," + Show(col) + "" == Show(row) + "," + Show(col);
    ParseCoordPair(Show(row) + "," + Show(col), Show(row), Show(col), numCols, toTuple);
    ParseShow(row);
    ParseShow(col);
    ShowLacks(col, '$');
  }

  /** `row,$` names the last column, `num_cols - 1`. */
  lemma ParseWildcard(row: int, numCols: int, toTuple: bool)
    ensures ParseCoord(Show(row) + ",$", numCols, toTuple) ==
      Success(if toTuple then Tuple(Pos(numCols - 1, row)) else Index(row * numCols + numCols - 1))
  {
    ShowLacks(row, ',');
    SplitTwo(Show(row), "$", "", ',');
    assert Show(row) + "," + "$" + "" == Show(row) + ",$";
    ParseCoordPair(Show(row) + ",$", Show(row), "$", numCols, toTuple);
    ParseShow(row);
  }

  /** The wildcard is only understood in the column position: `$,col` is a bad literal. */
  lemma WildcardRowRejected(col: int, numCols: int, toTuple: bool)
    ensures ParseCoord("$," + Show(col), numCols, toTuple) == Failure(InvalidLiteral("$"))
  {
    ShowLacks(col, ',');
    SplitTwo("$", Show(col), "", ',');
    assert "$" + "," + Show(col) + "" == "$," + Show(col);
    ParseCoordPair("$," + Show(col), "$", Show(col), numCols, toTuple);
    ParseShow(col);
    ShowLacks(col, '$');
    ParseRejects("$", 0);
  }

  /**
   * A bare numeral is the index itself, or as a tuple
   * `(i % num_cols, i // num_cols)`; asking for a tuple with no columns
   * divides by zero.
   */
  lemma ParseBare(i: int, numCols: int)
    ensures ParseCoord(Show(i), numCols, false) == Success(Index(i))
    ensures numCols != 0 ==> ParseCoord(Show(i), numCols, true) == Success(Tuple(IntToTuple(i, numCols)))
    ensures ParseCoord(Show(i), 0, true) == Failure(DivisionByZero)
  {
    ShowLacks(i, ',');
    ContainsChar(Show(i), ',');
    ParseShow(i);
  }
}
