/**
 * The pixel arithmetic around the image library: the crop box of every
 * grid cell of the source image, and where each selected cell is pasted on
 * the output sheet. Image contents are not modelled, only sizes and
 * positions.
 */
module Sheet {
  import opened Outcomes
  import opened Arith
  import opened Coords

  /** A crop box, `(left, upper, right, lower)`, right and lower exclusive. */
  datatype Box = Box(left: int, upper: int, right: int, lower: int)

  /** The pixel size of an image. */
  datatype Size = Size(width: nat, height: nat)

  /** One `paste`: which selected cell, and the upper-left corner it goes to. */
  datatype Paste = Paste(cell: nat, x: int, y: int)

  /** The output image: its size and the pastes made onto it, in order. */
  datatype Canvas = Canvas(width: int, height: int, pastes: seq<Paste>)

  predicate Covers(b: Box, x: int, y: int) {
    b.left <= x < b.right && b.upper <= y < b.lower
  }

  /** The box of the cell at `p` when every cell is `width` by `height` pixels. */
  function CellBox(p: Pos, width: int, height: int): Box {
    Box(p.col * width, p.row * height, p.col * width + width, p.row * height + height)
  }

  /**
   * The crop box of cell `i` in `get_grid_cells`: column `i % num_cols`,
   * row `i // num_cols`, each cell `image_width // num_cols` by
   * `image_height // num_rows` pixels.
   */
  function GridBox(i: int, imageWidth: nat, imageHeight: nat, numCols: int, numRows: int): (b: Box)
    requires numCols != 0 && numRows != 0
    ensures b.right - b.left == FloorDiv(imageWidth, numCols)
    ensures b.lower - b.upper == FloorDiv(imageHeight, numRows)
  {
    CellBox(IntToTuple(i, numCols), FloorDiv(imageWidth, numCols), FloorDiv(imageHeight, numRows))
  }

  /** Slot `c` of `n` slots, each `w` wide, lies within `[0, n * w)`, and only slots below `n` do. */
  lemma SlotFits(c: int, n: int, w: int)
    requires 0 <= c && 0 < w
    ensures 0 <= c * w
    ensures c * w + w <= n * w <==> c < n
  {
    MulMonotone(w, 0, c);
    MulMonotone(w, c + 1, n);
    MulMonotone(w, n + 1, c + 1);
    assert w * (c + 1) == c * w + w;
  }

  /** A slot of a non-negative width inside `n` slots ends within `n * w`. */
  lemma SlotInside(c: int, n: int, w: int, total: int)
    requires 0 <= c < n && 0 <= w && n * w <= total
    ensures 0 <= c * w <= c * w + w <= total
  {
    MulMonotone(w, 0, c);
    MulMonotone(w, c + 1, n);
    assert w * (c + 1) == c * w + w;
  }

  /** The box of an in-grid cell lies within `cols * width` by `rows * height`. */
  lemma BoxInside(p: Pos, width: int, height: int, cols: int, rows: int, totalWidth: int, totalHeight: int)
    requires 0 <= p.col < cols && 0 <= p.row < rows && 0 <= width && 0 <= height
    requires cols * width <= totalWidth && rows * height <= totalHeight
    ensures var b := CellBox(p, width, height);
      0 <= b.left <= b.right <= totalWidth && 0 <= b.upper <= b.lower <= totalHeight
  {
    SlotInside(p.col, cols, width, totalWidth);
    SlotInside(p.row, rows, height, totalHeight);
  }

  /** A pixel is in the box of cell `p` exactly when the cells are non-empty and `p` is its cell. */
  lemma CellBoxCovers(p: Pos, width: int, height: int, x: int, y: int)
    ensures Covers(CellBox(p, width, height), x, y) <==>
      width > 0 && height > 0 && FloorDiv(x, width) == p.col && FloorDiv(y, height) == p.row
  {
    if width > 0 && height > 0 {
      DivBetween(x, width, p.col);
      DivBetween(y, height, p.row);
      assert width * p.col == p.col * width && height * p.row == p.row * height;
    }
  }

  /** Cell `(col, row)` of a grid `cols` wide has index `row * cols + col`, below `cols * rows`. */
  lemma IndexOfCell(col: int, row: int, cols: int, rows: int)
    requires 0 <= col < cols && 0 <= row < rows
    ensures 0 <= row * cols + col < cols * rows
    ensures IntToTuple(row * cols + col, cols) == Pos(col, row)
  {
    TupleIntRoundTrip(Pos(col, row), cols);
    DivBelow(row * cols + col, cols, rows);
    MulMonotone(cols, 0, row);
  }

  /** How many cells `range(num_cols * num_rows)` visits: none when the product is negative. */
  function CellCount(numCols: int, numRows: int): nat {
    if numCols * numRows > 0 then numCols * numRows else 0
  }

  /**
   * `get_grid_cells`: a list of `num_cols * num_rows` slots, then one crop
   * box per slot. Either count being zero divides by zero, after the list
   * is made.
   */
  method GridCells(imageWidth: nat, imageHeight: nat, numCols: int, numRows: int) returns (r: Result<seq<Box>>)
    ensures r.Failure? <==> numCols == 0 || numRows == 0
    ensures r.Failure? ==> r.error == DivisionByZero
    ensures r.Success? ==> |r.value| == CellCount(numCols, numRows)
    ensures r.Success? ==> forall i :: 0 <= i < |r.value| ==>
      r.value[i] == GridBox(i, imageWidth, imageHeight, numCols, numRows)
  {
    var cells := new Box[CellCount(numCols, numRows)];
    if numCols == 0 || numRows == 0 {
      return Failure(DivisionByZero);
    }
    var width := FloorDiv(imageWidth, numCols);
    var height := FloorDiv(imageHeight, numRows);
    var i := 0;
    while i < cells.Length
      invariant 0 <= i <= cells.Length
      invariant forall k :: 0 <= k < i ==> cells[k] == GridBox(k, imageWidth, imageHeight, numCols, numRows)
    {
      var col := FloorMod(i, numCols);
      var row := FloorDiv(i, numCols);
      var left := col * width;
      var upper := row * height;
      cells[i] := Box(left, upper, left + width, upper + height);
      i := i + 1;
    }
    return Success(cells[..]);
  }

  /** With positive counts, every cell's box lies inside the image. */
  lemma CellInImage(imageWidth: nat, imageHeight: nat, numCols: int, numRows: int, i: int)
    requires numCols > 0 && numRows > 0 && 0 <= i < numCols * numRows
    ensures var b := GridBox(i, imageWidth, imageHeight, numCols, numRows);
      0 <= b.left <= b.right <= imageWidth && 0 <= b.upper <= b.lower <= imageHeight
  {
    var p := IntToTuple(i, numCols);
    var width, height := FloorDiv(imageWidth, numCols), FloorDiv(imageHeight, numRows);
    assert 0 <= p.col < numCols && 0 <= p.row < numRows by {
      DivBelow(i, numCols, numRows);
    }
    assert GridBox(i, imageWidth, imageHeight, numCols, numRows) == CellBox(p, width, height);
    QuotientFits(imageWidth, numCols);
    QuotientFits(imageHeight, numRows);
    BoxInside(p, width, height, numCols, numRows, imageWidth, imageHeight);
  }

  /** A pixel inside `cols * width` by `rows * height` lies in the cell its floor-divided position names. */
  lemma PixelCell(width: int, height: int, cols: int, rows: int, x: int, y: int)
    requires width > 0 && height > 0 && 0 <= x < cols * width && 0 <= y < rows * height
    ensures var i := FloorDiv(y, height) * cols + FloorDiv(x, width);
      0 <= i < cols * rows && Covers(CellBox(IntToTuple(i, cols), width, height), x, y)
  {
    var col, row := FloorDiv(x, width), FloorDiv(y, height);
    assert 0 <= col < cols by {
      DivBelow(x, width, 0);
      DivBelow(x, width, cols);
      assert width * cols == cols * width;
    }
    assert 0 <= row < rows by {
      DivBelow(y, height, 0);
      DivBelow(y, height, rows);
      assert height * rows == rows * height;
    }
    IndexOfCell(col, row, cols, rows);
    CellBoxCovers(Pos(col, row), width, height, x, y);
  }

  /** Only the cell a pixel's floor-divided position names covers it. */
  lemma PixelCellUnique(width: int, height: int, cols: int, x: int, y: int, j: int)
    requires cols != 0 && Covers(CellBox(IntToTuple(j, cols), width, height), x, y)
    ensures j == FloorDiv(y, height) * cols + FloorDiv(x, width)
  {
    CellBoxCovers(IntToTuple(j, cols), width, height, x, y);
    IntTupleRoundTrip(j, cols);
  }

  /** Cells of a positive size tile `cols * width` by `rows * height`, each pixel in exactly one. */
  lemma PixelInOneCell(width: int, height: int, cols: int, rows: int, x: int, y: int)
    requires width > 0 && height > 0 && 0 <= x < cols * width && 0 <= y < rows * height
    ensures var i := FloorDiv(y, height) * cols + FloorDiv(x, width);
      0 <= i < cols * rows && Covers(CellBox(IntToTuple(i, cols), width, height), x, y)
    ensures forall j :: cols != 0 && Covers(CellBox(IntToTuple(j, cols), width, height), x, y) ==>
      j == FloorDiv(y, height) * cols + FloorDiv(x, width)
  {
    PixelCell(width, height, cols, rows, x, y);
    forall j | cols != 0 && Covers(CellBox(IntToTuple(j, cols), width, height), x, y)
      ensures j == FloorDiv(y, height) * cols + FloorDiv(x, width)
    {
      PixelCellUnique(width, height, cols, x, y, j);
    }
  }

  /**
   * The cells tile the part of the image they cover: every pixel inside
   * `num_cols * width` by `num_rows * height` lies in exactly one cell.
   */
  lemma EachPixelInOneCell(imageWidth: nat, imageHeight: nat, numCols: int, numRows: int, x: int, y: int)
    requires numCols > 0 && numRows > 0
    requires var width, height := FloorDiv(imageWidth, numCols), FloorDiv(imageHeight, numRows);
      width > 0 && height > 0 && 0 <= x < numCols * width && 0 <= y < numRows * height
    ensures var width, height := FloorDiv(imageWidth, numCols), FloorDiv(imageHeight, numRows);
      var i := FloorDiv(y, height) * numCols + FloorDiv(x, width);
      0 <= i < numCols * numRows && Covers(GridBox(i, imageWidth, imageHeight, numCols, numRows), x, y)
    ensures var width, height := FloorDiv(imageWidth, numCols), FloorDiv(imageHeight, numRows);
      forall j :: Covers(GridBox(j, imageWidth, imageHeight, numCols, numRows), x, y) ==>
        j == FloorDiv(y, height) * numCols + FloorDiv(x, width)
  {
    PixelInOneCell(FloorDiv(imageWidth, numCols), FloorDiv(imageHeight, numRows), numCols, numRows, x, y);
  }

  /**
   * Where `construct_output_sheet` pastes its cell `i`: `((i % cols) * w, (i // cols) * h)`.
   * With a positive column count, the column slot of every image fits the
   * canvas width; only the row can fall outside the canvas.
   */
  function PastePoint(i: int, cols: int, w: int, h: int): (r: (int, int))
    requires cols != 0
    ensures cols > 0 && w >= 0 && h >= 0 && i >= 0 ==> 0 <= r.0 && r.0 + w <= cols * w && 0 <= r.1
  {
    var p := IntToTuple(i, cols);
    assert cols > 0 && w >= 0 && h >= 0 && i >= 0 ==>
      0 <= p.col * w && p.col * w + w <= cols * w && 0 <= p.row * h by {
      if cols > 0 && w >= 0 && h >= 0 && i >= 0 {
        DivBelow(i, cols, 0);
        MulMonotone(w, 0, p.col);
        MulMonotone(w, p.col + 1, cols);
        MulMonotone(h, 0, p.row);
        assert w * (p.col + 1) == p.col * w + w && w * cols == cols * w;
        assert w * p.col == p.col * w && h * p.row == p.row * h;
      }
    }
    (p.col * w, p.row * h)
  }

  /**
   * `construct_output_sheet`: `cols = len(images) // rows_out`, a canvas
   * of `cols * w` by `rows_out * h` where `(w, h)` is the first image's
   * size, and every image pasted in turn. An empty list fails its assertion;
   * `rows_out == 0` divides by zero, and so does the first paste when there
   * are fewer images than rows.
   */
  method AssembleSheet(cells: seq<Size>, rowsOut: int) returns (r: Result<Canvas>)
    ensures r.Failure? <==> |cells| == 0 || rowsOut == 0 || FloorDiv(|cells|, rowsOut) == 0
    ensures |cells| == 0 ==> r == Failure(EmptyInput)
    ensures |cells| > 0 && r.Failure? ==> r.error == DivisionByZero
    ensures r.Success? ==>
      var cols, w, h := FloorDiv(|cells|, rowsOut), cells[0].width, cells[0].height;
      r.value.width == cols * w && r.value.height == rowsOut * h && |r.value.pastes| == |cells| &&
      forall i :: 0 <= i < |cells| ==>
        r.value.pastes[i] == Paste(i, PastePoint(i, cols, w, h).0, PastePoint(i, cols, w, h).1)
  {
    if |cells| == 0 {
      return Failure(EmptyInput);
    }
    if rowsOut == 0 {
      return Failure(DivisionByZero);
    }
    var rows := rowsOut;
    var cols := FloorDiv(|cells|, rows);
    var w, h := cells[0].width, cells[0].height;
    var pastes: seq<Paste> := [];
    var i := 0;
    while i < |cells|
      invariant 0 <= i <= |cells|
      invariant i > 0 ==> cols != 0
      invariant |pastes| == i
      invariant forall k :: 0 <= k < i ==>
        cols != 0 && pastes[k] == Paste(k, PastePoint(k, cols, w, h).0, PastePoint(k, cols, w, h).1)
    {
      if cols == 0 {
        return Failure(DivisionByZero);
      }
      pastes := pastes + [Paste(i, FloorMod(i, cols) * w, FloorDiv(i, cols) * h)];
      i := i + 1;
    }
    return Success(Canvas(cols * w, rows * h, pastes));
  }

  /**
   * A cell's paste fits on the canvas exactly when its index is below
   * `cols * rows`: the leftover cells of a count that `rows` does not
   * divide land below the canvas.
   */
  lemma PasteInCanvas(i: int, cols: int, rows: int, w: int, h: int)
    requires cols > 0 && rows > 0 && w > 0 && h > 0 && 0 <= i
    ensures var (x, y) := PastePoint(i, cols, w, h);
      (0 <= x && x + w <= cols * w && 0 <= y && y + h <= rows * h) <==> i < cols * rows
  {
    var p := IntToTuple(i, cols);
    assert 0 <= p.col < cols;
    assert 0 <= p.row by {
      DivBelow(i, cols, 0);
    }
    assert p.row < rows <==> i < cols * rows by {
      DivBelow(i, cols, rows);
    }
    SlotFits(p.col, cols, w);
    SlotFits(p.row, rows, h);
  }

  /** Two different cells are pasted onto regions that share no pixel. */
  lemma PastesDisjoint(i: int, j: int, cols: int, w: int, h: int, x: int, y: int)
    requires cols > 0 && w > 0 && h > 0
    requires var (xi, yi) := PastePoint(i, cols, w, h);
      xi <= x < xi + w && yi <= y < yi + h
    requires var (xj, yj) := PastePoint(j, cols, w, h);
      xj <= x < xj + w && yj <= y < yj + h
    ensures i == j
  {
    var p, q := IntToTuple(i, cols), IntToTuple(j, cols);
    assert p == q by {
      assert p.col * w == w * p.col && q.col * w == w * q.col;
      assert p.row * h == h * p.row && q.row * h == h * q.row;
      DivBetween(x, w, p.col);
      DivBetween(x, w, q.col);
      DivBetween(y, h, p.row);
      DivBetween(y, h, q.row);
    }
    IntTupleRoundTrip(i, cols);
    IntTupleRoundTrip(j, cols);
  }

  /**
   * Slicing a grid into all its cells in index order and assembling them
   * with the grid's own row count puts every cell back where its crop box
   * was, on a canvas of the grid's size.
   */
  lemma ReassemblyRestoresLayout(imageWidth: nat, imageHeight: nat, numCols: int, numRows: int, i: int)
    requires numCols > 0 && numRows > 0 && 0 <= i < numCols * numRows
    ensures FloorDiv(numCols * numRows, numRows) == numCols
    ensures var b := GridBox(i, imageWidth, imageHeight, numCols, numRows);
      PastePoint(i, numCols, FloorDiv(imageWidth, numCols), FloorDiv(imageHeight, numRows)) == (b.left, b.upper)
  {
    DivModUnique(numCols, 0, numRows);
    assert numRows * numCols + 0 == numCols * numRows;
  }
}
