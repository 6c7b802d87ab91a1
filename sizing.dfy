/**
 * `parse_grid_size`: the grid's column and row counts, from either a cell
 * size in pixels or an explicit `cols,rows` pair.
 */
module Sizing {
  import opened Outcomes
  import opened Arith
  import opened Text

  /** The pair `(num_cols, num_rows)` that `parse_grid_size` returns. */
  datatype Dims = Dims(cols: int, rows: int)

  /**
   * Without a comma the text is the pixel size of a square cell and the
   * image size is divided by it (`int(image_width / pixels)`); with a comma
   * the first two parts are the column and row counts and the image size is
   * not used.
   */
  function ParseGridSize(spec: string, imageWidth: nat, imageHeight: nat): (r: Result<Dims>)
    ensures !Contains(spec, ",") ==>
      (r.Success? <==> ParseInt(spec).Some? && ParseInt(spec).value != 0)
    ensures r.Success? && !Contains(spec, ",") && ParseInt(spec).value > 0 ==>
      var pixels := ParseInt(spec).value;
      r.value == Dims(imageWidth / pixels, imageHeight / pixels)
    ensures !Contains(spec, ",") && ParseInt(spec).None? ==> r == Failure(InvalidLiteral(spec))
    ensures !Contains(spec, ",") && ParseInt(spec) == Some(0) ==> r == Failure(DivisionByZero)
    ensures Contains(spec, ",") ==>
      (r.Success? <==> ParseInt(Split(spec, ",")[0]).Some? && ParseInt(Split(spec, ",")[1]).Some?)
    ensures Contains(spec, ",") && ParseInt(Split(spec, ",")[0]).None? ==>
      r == Failure(InvalidLiteral(Split(spec, ",")[0]))
    ensures (Contains(spec, ",") && ParseInt(Split(spec, ",")[0]).Some? &&
             ParseInt(Split(spec, ",")[1]).None?) ==>
      r == Failure(InvalidLiteral(Split(spec, ",")[1]))
    ensures Contains(spec, ",") && r.Success? ==>
      r.value == Dims(ParseInt(Split(spec, ",")[0]).value, ParseInt(Split(spec, ",")[1]).value)
  {
    if !Contains(spec, ",") then
      var pixels :- IntOf(spec);
      if pixels == 0 then Failure(DivisionByZero)
      else Success(Dims(TruncDiv(imageWidth, pixels), TruncDiv(imageHeight, pixels)))
    else
      var dims := Split(spec, ",");
      var cols :- IntOf(dims[0]);
      var rows :- IntOf(dims[1]);
      Success(Dims(cols, rows))
  }

  /**
   * A positive cell size gives the floor quotients; the grid then covers the
   * image except for a strip narrower than one cell on the right and bottom.
   */
  lemma GridSizeFromPixels(pixels: int, imageWidth: nat, imageHeight: nat)
    requires pixels > 0
    ensures ParseGridSize(Show(pixels), imageWidth, imageHeight) ==
      Success(Dims(imageWidth / pixels, imageHeight / pixels))
    ensures var d := ParseGridSize(Show(pixels), imageWidth, imageHeight).value;
      d.cols * pixels <= imageWidth < d.cols * pixels + pixels &&
      d.rows * pixels <= imageHeight < d.rows * pixels + pixels
  {
    ShowLacks(pixels, ',');
    ContainsChar(Show(pixels), ',');
    ParseShow(pixels);
  }

  /** A cell size of zero divides by zero. */
  lemma GridSizeZeroPixels(imageWidth: nat, imageHeight: nat)
    ensures ParseGridSize(Show(0), imageWidth, imageHeight) == Failure(DivisionByZero)
  {
    ShowLacks(0, ',');
    ContainsChar(Show(0), ',');
    ParseShow(0);
  }

  /** `cols,rows` is taken as it is; parts after a second comma are ignored. */
  lemma GridSizeExplicit(cols: int, rows: int, rest: string, imageWidth: nat, imageHeight: nat)
    requires rest == [] || rest[0] == ','
    ensures ParseGridSize(Show(cols) + "," + Show(rows) + rest, imageWidth, imageHeight) ==
      Success(Dims(cols, rows))
  {
    ShowLacks(cols, ',');
    ShowLacks(rows, ',');
    SplitTwo(Show(cols), Show(rows), rest, ',');
    var dims := Split(Show(cols) + "," + Show(rows) + rest, ",");
    assert dims[0] == dims[..2][0] && dims[1] == dims[..2][1];
    ParseShow(cols);
    ParseShow(rows);
  }

  /** The explicit form does not depend on the image size. */
  lemma GridSizeIgnoresImage(spec: string, w1: nat, h1: nat, w2: nat, h2: nat)
    requires Contains(spec, ",")
    ensures ParseGridSize(spec, w1, h1) == ParseGridSize(spec, w2, h2)
  {
  }

  /** A 256 by 128 image with 32-pixel cells has 8 columns and 4 rows; `4,2` is 4 by 2. */
  lemma GridSizeExamples()
    ensures ParseGridSize("32", 256, 128) == Success(Dims(8, 4))
    ensures ParseGridSize("4,2", 999, 999) == Success(Dims(4, 2))
  {
    assert Show(32) == "32";
    GridSizeFromPixels(32, 256, 128);
    assert Show(4) + "," + Show(2) + "" == "4,2";
    GridSizeExplicit(4, 2, "", 999, 999);
  }
}
