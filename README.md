# Spritesheet slicer — a Dafny model

`slicer.py` cuts a sprite image into a grid of cells and builds a new sheet
from some of them. A query string chooses the cells. Its tokens are separated
by `:`. Each token joins two coordinates with one of four operators:
- `#` selects a box;
- `%` selects a reversed box;
- `->` selects a linear range;
- `<-` selects a reversed linear range.

A coordinate is either a bare linear index or a `row,col` pair, and the
column may be `$`, meaning the last column.

This project models:
- the parsing of the grid size (`parse_grid_size`);
- the parsing of a coordinate (`parse_coord`);
- the index/tuple conversions (`grid_int_to_tuple`, `grid_tuple_to_int`);
- the query engine (`parse_grid_indices` with its four selectors);
- the pixel arithmetic of `get_grid_cells` and `construct_output_sheet`.

Every Python exception these raise is an `Error` value of a `Result`:
- `ValueError` from `int()`;
- each `assert`;
- `ZeroDivisionError`.

Modules, one per file:

- `outcomes.dfy` (`Outcomes`): `Option`, `Result` and the error kinds.
- `arith.dfy` (`Arith`): Python's floor `//` and `%`, and `int(a / b)`. Dafny's `/` and `%` are Euclidean, so these are written out for divisors of either sign.
- `text.dfy` (`Text`): the string built-ins the slicer relies on:
  - `in` on strings;
  - `str.split`, leftmost and non-overlapping;
  - `int(s)`;
  - `str(i)`, which the slicer does not call; the lemmas use it to write numerals.
- `coords.dfy` (`Coords`): `grid_int_to_tuple`, `grid_tuple_to_int` and `parse_coord`.
- `sizing.dfy` (`Sizing`): `parse_grid_size`.
- `selection.dfy` (`Selection`): `box_select`, `reverse_box_select`, `linear_select` and `reverse_linear_select`.
- `query.dfy` (`Query`): `parse_grid_indices`. The operator table is kept in its declared order.
- `sheet.dfy` (`Sheet`): the crop boxes of `get_grid_cells` and the canvas and paste positions of `construct_output_sheet`.

The code is modelled in two forms:
- The loops of the source are methods with loop invariants: `BoxSelect`, `TokenSelect`, `ParseGridIndices`, `GridCells` (which fills a preallocated array) and `AssembleSheet`.
- The expression-level code is functions, and each method is proved equal to, or described by, those functions.

The code is lenient in four places:
- A token with none of the four delimiters contributes nothing. It is not an error (`UndelimitedTokenSkipped`).
- A token may have more than two parts. Every part must parse, and the operator uses the first two (`ExtraPartsIgnored`).
- `a<-b` counts down from `b` to `a`. With `a > b`, as in `3<-0`, it is accepted and selects nothing (`ReverseLinearBackwardsEmpty`).
- The `$` wildcard is understood only in the column position. `$,c` is an invalid literal (`WildcardRowRejected`).

## Model

| member | source | states |
|---|---|---|
| Arith.FloorDiv | slicer.py:47 | Python's `//`: for a positive divisor the quotient q satisfies `b*q <= a < b*q + b`; a negative divisor mirrors this |
| Arith.FloorMod | slicer.py:46 | Python's `%`: `a == b*(a//b) + m`, with m in `[0, b)` for a positive divisor and in `(b, 0]` for a negative one |
| Arith.TruncDiv | slicer.py:59 | `int(a / b)`: the magnitude is the quotient of the magnitudes and the sign follows the operands; it equals the floor quotient for non-negative a and positive b |
| Arith.DivBetween | slicer.py:46-47 | with a positive divisor, `x // w == c` exactly when x lies in `[w*c, w*c + w)` |
| Arith.DivBelow | slicer.py:46-47 | with a positive divisor, `i // n < k` exactly when `i < n*k` |
| Text.Contains | slicer.py:113 | `d in s` (also the branch tests at lines 57 and 66) holds exactly when `d` occurs at some index of `s`, and then it occurs at the leftmost index Find reports; Text.ContainsOccurs states the same for a given index |
| Text.Split | slicer.py:106 | `str.split` always gives at least one part, and exactly one when the separator does not occur |
| Text.SplitRejoins | slicer.py:106 | joining the parts of a split with the separator gives the original string back |
| Text.SplitPartsFree | slicer.py:115 | no part of a split contains the separator |
| Text.IntOf | slicer.py:58 | `int(s)` fails with a ValueError exactly when s is not an optionally signed numeral, and otherwise gives its value |
| Text.ParseShow | slicer.py:58 | `int()` reads every numeral written by Text.Show back as the integer it was written from |
| Coords.TupleToInt | slicer.py:79-80 | `grid_tuple_to_int`: the index of a tuple whose column is in `[0, n)` lies in its row's block `[row*n, row*n + n)` |
| Coords.IntToTuple | slicer.py:76-77 | `grid_int_to_tuple`: for positive `num_cols` the column lies in `[0, num_cols)` and the tuple is `(i % num_cols, i // num_cols)`; for negative `num_cols` the column lies in `(num_cols, 0]` |
| Coords.IntTupleRoundTrip | slicer.py:76-80 | `grid_tuple_to_int(grid_int_to_tuple(i, n), n) == i` for every i and every non-zero n |
| Coords.TupleIntRoundTrip | slicer.py:76-80 | a tuple whose column is in `[0, n)` survives the trip through its index |
| Coords.TupleToIntInjective | slicer.py:79-80 | two in-grid tuples with the same index are the same tuple |
| Coords.ParseCoord | slicer.py:65-74 | the result is a tuple exactly when one was asked for; a comma coordinate's column is below `num_cols`; a bare index as a tuple is in the grid; a non-numeral bare coordinate is a ValueError; in `row,col` a column that is neither `$` nor a numeral is a ValueError on the column, and otherwise a non-numeral row is a ValueError on the row |
| Coords.ResolvePair | slicer.py:66-71 | in the `row,col` branch the errors come in source order: a column that is neither `$` nor a numeral, then a non-numeral row, then a column not below `num_cols` (the assertion); `$` is column `num_cols - 1` and then succeeds exactly when the row is a numeral; on success the value is the tuple `(col, row)` or the index `row*num_cols + col` |
| Coords.ResolveBare | slicer.py:72-74 | in the bare branch, a non-numeral is a ValueError; a numeral is the index itself, or as a tuple `grid_int_to_tuple` of it, and a tuple with zero columns divides by zero |
| Coords.ParseCoordPair | slicer.py:66-67 | only the first two comma parts of a coordinate are read |
| Coords.CoordModesAgree | slicer.py:65-80 | for any text, the index form of `parse_coord` is the tuple form passed through `grid_tuple_to_int`, and they fail alike |
| Coords.ResolveShown | slicer.py:68-71 | two numerals with a column below `num_cols` resolve to the tuple `(col, row)` or the index `row*num_cols + col` |
| Coords.ParsePair | slicer.py:66-71 | `row,col` with an in-range column gives the tuple `(col, row)` or the index `row*num_cols + col`; parts after a second comma are ignored |
| Coords.ParsePairOutOfRange | slicer.py:70 | `row,col` with `col >= num_cols` fails the column assertion |
| Coords.ParseWildcard | slicer.py:68 | `row,$` is column `num_cols - 1` of that row |
| Coords.WildcardRowRejected | slicer.py:68-69 | `$` in the row position is an invalid literal |
| Coords.ParseBare | slicer.py:72-74 | a bare numeral is the index itself, or the tuple `(i % n, i // n)`; with zero columns the tuple form divides by zero |
| Sizing.ParseGridSize | slicer.py:56-62 | without a comma, the size succeeds exactly when the text is a non-zero numeral (a non-numeral is a ValueError, zero divides by zero), and a positive cell size divides the image size; with a comma, it succeeds exactly when the first two parts are numerals, fails on the first part that is not, and is those two numbers |
| Sizing.GridSizeFromPixels | slicer.py:57-59 | a positive pixel size gives the floor quotients; the grid covers the image except for a strip narrower than one cell |
| Sizing.GridSizeZeroPixels | slicer.py:58-59 | a cell size of zero divides by zero |
| Sizing.GridSizeExplicit | slicer.py:60-62 | `cols,rows` is taken as it is, and parts after a second comma are ignored |
| Sizing.GridSizeIgnoresImage | slicer.py:60-62 | the comma form does not depend on the image size |
| Sizing.GridSizeExamples | slicer.py:56-62 | `32` on a 256 by 128 image gives 8 by 4; `4,2` gives 4 by 2 |
| Selection.RowIndicesAt | slicer.py:88-89 | element k of one row of a box is column `x0 + k` of that row |
| Selection.BoxIndicesAt | slicer.py:87-89 | element k of a box of width w is at row `y0 + k / w` and column `x0 + k % w` |
| Selection.BoxSelection | slicer.py:83-90 | fails exactly when the columns or rows do not strictly grow, with the column check first; otherwise it lists `w*h` cells, row-major, each at its row and column |
| Selection.BoxSelect | slicer.py:83-90 | the nested appending loops compute exactly BoxSelection |
| Selection.BoxSelectionCovers | slicer.py:87-89 | every cell of the closed rectangle appears in the box, at its row-major offset |
| Selection.Reverse | slicer.py:92 | `s[::-1]` keeps the length and puts the k-th element from the end at position k |
| Selection.ReversedBoxAt | slicer.py:91-92 | element k of the reversed box is at row `end.row - k / w` and column `end.col - k % w` |
| Selection.ReverseBoxSelection | slicer.py:91-92 | fails exactly when the box fails, with the same error; otherwise it is the box read from its far corner, bottom to top and right to left |
| Selection.Span | slicer.py:93-96 | `linear_select` is the inclusive range: `hi - lo + 1` elements, exactly the integers between the bounds, strictly increasing, and empty when start > end |
| Selection.LinearSelection | slicer.py:93-96 | `linear_select`: every index from the start's to the end's in ascending order, element k being `lo + k`, and empty when the start's index is past the end's |
| Selection.ReverseLinearSelection | slicer.py:97-98 | the range counted down from the end's index: element k is `hi - k`, and it holds the same integers as the range |
| Query.FirstOperationFrom | slicer.py:107-114 | a token uses the first of `%`, `#`, `->`, `<-` that occurs in it, and none of the entries before that one occurs |
| Query.ParseCoords | slicer.py:115 | every part is parsed as a tuple, left to right; on success there is one position per part, each the tuple its part parses to |
| Query.ParseCoordsFailure | slicer.py:115 | a failure is the error of the first part that does not parse, every part before it having parsed |
| Query.TokenIndices | slicer.py:112-117 | what one token contributes, the selected operator being run by Query.Apply: nothing, and no error, when none of the delimiters occurs in it; with a delimiter, the operator applied to the first two parsed parts (Query.OperatorToken), or the error of the first unparsable part (Query.OperatorTokenFails) |
| Query.TokenSelect | slicer.py:112-117 | the scan of the operator table, which skips absent delimiters and stops at the first present one, computes TokenIndices |
| Query.QueryIndices | slicer.py:105-118 | the query's result is its `:`-separated tokens' own results chained in order: the first failure, or all their indices concatenated |
| Query.TokensOutcome | slicer.py:111-117 | a run of tokens succeeds exactly when every token does, and otherwise fails with the error of the first failing token, every token before it having succeeded |
| Query.ParseGridIndices | slicer.py:105-118 | the token loop computes QueryIndices: the tokens' indices in order, or the first failing token's error |
| Query.TokensAppend | slicer.py:111-116 | evaluating tokens in two runs gives the two runs' results in sequence |
| Query.FailureStops | slicer.py:111-116 | once some token fails, the whole query fails with that error |
| Query.QueryConcat | slicer.py:106-118 | the indices of `q1:q2` are those of q1 followed by those of q2 |
| Query.SingleToken | slicer.py:106 | a query without `:` is its single token |
| Query.EmptyQuery | slicer.py:105-118 | the empty query selects nothing and does not fail |
| Query.UndelimitedTokenSkipped | slicer.py:112-114 | a token in which none of the four delimiters occurs (such as `1>2`) contributes nothing and does not fail |
| Query.OperatorToken | slicer.py:112-116 | a token `x d rest` whose first present table delimiter is entry k's `d`, with `d` first occurring right after `x`, splits into `x` and the parts of `rest` and applies k's operator to its first two parsed parts |
| Query.OperatorTokenFails | slicer.py:112-115 | the same token with a part that does not parse fails with the error of its first unparsable part, before any operator runs |
| Query.LinearToken | slicer.py:93-96 | the token `a->b` gives the linear selection of the tuples of a and b |
| Query.LinearQuery | slicer.py:93-96 | the query `a->b` selects the inclusive range `a..b` |
| Query.ReverseLinearToken | slicer.py:97-98 | the token `a<-b` gives the reversed linear selection |
| Query.ReverseLinearQuery | slicer.py:97-98 | the query `a<-b` selects `b` down to `a` |
| Query.ReverseLinearBackwardsEmpty | slicer.py:97-98 | with `a > b`, the query `a<-b` is accepted and selects nothing |
| Query.ThreePartCoords | slicer.py:115 | all three parts of `a->b->c` are parsed, as the tuples of the three indices |
| Query.ThreePartToken | slicer.py:115-116 | the token `a->b->c` parses all three parts and applies the linear selection to the first two |
| Query.ExtraPartsIgnored | slicer.py:115-116 | the query `a->b->c` selects `a..b` |
| Query.BoxToken | slicer.py:83-90 | the token `r0,c0#r1,c1` gives the box selection between `(c0, r0)` and `(c1, r1)` |
| Query.BoxQuery | slicer.py:83-90 | the query `r0,c0#r1,c1` is that box selection, its failures included |
| Query.BoxCornerOutOfRange | slicer.py:65-70 | the token `r0,c0#r1,c1` with `c0 >= num_cols` fails with that column's out-of-range error |
| Query.ReverseBoxToken | slicer.py:91-92 | the token `r0,c0%r1,c1` gives the reversed box selection |
| Query.ReverseBoxQuery | slicer.py:91-92 | the query `r0,c0%r1,c1` is that reversed box selection, its failures included |
| Sheet.GridBox | slicer.py:45-52 | the crop box of cell i is `image_width // num_cols` wide and `image_height // num_rows` high |
| Sheet.GridCells | slicer.py:41-54 | fails with a division by zero exactly when a count is zero; otherwise it gives one box per slot of `range(num_cols * num_rows)` (Sheet.CellCount slots), box i being cell `(i % cols, i // cols)` of size `(W // cols, H // rows)` |
| Sheet.CellInImage | slicer.py:43-51 | with positive counts, every crop box lies inside the image |
| Sheet.CellBoxCovers | slicer.py:48-51 | a pixel lies in a cell's box exactly when the cells are non-empty and the pixel's floor-divided position is that cell |
| Sheet.PixelInOneCell | slicer.py:45-51 | cells of positive size tile `cols*w` by `rows*h`: each pixel lies in exactly one cell, cell `(y // h)*cols + x // w` |
| Sheet.EachPixelInOneCell | slicer.py:43-51 | every pixel of the area the grid covers lies in the crop box of exactly one cell |
| Sheet.PastePoint | slicer.py:29 | with a positive column count and non-negative index and cell size, the paste position of image i has a non-negative row offset and a column offset whose cell `[x, x + w)` fits inside the canvas width `cols * w` |
| Sheet.AssembleSheet | slicer.py:22-29 | empty input fails its assertion; a zero `rows_out`, or fewer images than rows, divides by zero; otherwise the canvas is `cols*w` by `rows_out*h`, and image i is pasted at `((i % cols)*w, (i // cols)*h)` |
| Sheet.PasteInCanvas | slicer.py:24-29 | an image's paste region lies inside the canvas exactly when `i < cols * rows_out` |
| Sheet.PastesDisjoint | slicer.py:28-29 | different images are pasted onto regions that share no pixel |
| Sheet.ReassemblyRestoresLayout | slicer.py:126-128 | all cells in index order, assembled with the grid's row count, go back to their crop positions, and `cols` is the grid's column count |

## Left out

- Command-line parsing is not modelled. `rows_out` is a parameter of `AssembleSheet`, and the input path, grid size and query are parameters of the functions that use them.
- Image loading, cropping, pasting and saving are not modelled, and neither are pixel contents. The model keeps only sizes, crop boxes and paste positions.
- `Image.new` rejects a negative size. That failure is not modelled: `AssembleSheet` returns a negative `rows_out` as a canvas of negative size.
- `assert image` in `get_grid_cells` is always true for a loaded image, so it has no model.
- `print` of the selected indices in the main block is not modelled.
- The list lookup `image_grid_arr[i]` in the main block is not modelled. That includes Python's negative indexing and the IndexError it raises.
- Arith.TruncDiv: `int(image_width / pixels)` goes through a float. The model divides exactly, which agrees with the float for sizes below 2^52.
- Text.IntOf: Python's `int()` also accepts surrounding whitespace, a leading `+`, underscores between digits and non-ASCII digits. The model accepts only an optional `-` followed by ASCII digits.
- Text.IntOf and Text.ParseShow: Python limits `int()` and `str()` on integers to 4300 decimal digits by default and raises a ValueError beyond that. The model has no digit limit, so IntOf's "exactly when" and ParseShow's round trip hold for Python only for numerals of at most 4300 digits.
- Query.LinearQuery, Query.BoxQuery and the other query lemmas are stated for numerals built by `Show`. The worked examples of the query language are instances of these general statements. They are not restated with literal strings.
