# Seam carver model

A Dafny model of the `SeamCarver` class (`seam/src/SeamCarver.java`), a
content-aware image resizer.  The carver holds a picture as a column-major
grid of RGB colours, gives every pixel an energy (1000 on the border, the
square root of the dual-gradient sum inside), finds a vertical or horizontal
seam of least total energy with a layered shortest-path dynamic program, and
removes a seam by building a grid one column or one row smaller.

Modules, one per part of the class:

- `Errors` (`errors.dfy`): the rejection reasons (the Java throws
  `IllegalArgumentException` for each), `Option` for a null picture, `Result`
  and `Outcome`.
- `Pixels` (`pixels.dfy`): `Pixel` (three channels 0..255), the decoded
  `Picture`, the carver state `Carver(colorMatrix, width, height)` with its
  invariant `Valid()` (at least one column and one row, rectangular), the
  constructor `New`, `ToPicture`, the two index validators, and the helpers
  `Row`, `Delete` and `Transposed`.
- `EnergyModel` (`energy_model.dfy`): `ColorDistanceSq`, `XGradient`,
  `YGradient`, `GradientSq`, `OnBorder` and `Energy`.  The square root is the
  parameter `sqrt: nat -> real`; everything below it is exact integers.
- `SeamFinder` (`seam_finder.dfy`): the dynamic program over an oriented
  energy matrix `m[x][y]`, with +infinity as `Cost.Infinite`.  `MinCost` is
  the reference definition of the least cumulative cost of a cell.
  `PathCostAtLeastMinCost` and `MinCostAttained` show that it is the minimum
  over all 8-connected paths from row 0.  `Relax` shows that the relaxation
  computes exactly it.  `FindSeam` returns a seam that no other seam
  undercuts.
- `SeamCarver` (`seam_carver.dfy`): `ToEnergyMatrix`, `FindVerticalSeam`,
  `FindHorizontalSeam`, `RemoveVerticalSeam`, `RemoveHorizontalSeam`, and the
  symmetry lemmas.  These show that the horizontal operations are the
  vertical ones on the transposed grid.

The cost of a seam is the constant 195075 plus the energies of its cells in
rows 1 and below.  Row 0's own energy is never added, as in the code.  The
constant is added once to every seam, so it does not change which seam is
least.  It is kept exactly as written.  Row 0 is border, so each of its cells
has energy 1000.  Leaving it out therefore also does not change which seam
is least.  `LeastCostIsLeastEnergy` proves this, so both finders also promise
the least sum of all pixel energies.

The carver is an immutable value.  A removal returns `Ok` with the new grid,
or `Err(InvalidSeam)`.  On `Err` the caller still holds the unchanged old
grid, which is the code's "throw before replacing the grid".

Ties: the code picks the last-row minimum through `IndexMinPQ`.  It relaxes
with a strict `>`, so the first predecessor found is kept.  The model promises
only "a least one" in both places.  For a 3-wide, 4-tall picture of one
colour, `[1,1,1,1]` is one least seam, but it is not the one the code
returns.  All three cells of the last row tie at 196075, and `IndexMinPQ`
then reports column 0.  Back-tracking from column 0 gives `[0,1,1,0]`, which
costs the same.  The model follows the code and claims only optimality.

## Model

| member | source | states |
|---|---|---|
| Pixels.New | seam/src/SeamCarver.java:11-20 | a null picture is rejected; otherwise the carver is valid, has the picture's width and height, and `colorMatrix[x][y]` is the picture's pixel (x, y) |
| Pixels.ToPicture | seam/src/SeamCarver.java:23-30 | the current picture is valid, has the carver's dimensions, and its pixel (x, y) is `colorMatrix[x][y]` |
| Pixels.CarverPictureRoundTrip | seam/src/SeamCarver.java:11-30 | building a carver from the current picture gives back the same carver |
| Pixels.PictureCarverRoundTrip | seam/src/SeamCarver.java:11-30 | the picture of a carver built from a picture is that picture |
| Pixels.ValidateColumnIndex | seam/src/SeamCarver.java:192-195 | passes exactly when 0 <= col < width, otherwise fails naming the column |
| Pixels.ValidateRowIndex | seam/src/SeamCarver.java:187-190 | passes exactly when 0 <= row < height, otherwise fails naming the row |
| Pixels.Delete | seam/src/SeamCarver.java:143-144 | the two copies around index i give a sequence one shorter, equal to the old one before i and shifted by one from i on, whose multiset plus the removed element is the old multiset |
| EnergyModel.ColorDistanceSq | seam/src/SeamCarver.java:65-68 | the per-channel squared difference sum is at most 3*255*255 and is zero exactly when the two colours are equal |
| EnergyModel.ColorDistanceSqSymmetric | seam/src/SeamCarver.java:65-68 | the squared difference sum does not depend on the order of the two colours |
| EnergyModel.XGradient | seam/src/SeamCarver.java:62-70 | the row gradient is at most 195075 and is zero exactly when the left and right neighbours have the same colour |
| EnergyModel.YGradient | seam/src/SeamCarver.java:72-80 | the column gradient is at most 195075 and is zero exactly when the upper and lower neighbours have the same colour |
| EnergyModel.GradientSq | seam/src/SeamCarver.java:49-51 | the dual-gradient sum of an interior pixel is at most 2*195075 and is zero exactly when both pairs of opposite neighbours have equal colours |
| EnergyModel.Energy | seam/src/SeamCarver.java:43-60 | a bad column fails first with that column, then a bad row with that row; in range it succeeds, pixels on the border (`OnBorder`: first or last column, first or last row) get exactly 1000, and all others are interior and get the square root of their dual-gradient sum |
| EnergyModel.EnergyNonNegative | seam/src/SeamCarver.java:43-54 | with a non-negative square root every energy is non-negative |
| EnergyModel.UniformInteriorEnergy | seam/src/SeamCarver.java:49-51 | in a single-colour picture every interior pixel has energy sqrt(0) |
| EnergyModel.EnergyOfTransposed | seam/src/SeamCarver.java:56-80 | pixel (y, x) of the transposed grid has the energy of pixel (x, y) |
| SeamFinder.Plus | seam/src/SeamCarver.java:117-118 | adding an energy keeps a cost finite exactly when it was finite, and adds the value |
| SeamFinder.XyTo1D | seam/src/SeamCarver.java:183-185 | the 1-D index y*W+x is non-negative and decodes back: `% W` gives x and `/ W` gives y |
| SeamFinder.BestPredecessorIsMin | seam/src/SeamCarver.java:115-119 | the best predecessor cost is attained by an in-range adjacent column and undercut by none |
| SeamFinder.PathCostAtLeastMinCost | seam/src/SeamCarver.java:102-120 | no 8-connected path from row 0 to a cell costs less than the cell's least cumulative cost |
| SeamFinder.MinCostAttained | seam/src/SeamCarver.java:102-120 | some 8-connected path from row 0 to (x, y) costs exactly the cell's least cumulative cost |
| SeamFinder.RelaxRow | seam/src/SeamCarver.java:113-120 | after relaxing row y into row y+1, every cell of row y+1 is finite, its recorded 1-D predecessor decodes to an adjacent column of row y, and its cost is that predecessor's plus its own energy and no adjacent cell of row y offers less |
| SeamFinder.RelaxedIsMinCost | seam/src/SeamCarver.java:113-120 | a relaxed cell over a row of least costs holds its own least cost, and its predecessor attains it |
| SeamFinder.Relax | seam/src/SeamCarver.java:100-120 | afterwards every cell is finite and holds its least cumulative cost (195075 in row 0), and every cell below row 0 records an adjacent predecessor of the previous row that attains it |
| SeamFinder.MinIndex | seam/src/SeamCarver.java:122-125 | returns an in-range index whose cost is at most every cost in the row |
| SeamFinder.TightPathCost | seam/src/SeamCarver.java:127-129 | a path each of whose steps attains the least cost of the cell it enters costs the least cost of its last cell |
| SeamFinder.Backtrack | seam/src/SeamCarver.java:127-130 | following predecessors (decoded with `% W`) up from the chosen last-row column yields a seam of length H, in range, 8-connected, ending at that column, whose cost is that column's least cumulative cost |
| SeamFinder.PathCostIsEnergy | seam/src/SeamCarver.java:102-120 | the cost of a path is 195075, minus the energy of its row-0 cell, plus the energies of all its cells |
| SeamFinder.LeastCostIsLeastEnergy | seam/src/SeamCarver.java:102-132 | when all of row 0 has one energy, a seam of least cost is also a seam of least total energy |
| SeamFinder.FindSeam | seam/src/SeamCarver.java:96-132 | the result is a seam (length H, entries in [0, W), consecutive entries at most 1 apart) that ends at a least cell of the last row and costs no more than any other seam |
| SeamCarver.ToEnergyMatrix | seam/src/SeamCarver.java:172-181 | the matrix is W x H, or H x W when transposed, and holds the energy of pixel (x, y), or of (y, x) when transposed |
| SeamCarver.TransposedEnergyMatrix | seam/src/SeamCarver.java:83-94 | the horizontal energy matrix equals the vertical energy matrix of the transposed grid |
| SeamCarver.TopRowIsBorder | seam/src/SeamCarver.java:43-60 | row 0 of either energy matrix is border, so every cell of it has energy 1000 |
| SeamCarver.FindVerticalSeam | seam/src/SeamCarver.java:89-94 | length height, entries in [0, width), consecutive entries at most 1 apart; no vertical seam has a smaller cost (195075 plus the energies below row 0), and none has a smaller sum of all its pixels' energies |
| SeamCarver.FindHorizontalSeam | seam/src/SeamCarver.java:82-87 | length width, entries in [0, height), consecutive entries at most 1 apart; no horizontal seam has a smaller cost (195075 plus the energies below row 0), and none has a smaller sum of all its pixels' energies |
| SeamCarver.RemoveVerticalSeam | seam/src/SeamCarver.java:151-170 | rejected exactly when the seam length is not the height or the width is 1; otherwise width drops by one, height stays, and each row is the old row with column seam[y] deleted |
| SeamCarver.RemoveHorizontalSeam | seam/src/SeamCarver.java:134-149 | rejected exactly when the seam length is not the width or the height is 1; otherwise height drops by one, width stays, and each column x is the old column with row seam[x] deleted: the pixels above it stay and those below move up by one |
| SeamCarver.HorizontalRemovalIsTransposedVertical | seam/src/SeamCarver.java:134-170 | removing a horizontal seam fails exactly when removing it as a vertical seam from the transposed grid fails, with the same error; on success it is that removal transposed back |
| SeamCarver.VerticalRemovalIsTransposedHorizontal | seam/src/SeamCarver.java:134-170 | removing a vertical seam fails exactly when removing it as a horizontal seam from the transposed grid fails, with the same error; on success it is that removal transposed back |
| SeamCarver.FoundVerticalSeamIsRemovable | seam/src/SeamCarver.java:152-170 | a seam of the vertical energy matrix has every entry in [0, width), and removing it succeeds exactly when the width is above 1 |
| SeamCarver.FoundHorizontalSeamIsRemovable | seam/src/SeamCarver.java:135-149 | a seam of the horizontal energy matrix has every entry in [0, height), and removing it succeeds exactly when the height is above 1 |
| SeamCarver.VerticalRemovalKeepsPixels | seam/src/SeamCarver.java:157-165 | each new row together with the one removed pixel is, as a multiset, the old row |

## Left out

- `Math.sqrt` is the parameter `sqrt`.  Double arithmetic and its rounding
  are not modelled: energies and cumulative costs are exact reals.  The
  integer gradient cannot overflow a Java `int`, since it is at most 390150.
- The `java.awt.Color`/`getRGB` packing and the algs4 `Picture` class are not
  modelled.  A picture is a rectangular grid of RGB triples, and its validity
  (positive width and height) is a precondition of `New`, as the `Picture`
  class guarantees it.
- `IndexMinPQ` is not part of this model.  It is replaced by a linear scan.
- SeamFinder.MinIndex: states only that the index is a least one, not which
  one `IndexMinPQ` reports on ties.
- SeamFinder.RelaxRow: states only that the recorded predecessor attains the
  minimum, not that the strict `>` keeps the first one found on ties.
- SeamCarver.FindVerticalSeam: does not fix which least seam is returned on
  ties, for the two reasons above.
- SeamCarver.FindHorizontalSeam: does not fix which least seam is returned on
  ties, for the same reasons.
- A `null` seam makes the code throw a `NullPointerException` at
  `seam.length` (lines 136 and 153).  A seam here is a sequence and cannot
  be null, so that failure is not modelled.
- SeamCarver.RemoveVerticalSeam: seam entries outside [0, width) are a
  precondition.  The code fails on them with an index exception before
  replacing the grid.
- SeamCarver.RemoveHorizontalSeam: seam entries outside [0, height) are a
  precondition, for the same reason.
- `toEnergyMatrix` receives the matrix dimensions as two arguments, and
  both callers pass the grid's own dimensions.  `SeamCarver.ToEnergyMatrix`
  takes them from the grid instead.
- The cost and predecessor grids are stored row by row (`energyTo[y][x]`),
  not column by column as in the code.  The values are the same.
- The `width()` and `height()` accessors are the `Carver` fields.
- The `main` test client does console I/O and is not modelled.
- The WordNet, SAP and Outcast classes are not part of this model.  They are
  a separate program over file-loaded graphs and unseen library code.
