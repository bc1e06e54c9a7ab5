# Thrombus component analysis — a Dafny model

This project models the per-component descriptor pipeline of the thrombus
analysis tool (`quocmesh/projects/thrombAnalysis/thrombAnalysis.cpp`). It also
models the small command-line token parser in the same file.

The analysis starts from a label map: 0 is background and 1..N are the
connected components of the thresholded image. It works in five steps.

1. One row-major scan records, for every component, its bounding box. It also
   counts the component's core pixels (intensity equal to the image maximum)
   and its tail pixels (all others).
2. `run` marks and counts the boundary pixels. These are labelled pixels that
   have a differently labelled pixel in their 8-neighbourhood, clipped to the
   grid.
3. It colours every component with a random colour.
4. It crops every component to its bounding box as a bright and a dark local
   mask, and draws the top and bottom rows of each box in the component's
   colour.
5. It writes the `stat.csv` table.

Modules:

- `Labels` (`labels.dfy`) holds the label map as an `array2<int>` indexed
  `[x, y]`. It defines the row-major scan's boxes and pixel counts as folds
  (`GridBox`, `GridCount`) and the 8-neighbourhood `OnBoundary` predicate. It
  proves what the finished scan computes:
  - the box is tight, or stays at the sentinel exactly when the label is
    absent;
  - core and tail pixels partition a component;
  - the boundary count is bounded by the area.
- `Rendering` (`rendering.dfy`) covers the colour table, the box-edge drawing
  and `EdgeOwner`. `EdgeOwner` gives, for every pixel, the last box whose edge
  covers it, which is what the drawing order leaves in the image.
- `Statistics` (`statistics.dfy`) covers the lines of the statistics table. It
  provides a row parser that inverts the row formatting, and the header's
  column names.
- `CommandLine` (`command_line.dfy`) covers `CommandLineArgumentParser`. The
  class keeps its token vector as a `seq<string>` field.
- `Thromb` (`thromb_analysis.dfy`) holds the class `ThrombAnalysis`:
  - Its constructor runs the descriptor scan in place. `Valid()` ties the
    stored descriptors to the `Labels` folds.
  - `Run` and its passes produce four results: the boundary mask, the coloured
    label map, the bounding-box image and the statistics lines.

Decisions about inputs and side effects:

- The label map is an input.
- The floating-point test "intensity equals the maximum" is an input grid
  `isMax`.
- The random colour draws are the `draws` parameter.
- The number of bright and dark sub-components of each component is a
  parameter of `Run`. In the program it comes from cleaning and labelling the
  local masks.
- Nothing is written to files. The results are returned.

The bounding-box image starts from a cleared buffer. `run` calls `setZero` on
the colour buffer before the boxes are drawn (thrombAnalysis.cpp:140). The
saved `componentsBBCol.png` therefore shows only box edges on black, not the
component colouring with the boxes on top. The model follows the code.

The boundary test looks only at the neighbours that lie inside the grid
(thrombAnalysis.cpp:104-105). A pixel on the image border is not counted just
because it touches the border. For a 5x5 image whose only component fills the
3x3 corner block at (0, 0), the code counts 5 boundary pixels, not 8. These are
the pixels of the block's inner row and column. The pixels (0, 0), (1, 0),
(0, 1) and (1, 1) see only their own label and are not counted. The model
follows the code (`Labels.CornerBlockBoundary`).

## Model

| member | source | states |
|---|---|---|
| Labels.BoundingBoxContains | quocmesh/projects/thrombAnalysis/thrombAnalysis.cpp:63-77 | every pixel carrying label l lies inside the box the scan records for l |
| Labels.BoundingBoxAttained | quocmesh/projects/thrombAnalysis/thrombAnalysis.cpp:63-77 | for a label that occurs, each of minX, maxX, minY, maxY is the coordinate of one of its pixels, so no smaller box contains them |
| Labels.BoundingBoxSentinel | quocmesh/projects/thrombAnalysis/thrombAnalysis.cpp:63-77 | the recorded box is the sentinel (numX, -1, numY, -1) if and only if the label does not occur |
| Labels.BoundingBoxInGrid | quocmesh/projects/thrombAnalysis/thrombAnalysis.cpp:146-148 | the box of an occurring label is non-empty and inside the grid, so the crop has positive extents and reads only grid pixels |
| Labels.AreasCoverForeground | quocmesh/projects/thrombAnalysis/thrombAnalysis.cpp:70-84 | when every pixel holds a label in 0..N, the areas of the labels 1..N add up to the number of non-zero pixels, so the components cover the foreground exactly once |
| Thromb.ThrombAnalysis.AreaColumnSumIsAreaSum | quocmesh/projects/thrombAnalysis/thrombAnalysis.cpp:70-84 | over the first k components, the stored core and tail counters add up to the summed areas of the labels 1..k |
| Thromb.ThrombAnalysis.AreaColumnsCoverForeground | quocmesh/projects/thrombAnalysis/thrombAnalysis.cpp:70-84 | the corePixels and tailPixels columns, summed over all components, equal the number of foreground pixels of the label map |
| Labels.CornerBlockBoundary | quocmesh/projects/thrombAnalysis/thrombAnalysis.cpp:103-113 | in a 5x5 map whose one component fills the 3x3 corner block, exactly the five pixels with x == 2 or y == 2 inside the block are boundary pixels, because neighbours outside the grid are not looked at |
| Labels.GridBoxTight | quocmesh/projects/thrombAnalysis/thrombAnalysis.cpp:70-77 | after any number of completed rows the box contains every pixel of the label seen so far and each of its bounds is attained by one of them, or it is still the sentinel |
| Labels.RowBoxTight | quocmesh/projects/thrombAnalysis/thrombAnalysis.cpp:71-77 | the inner column loop keeps the box tight for the pixels visited so far in row-major order |
| Labels.ScanStepTight | quocmesh/projects/thrombAnalysis/thrombAnalysis.cpp:72-77 | growing the box by one pixel of its label (and leaving it alone otherwise) keeps it tight |
| Labels.BoxBeforeStep | quocmesh/projects/thrombAnalysis/thrombAnalysis.cpp:72-77 | scan-step helper tying the loop to the box fold: visiting a pixel grows only the box of that pixel's own label |
| Labels.CoreTailStep | quocmesh/projects/thrombAnalysis/thrombAnalysis.cpp:78-81 | scan-step helper tying the loop to the count folds: a pixel adds one to its label's core count when at the maximum, otherwise one to its tail count |
| Labels.BoundaryStep | quocmesh/projects/thrombAnalysis/thrombAnalysis.cpp:115-117 | scan-step helper tying the boundary loop to the count fold: a pixel adds one to its label's boundary count exactly when it is on the boundary |
| Labels.CoreTailPartition | quocmesh/projects/thrombAnalysis/thrombAnalysis.cpp:78-81 | core and tail pixels of a label together are all its pixels |
| Labels.BoundaryCountBound | quocmesh/projects/thrombAnalysis/thrombAnalysis.cpp:99-118 | a label never has more boundary pixels than core plus tail pixels |
| Labels.IsolatedPixelOnBoundary | quocmesh/projects/thrombAnalysis/thrombAnalysis.cpp:103-113 | a pixel with no same-labelled neighbour is on the boundary whenever the grid has more than one pixel |
| Labels.InteriorPixelNotOnBoundary | quocmesh/projects/thrombAnalysis/thrombAnalysis.cpp:103-113 | a pixel whose whole clipped 8-neighbourhood shares its label is never a boundary pixel |
| Rendering.MakeColorTable | quocmesh/projects/thrombAnalysis/thrombAnalysis.cpp:127-131 | the table has N + 1 entries; entry 0 (background) stays black and entry i is the i-th colour draw |
| Rendering.EdgeOwner | quocmesh/projects/thrombAnalysis/thrombAnalysis.cpp:164-171 | the result is -1 when no box edge covers the pixel, otherwise the index of a box whose edge covers it and no later box's edge does |
| Rendering.OverlayColorCases | quocmesh/projects/thrombAnalysis/thrombAnalysis.cpp:164-171 | a pixel off every box edge is black, and a pixel on box c's edge and on no later box's edge gets colour c + 1 |
| Rendering.OverlayColorStep | quocmesh/projects/thrombAnalysis/thrombAnalysis.cpp:165-171 | drawing one more box recolours exactly the pixels on its top and bottom rows |
| Rendering.DrawBoxEdges | quocmesh/projects/thrombAnalysis/thrombAnalysis.cpp:165-171 | only rows minY and maxY, columns minX..maxX, take the colour; every other pixel keeps its previous colour |
| Statistics.NatToString | quocmesh/projects/thrombAnalysis/thrombAnalysis.cpp:184-185 | a count is written as a non-empty run of decimal digits without a leading zero; zero is written as the single digit "0" |
| Statistics.ParseNatToString | quocmesh/projects/thrombAnalysis/thrombAnalysis.cpp:184-185 | reading the digits written for a count gives the count back |
| Statistics.SplitJoin | quocmesh/projects/thrombAnalysis/thrombAnalysis.cpp:182-185 | cutting a ';'-joined line at the separators gives the fields back when no field contains ';' |
| Statistics.HeaderColumns | quocmesh/projects/thrombAnalysis/thrombAnalysis.cpp:182 | the header line has the five columns corePixels, tailPixels, boundaryPixels, brightComponents, darkComponents in that order |
| Statistics.ParseFormatRow | quocmesh/projects/thrombAnalysis/thrombAnalysis.cpp:184-185 | a component line reads back as exactly its five values in column order |
| Statistics.StatLines | quocmesh/projects/thrombAnalysis/thrombAnalysis.cpp:182-186 | the table is the header followed by exactly N lines, line i + 1 reading back as component i's five values |
| CommandLine.Find | quocmesh/projects/thrombAnalysis/thrombAnalysis.cpp:19 | the result is the position of the first token equal to the option, or the token count when there is none |
| CommandLine.CommandLineArgumentParser.constructor | quocmesh/projects/thrombAnalysis/thrombAnalysis.cpp:12-15 | the stored tokens are argv[1..argc-1] in order |
| CommandLine.CommandLineArgumentParser.GetCmdOption | quocmesh/projects/thrombAnalysis/thrombAnalysis.cpp:17-25 | the token right after the option's first occurrence, or "" when the option is absent or is the last token |
| CommandLine.CommandLineArgumentParser.CmdOptionExists | quocmesh/projects/thrombAnalysis/thrombAnalysis.cpp:27-29 | true if and only if the option is one of the stored tokens |
| Thromb.ThrombAnalysis.constructor | quocmesh/projects/thrombAnalysis/thrombAnalysis.cpp:60-84 | after the scan, every component's box, core count and tail count are those of the whole label map (`Valid`), so the box lemmas above apply |
| Thromb.ThrombAnalysis.ComponentArea | quocmesh/projects/thrombAnalysis/thrombAnalysis.cpp:78-81 | corePixels[c] + tailPixels[c] is the number of pixels labelled c + 1 |
| Thromb.ThrombAnalysis.BoundaryWithinComponent | quocmesh/projects/thrombAnalysis/thrombAnalysis.cpp:99-118 | the boundary count of a component is at most corePixels[c] + tailPixels[c] |
| Thromb.ThrombAnalysis.GetLocalComponentBBStart | quocmesh/projects/thrombAnalysis/thrombAnalysis.cpp:194-196 | a lower bound on the x and y of every pixel of the component, attained by some pixel when it occurs, and (numX, numY) when it does not |
| Thromb.ThrombAnalysis.GetLocalComponentBBStop | quocmesh/projects/thrombAnalysis/thrombAnalysis.cpp:198-200 | an upper bound on the x and y of every pixel of the component, attained by some pixel when it occurs, and (-1, -1) when it does not |
| Thromb.ThrombAnalysis.IsBoundaryPixel | quocmesh/projects/thrombAnalysis/thrombAnalysis.cpp:103-113 | the neighbourhood scan with its early breaks answers exactly the existential "some clipped 8-neighbour has a different label" |
| Thromb.ThrombAnalysis.BoundaryPass | quocmesh/projects/thrombAnalysis/thrombAnalysis.cpp:88-120 | the mask holds exactly the labelled boundary pixels, and boundaryPixels[c] is the number of boundary pixels of component c + 1 |
| Thromb.ThrombAnalysis.BoundaryRow | quocmesh/projects/thrombAnalysis/thrombAnalysis.cpp:96-119 | one row extends the mask and the counts from the rows above it to that row included |
| Thromb.ThrombAnalysis.VisitBoundaryPixel | quocmesh/projects/thrombAnalysis/thrombAnalysis.cpp:97-118 | a background pixel changes nothing; a labelled boundary pixel is counted once for its component and set in the mask |
| Thromb.ThrombAnalysis.GetLocalComponentMask | quocmesh/projects/thrombAnalysis/thrombAnalysis.cpp:202-218 | each local cell is the background value where the global pixel is not the component's, and otherwise is "at maximum" XOR maxValToFalse |
| Thromb.ThrombAnalysis.LocalMasks | quocmesh/projects/thrombAnalysis/thrombAnalysis.cpp:146-162 | the local mask has the box's extents, the crop lies inside the grid, and after the second fill it is the dark mask of the component |
| Thromb.ThrombAnalysis.ColorComponents | quocmesh/projects/thrombAnalysis/thrombAnalysis.cpp:133-136 | every pixel of the colour buffer carries the table colour of its label |
| Thromb.ThrombAnalysis.VisitComponent | quocmesh/projects/thrombAnalysis/thrombAnalysis.cpp:146-171 | one component's step draws its box edges in its colour over the buffer and changes nothing else |
| Thromb.ThrombAnalysis.DrawBoundingBoxes | quocmesh/projects/thrombAnalysis/thrombAnalysis.cpp:140-172 | on a cleared buffer, every pixel ends up with the colour of the last box whose top or bottom row passes through it, or black |
| Thromb.ThrombAnalysis.Run | quocmesh/projects/thrombAnalysis/thrombAnalysis.cpp:87-192 | returns four results: the exact boundary mask; the colouring (background black, component l in the l-th draw); the box image; and stat lines that are exactly the formatted rows (core, tail, boundary count, bright, dark) per component and read back as those values; all three arrays are new |

## Left out

- The connected-components labeller and `cleanMask` are library code (thrombAnalysis.cpp:56, 154-162). The label map is an input. It must have labels in 0..N, and `Run` requires every label 1..N to occur, as the labeller guarantees.
- The thresholding, `getMaxValue`/`getMinValue` and the floating-point `appeqAbsolute` comparison are library code on double arrays. They are replaced by the boolean grid `isMax`.
- The random generator is replaced by the `draws` parameter.
- The bright and dark sub-component counts, which come from labelling the cleaned local masks, are parameters of `Run`.
- All file and directory I/O is left out. This covers the PGM/PNG/TIFF/MetaImage saves, the `components` directory, the per-component mask files behind `saveComponentMasks`, and the `stat.csv` stream with its "unable to open" message. The model returns the images and the table lines instead.
- The "Found N components" message is left out.
- `main` is left out: its usage message, exception handler and platform pause. Only the parser it uses is modelled.
- `PrimalDualMultiPhaseMSSeg.cpp` is not part of this model. It is a driver around a floating-point segmentation library.
- Thromb.ThrombAnalysis.LocalMasks: returns the reused local mask only after its second, dark fill. The bright fill's contents are stated by `GetLocalComponentMask` but are not returned, because the labelling they feed is left out.
- Thromb.ThrombAnalysis.GetLocalComponentMask: the initial `setZero` of the mask is not modelled, because every cell is overwritten by the loop.
- Thromb.ThrombAnalysis.Run: the one colour buffer that the program saves twice (coloured components, then box edges) is returned as two separate arrays.
- Thromb.ThrombAnalysis.ColorComponents: the program walks the buffer by flat index. The model uses nested y/x loops, which visit the pixels in the same order.
- Thromb.ThrombAnalysis.constructor: the descriptors are accumulated in locals and stored when the scan ends, rather than updated field by field during the scan.
- Counters are unbounded naturals. The program's `int` counters cannot overflow for image sizes below 2^31 pixels, and that is not modelled.
