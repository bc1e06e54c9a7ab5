/** The per-component descriptor pipeline of the thrombus analysis.

    The object is built from a label map (0 background, 1..N components, as
    produced by a connected-components labeler) and a grid that marks the
    pixels whose intensity equals the image maximum. Its constructor scans
    every pixel once and records, for each component, its bounding box and
    its core (maximum-intensity) and tail (other) pixel counts. `Run` then
    finds the boundary pixels, colours the label map, crops every component
    to its bounding box, draws the bounding boxes and builds the statistics
    table. */
module Thromb {
  import opened Labels
  import opened Rendering
  import opened Statistics

  /** Sum of the corePixels and tailPixels columns over the first k rows of
      the statistics table. */
  function AreaColumnSum(core: seq<nat>, tail: seq<nat>, k: nat): nat
    requires k <= |core| && k <= |tail|
    decreases k
  {
    if k == 0 then 0 else AreaColumnSum(core, tail, k - 1) + core[k - 1] + tail[k - 1]
  }

  class ThrombAnalysis {
    /** The label map, indexed [x, y]: Length0 is numX, Length1 is numY. */
    const labels: array2<int>
    /** isMax[x, y]: the intensity at (x, y) equals the image maximum. */
    const isMax: array2<bool>
    const numberOfLabels: nat
    /** Per component c (label c + 1): its core and tail pixel counts and its box. */
    var corePixels: seq<nat>
    var tailPixels: seq<nat>
    var boundingBox: seq<Box>

    /** The two grids have the same shape and every label is at most
        numberOfLabels. */
    ghost predicate WellFormed()
      reads this, labels
    {
      SameShape(labels, isMax) && LabelsInRange(labels, numberOfLabels)
    }

    /** The descriptors are those of the completed scan of the label map. */
    ghost predicate Valid()
      reads this, labels, isMax
    {
      && WellFormed()
      && |corePixels| == numberOfLabels
      && |tailPixels| == numberOfLabels
      && |boundingBox| == numberOfLabels
      && (forall c :: 0 <= c < numberOfLabels ==>
            && boundingBox[c] == BoundingBox(labels, c + 1)
            && corePixels[c] == Count(labels, isMax, CorePixel, c + 1)
            && tailPixels[c] == Count(labels, isMax, TailPixel, c + 1))
    }

    /** The core and tail counters of a component add up to its area. */
    lemma ComponentArea(c: int)
      requires Valid() && 0 <= c < numberOfLabels
      ensures corePixels[c] + tailPixels[c] == Count(labels, isMax, AnyPixel, c + 1)
    {
      CoreTailPartition(labels, isMax, c + 1);
    }

    /** A component has at most as many boundary pixels as its core and tail
        counters together. */
    lemma BoundaryWithinComponent(c: int)
      requires Valid() && 0 <= c < numberOfLabels
      ensures Count(labels, isMax, BoundaryPixel, c + 1) <= corePixels[c] + tailPixels[c]
    {
      BoundaryCountBound(labels, isMax, c + 1);
    }

    /** Over the first k components, the core and tail counters add up to
        the summed areas of the labels 1..k. */
    lemma {:induction false} AreaColumnSumIsAreaSum(k: nat)
      requires Valid() && k <= numberOfLabels
      ensures AreaColumnSum(corePixels, tailPixels, k) == GridAreaSum(labels, isMax, labels.Length1, k)
      decreases k
    {
      if k > 0 {
        AreaColumnSumIsAreaSum(k - 1);
        ComponentArea(k - 1);
      }
    }

    /** The corePixels and tailPixels columns, summed over all components,
        give the number of foreground pixels of the label map. */
    lemma AreaColumnsCoverForeground()
      requires Valid()
      ensures AreaColumnSum(corePixels, tailPixels, numberOfLabels) == Foreground(labels)
    {
      AreaColumnSumIsAreaSum(numberOfLabels);
      AreasCoverForeground(labels, isMax, numberOfLabels);
    }

    /** The descriptor scan: every box starts at the sentinel and every
        counter at zero; one row-major pass over the pixels then grows the box
        of each pixel's label and counts the pixel as core or tail. Background
        pixels are skipped. */
    constructor (labelArray: array2<int>, isMaxValue: array2<bool>, n: nat)
      requires SameShape(labelArray, isMaxValue)
      requires LabelsInRange(labelArray, n)
      ensures Valid()
      ensures labels == labelArray && isMax == isMaxValue && numberOfLabels == n
    {
      // The vectors are accumulated in locals and stored once the scan is done.
      var core: seq<nat> := seq(n, _ => 0);
      var tail: seq<nat> := seq(n, _ => 0);
      var boxes := seq(n, _ => Sentinel(labelArray.Length0, labelArray.Length1));
      for j := 0 to labelArray.Length1
        invariant |core| == n && |tail| == n && |boxes| == n
        invariant forall c :: 0 <= c < n ==> boxes[c] == GridBox(labelArray, c + 1, j)
        invariant forall c :: 0 <= c < n ==> core[c] == GridCount(labelArray, isMaxValue, CorePixel, c + 1, j)
        invariant forall c :: 0 <= c < n ==> tail[c] == GridCount(labelArray, isMaxValue, TailPixel, c + 1, j)
      {
        for i := 0 to labelArray.Length0
          invariant |core| == n && |tail| == n && |boxes| == n
          invariant forall c :: 0 <= c < n ==> boxes[c] == BoxBefore(labelArray, c + 1, i, j)
          invariant forall c :: 0 <= c < n ==> core[c] == CountBefore(labelArray, isMaxValue, CorePixel, c + 1, i, j)
          invariant forall c :: 0 <= c < n ==> tail[c] == CountBefore(labelArray, isMaxValue, TailPixel, c + 1, i, j)
        {
          BoxBeforeStep(labelArray, i, j);
          CoreTailStep(labelArray, isMaxValue, i, j);
          if labelArray[i, j] > 0 {
            var labelIndex := labelArray[i, j] - 1;
            boxes := boxes[labelIndex := Extend(boxes[labelIndex], i, j)];
            if isMaxValue[i, j] {
              core := core[labelIndex := core[labelIndex] + 1];
            } else {
              tail := tail[labelIndex := tail[labelIndex] + 1];
            }
          }
        }
        BoxBeforeRowEnd(labelArray, j);
        CountBeforeRowEnd(labelArray, isMaxValue, CorePixel, j);
        CountBeforeRowEnd(labelArray, isMaxValue, TailPixel, j);
      }
      labels := labelArray;
      isMax := isMaxValue;
      numberOfLabels := n;
      corePixels := core;
      tailPixels := tail;
      boundingBox := boxes;
    }

    /** The top-left corner (minX, minY) of component compNum's box. */
    function GetLocalComponentBBStart(compNum: int): (start: (int, int))
      reads this, labels, isMax
      requires Valid() && 0 <= compNum < numberOfLabels
      ensures forall x, y :: InGrid(labels, x, y) && labels[x, y] == compNum + 1 ==> start.0 <= x && start.1 <= y
      ensures Occurs(labels, compNum + 1) ==>
        && (exists x, y :: InGrid(labels, x, y) && labels[x, y] == compNum + 1 && x == start.0)
        && (exists x, y :: InGrid(labels, x, y) && labels[x, y] == compNum + 1 && y == start.1)
      ensures !Occurs(labels, compNum + 1) ==> start == (labels.Length0, labels.Length1)
    {
      BoundingBoxContains(labels, compNum + 1);
      BoundingBoxSentinel(labels, compNum + 1);
      BoundingBoxAttained(labels, compNum + 1);
      (boundingBox[compNum].minX, boundingBox[compNum].minY)
    }

    /** The bottom-right corner (maxX, maxY) of component compNum's box. */
    function GetLocalComponentBBStop(compNum: int): (stop: (int, int))
      reads this, labels, isMax
      requires Valid() && 0 <= compNum < numberOfLabels
      ensures forall x, y :: InGrid(labels, x, y) && labels[x, y] == compNum + 1 ==> x <= stop.0 && y <= stop.1
      ensures Occurs(labels, compNum + 1) ==>
        && (exists x, y :: InGrid(labels, x, y) && labels[x, y] == compNum + 1 && x == stop.0)
        && (exists x, y :: InGrid(labels, x, y) && labels[x, y] == compNum + 1 && y == stop.1)
      ensures !Occurs(labels, compNum + 1) ==> stop == (-1, -1)
    {
      BoundingBoxContains(labels, compNum + 1);
      BoundingBoxSentinel(labels, compNum + 1);
      BoundingBoxAttained(labels, compNum + 1);
      (boundingBox[compNum].maxX, boundingBox[compNum].maxY)
    }

    /** The neighbourhood test of the boundary pass: scans the 8-neighbourhood
        of (i, j), clipped to the grid, row by row and stops at the first
        pixel with a different label. */
    method IsBoundaryPixel(i: int, j: int) returns (onBoundary: bool)
      requires InGrid(labels, i, j)
      ensures onBoundary == OnBoundary(labels, i, j)
    {
      var numX, numY := labels.Length0, labels.Length1;
      var pixelLabel := labels[i, j];
      onBoundary := false;
      var y := Max(j - 1, 0);
      while y <= Min(j + 1, numY - 1)
        invariant Max(j - 1, 0) <= y <= Min(j + 1, numY - 1) + 1
        invariant !onBoundary
        invariant forall x', y' :: Max(i - 1, 0) <= x' <= Min(i + 1, numX - 1) && Max(j - 1, 0) <= y' < y ==> labels[x', y'] == pixelLabel
        decreases numY - y
      {
        var x := Max(i - 1, 0);
        while x <= Min(i + 1, numX - 1)
          invariant Max(i - 1, 0) <= x <= Min(i + 1, numX - 1) + 1
          invariant !onBoundary
          invariant forall x' :: Max(i - 1, 0) <= x' < x ==> labels[x', y] == pixelLabel
          decreases numX - x
        {
          if pixelLabel != labels[x, y] {
            onBoundary := true;
            break;
          }
          x := x + 1;
        }
        if onBoundary {
          break;
        }
        y := y + 1;
      }
    }

    /** The boundary pass of `Run`: marks every labelled pixel that has a
        differently labelled pixel in its clipped 8-neighbourhood and counts
        those pixels per component. */
    method BoundaryPass() returns (boundaryPixels: seq<nat>, boundaryMask: array2<bool>)
      requires WellFormed()
      ensures fresh(boundaryMask) && SameShape(labels, boundaryMask)
      ensures forall x, y :: InGrid(labels, x, y) ==> boundaryMask[x, y] == BoundaryMarked(labels, x, y)
      ensures |boundaryPixels| == numberOfLabels
      ensures forall c :: 0 <= c < numberOfLabels ==> boundaryPixels[c] == Count(labels, isMax, BoundaryPixel, c + 1)
    {
      boundaryPixels := seq(numberOfLabels, _ => 0);
      boundaryMask := new bool[labels.Length0, labels.Length1]((_, _) => false);
      for j := 0 to labels.Length1
        invariant |boundaryPixels| == numberOfLabels
        invariant forall c :: 0 <= c < numberOfLabels ==> boundaryPixels[c] == GridCount(labels, isMax, BoundaryPixel, c + 1, j)
        invariant forall x, y :: InGrid(labels, x, y) ==> boundaryMask[x, y] == (y < j && BoundaryMarked(labels, x, y))
      {
        boundaryPixels := BoundaryRow(j, boundaryPixels, boundaryMask);
      }
    }

    /** One row j of the boundary pass, left to right: extends the counts and
        the mask from the rows above j to the rows up to and including j. */
    method BoundaryRow(j: int, counts: seq<nat>, mask: array2<bool>) returns (newCounts: seq<nat>)
      requires WellFormed() && 0 <= j < labels.Length1
      requires SameShape(labels, mask) && mask != isMax
      requires |counts| == numberOfLabels
      requires forall c :: 0 <= c < numberOfLabels ==> counts[c] == GridCount(labels, isMax, BoundaryPixel, c + 1, j)
      requires forall x, y :: InGrid(labels, x, y) ==> mask[x, y] == (y < j && BoundaryMarked(labels, x, y))
      modifies mask
      ensures |newCounts| == numberOfLabels
      ensures forall c :: 0 <= c < numberOfLabels ==> newCounts[c] == GridCount(labels, isMax, BoundaryPixel, c + 1, j + 1)
      ensures forall x, y :: InGrid(labels, x, y) ==> mask[x, y] == (y <= j && BoundaryMarked(labels, x, y))
    {
      newCounts := counts;
      for i := 0 to labels.Length0
        invariant |newCounts| == numberOfLabels
        invariant forall c :: 0 <= c < numberOfLabels ==>
          newCounts[c] == CountBefore(labels, isMax, BoundaryPixel, c + 1, i, j)
        invariant forall x, y :: InGrid(labels, x, y) && y != j ==> mask[x, y] == (y < j && BoundaryMarked(labels, x, y))
        invariant forall x :: 0 <= x < labels.Length0 ==> mask[x, j] == (x < i && BoundaryMarked(labels, x, j))
      {
        BoundaryStep(labels, isMax, i, j);
        newCounts := VisitBoundaryPixel(i, j, newCounts, mask);
      }
      CountBeforeRowEnd(labels, isMax, BoundaryPixel, j);
    }

    /** The body of the boundary pass for pixel (i, j): a background pixel is
        skipped; a labelled pixel on the boundary is counted for its component
        and set in the mask. */
    method VisitBoundaryPixel(i: int, j: int, counts: seq<nat>, mask: array2<bool>) returns (newCounts: seq<nat>)
      requires WellFormed() && InGrid(labels, i, j)
      requires SameShape(labels, mask) && |counts| == numberOfLabels
      modifies mask
      ensures |newCounts| == numberOfLabels
      ensures forall c :: 0 <= c < numberOfLabels ==>
        newCounts[c] == counts[c] + if labels[i, j] == c + 1 && OnBoundary(labels, i, j) then 1 else 0
      ensures forall x, y :: InGrid(mask, x, y) ==>
        mask[x, y] == if x == i && y == j then old(mask[x, y]) || BoundaryMarked(labels, x, y) else old(mask[x, y])
    {
      newCounts := counts;
      var pixelLabel := labels[i, j];
      if pixelLabel != 0 {
        var onBoundary := IsBoundaryPixel(i, j);
        if onBoundary {
          newCounts := newCounts[pixelLabel - 1 := newCounts[pixelLabel - 1] + 1];
          mask[i, j] := true;
        }
      }
    }

    /** Fills localMask with the crop of component compNum at the corner of
        its box: a cell whose global pixel is not of this component gets
        backgroundValue; a component cell gets "is at maximum", negated when
        maxValToFalse is set (the bright mask, or with maxValToFalse the dark
        mask). */
    method GetLocalComponentMask(localMask: array2<bool>, compNum: int, backgroundValue: bool, maxValToFalse: bool)
      requires Valid() && 0 <= compNum < numberOfLabels
      requires localMask != isMax
      requires 0 <= boundingBox[compNum].minX && boundingBox[compNum].minX + localMask.Length0 <= labels.Length0
      requires 0 <= boundingBox[compNum].minY && boundingBox[compNum].minY + localMask.Length1 <= labels.Length1
      modifies localMask
      ensures forall x, y :: InGrid(localMask, x, y) ==>
        var gx, gy := x + boundingBox[compNum].minX, y + boundingBox[compNum].minY;
        localMask[x, y] == if labels[gx, gy] != compNum + 1 then backgroundValue else isMax[gx, gy] != maxValToFalse
    {
      var start := GetLocalComponentBBStart(compNum);
      for y := 0 to localMask.Length1
        invariant forall x', y' :: InGrid(localMask, x', y') && y' < y ==>
          var gx, gy := x' + start.0, y' + start.1;
          localMask[x', y'] == if labels[gx, gy] != compNum + 1 then backgroundValue else isMax[gx, gy] != maxValToFalse
      {
        for x := 0 to localMask.Length0
          invariant forall x', y' :: InGrid(localMask, x', y') && Before(x', y', x, y) ==>
            var gx, gy := x' + start.0, y' + start.1;
            localMask[x', y'] == if labels[gx, gy] != compNum + 1 then backgroundValue else isMax[gx, gy] != maxValToFalse
        {
          if labels[x + start.0, y + start.1] != compNum + 1 {
            localMask[x, y] := backgroundValue;
          } else {
            var isMaxVal := isMax[x + start.0, y + start.1];
            localMask[x, y] := if maxValToFalse then !isMaxVal else isMaxVal;
          }
        }
      }
    }

    /** The component colouring of `Run`: a fresh colour buffer in which
        every pixel carries the table entry of its label. */
    method ColorComponents(colors: seq<Rgb>) returns (buf: array2<Rgb>)
      requires WellFormed()
      requires |colors| == numberOfLabels + 1
      ensures fresh(buf) && SameShape(labels, buf)
      ensures forall x, y :: InGrid(buf, x, y) ==> buf[x, y] == colors[labels[x, y]]
    {
      buf := new Rgb[labels.Length0, labels.Length1]((_, _) => Black);
      for j := 0 to buf.Length1
        invariant forall x, y :: InGrid(buf, x, y) && y < j ==> buf[x, y] == colors[labels[x, y]]
      {
        for i := 0 to buf.Length0
          invariant forall x, y :: InGrid(buf, x, y) && Before(x, y, i, j) ==> buf[x, y] == colors[labels[x, y]]
        {
          buf[i, j] := colors[labels[i, j]];
        }
      }
    }

    /** The two local masks of component compNum, cut out of a mask the size
        of its bounding box: the bright mask is filled first (its labelling is
        not part of this model), then the same mask is refilled as the dark
        mask, which is returned. */
    method LocalMasks(compNum: int) returns (localMask: array2<bool>)
      requires Valid() && 0 <= compNum < numberOfLabels && Occurs(labels, compNum + 1)
      ensures fresh(localMask)
      ensures 0 <= boundingBox[compNum].minX <= boundingBox[compNum].maxX < labels.Length0
      ensures 0 <= boundingBox[compNum].minY <= boundingBox[compNum].maxY < labels.Length1
      ensures localMask.Length0 == boundingBox[compNum].maxX - boundingBox[compNum].minX + 1
      ensures localMask.Length1 == boundingBox[compNum].maxY - boundingBox[compNum].minY + 1
      ensures forall x, y :: InGrid(localMask, x, y) ==>
        var gx, gy := x + boundingBox[compNum].minX, y + boundingBox[compNum].minY;
        localMask[x, y] == (labels[gx, gy] == compNum + 1 && !isMax[gx, gy])
    {
      var start := GetLocalComponentBBStart(compNum);
      var stop := GetLocalComponentBBStop(compNum);
      BoundingBoxInGrid(labels, compNum + 1);
      localMask := new bool[stop.0 - start.0 + 1, stop.1 - start.1 + 1];
      GetLocalComponentMask(localMask, compNum, false, false);
      GetLocalComponentMask(localMask, compNum, false, true);
    }

    /** The bounding-box image of `Run`: on a cleared buffer, for every
        component in ascending order, its local masks are cut out and the top
        and bottom rows of its bounding box are drawn in the component's
        colour, so that each pixel ends up with the colour of the last box
        whose edge passes through it, or black. */
    method DrawBoundingBoxes(colors: seq<Rgb>) returns (buf: array2<Rgb>)
      requires Valid()
      requires forall c :: 1 <= c <= numberOfLabels ==> Occurs(labels, c)
      requires |colors| == numberOfLabels + 1
      ensures fresh(buf) && SameShape(labels, buf)
      ensures forall x, y :: InGrid(buf, x, y) ==> buf[x, y] == OverlayColor(boundingBox, colors, numberOfLabels, x, y)
    {
      buf := new Rgb[labels.Length0, labels.Length1]((_, _) => Black);
      for i := 0 to numberOfLabels
        invariant forall x, y :: InGrid(buf, x, y) ==> buf[x, y] == OverlayColor(boundingBox, colors, i, x, y)
      {
        VisitComponent(buf, colors, i);
        OverlayColorStep(boundingBox, colors, i);
      }
    }

    /** The body of the bounding-box loop for component compNum: cuts out its
        local masks, then draws the top and bottom rows of its box in its
        colour over what the buffer already shows. */
    method VisitComponent(buf: array2<Rgb>, colors: seq<Rgb>, compNum: int)
      requires Valid() && SameShape(labels, buf)
      requires 0 <= compNum < numberOfLabels && Occurs(labels, compNum + 1)
      requires |colors| == numberOfLabels + 1
      modifies buf
      ensures forall x, y :: InGrid(buf, x, y) ==>
        buf[x, y] == if OnEdge(boundingBox[compNum], x, y) then colors[compNum + 1] else old(buf[x, y])
    {
      var localMask := LocalMasks(compNum);
      DrawBoxEdges(buf, boundingBox[compNum], colors[compNum + 1]);
    }

    /** The analysis after the descriptor scan. The random colour draws and the
        bright/dark sub-component counts (what labelling the cleaned local
        masks yields) are given as parameters. Returns the boundary mask, the
        coloured label map, the bounding-box image and the statistics lines. */
    method Run(draws: seq<Rgb>, brightComponents: seq<nat>, darkComponents: seq<nat>)
      returns (boundaryMask: array2<bool>, componentsCol: array2<Rgb>, componentsBBCol: array2<Rgb>, stat: seq<string>)
      requires Valid()
      requires forall c :: 1 <= c <= numberOfLabels ==> Occurs(labels, c)
      requires |draws| == numberOfLabels
      requires |brightComponents| == numberOfLabels && |darkComponents| == numberOfLabels
      ensures fresh(boundaryMask) && fresh(componentsCol) && fresh(componentsBBCol)
      ensures SameShape(labels, boundaryMask)
      ensures forall x, y :: InGrid(labels, x, y) ==> boundaryMask[x, y] == BoundaryMarked(labels, x, y)
      ensures SameShape(labels, componentsCol)
      ensures forall x, y :: InGrid(labels, x, y) ==>
        componentsCol[x, y] == if labels[x, y] == 0 then Black else draws[labels[x, y] - 1]
      ensures SameShape(labels, componentsBBCol)
      ensures forall x, y :: InGrid(labels, x, y) ==>
        var o := EdgeOwner(boundingBox, numberOfLabels, x, y);
        componentsBBCol[x, y] == if o < 0 then Black else draws[o]
      ensures |stat| == numberOfLabels + 1 && stat[0] == Header()
      ensures forall c :: 0 <= c < numberOfLabels ==>
        ParseRow(stat[c + 1]) == Some(StatRow(corePixels[c], tailPixels[c], Count(labels, isMax, BoundaryPixel, c + 1),
                                              brightComponents[c], darkComponents[c]))
      ensures forall c :: 0 <= c < numberOfLabels ==>
        stat[c + 1] == FormatRow(StatRow(corePixels[c], tailPixels[c], Count(labels, isMax, BoundaryPixel, c + 1),
                                         brightComponents[c], darkComponents[c]))
    {
      var boundaryPixels;
      boundaryPixels, boundaryMask := BoundaryPass();
      var colors := MakeColorTable(numberOfLabels, draws);
      componentsCol := ColorComponents(colors);
      // The colour buffer is cleared before the boxes are drawn.
      componentsBBCol := DrawBoundingBoxes(colors);
      assert forall c :: 0 <= c < numberOfLabels ==> boundaryPixels[c] == Count(labels, isMax, BoundaryPixel, c + 1);
      stat := StatLines(corePixels, tailPixels, boundaryPixels, brightComponents, darkComponents);
    }
  }
}
