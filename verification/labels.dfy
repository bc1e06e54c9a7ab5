/** The label map of the thrombus analysis and the per-component descriptors
    that are read off it: bounding boxes, core/tail pixel counts and the
    8-neighbourhood boundary predicate.

    A label map is an `array2<int>` indexed `a[x, y]` with `a.Length0` columns
    (numX) and `a.Length1` rows (numY); 0 is background and 1..N are
    components. The pixel scans of the analysis visit rows `y` in ascending
    order and, inside a row, columns `x` in ascending order. The functions
    below describe the state of such a scan after it has visited every pixel
    before a given one; the lemmas say what the finished scan has computed. */
module Labels {

  /** A bounding box in grid coordinates: the 2x2 integer matrix kept per
      component (`[0][0]` minX, `[0][1]` maxX, `[1][0]` minY, `[1][1]` maxY). */
  datatype Box = Box(minX: int, maxX: int, minY: int, maxY: int)

  function Min(a: int, b: int): int { if a < b then a else b }
  function Max(a: int, b: int): int { if a < b then b else a }

  /** The box every component starts from before any of its pixels is seen. */
  function Sentinel(numX: int, numY: int): Box { Box(numX, -1, numY, -1) }

  /** The box grown, coordinate by coordinate, to take in pixel (x, y). */
  function Extend(b: Box, x: int, y: int): Box
  {
    Box(Min(b.minX, x), Max(b.maxX, x), Min(b.minY, y), Max(b.maxY, y))
  }

  predicate Contains(b: Box, x: int, y: int)
  {
    b.minX <= x <= b.maxX && b.minY <= y <= b.maxY
  }

  predicate InGrid<T>(a: array2<T>, x: int, y: int)
  {
    0 <= x < a.Length0 && 0 <= y < a.Length1
  }

  predicate SameShape<T, U>(a: array2<T>, m: array2<U>)
  {
    a.Length0 == m.Length0 && a.Length1 == m.Length1
  }

  /** Pixel (x', y') is visited before pixel (x, y) in the row-major scan. */
  predicate Before(x': int, y': int, x: int, y: int)
  {
    y' < y || (y' == y && x' < x)
  }

  /** Every pixel holds background or one of the labels 1..n. */
  ghost predicate LabelsInRange(a: array2<int>, n: int)
    reads a
  {
    forall x, y :: InGrid(a, x, y) ==> 0 <= a[x, y] <= n
  }

  /** Some pixel carries label l. */
  ghost predicate Occurs(a: array2<int>, l: int)
    reads a
  {
    exists x, y :: InGrid(a, x, y) && a[x, y] == l
  }

  // ---------------------------------------------------------------------
  // Bounding boxes as the scan builds them
  // ---------------------------------------------------------------------

  /** The box for label l after the scan has visited columns 0..x-1 of row y,
      starting the row with box b. */
  ghost function RowBox(a: array2<int>, l: int, y: int, x: int, b: Box): Box
    reads a
    requires 0 <= y < a.Length1 && 0 <= x <= a.Length0
    decreases x
  {
    if x == 0 then b
    else
      var b' := RowBox(a, l, y, x - 1, b);
      if a[x - 1, y] == l then Extend(b', x - 1, y) else b'
  }

  /** The box for label l after the scan has visited rows 0..y-1. */
  ghost function GridBox(a: array2<int>, l: int, y: int): Box
    reads a
    requires 0 <= y <= a.Length1
    decreases y
  {
    if y == 0 then Sentinel(a.Length0, a.Length1)
    else RowBox(a, l, y - 1, a.Length0, GridBox(a, l, y - 1))
  }

  /** The box for label l once the scan has visited every pixel before (x, y). */
  ghost function BoxBefore(a: array2<int>, l: int, x: int, y: int): Box
    reads a
    requires 0 <= y < a.Length1 && 0 <= x <= a.Length0
  {
    RowBox(a, l, y, x, GridBox(a, l, y))
  }

  /** The box the completed scan records for label l. */
  ghost function BoundingBox(a: array2<int>, l: int): Box
    reads a
  {
    GridBox(a, l, a.Length1)
  }

  /** Each of the four bounds of b is the matching coordinate of some pixel
      labelled l that is visited before (x, y). */
  ghost predicate BoundAttained(a: array2<int>, l: int, b: Box, x: int, y: int)
    reads a
  {
    && (exists x', y' :: InGrid(a, x', y') && Before(x', y', x, y) && a[x', y'] == l && x' == b.minX)
    && (exists x', y' :: InGrid(a, x', y') && Before(x', y', x, y) && a[x', y'] == l && x' == b.maxX)
    && (exists x', y' :: InGrid(a, x', y') && Before(x', y', x, y) && a[x', y'] == l && y' == b.minY)
    && (exists x', y' :: InGrid(a, x', y') && Before(x', y', x, y) && a[x', y'] == l && y' == b.maxY)
  }

  /** b is the tightest box around the pixels labelled l that are visited
      before (x, y), or the sentinel when there are none. */
  ghost predicate TightBefore(a: array2<int>, l: int, b: Box, x: int, y: int)
    reads a
  {
    && (forall x', y' :: InGrid(a, x', y') && Before(x', y', x, y) && a[x', y'] == l ==> Contains(b, x', y'))
    && (b == Sentinel(a.Length0, a.Length1) || BoundAttained(a, l, b, x, y))
  }

  /** One step of the scan keeps the box tight. */
  lemma ScanStepTight(a: array2<int>, l: int, b: Box, x: int, y: int)
    requires InGrid(a, x, y)
    requires TightBefore(a, l, b, x, y)
    ensures TightBefore(a, l, if a[x, y] == l then Extend(b, x, y) else b, x + 1, y)
  {
  }

  /** The column loop of one row keeps the box tight. */
  lemma {:induction false} RowBoxTight(a: array2<int>, l: int, y: int, x: int, b: Box)
    requires 0 <= y < a.Length1 && 0 <= x <= a.Length0
    requires TightBefore(a, l, b, 0, y)
    ensures TightBefore(a, l, RowBox(a, l, y, x, b), x, y)
    decreases x
  {
    if x > 0 {
      RowBoxTight(a, l, y, x - 1, b);
      ScanStepTight(a, l, RowBox(a, l, y, x - 1, b), x - 1, y);
    }
  }

  /** Finishing row y is the same as standing at the start of row y + 1. */
  lemma RowEndTight(a: array2<int>, l: int, b: Box, y: int)
    requires 0 <= y < a.Length1
    requires TightBefore(a, l, b, a.Length0, y)
    ensures TightBefore(a, l, b, 0, y + 1)
  {
  }

  /** After the first y rows the box is tight for the pixels visited so far. */
  lemma {:induction false} GridBoxTight(a: array2<int>, l: int, y: int)
    requires 0 <= y <= a.Length1
    ensures TightBefore(a, l, GridBox(a, l, y), 0, y)
    decreases y
  {
    if y > 0 {
      GridBoxTight(a, l, y - 1);
      RowBoxTight(a, l, y - 1, a.Length0, GridBox(a, l, y - 1));
      RowEndTight(a, l, GridBox(a, l, y), y - 1);
    }
  }

  /** Every pixel labelled l lies inside the box recorded for l. */
  lemma BoundingBoxContains(a: array2<int>, l: int)
    ensures forall x, y :: InGrid(a, x, y) && a[x, y] == l ==> Contains(BoundingBox(a, l), x, y)
  {
    GridBoxTight(a, l, a.Length1);
    forall x, y | InGrid(a, x, y) && a[x, y] == l
      ensures Contains(BoundingBox(a, l), x, y)
    {
      assert Before(x, y, 0, a.Length1);
    }
  }

  /** Each of the four bounds recorded for an occurring label is the
      coordinate of one of its pixels, so no smaller box contains them all. */
  lemma BoundingBoxAttained(a: array2<int>, l: int)
    ensures Occurs(a, l) ==> exists x, y :: InGrid(a, x, y) && a[x, y] == l && x == BoundingBox(a, l).minX
    ensures Occurs(a, l) ==> exists x, y :: InGrid(a, x, y) && a[x, y] == l && x == BoundingBox(a, l).maxX
    ensures Occurs(a, l) ==> exists x, y :: InGrid(a, x, y) && a[x, y] == l && y == BoundingBox(a, l).minY
    ensures Occurs(a, l) ==> exists x, y :: InGrid(a, x, y) && a[x, y] == l && y == BoundingBox(a, l).maxY
  {
    if Occurs(a, l) {
      var b := BoundingBox(a, l);
      GridBoxTight(a, l, a.Length1);
      BoundingBoxContains(a, l);
      var x0, y0 :| InGrid(a, x0, y0) && a[x0, y0] == l;
      assert Contains(b, x0, y0);
      assert b != Sentinel(a.Length0, a.Length1);
    }
  }

  /** A label keeps the sentinel box exactly when none of its pixels occurs. */
  lemma BoundingBoxSentinel(a: array2<int>, l: int)
    ensures BoundingBox(a, l) == Sentinel(a.Length0, a.Length1) <==> !Occurs(a, l)
  {
    GridBoxTight(a, l, a.Length1);
    if Occurs(a, l) {
      BoundingBoxContains(a, l);
      var x0, y0 :| InGrid(a, x0, y0) && a[x0, y0] == l;
      assert Contains(BoundingBox(a, l), x0, y0);
    }
    if BoundingBox(a, l) != Sentinel(a.Length0, a.Length1) {
      var b := BoundingBox(a, l);
      var x1, y1 :| InGrid(a, x1, y1) && Before(x1, y1, 0, a.Length1) && a[x1, y1] == l && x1 == b.minX;
      assert InGrid(a, x1, y1) && a[x1, y1] == l;
    }
  }

  /** The box of an occurring label is non-empty and lies inside the grid, so
      a crop of extents (maxX - minX + 1) x (maxY - minY + 1) at (minX, minY)
      has positive extents and reads only grid pixels. */
  lemma BoundingBoxInGrid(a: array2<int>, l: int)
    requires Occurs(a, l)
    ensures var b := BoundingBox(a, l);
      0 <= b.minX <= b.maxX < a.Length0 && 0 <= b.minY <= b.maxY < a.Length1
  {
    BoundingBoxAttained(a, l);
    BoundingBoxContains(a, l);
  }

  /** Visiting pixel (i, j) grows the box of its own label and no other. */
  lemma BoxBeforeStep(a: array2<int>, i: int, j: int)
    requires InGrid(a, i, j)
    ensures forall l :: BoxBefore(a, l, i + 1, j) == if a[i, j] == l then Extend(BoxBefore(a, l, i, j), i, j) else BoxBefore(a, l, i, j)
  {
  }

  /** Finishing row j gives the boxes at the start of row j + 1. */
  lemma BoxBeforeRowEnd(a: array2<int>, j: int)
    requires 0 <= j < a.Length1
    ensures forall l :: GridBox(a, l, j + 1) == BoxBefore(a, l, a.Length0, j)
  {
  }

  // ---------------------------------------------------------------------
  // Boundary pixels
  // ---------------------------------------------------------------------

  /** Some pixel of the 8-neighbourhood of (x, y), clipped to the grid,
      carries a label different from that of (x, y). */
  ghost predicate OnBoundary(a: array2<int>, x: int, y: int)
    reads a
    requires InGrid(a, x, y)
  {
    exists x', y' :: InGrid(a, x', y') && x - 1 <= x' <= x + 1 && y - 1 <= y' <= y + 1 && a[x', y'] != a[x, y]
  }

  /** The pixel is marked in the boundary mask: it is labelled and on the boundary. */
  ghost predicate BoundaryMarked(a: array2<int>, x: int, y: int)
    reads a
    requires InGrid(a, x, y)
  {
    a[x, y] != 0 && OnBoundary(a, x, y)
  }

  /** A pixel none of whose clipped 8-neighbours shares its label is a
      boundary pixel as soon as the grid has more than one pixel; in
      particular a single-pixel component is always counted as boundary. */
  lemma IsolatedPixelOnBoundary(a: array2<int>, x: int, y: int)
    requires InGrid(a, x, y)
    requires a.Length0 > 1 || a.Length1 > 1
    requires forall x', y' :: InGrid(a, x', y') && x - 1 <= x' <= x + 1 && y - 1 <= y' <= y + 1 && (x' != x || y' != y) ==> a[x', y'] != a[x, y]
    ensures OnBoundary(a, x, y)
  {
    if a.Length0 > 1 {
      var x' := if x > 0 then x - 1 else x + 1;
      assert InGrid(a, x', y) && a[x', y] != a[x, y];
    } else {
      var y' := if y > 0 then y - 1 else y + 1;
      assert InGrid(a, x, y') && a[x, y'] != a[x, y];
    }
  }

  /** A pixel whose whole clipped 8-neighbourhood shares its label is never a
      boundary pixel. */
  lemma InteriorPixelNotOnBoundary(a: array2<int>, x: int, y: int)
    requires InGrid(a, x, y)
    requires forall x', y' :: InGrid(a, x', y') && x - 1 <= x' <= x + 1 && y - 1 <= y' <= y + 1 ==> a[x', y'] == a[x, y]
    ensures !OnBoundary(a, x, y)
  {
  }

  /** A 5x5 label map whose only component, label 1, fills the 3x3 block in
      the corner at (0, 0). */
  ghost predicate CornerBlock(a: array2<int>)
    reads a
  {
    a.Length0 == 5 && a.Length1 == 5 &&
    forall x, y :: 0 <= x < 5 && 0 <= y < 5 ==> a[x, y] == if x <= 2 && y <= 2 then 1 else 0
  }

  /** In the corner block the clipped neighbourhood leaves only the five
      pixels on the block's inner row and column (x == 2 or y == 2) as
      boundary pixels; the four pixels (0, 0), (1, 0), (0, 1), (1, 1) see
      only label 1 inside the grid and are not marked. */
  lemma CornerBlockBoundary(a: array2<int>)
    requires CornerBlock(a)
    ensures forall x, y :: 0 <= x < 5 && 0 <= y < 5 ==>
      (BoundaryMarked(a, x, y) <==> x <= 2 && y <= 2 && (x == 2 || y == 2))
  {
    forall x, y | 0 <= x < 5 && 0 <= y < 5
      ensures BoundaryMarked(a, x, y) <==> x <= 2 && y <= 2 && (x == 2 || y == 2)
    {
      if x <= 2 && y <= 2 {
        if x == 2 {
          assert InGrid(a, x + 1, y) && a[x + 1, y] != a[x, y];
        } else if y == 2 {
          assert InGrid(a, x, y + 1) && a[x, y + 1] != a[x, y];
        } else {
          InteriorPixelNotOnBoundary(a, x, y);
        }
      }
    }
  }

  // ---------------------------------------------------------------------
  // Pixel counts
  // ---------------------------------------------------------------------

  /** Which pixels of a label are counted: all of them, the core pixels (at
      the image maximum), the tail pixels (the others) or the boundary pixels. */
  datatype PixelClass = AnyPixel | CorePixel | TailPixel | BoundaryPixel

  /** Pixel (x, y) carries label l and belongs to class k; m marks the pixels
      whose intensity equals the image maximum. */
  ghost predicate Selected(a: array2<int>, m: array2<bool>, k: PixelClass, l: int, x: int, y: int)
    reads a, m
    requires SameShape(a, m) && InGrid(a, x, y)
  {
    a[x, y] == l &&
    match k
    case AnyPixel => true
    case CorePixel => m[x, y]
    case TailPixel => !m[x, y]
    case BoundaryPixel => OnBoundary(a, x, y)
  }

  /** Number of selected pixels among columns 0..x-1 of row y. */
  ghost function RowCount(a: array2<int>, m: array2<bool>, k: PixelClass, l: int, y: int, x: int): nat
    reads a, m
    requires SameShape(a, m) && 0 <= y < a.Length1 && 0 <= x <= a.Length0
    decreases x
  {
    if x == 0 then 0
    else RowCount(a, m, k, l, y, x - 1) + (if Selected(a, m, k, l, x - 1, y) then 1 else 0)
  }

  /** Number of selected pixels among rows 0..y-1. */
  ghost function GridCount(a: array2<int>, m: array2<bool>, k: PixelClass, l: int, y: int): nat
    reads a, m
    requires SameShape(a, m) && 0 <= y <= a.Length1
    decreases y
  {
    if y == 0 then 0
    else GridCount(a, m, k, l, y - 1) + RowCount(a, m, k, l, y - 1, a.Length0)
  }

  /** Number of selected pixels visited before (x, y). */
  ghost function CountBefore(a: array2<int>, m: array2<bool>, k: PixelClass, l: int, x: int, y: int): nat
    reads a, m
    requires SameShape(a, m) && 0 <= y < a.Length1 && 0 <= x <= a.Length0
  {
    GridCount(a, m, k, l, y) + RowCount(a, m, k, l, y, x)
  }

  /** Number of selected pixels in the whole grid. */
  ghost function Count(a: array2<int>, m: array2<bool>, k: PixelClass, l: int): nat
    reads a, m
    requires SameShape(a, m)
  {
    GridCount(a, m, k, l, a.Length1)
  }

  /** Visiting pixel (i, j) adds it to the core count of its label when it is
      at the maximum and to the tail count otherwise, and changes no other count. */
  lemma CoreTailStep(a: array2<int>, m: array2<bool>, i: int, j: int)
    requires SameShape(a, m) && InGrid(a, i, j)
    ensures forall l :: CountBefore(a, m, CorePixel, l, i + 1, j) == CountBefore(a, m, CorePixel, l, i, j) + if a[i, j] == l && m[i, j] then 1 else 0
    ensures forall l :: CountBefore(a, m, TailPixel, l, i + 1, j) == CountBefore(a, m, TailPixel, l, i, j) + if a[i, j] == l && !m[i, j] then 1 else 0
  {
  }

  /** Visiting pixel (i, j) adds it to the boundary count of its label when
      it is a boundary pixel, and changes no other count. */
  lemma BoundaryStep(a: array2<int>, m: array2<bool>, i: int, j: int)
    requires SameShape(a, m) && InGrid(a, i, j)
    ensures forall l :: CountBefore(a, m, BoundaryPixel, l, i + 1, j) == CountBefore(a, m, BoundaryPixel, l, i, j) + if a[i, j] == l && OnBoundary(a, i, j) then 1 else 0
  {
  }

  /** Finishing row j gives the counts at the start of row j + 1. */
  lemma CountBeforeRowEnd(a: array2<int>, m: array2<bool>, k: PixelClass, j: int)
    requires SameShape(a, m) && 0 <= j < a.Length1
    ensures forall l :: GridCount(a, m, k, l, j + 1) == CountBefore(a, m, k, l, a.Length0, j)
  {
  }

  lemma {:induction false} RowPartition(a: array2<int>, m: array2<bool>, l: int, y: int, x: int)
    requires SameShape(a, m) && 0 <= y < a.Length1 && 0 <= x <= a.Length0
    ensures RowCount(a, m, CorePixel, l, y, x) + RowCount(a, m, TailPixel, l, y, x) == RowCount(a, m, AnyPixel, l, y, x)
    decreases x
  {
    if x > 0 {
      RowPartition(a, m, l, y, x - 1);
    }
  }

  lemma {:induction false} GridPartition(a: array2<int>, m: array2<bool>, l: int, y: int)
    requires SameShape(a, m) && 0 <= y <= a.Length1
    ensures GridCount(a, m, CorePixel, l, y) + GridCount(a, m, TailPixel, l, y) == GridCount(a, m, AnyPixel, l, y)
    decreases y
  {
    if y > 0 {
      GridPartition(a, m, l, y - 1);
      RowPartition(a, m, l, y - 1, a.Length0);
    }
  }

  /** Core and tail pixels partition a component: together they are its area. */
  lemma CoreTailPartition(a: array2<int>, m: array2<bool>, l: int)
    requires SameShape(a, m)
    ensures Count(a, m, CorePixel, l) + Count(a, m, TailPixel, l) == Count(a, m, AnyPixel, l)
  {
    GridPartition(a, m, l, a.Length1);
  }

  lemma {:induction false} RowBoundaryBound(a: array2<int>, m: array2<bool>, l: int, y: int, x: int)
    requires SameShape(a, m) && 0 <= y < a.Length1 && 0 <= x <= a.Length0
    ensures RowCount(a, m, BoundaryPixel, l, y, x) <= RowCount(a, m, AnyPixel, l, y, x)
    decreases x
  {
    if x > 0 {
      RowBoundaryBound(a, m, l, y, x - 1);
    }
  }

  lemma {:induction false} GridBoundaryBound(a: array2<int>, m: array2<bool>, l: int, y: int)
    requires SameShape(a, m) && 0 <= y <= a.Length1
    ensures GridCount(a, m, BoundaryPixel, l, y) <= GridCount(a, m, AnyPixel, l, y)
    decreases y
  {
    if y > 0 {
      GridBoundaryBound(a, m, l, y - 1);
      RowBoundaryBound(a, m, l, y - 1, a.Length0);
    }
  }

  /** A component has no more boundary pixels than core and tail pixels together. */
  lemma BoundaryCountBound(a: array2<int>, m: array2<bool>, l: int)
    requires SameShape(a, m)
    ensures Count(a, m, BoundaryPixel, l) <= Count(a, m, CorePixel, l) + Count(a, m, TailPixel, l)
  {
    GridBoundaryBound(a, m, l, a.Length1);
    CoreTailPartition(a, m, l);
  }

  // ---------------------------------------------------------------------
  // The components together cover the foreground
  // ---------------------------------------------------------------------

  /** Number of foreground (non-zero) pixels among columns 0..x-1 of row y. */
  ghost function RowForeground(a: array2<int>, y: int, x: int): nat
    reads a
    requires 0 <= y < a.Length1 && 0 <= x <= a.Length0
    decreases x
  {
    if x == 0 then 0 else RowForeground(a, y, x - 1) + (if a[x - 1, y] != 0 then 1 else 0)
  }

  /** Number of foreground pixels among rows 0..y-1. */
  ghost function GridForeground(a: array2<int>, y: int): nat
    reads a
    requires 0 <= y <= a.Length1
    decreases y
  {
    if y == 0 then 0 else GridForeground(a, y - 1) + RowForeground(a, y - 1, a.Length0)
  }

  /** Number of foreground pixels of the whole label map. */
  ghost function Foreground(a: array2<int>): nat
    reads a
  {
    GridForeground(a, a.Length1)
  }

  /** Sum over the labels 1..n of their pixel counts among columns 0..x-1 of row y. */
  ghost function RowAreaSum(a: array2<int>, m: array2<bool>, y: int, x: int, n: nat): nat
    reads a, m
    requires SameShape(a, m) && 0 <= y < a.Length1 && 0 <= x <= a.Length0
    decreases n
  {
    if n == 0 then 0 else RowAreaSum(a, m, y, x, n - 1) + RowCount(a, m, AnyPixel, n, y, x)
  }

  /** Sum over the labels 1..n of their pixel counts among rows 0..y-1. */
  ghost function GridAreaSum(a: array2<int>, m: array2<bool>, y: int, n: nat): nat
    reads a, m
    requires SameShape(a, m) && 0 <= y <= a.Length1
    decreases n
  {
    if n == 0 then 0 else GridAreaSum(a, m, y, n - 1) + GridCount(a, m, AnyPixel, n, y)
  }

  /** Adding column x - 1 adds one to the label sum exactly when that pixel
      carries one of the labels 1..n. */
  lemma {:induction false} RowAreaSumStep(a: array2<int>, m: array2<bool>, y: int, x: int, n: nat)
    requires SameShape(a, m) && 0 <= y < a.Length1 && 0 < x <= a.Length0
    ensures RowAreaSum(a, m, y, x, n) == RowAreaSum(a, m, y, x - 1, n) + (if 1 <= a[x - 1, y] <= n then 1 else 0)
    decreases n
  {
    if n > 0 {
      RowAreaSumStep(a, m, y, x, n - 1);
    }
  }

  /** With every label in 0..n, the labels 1..n together count exactly the
      foreground pixels of a row prefix. */
  lemma {:induction false} RowAreaSumForeground(a: array2<int>, m: array2<bool>, y: int, x: int, n: nat)
    requires SameShape(a, m) && LabelsInRange(a, n) && 0 <= y < a.Length1 && 0 <= x <= a.Length0
    ensures RowAreaSum(a, m, y, x, n) == RowForeground(a, y, x)
    decreases x
  {
    if x == 0 {
      RowAreaSumZero(a, m, y, n);
    } else {
      RowAreaSumForeground(a, m, y, x - 1, n);
      RowAreaSumStep(a, m, y, x, n);
      assert InGrid(a, x - 1, y);
    }
  }

  lemma {:induction false} RowAreaSumZero(a: array2<int>, m: array2<bool>, y: int, n: nat)
    requires SameShape(a, m) && 0 <= y < a.Length1
    ensures RowAreaSum(a, m, y, 0, n) == 0
    decreases n
  {
    if n > 0 {
      RowAreaSumZero(a, m, y, n - 1);
    }
  }

  /** Adding row y - 1 adds the label sum of that whole row. */
  lemma {:induction false} GridAreaSumStep(a: array2<int>, m: array2<bool>, y: int, n: nat)
    requires SameShape(a, m) && 0 < y <= a.Length1
    ensures GridAreaSum(a, m, y, n) == GridAreaSum(a, m, y - 1, n) + RowAreaSum(a, m, y - 1, a.Length0, n)
    decreases n
  {
    if n > 0 {
      GridAreaSumStep(a, m, y, n - 1);
    }
  }

  lemma {:induction false} GridAreaSumZero(a: array2<int>, m: array2<bool>, n: nat)
    requires SameShape(a, m)
    ensures GridAreaSum(a, m, 0, n) == 0
    decreases n
  {
    if n > 0 {
      GridAreaSumZero(a, m, n - 1);
    }
  }

  /** The labels 1..n together count exactly the foreground pixels of the
      first y rows. */
  lemma {:induction false} GridAreaSumForeground(a: array2<int>, m: array2<bool>, y: int, n: nat)
    requires SameShape(a, m) && LabelsInRange(a, n) && 0 <= y <= a.Length1
    ensures GridAreaSum(a, m, y, n) == GridForeground(a, y)
    decreases y
  {
    if y == 0 {
      GridAreaSumZero(a, m, n);
    } else {
      GridAreaSumForeground(a, m, y - 1, n);
      GridAreaSumStep(a, m, y, n);
      RowAreaSumForeground(a, m, y - 1, a.Length0, n);
    }
  }

  /** When every pixel holds 0..n, the areas of the labels 1..n add up to the
      number of foreground pixels: no labelled pixel is missed and none is
      counted for two labels. */
  lemma AreasCoverForeground(a: array2<int>, m: array2<bool>, n: nat)
    requires SameShape(a, m) && LabelsInRange(a, n)
    ensures GridAreaSum(a, m, a.Length1, n) == Foreground(a)
  {
    GridAreaSumForeground(a, m, a.Length1, n);
  }
}
