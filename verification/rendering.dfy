/** The colour images of the analysis: a colour table with one RGB triple per
    label, the per-pixel colouring of the label map and the overlay of the
    top and bottom rows of every component's bounding box. */
module Rendering {
  import opened Labels

  newtype byte = x: int | 0 <= x < 256

  /** One pixel of the three-channel unsigned-char colour buffer. */
  datatype Rgb = Rgb(r: byte, g: byte, b: byte)

  /** The value of a zero-initialised colour entry or buffer pixel. */
  const Black := Rgb(0, 0, 0)

  /** The colour table for labels 0..numberOfLabels: entry 0 is left at its
      zero initial value, entry i (1 <= i <= numberOfLabels) takes the i-th
      draw of the random generator, which is given here as `draws`. */
  method MakeColorTable(numberOfLabels: nat, draws: seq<Rgb>) returns (colors: seq<Rgb>)
    requires |draws| == numberOfLabels
    ensures |colors| == numberOfLabels + 1
    ensures colors[0] == Black
    ensures forall i :: 1 <= i <= numberOfLabels ==> colors[i] == draws[i - 1]
  {
    colors := seq(numberOfLabels + 1, _ => Black);
    for i := 1 to numberOfLabels + 1
      invariant |colors| == numberOfLabels + 1
      invariant colors[0] == Black
      invariant forall k :: 1 <= k < i ==> colors[k] == draws[k - 1]
      invariant forall k :: i <= k <= numberOfLabels ==> colors[k] == Black
    {
      colors := colors[i := draws[i - 1]];
    }
  }

  /** Pixel (x, y) lies on the top or bottom row of box b, within its columns. */
  predicate OnEdge(b: Box, x: int, y: int)
  {
    b.minX <= x <= b.maxX && (y == b.minY || y == b.maxY)
  }

  /** The box can be drawn into a numX x numY buffer: it is empty along x (so
      nothing is drawn) or its columns and both edge rows lie in the grid. */
  predicate Drawable(b: Box, numX: int, numY: int)
  {
    b.maxX < b.minX || (0 <= b.minX && b.maxX < numX && 0 <= b.minY < numY && 0 <= b.maxY < numY)
  }

  /** The index of the last of the first k boxes whose edge passes through
      (x, y), or -1 when none does: the component whose colour is left at
      (x, y) after the first k boxes have been drawn in order. */
  function EdgeOwner(boxes: seq<Box>, k: nat, x: int, y: int): (o: int)
    requires k <= |boxes|
    ensures -1 <= o < k
    ensures o == -1 ==> forall c :: 0 <= c < k ==> !OnEdge(boxes[c], x, y)
    ensures o >= 0 ==> OnEdge(boxes[o], x, y) && forall c :: o < c < k ==> !OnEdge(boxes[c], x, y)
    decreases k
  {
    if k == 0 then -1
    else if OnEdge(boxes[k - 1], x, y) then k - 1
    else EdgeOwner(boxes, k - 1, x, y)
  }

  /** The overlay colour of (x, y) once the first k boxes are drawn on a black
      buffer, box c in colour colors[c + 1]. */
  function OverlayColor(boxes: seq<Box>, colors: seq<Rgb>, k: nat, x: int, y: int): Rgb
    requires k <= |boxes| && |colors| == |boxes| + 1
  {
    var o := EdgeOwner(boxes, k, x, y);
    if o < 0 then Black else colors[o + 1]
  }

  /** Pixels off every box edge stay black, and a pixel on the edge of box c
      that no later box covers gets colour colors[c + 1]. */
  lemma OverlayColorCases(boxes: seq<Box>, colors: seq<Rgb>, x: int, y: int)
    requires |colors| == |boxes| + 1
    ensures (forall c :: 0 <= c < |boxes| ==> !OnEdge(boxes[c], x, y)) ==> OverlayColor(boxes, colors, |boxes|, x, y) == Black
    ensures forall c :: 0 <= c < |boxes| && OnEdge(boxes[c], x, y) && (forall d :: c < d < |boxes| ==> !OnEdge(boxes[d], x, y)) ==> OverlayColor(boxes, colors, |boxes|, x, y) == colors[c + 1]
  {
  }

  /** Drawing box k on top of the first k boxes changes exactly the pixels on
      its edge, to colors[k + 1]. */
  lemma OverlayColorStep(boxes: seq<Box>, colors: seq<Rgb>, k: nat)
    requires k < |boxes| && |colors| == |boxes| + 1
    ensures forall x, y :: OverlayColor(boxes, colors, k + 1, x, y) == if OnEdge(boxes[k], x, y) then colors[k + 1] else OverlayColor(boxes, colors, k, x, y)
  {
  }

  /** Draws the top and bottom rows of box b, columns minX..maxX, in the given
      colour; every other pixel keeps its colour. */
  method DrawBoxEdges(buf: array2<Rgb>, b: Box, colour: Rgb)
    requires Drawable(b, buf.Length0, buf.Length1)
    modifies buf
    ensures forall x, y :: InGrid(buf, x, y) ==> buf[x, y] == if OnEdge(b, x, y) then colour else old(buf[x, y])
  {
    var x := b.minX;
    while x <= b.maxX
      invariant x == b.minX || b.minX <= x <= b.maxX + 1
      invariant forall x', y' :: InGrid(buf, x', y') ==>
        buf[x', y'] == if b.minX <= x' < x && (y' == b.minY || y' == b.maxY) then colour else old(buf[x', y'])
      decreases b.maxX - x
    {
      buf[x, b.minY] := colour;
      buf[x, b.maxY] := colour;
      x := x + 1;
    }
  }
}
