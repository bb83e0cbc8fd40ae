/**
 * Scale-back of face boxes (p1.py:70-72). Faces are located on a copy of the
 * frame shrunk by a quarter in each dimension (p1.py:47); each coordinate of
 * a box `(top, right, bottom, left)` is multiplied by 4 before drawing, and
 * the name is written 10 pixels above the box's top-left corner.
 * Python integers do not overflow, and neither do Dafny's.
 */
module Boxes {

  const SCALE: int := 4
  const LABEL_OFFSET: int := 10

  /** A box in the order the face locator returns it. */
  datatype Box = Box(top: int, right: int, bottom: int, left: int)

  datatype Point = Point(x: int, y: int)

  /** `[v * 4 for v in face_location]`: corners keep their order in both directions. */
  function ScaleBack(b: Box): (r: Box)
    ensures b.top <= b.bottom <==> r.top <= r.bottom
    ensures b.left <= b.right <==> r.left <= r.right
  {
    Box(SCALE * b.top, SCALE * b.right, SCALE * b.bottom, SCALE * b.left)
  }

  /** Where the name is drawn: `(left, top - 10)` of the scaled box. */
  function LabelAnchor(b: Box): Point
  {
    var r := ScaleBack(b);
    Point(r.left, r.top - LABEL_OFFSET)
  }

  /**
   * The name lands inside the frame's height only when the located box starts
   * at least 3 rows below the top of the quarter-size frame; a face nearer the
   * top edge gets its name drawn above the frame.
   */
  lemma AnchorOnFrame(b: Box)
    ensures LabelAnchor(b).y >= 0 <==> b.top >= 3
  {
  }

  /** The name starts at the drawn rectangle's left edge, strictly above its top. */
  lemma AnchorAboveRectangle(b: Box)
    ensures LabelAnchor(b).x == ScaleBack(b).left && LabelAnchor(b).y < ScaleBack(b).top
  {
  }

  /** A box inside a `w` by `h` small frame lands inside the `4w` by `4h` full frame, corners kept in order. */
  lemma ScaleBackWithinFrame(b: Box, w: int, h: int)
    requires 0 <= b.left <= b.right <= w && 0 <= b.top <= b.bottom <= h
    ensures var r := ScaleBack(b);
      0 <= r.left <= r.right <= SCALE * w && 0 <= r.top <= r.bottom <= SCALE * h
  {
  }

  /** Widths and heights grow by exactly the scale factor. */
  lemma ScaleBackSize(b: Box)
    ensures var r := ScaleBack(b);
      r.right - r.left == SCALE * (b.right - b.left) && r.bottom - r.top == SCALE * (b.bottom - b.top)
  {
  }
}
