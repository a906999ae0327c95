/** Rectangles as this core sees them: opaque records of four integer
    coordinates, compared field by field. Geometry is not part of the model. */
module Rects {

  /** An integer rectangle (left, top, right, bottom). */
  datatype Rect = Rect(left: int, top: int, right: int, bottom: int)

  /** Content of a slot that has never been written. The container leaves such
      slots uninitialised; nothing in the model ever reads them. */
  const Blank: Rect := Rect(0, 0, 0, 0)
}
