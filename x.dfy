/**
 * The slice of the X protocol (core, RENDER and Present extensions) that the
 * rendering backends talk to. Requests are not executed: a backend operation
 * returns the requests it issues, and the server's replies (resource ids,
 * errors, events) are inputs to the operation.
 */
module X {

  /** An X resource id (pixmap, picture, window, visual): a 32-bit value. */
  type Xid = x: int | 0 <= x < 0x1_0000_0000

  /** XCB_NONE: the id a failed creation request hands back. */
  const XNone: Xid := 0

  /** Ranges checked by to_i16_checked and to_u16_checked. */
  predicate FitsI16(v: int) { -0x8000 <= v <= 0x7FFF }
  predicate FitsU16(v: int) { 0 <= v <= 0xFFFF }

  type U16 = v: int | 0 <= v <= 0xFFFF

  /** A pixel position. */
  type Point = (int, int)

  /**
   * A pixman region, seen as the set of pixels it covers. Intersection is
   * set intersection and "not empty" is `!= {}`.
   */
  type Region = set<Point>

  /** A pixman box: the half-open rectangle [x1, x2) x [y1, y2). */
  datatype Box = Box(x1: int, y1: int, x2: int, y2: int)

  /** `extent` is a bounding box of `region` (pixman computes the tightest one). */
  ghost predicate Encloses(extent: Box, region: Region)
  {
    forall p :: p in region ==> extent.x1 <= p.0 < extent.x2 && extent.y1 <= p.1 < extent.y2
  }

  /** A destination rectangle of a RENDER request (xcb_rectangle_t). */
  datatype Area = Area(x: int, y: int, width: int, height: int)

  /** The pixel format of a drawable (struct xvisual_info). */
  datatype VisualInfo = VisualInfo(visual: Xid, visualDepth: int, alphaSize: int)

  /** The reply to GetGeometry. */
  datatype Geometry = Geometry(width: U16, height: U16)

  /** RENDER compositing operators used by the backend. */
  datatype PictOp = Src | Over | Difference | InReverse | OutReverse

  /** A picture operand: a picture id, one of the alpha masks by level, or none. */
  datatype Picture = NoPicture | Pict(id: Xid) | AlphaMask(level: int)

  /** The CompleteMode of a PresentCompleteNotify event. */
  datatype CompleteMode = ModeCopy | ModeFlip | ModeSkip | ModeSuboptimalCopy

  datatype Request =
    | GetGeometry(drawable: Xid)
    | CreatePixmap(depth: int, width: int, height: int)
    | CreatePicture(visual: Xid, drawable: Xid)
      /** A picture on a new pixmap of the given size and visual. */
    | CreatePictureWithVisual(visual: Xid, width: int, height: int)
    | ClearClip(pict: Xid)
    | SetClip(pict: Xid, region: Region)
    | Composite(op: PictOp, src: Picture, mask: Picture, dst: Xid, srcAt: Point, area: Area)
      /** FillRectangles with black of alpha `alpha`, as a fraction. */
    | FillRectangle(op: PictOp, dst: Xid, alpha: real, area: Area)
    | FreePicture(pict: Xid)
    | FreePixmap(pixmap: Xid)
    | PresentPixmap(window: Xid, pixmap: Xid)
}
