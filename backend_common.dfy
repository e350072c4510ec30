/**
 * Types shared by every backend: the argument and result types of the
 * backend operation table.
 */
module BackendCommon {

  datatype Option<+T> = None | Some(value: T)

  /** A colour with channels in [0, 1] (struct color). */
  datatype Color = Color(red: real, green: real, blue: real, alpha: real)

  /**
   * The image operations of enum image_operations, each carrying the
   * arguments that the operation reads from its `void *args`.
   */
  datatype ImageOperation =
    | InvertColorAll
      /** Darken by laying black with alpha `dim` over the image. */
    | DimAll(dim: real)
      /** Multiply the alpha of the pixels in the operation region by `factor`. */
    | ApplyAlpha(factor: real)
      /** Multiply the opacity of the whole image by `factor`. */
    | ApplyAlphaAll(factor: real)
      /** Set the effective (tiling) size of the image. */
    | ResizeTile(width: int, height: int)
    | MaxBrightness
}
