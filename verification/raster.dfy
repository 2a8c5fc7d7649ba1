/** What the renderer files hand to and get back from the rasteriser, which is not modelled:
    PNG output is an opaque byte sequence, and every thrown error falls in one of three kinds. */
module Raster {
  import opened Wrappers
  import Layout

  newtype Byte = x: int | 0 <= x < 256

  type Png = seq<Byte>

  /** A rasteriser run on one document: the PNG, or `None` when it throws. */
  type Rasterizer = Layout.Document -> Option<Png>

  datatype RenderError =
    | MissingParameters  // "Missing required parameters": empty title or section
    | WasmInitFailed     // both WASM loading paths failed (og-fix only)
    | RenderFailed       // the rasteriser threw
}
