/** Failure-carrying values shared by every module of the model. */
module Wrappers {

  datatype Option<T> = None | Some(value: T)

  datatype Result<T, E> = Success(value: T) | Failure(error: E)

  /** The ways the data builder aborts a world: each is a Python exception
      raised by build_data.py on malformed input. */
  datatype Error =
    | EmptyCatalog        // normalize_names reads names[0] of an empty list
    | MissingExteriorRing // coords[0] of a polygon that has no rings
    | NoVertices          // zip(*all_coords) of an empty list cannot be unpacked
    | DegenerateExtent    // max_x == min_x or max_y == min_y: float division by zero
    | EmptyImage          // the GeoTIFF driver creates no raster of zero width or height
}
