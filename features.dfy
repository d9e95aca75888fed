/** The GeoJSON features the vectoriser hands back, reduced to what
    build_data.py reads and writes: the `DN` label, the properties the
    resolver attaches, and Polygon / MultiPolygon coordinates. */
module Features {
  import opened Wrappers
  import opened Palette

  /** A vertex `[x, y]`; exact reals stand for Python floats. */
  datatype Point = Point(x: real, y: real)

  type Ring = seq<Point>

  /** `coordinates[0]` of a Polygon is its exterior ring, the rest are holes
      (section 3.1.6 of RFC 7946); a MultiPolygon is a list of such polygons
      (section 3.1.7 of RFC 7946). Any other geometry type that has
      coordinates is skipped by the bounding box and by the normaliser. */
  datatype Geometry =
    | Polygon(rings: seq<Ring>)
    | MultiPolygon(polygons: seq<seq<Ring>>)
    | OtherGeometry

  /** `feature["properties"]`: DN as written by the vectoriser, and rgb,
      color_hex and name as written by the resolver. */
  datatype Properties = Properties(dn: Option<int>, rgb: Option<Rgb>, colorHex: Option<string>, name: Option<string>)

  datatype Feature = Feature(props: Properties, geometry: Geometry)
}
