/** The parsed GeoJSON input, reduced to what the converter reads: each
    feature's `properties.classification.name`, its `color` and its
    `geometry`. */
module GeoJson {
  import opened Wrappers
  import opened Colour

  /** A coordinate value as the JSON parser produced it. The converter only
      compares coordinates and copies them to the output, so nothing else
      about them is modelled. */
  type Number(==)

  /** A vertex `[x, y]`. The converter unpacks every vertex of a region into
      exactly two values, so a vertex is a pair. */
  datatype Point = Point(x: Number, y: Number)

  type Ring = seq<Point>

  /** `geometry.type` with its `coordinates`: a polygon is a list of rings
      (the first is the outer one), a multi-polygon a list of polygons.
      Any other type, and an absent `geometry` member, is `OtherGeometry`.
      A `geometry` that is JSON null is not represented. */
  datatype Geometry =
    | Polygon(rings: seq<Ring>)
    | MultiPolygon(polygons: seq<seq<Ring>>)
    | OtherGeometry

  /** An absent `properties`, `classification` or `name` member reads as
      `None`, and so does a `name` that is JSON null; an absent `color` is
      `None` here and is defaulted by the converter. A `properties`,
      `classification` or `color` that is JSON null is not represented. */
  datatype Feature = Feature(name: Option<string>, colour: Option<Rgb>, geometry: Geometry)

  /** The top-level JSON value of one file. A JSON object is read in two ways:
      through its `features` member when it has one, and otherwise as a
      single feature itself. */
  datatype Document =
    | Object(features: Option<seq<Feature>>, asFeature: Feature)
    | Array(items: seq<Feature>)
    | Scalar

  /** The flat feature list of a document; `None` for a top-level value that
      is neither an object nor a list. */
  function Features(doc: Document): (fs: Option<seq<Feature>>)
    ensures fs.None? <==> doc.Scalar?
    ensures doc.Object? && doc.features.None? ==> fs == Some([doc.asFeature])
  {
    match doc
    case Object(Some(list), _) => Some(list)
    case Object(None, f) => Some([f])
    case Array(list) => Some(list)
    case Scalar => None
  }

  /** The name a feature is filed under: Python's `if name` rejects a missing
      and an empty name alike. */
  predicate HasLabel(f: Feature)
  {
    f.name.Some? && f.name.value != ""
  }
}
