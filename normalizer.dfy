/** The world bounding box and the coordinate normaliser of build_data
    (build_data.py lines 184-217): one box over the exterior rings of every
    feature of the three layers, then every vertex of every ring, holes
    included, mapped affinely into the unit square with the Y axis flipped. */
module Normalizer {
  import opened Wrappers
  import opened Features

  // ---------------------------------------------------------------------
  // Exterior rings (lines 185-194)
  // ---------------------------------------------------------------------

  /** One `all_coords.extend(...)`: the first failure stays, otherwise the
      vertices are appended. */
  function Then(before: Result<seq<Point>, Error>, next: Result<seq<Point>, Error>): Result<seq<Point>, Error>
  {
    if before.Failure? then before
    else if next.Failure? then next
    else Success(before.value + next.value)
  }

  /** The contributions of a sequence of pieces, extended one after another. */
  function ConcatAll(parts: seq<Result<seq<Point>, Error>>): Result<seq<Point>, Error>
  {
    if parts == [] then Success([])
    else
      var n := |parts| - 1;
      Then(ConcatAll(parts[..n]), parts[n])
  }

  /** `coords[0]`: a polygon without rings raises IndexError. */
  function ExteriorRing(rings: seq<Ring>): (r: Result<seq<Point>, Error>)
    ensures r.Success? <==> |rings| > 0
    ensures r.Success? ==> r.value == rings[0]
    ensures r.Failure? ==> r.error == MissingExteriorRing
  {
    if |rings| == 0 then Failure(MissingExteriorRing) else Success(rings[0])
  }

  /** Lines 193-194: the exterior rings of a MultiPolygon's polygons, in
      order; `poly[0]` of a polygon without rings raises IndexError. */
  function ExteriorOfPolygons(polys: seq<seq<Ring>>): (r: Result<seq<Point>, Error>)
    ensures r.Failure? <==> exists i :: 0 <= i < |polys| && |polys[i]| == 0
    ensures r.Failure? ==> r.error == MissingExteriorRing
  {
    var parts := seq(|polys|, i requires 0 <= i < |polys| => ExteriorRing(polys[i]));
    ConcatError(parts, MissingExteriorRing);
    ConcatSucceeds(parts);
    assert forall i :: 0 <= i < |polys| ==> (parts[i].Success? <==> |polys[i]| > 0);
    ConcatAll(parts)
  }

  /** A geometry whose exterior ring cannot be read: a polygon without rings,
      or a MultiPolygon with such a polygon. */
  predicate Ringless(g: Geometry)
  {
    match g
    case Polygon(rings) => |rings| == 0
    case MultiPolygon(polys) => exists i :: 0 <= i < |polys| && |polys[i]| == 0
    case OtherGeometry => false
  }

  /** Lines 190-194 for one geometry; other geometry types add nothing.
      It fails exactly on a ringless geometry. */
  function ExteriorOf(g: Geometry): (r: Result<seq<Point>, Error>)
    ensures r.Failure? <==> Ringless(g)
    ensures r.Failure? ==> r.error == MissingExteriorRing
  {
    match g
    case Polygon(rings) => ExteriorRing(rings)
    case MultiPolygon(polys) => ExteriorOfPolygons(polys)
    case OtherGeometry => Success([])
  }

  function FeatureParts(features: seq<Feature>): (parts: seq<Result<seq<Point>, Error>>)
    ensures |parts| == |features| && forall k :: 0 <= k < |features| ==> parts[k] == ExteriorOf(features[k].geometry)
  {
    seq(|features|, k requires 0 <= k < |features| => ExteriorOf(features[k].geometry))
  }

  /** Lines 187-194 for one layer: fails exactly when one of its features
      is ringless. */
  function ExteriorOfFeatures(features: seq<Feature>): (r: Result<seq<Point>, Error>)
    ensures r.Failure? <==> exists k :: 0 <= k < |features| && Ringless(features[k].geometry)
    ensures r.Failure? ==> r.error == MissingExteriorRing
  {
    ConcatError(FeatureParts(features), MissingExteriorRing);
    ConcatSucceeds(FeatureParts(features));
    ConcatAll(FeatureParts(features))
  }

  function LayerParts(layers: seq<seq<Feature>>): (parts: seq<Result<seq<Point>, Error>>)
    ensures |parts| == |layers| && forall l :: 0 <= l < |layers| ==> parts[l] == ExteriorOfFeatures(layers[l])
  {
    seq(|layers|, l requires 0 <= l < |layers| => ExteriorOfFeatures(layers[l]))
  }

  /** `all_coords` after the loop of lines 186-194, or the IndexError of a
      polygon without rings: no other failure is possible. */
  function ExteriorOfLayers(layers: seq<seq<Feature>>): (r: Result<seq<Point>, Error>)
    ensures r.Failure? <==>
              exists l, k :: 0 <= l < |layers| && 0 <= k < |layers[l]| && Ringless(layers[l][k].geometry)
    ensures r.Failure? ==> r.error == MissingExteriorRing
  {
    ConcatError(LayerParts(layers), MissingExteriorRing);
    ConcatSucceeds(LayerParts(layers));
    ConcatAll(LayerParts(layers))
  }

  lemma ThenUnit(a: seq<Point>)
    ensures Then(Success(a), Success([])) == Success(a)
  {
    assert a + [] == a;
  }

  lemma ThenAssociative(a: Result<seq<Point>, Error>, b: Result<seq<Point>, Error>, c: Result<seq<Point>, Error>)
    ensures Then(Then(a, b), c) == Then(a, Then(b, c))
  {
    if a.Success? && b.Success? && c.Success? {
      assert (a.value + b.value) + c.value == a.value + (b.value + c.value);
    }
  }

  lemma ConcatStep(parts: seq<Result<seq<Point>, Error>>, i: nat)
    requires i < |parts|
    ensures ConcatAll(parts[..i + 1]) == Then(ConcatAll(parts[..i]), parts[i])
  {
    assert parts[..i + 1][..i] == parts[..i];
  }

  /** Once a piece fails, the remaining pieces change nothing: the source
      stops at the first IndexError. */
  lemma {:induction false} ConcatFailureSticks(parts: seq<Result<seq<Point>, Error>>, i: nat)
    requires i <= |parts| && ConcatAll(parts[..i]).Failure?
    ensures ConcatAll(parts) == ConcatAll(parts[..i])
    decreases |parts| - i
  {
    if i < |parts| {
      ConcatStep(parts, i);
      ConcatFailureSticks(parts, i + 1);
    } else {
      assert parts[..i] == parts;
    }
  }

  /** Every vertex a piece contributes is collected, in a run that succeeds. */
  lemma {:induction false} ConcatCollects(parts: seq<Result<seq<Point>, Error>>)
    requires ConcatAll(parts).Success?
    ensures forall k :: 0 <= k < |parts| ==>
              parts[k].Success? && forall p :: p in parts[k].value ==> p in ConcatAll(parts).value
  {
    if parts != [] {
      var n := |parts| - 1;
      ConcatCollects(parts[..n]);
      assert forall k :: 0 <= k < n ==> parts[..n][k] == parts[k];
    }
  }

  /** A run succeeds exactly when every piece does. */
  lemma {:induction false} ConcatSucceeds(parts: seq<Result<seq<Point>, Error>>)
    ensures ConcatAll(parts).Success? <==> forall k :: 0 <= k < |parts| ==> parts[k].Success?
  {
    if parts != [] {
      var n := |parts| - 1;
      ConcatSucceeds(parts[..n]);
      assert forall k :: 0 <= k < n ==> parts[..n][k] == parts[k];
    }
  }

  /** Every collected vertex comes from one of the pieces. */
  lemma {:induction false} ConcatFrom(parts: seq<Result<seq<Point>, Error>>)
    requires ConcatAll(parts).Success?
    ensures forall p :: p in ConcatAll(parts).value ==>
              exists k :: 0 <= k < |parts| && parts[k].Success? && p in parts[k].value
  {
    if parts != [] {
      var n := |parts| - 1;
      ConcatFrom(parts[..n]);
      assert forall k :: 0 <= k < n ==> parts[..n][k] == parts[k];
    }
  }

  /** A run fails only with an error one of its pieces raised. */
  lemma {:induction false} ConcatError(parts: seq<Result<seq<Point>, Error>>, e: Error)
    requires forall k :: 0 <= k < |parts| && parts[k].Failure? ==> parts[k].error == e
    ensures ConcatAll(parts).Failure? ==> ConcatAll(parts).error == e
  {
    if parts != [] {
      var n := |parts| - 1;
      assert forall k :: 0 <= k < n ==> parts[..n][k] == parts[k];
      ConcatError(parts[..n], e);
    }
  }

  /** Every exterior vertex of every feature is among the collected ones. */
  lemma LayersExteriorCollected(layers: seq<seq<Feature>>)
    requires ExteriorOfLayers(layers).Success?
    ensures forall l, k :: 0 <= l < |layers| && 0 <= k < |layers[l]| ==>
              ExteriorOf(layers[l][k].geometry).Success? &&
              forall p :: p in ExteriorOf(layers[l][k].geometry).value ==> p in ExteriorOfLayers(layers).value
  {
    ConcatCollects(LayerParts(layers));
    forall l | 0 <= l < |layers| {
      ConcatCollects(FeatureParts(layers[l]));
    }
  }

  /** p is a vertex of the exterior ring of some feature of some layer. */
  ghost predicate IsExteriorVertex(layers: seq<seq<Feature>>, p: Point)
  {
    exists l, k :: 0 <= l < |layers| && 0 <= k < |layers[l]| &&
      ExteriorOf(layers[l][k].geometry).Success? && p in ExteriorOf(layers[l][k].geometry).value
  }

  /** Nothing but exterior vertices is collected. */
  lemma CollectedAreExterior(layers: seq<seq<Feature>>)
    requires ExteriorOfLayers(layers).Success?
    ensures forall p :: p in ExteriorOfLayers(layers).value ==> IsExteriorVertex(layers, p)
  {
    ConcatFrom(LayerParts(layers));
    forall p | p in ExteriorOfLayers(layers).value ensures IsExteriorVertex(layers, p) {
      var l :| 0 <= l < |layers| && LayerParts(layers)[l].Success? && p in LayerParts(layers)[l].value;
      ConcatFrom(FeatureParts(layers[l]));
      var k :| 0 <= k < |layers[l]| && FeatureParts(layers[l])[k].Success? && p in FeatureParts(layers[l])[k].value;
    }
  }

  /** `all_coords` holds exactly the exterior vertices of all features. */
  lemma ExteriorVerticesCollected(layers: seq<seq<Feature>>)
    requires ExteriorOfLayers(layers).Success?
    ensures forall p :: p in ExteriorOfLayers(layers).value <==> IsExteriorVertex(layers, p)
  {
    LayersExteriorCollected(layers);
    CollectedAreExterior(layers);
  }

  /** Lines 190-194 for one geometry, extending `all`. */
  method ExtendWithExterior(all: seq<Point>, g: Geometry) returns (res: Result<seq<Point>, Error>)
    ensures res == Then(Success(all), ExteriorOf(g))
  {
    match g {
      case Polygon(rings) =>
        if |rings| == 0 {
          return Failure(MissingExteriorRing);
        }
        res := Success(all + rings[0]);
      case MultiPolygon(polys) =>
        ghost var parts := seq(|polys|, i requires 0 <= i < |polys| => ExteriorRing(polys[i]));
        var acc := all;
        assert parts[..0] == [];
        ThenUnit(all);
        for i := 0 to |polys|
          invariant Then(Success(all), ConcatAll(parts[..i])) == Success(acc)
        {
          ConcatStep(parts, i);
          ThenAssociative(Success(all), ConcatAll(parts[..i]), parts[i]);
          if |polys[i]| == 0 {
            ConcatFailureSticks(parts, i + 1);
            return Failure(MissingExteriorRing);
          }
          acc := acc + polys[i][0];
        }
        assert parts[..|polys|] == parts;
        res := Success(acc);
      case OtherGeometry =>
        ThenUnit(all);
        res := Success(all);
    }
  }

  /** Lines 185-194: collect the exterior vertices of every feature of every
      layer, stopping at the first polygon without rings. */
  method CollectExterior(layers: seq<seq<Feature>>) returns (res: Result<seq<Point>, Error>)
    ensures res == ExteriorOfLayers(layers)
  {
    ghost var layerParts := LayerParts(layers);
    var all: seq<Point> := [];
    for l := 0 to |layers|
      invariant ConcatAll(layerParts[..l]) == Success(all)
    {
      ConcatStep(layerParts, l);
      var features := layers[l];
      ghost var featureParts := FeatureParts(features);
      ghost var before := all;
      assert featureParts[..0] == [];
      ThenUnit(all);
      for k := 0 to |features|
        invariant Then(Success(before), ConcatAll(featureParts[..k])) == Success(all)
      {
        ConcatStep(featureParts, k);
        ThenAssociative(Success(before), ConcatAll(featureParts[..k]), featureParts[k]);
        var next := ExtendWithExterior(all, features[k].geometry);
        if next.Failure? {
          ConcatFailureSticks(featureParts, k + 1);
          ConcatFailureSticks(layerParts, l + 1);
          return next;
        }
        all := next.value;
      }
      assert featureParts[..|features|] == featureParts;
    }
    assert layerParts[..|layers|] == layerParts;
    res := Success(all);
  }

  // ---------------------------------------------------------------------
  // The bounding box (lines 196-198)
  // ---------------------------------------------------------------------

  datatype Box = Box(minX: real, maxX: real, minY: real, maxY: real)

  predicate Inside(b: Box, p: Point)
  {
    b.minX <= p.x <= b.maxX && b.minY <= p.y <= b.maxY
  }

  /** `min(xs), max(xs), min(ys), max(ys)`: every point lies in the box and
      each of its four sides is reached by some point. */
  function BoundsOf(pts: seq<Point>): (b: Box)
    requires |pts| > 0
    ensures forall p :: p in pts ==> Inside(b, p)
    ensures exists p :: p in pts && p.x == b.minX
    ensures exists p :: p in pts && p.x == b.maxX
    ensures exists p :: p in pts && p.y == b.minY
    ensures exists p :: p in pts && p.y == b.maxY
  {
    var last := pts[|pts| - 1];
    if |pts| == 1 then Box(last.x, last.x, last.y, last.y)
    else
      var rest := pts[..|pts| - 1];
      var b := BoundsOf(rest);
      assert forall p :: p in rest ==> p in pts;
      assert pts == rest + [last];
      Box(if last.x < b.minX then last.x else b.minX,
          if last.x > b.maxX then last.x else b.maxX,
          if last.y < b.minY then last.y else b.minY,
          if last.y > b.maxY then last.y else b.maxY)
  }

  // ---------------------------------------------------------------------
  // normalize(x, y) (lines 201-204)
  // ---------------------------------------------------------------------

  /** Neither division of `normalize` is by zero. */
  predicate NonDegenerate(b: Box)
  {
    b.minX < b.maxX && b.minY < b.maxY
  }

  /** `normalize(x, y)`: a point of the box lands in the unit square. */
  function Normalize(b: Box, p: Point): (q: Point)
    requires NonDegenerate(b)
    ensures Inside(b, p) ==> InUnitSquare(q)
  {
    DivideWithinUnit(p.x - b.minX, b.maxX - b.minX);
    DivideWithinUnit(p.y - b.minY, b.maxY - b.minY);
    Point((p.x - b.minX) / (b.maxX - b.minX), 1.0 - (p.y - b.minY) / (b.maxY - b.minY))
  }

  /** The inverse map, from the unit square back to world coordinates. */
  function Denormalize(b: Box, q: Point): Point
    requires NonDegenerate(b)
  {
    Point(b.minX + q.x * (b.maxX - b.minX), b.minY + (1.0 - q.y) * (b.maxY - b.minY))
  }

  predicate InUnitSquare(q: Point)
  {
    0.0 <= q.x <= 1.0 && 0.0 <= q.y <= 1.0
  }

  /** The box's sides land on the unit square's sides, Y flipped: min_x to
      x 0, max_x to x 1, min_y to y 1 and max_y to y 0. */
  lemma NormalizeSides(b: Box, p: Point)
    requires NonDegenerate(b)
    ensures p.x == b.minX ==> Normalize(b, p).x == 0.0
    ensures p.x == b.maxX ==> Normalize(b, p).x == 1.0
    ensures p.y == b.minY ==> Normalize(b, p).y == 1.0
    ensures p.y == b.maxY ==> Normalize(b, p).y == 0.0
  {
    var dx, dy := b.maxX - b.minX, b.maxY - b.minY;
    var q := Normalize(b, p);
    assert q.x == (p.x - b.minX) / dx && q.y == 1.0 - (p.y - b.minY) / dy;
    if p.x == b.maxX {
      DivideSelf(dx);
    }
    if p.y == b.maxY {
      DivideSelf(dy);
    }
  }

  lemma DivideSelf(d: real)
    requires d != 0.0
    ensures d / d == 1.0
  {
  }

  lemma DivideWithinUnit(a: real, d: real)
    requires 0.0 < d
    ensures 0.0 <= a <= d ==> 0.0 <= a / d <= 1.0
  {
  }

  /** Normalising loses nothing: the inverse map gives the point back, so
      distinct vertices stay distinct. */
  lemma NormalizeRoundTrip(b: Box, p: Point)
    requires NonDegenerate(b)
    ensures Denormalize(b, Normalize(b, p)) == p
  {
    var dx, dy := b.maxX - b.minX, b.maxY - b.minY;
    assert (p.x - b.minX) / dx * dx == p.x - b.minX;
    assert (p.y - b.minY) / dy * dy == p.y - b.minY;
  }

  /** The map keeps the order of x and reverses the order of y. */
  lemma NormalizeOrder(b: Box, p: Point, q: Point)
    requires NonDegenerate(b)
    ensures p.x <= q.x <==> Normalize(b, p).x <= Normalize(b, q).x
    ensures p.y <= q.y <==> Normalize(b, p).y >= Normalize(b, q).y
  {
    DivideMonotone(p.x - b.minX, q.x - b.minX, b.maxX - b.minX);
    DivideMonotone(p.y - b.minY, q.y - b.minY, b.maxY - b.minY);
  }

  lemma DivideMonotone(a: real, c: real, d: real)
    requires 0.0 < d
    ensures a <= c <==> a / d <= c / d
  {
    assert c / d - a / d == (c - a) / d;
  }

  // ---------------------------------------------------------------------
  // Rewriting the coordinates (lines 206-217)
  // ---------------------------------------------------------------------

  function NormalizeRing(b: Box, ring: Ring): (r: Ring)
    requires NonDegenerate(b)
    ensures |r| == |ring| && forall j :: 0 <= j < |ring| ==> r[j] == Normalize(b, ring[j])
  {
    seq(|ring|, j requires 0 <= j < |ring| => Normalize(b, ring[j]))
  }

  /** `[[normalize(x, y) for x, y in ring] for ring in rings]` */
  function NormalizeRings(b: Box, rings: seq<Ring>): (r: seq<Ring>)
    requires NonDegenerate(b)
    ensures |r| == |rings| && forall i :: 0 <= i < |rings| ==> r[i] == NormalizeRing(b, rings[i])
  {
    seq(|rings|, i requires 0 <= i < |rings| => NormalizeRing(b, rings[i]))
  }

  /** Lines 208-217 for one geometry: the type and the numbers of
      polygons, rings and vertices per ring stay as they were. */
  function NormalizeGeometry(b: Box, g: Geometry): (r: Geometry)
    requires NonDegenerate(b)
    ensures SameShape(g, r)
  {
    match g
    case Polygon(rings) => Polygon(NormalizeRings(b, rings))
    case MultiPolygon(polys) =>
      MultiPolygon(seq(|polys|, i requires 0 <= i < |polys| => NormalizeRings(b, polys[i])))
    case OtherGeometry => OtherGeometry
  }

  /** Two lists of rings with the same number of rings and of vertices per ring. */
  predicate SameRings(a: seq<Ring>, c: seq<Ring>)
  {
    |a| == |c| && forall i :: 0 <= i < |a| ==> |a[i]| == |c[i]|
  }

  predicate SameShape(g: Geometry, h: Geometry)
  {
    match (g, h)
    case (Polygon(a), Polygon(c)) => SameRings(a, c)
    case (MultiPolygon(a), MultiPolygon(c)) =>
      |a| == |c| && forall i :: 0 <= i < |a| ==> SameRings(a[i], c[i])
    case (OtherGeometry, OtherGeometry) => true
    case _ => false
  }

  lemma NormalizeRingAppend(b: Box, xs: Ring, ys: Ring)
    requires NonDegenerate(b)
    ensures NormalizeRing(b, xs + ys) == NormalizeRing(b, xs) + NormalizeRing(b, ys)
  {
  }

  /** A collected result with every vertex normalised. */
  function NormalizeResult(b: Box, r: Result<seq<Point>, Error>): Result<seq<Point>, Error>
    requires NonDegenerate(b)
  {
    if r.Failure? then r else Success(NormalizeRing(b, r.value))
  }

  lemma {:induction false} ConcatNormalized(b: Box, parts: seq<Result<seq<Point>, Error>>, normalized: seq<Result<seq<Point>, Error>>)
    requires NonDegenerate(b) && |normalized| == |parts|
    requires forall k :: 0 <= k < |parts| ==> normalized[k] == NormalizeResult(b, parts[k])
    ensures ConcatAll(normalized) == NormalizeResult(b, ConcatAll(parts))
  {
    if parts != [] {
      var n := |parts| - 1;
      ConcatNormalized(b, parts[..n], normalized[..n]);
      var before := ConcatAll(parts[..n]);
      if before.Success? && parts[n].Success? {
        NormalizeRingAppend(b, before.value, parts[n].value);
      }
    }
  }

  /** The exterior rings of the normalised geometry are the normalised
      exterior rings. */
  lemma NormalizeExterior(b: Box, g: Geometry)
    requires NonDegenerate(b) && ExteriorOf(g).Success?
    ensures ExteriorOf(NormalizeGeometry(b, g)) == Success(NormalizeRing(b, ExteriorOf(g).value))
  {
    if g.MultiPolygon? {
      var polys := g.polygons;
      var normalized := seq(|polys|, i requires 0 <= i < |polys| => NormalizeRings(b, polys[i]));
      ConcatNormalized(b, seq(|polys|, i requires 0 <= i < |polys| => ExteriorRing(polys[i])),
                          seq(|polys|, i requires 0 <= i < |polys| => ExteriorRing(normalized[i])));
    }
  }

  /** Lines 206-217: every feature of every layer gets normalised coordinates. */
  method NormalizeLayers(b: Box, layers: seq<seq<Feature>>) returns (out: seq<seq<Feature>>)
    requires NonDegenerate(b)
    ensures |out| == |layers|
    ensures forall l :: 0 <= l < |layers| ==> |out[l]| == |layers[l]|
    ensures forall l, k :: 0 <= l < |layers| && 0 <= k < |layers[l]| ==>
              out[l][k] == layers[l][k].(geometry := NormalizeGeometry(b, layers[l][k].geometry))
  {
    out := layers;
    for l := 0 to |layers|
      invariant |out| == |layers|
      invariant forall m :: 0 <= m < |layers| ==> |out[m]| == |layers[m]|
      invariant forall m, k :: 0 <= m < l && 0 <= k < |layers[m]| ==>
                  out[m][k] == layers[m][k].(geometry := NormalizeGeometry(b, layers[m][k].geometry))
      invariant forall m :: l <= m < |layers| ==> out[m] == layers[m]
    {
      var features := out[l];
      for k := 0 to |features|
        invariant |features| == |layers[l]|
        invariant forall j :: 0 <= j < k ==>
                    features[j] == layers[l][j].(geometry := NormalizeGeometry(b, layers[l][j].geometry))
        invariant forall j :: k <= j < |features| ==> features[j] == layers[l][j]
      {
        var feature := features[k];
        features := features[k := feature.(geometry := NormalizeGeometry(b, feature.geometry))];
      }
      out := out[l := features];
    }
  }

  // ---------------------------------------------------------------------
  // Lines 184-217 together
  // ---------------------------------------------------------------------

  /** The box a world is normalised by, once the exterior vertices are known. */
  function WorldBox(layers: seq<seq<Feature>>): (b: Box)
    requires ExteriorOfLayers(layers).Success? && |ExteriorOfLayers(layers).value| > 0
    ensures forall l, k :: 0 <= l < |layers| && 0 <= k < |layers[l]| ==>
              ExteriorOf(layers[l][k].geometry).Success? &&
              forall p :: p in ExteriorOf(layers[l][k].geometry).value ==> Inside(b, p)
    ensures exists p :: IsExteriorVertex(layers, p) && p.x == b.minX
    ensures exists p :: IsExteriorVertex(layers, p) && p.x == b.maxX
    ensures exists p :: IsExteriorVertex(layers, p) && p.y == b.minY
    ensures exists p :: IsExteriorVertex(layers, p) && p.y == b.maxY
  {
    LayersExteriorCollected(layers);
    CollectedAreExterior(layers);
    BoundsOf(ExteriorOfLayers(layers).value)
  }

  /** One box for all layers, then every layer normalised by it. Fails as
      the source does: a polygon without rings, a world without vertices, a
      box of zero width or height. On success nothing but the coordinates
      changes, each geometry keeps its shape, and every exterior vertex lies
      in the unit square. */
  method NormalizeWorld(layers: seq<seq<Feature>>) returns (res: Result<seq<seq<Feature>>, Error>)
    ensures ExteriorOfLayers(layers).Failure? ==> res == Failure(MissingExteriorRing)
    ensures ExteriorOfLayers(layers) == Success([]) ==> res == Failure(NoVertices)
    ensures ExteriorOfLayers(layers).Success? && |ExteriorOfLayers(layers).value| > 0 ==>
              if NonDegenerate(WorldBox(layers)) then res.Success? else res == Failure(DegenerateExtent)
    ensures res.Success? ==>
              && ExteriorOfLayers(layers).Success? && |ExteriorOfLayers(layers).value| > 0
              && NonDegenerate(WorldBox(layers))
              && |res.value| == |layers|
              && (forall l :: 0 <= l < |layers| ==> |res.value[l]| == |layers[l]|)
              && (forall l, k :: 0 <= l < |layers| && 0 <= k < |layers[l]| ==>
                    && res.value[l][k].props == layers[l][k].props
                    && res.value[l][k].geometry == NormalizeGeometry(WorldBox(layers), layers[l][k].geometry)
                    && SameShape(layers[l][k].geometry, res.value[l][k].geometry)
                    && ExteriorOf(res.value[l][k].geometry).Success?
                    && forall q :: q in ExteriorOf(res.value[l][k].geometry).value ==> InUnitSquare(q))
  {
    var collected := CollectExterior(layers);
    if collected.Failure? {
      return Failure(collected.error);
    }
    var allCoords := collected.value;
    if |allCoords| == 0 {
      return Failure(NoVertices);
    }
    var b := BoundsOf(allCoords);
    if !(b.minX < b.maxX && b.minY < b.maxY) {
      return Failure(DegenerateExtent);
    }
    var out: seq<seq<Feature>> := NormalizeLayers(b, layers);
    LayersExteriorCollected(layers);
    forall l, k | 0 <= l < |layers| && 0 <= k < |layers[l]|
      ensures SameShape(layers[l][k].geometry, out[l][k].geometry)
      ensures ExteriorOf(out[l][k].geometry).Success?
      ensures forall q :: q in ExteriorOf(out[l][k].geometry).value ==> InUnitSquare(q)
    {
      var g := layers[l][k].geometry;
      NormalizeExterior(b, g);
      forall q | q in ExteriorOf(out[l][k].geometry).value ensures InUnitSquare(q) {
        var pts := ExteriorOf(g).value;
        var j :| 0 <= j < |pts| && NormalizeRing(b, pts)[j] == q;
        assert pts[j] in pts;
      }
    }
    res := Success(out);
  }
}
