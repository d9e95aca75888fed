/** The region resolver of extract_regions (build_data.py lines 127-144):
    features are kept or dropped by their label's colour, and kept ones are
    tagged with the colour, its hex spelling and the region name. */
module Resolver {
  import opened Wrappers
  import opened Palette
  import opened Features

  /** `index_to_color.get(idx, (0, 0, 0))` */
  function ColorOfLabel(indexToColor: map<int, Rgb>, idx: int): (c: Rgb)
    ensures c != Rgb(0, 0, 0) ==> idx in indexToColor
    ensures ByteColors(indexToColor) ==> IsByteColor(c)
  {
    if idx in indexToColor then indexToColor[idx] else Rgb(0, 0, 0)
  }

  /** index_to_color is built from the image's pixels, so its colours are bytes. */
  predicate ByteColors(indexToColor: map<int, Rgb>)
  {
    forall l :: l in indexToColor ==> IsByteColor(indexToColor[l])
  }

  /** One pass of the loop body: Some(feature as appended) or None (dropped). */
  function ResolveOne(f: Feature, indexToColor: map<int, Rgb>, regions: map<Rgb, string>, keepUncolored: bool): (r: Option<Feature>)
    requires ByteColors(indexToColor)
    ensures r.Some? ==> r.value.geometry == f.geometry && r.value.props.dn == f.props.dn
    ensures r.Some? && f.props.dn.None? ==> r.value == f
  {
    match f.props.dn
    case None => if keepUncolored then Some(f) else None
    case Some(idx) =>
      var color := ColorOfLabel(indexToColor, idx);
      if color in regions then
        Some(f.(props := f.props.(rgb := Some(color), colorHex := Some(HexColor(color)), name := Some(regions[color]))))
      else None
  }

  /** `new_features` after the loop over `features`. */
  function ResolveAll(features: seq<Feature>, indexToColor: map<int, Rgb>, regions: map<Rgb, string>, keepUncolored: bool): (r: seq<Feature>)
    requires ByteColors(indexToColor)
    ensures |r| <= |features|
  {
    if features == [] then []
    else
      var n := |features| - 1;
      var before := ResolveAll(features[..n], indexToColor, regions, keepUncolored);
      match ResolveOne(features[n], indexToColor, regions, keepUncolored)
      case Some(g) => before + [g]
      case None => before
  }

  /** The positions in `features` of the features that are kept. */
  function KeptPositions(features: seq<Feature>, indexToColor: map<int, Rgb>, regions: map<Rgb, string>, keepUncolored: bool): seq<nat>
    requires ByteColors(indexToColor)
  {
    if features == [] then []
    else
      var n := |features| - 1;
      var before := KeptPositions(features[..n], indexToColor, regions, keepUncolored);
      if ResolveOne(features[n], indexToColor, regions, keepUncolored).Some? then before + [n] else before
  }

  /** The kept positions are exactly the positions of the features
      ResolveOne keeps, in increasing order. */
  lemma {:induction false} KeptPositionsExact(features: seq<Feature>, indexToColor: map<int, Rgb>, regions: map<Rgb, string>, keepUncolored: bool)
    requires ByteColors(indexToColor)
    ensures var pos := KeptPositions(features, indexToColor, regions, keepUncolored);
      && (forall j :: 0 <= j < |pos| ==> pos[j] < |features|)
      && (forall a, b :: 0 <= a < b < |pos| ==> pos[a] < pos[b])
      && (forall i :: 0 <= i < |features| ==>
            (i in pos <==> ResolveOne(features[i], indexToColor, regions, keepUncolored).Some?))
  {
    if features != [] {
      var n := |features| - 1;
      KeptPositionsExact(features[..n], indexToColor, regions, keepUncolored);
      assert forall i :: 0 <= i < n ==> features[..n][i] == features[i];
    }
  }

  /** The j-th output is the resolved form of the feature at the j-th kept
      position. */
  lemma {:induction false} ResolveAtKeptPositions(features: seq<Feature>, indexToColor: map<int, Rgb>, regions: map<Rgb, string>, keepUncolored: bool)
    requires ByteColors(indexToColor)
    ensures var out := ResolveAll(features, indexToColor, regions, keepUncolored);
      var pos := KeptPositions(features, indexToColor, regions, keepUncolored);
      && |pos| == |out|
      && (forall j :: 0 <= j < |pos| ==>
            pos[j] < |features| && ResolveOne(features[pos[j]], indexToColor, regions, keepUncolored) == Some(out[j]))
  {
    if features != [] {
      var n := |features| - 1;
      ResolveAtKeptPositions(features[..n], indexToColor, regions, keepUncolored);
      var pos0 := KeptPositions(features[..n], indexToColor, regions, keepUncolored);
      assert forall j :: 0 <= j < |pos0| ==> features[..n][pos0[j]] == features[pos0[j]];
    }
  }

  /** The output is an order-preserving subsequence of the input: the j-th
      output is the resolved form of the input at a strictly increasing
      position, and exactly the features ResolveOne keeps appear. */
  lemma ResolveIsOrderedFilter(features: seq<Feature>, indexToColor: map<int, Rgb>, regions: map<Rgb, string>, keepUncolored: bool)
    requires ByteColors(indexToColor)
    ensures var out := ResolveAll(features, indexToColor, regions, keepUncolored);
      var pos := KeptPositions(features, indexToColor, regions, keepUncolored);
      && |pos| == |out|
      && (forall a, b :: 0 <= a < b < |pos| ==> pos[a] < pos[b])
      && (forall j :: 0 <= j < |pos| ==>
            pos[j] < |features| && ResolveOne(features[pos[j]], indexToColor, regions, keepUncolored) == Some(out[j]))
      && (forall i :: 0 <= i < |features| ==>
            (i in pos <==> ResolveOne(features[i], indexToColor, regions, keepUncolored).Some?))
  {
    KeptPositionsExact(features, indexToColor, regions, keepUncolored);
    ResolveAtKeptPositions(features, indexToColor, regions, keepUncolored);
  }

  /** What happens to one feature: without DN it is kept, untouched, exactly
      when uncoloured features are kept; with DN it is kept exactly when its
      label's colour (black for an unknown label) is a region colour, and then
      it carries that region's name and a `#rrggbb` string that reads back
      as the colour. */
  lemma ResolveOneRules(f: Feature, indexToColor: map<int, Rgb>, regions: map<Rgb, string>, keepUncolored: bool)
    requires ByteColors(indexToColor)
    ensures var r := ResolveOne(f, indexToColor, regions, keepUncolored);
      && (f.props.dn.None? ==> (r.Some? <==> keepUncolored) && (r.Some? ==> r.value == f))
      && (f.props.dn.Some? ==>
            var color := ColorOfLabel(indexToColor, f.props.dn.value);
            && (r.Some? <==> color in regions)
            && (f.props.dn.value !in indexToColor ==> color == Rgb(0, 0, 0))
            && (r.Some? ==>
                  && r.value.geometry == f.geometry
                  && r.value.props.dn == f.props.dn
                  && r.value.props.rgb == Some(color)
                  && r.value.props.name == Some(regions[color])
                  && r.value.props.colorHex.Some?
                  && IsHexColorString(r.value.props.colorHex.value)
                  && ParseHexColor(r.value.props.colorHex.value) == Some(color)))
  {
    if f.props.dn.Some? {
      var color := ColorOfLabel(indexToColor, f.props.dn.value);
      HexColorRoundTrip(color);
    }
  }

  /** One more feature extends the resolved list by what ResolveOne makes of it. */
  lemma ResolveAllStep(features: seq<Feature>, k: int, indexToColor: map<int, Rgb>, regions: map<Rgb, string>, keepUncolored: bool)
    requires ByteColors(indexToColor) && 0 <= k < |features|
    ensures var before := ResolveAll(features[..k], indexToColor, regions, keepUncolored);
      ResolveAll(features[..k + 1], indexToColor, regions, keepUncolored)
      == match ResolveOne(features[k], indexToColor, regions, keepUncolored)
         case Some(g) => before + [g]
         case None => before
  {
    assert features[..k + 1][..k] == features[..k];
  }

  /** Lines 127-144: walk the features once, appending the kept ones. */
  method ResolveFeatures(features: seq<Feature>, indexToColor: map<int, Rgb>, regions: map<Rgb, string>, keepUncolored: bool)
    returns (kept: seq<Feature>)
    requires ByteColors(indexToColor)
    ensures kept == ResolveAll(features, indexToColor, regions, keepUncolored)
  {
    kept := [];
    for k := 0 to |features|
      invariant kept == ResolveAll(features[..k], indexToColor, regions, keepUncolored)
    {
      var feature := features[k];
      ResolveAllStep(features, k, indexToColor, regions, keepUncolored);
      match feature.props.dn {
        case None =>
          if keepUncolored {
            kept := kept + [feature];
          }
        case Some(idx) =>
          var color := ColorOfLabel(indexToColor, idx);
          var hex := HexColor(color);
          var props := feature.props.(rgb := Some(color), colorHex := Some(hex));
          if color in regions {
            var named := feature.(props := props.(name := Some(regions[color])));
            assert ResolveOne(feature, indexToColor, regions, keepUncolored) == Some(named);
            kept := kept + [named];
          } else {
            assert ResolveOne(feature, indexToColor, regions, keepUncolored) == None;
          }
      }
    }
    assert features[..|features|] == features;
  }
}
