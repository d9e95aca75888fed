/** extract_regions (build_data.py lines 60-146) end to end: the catalog
    table, the label raster, and the resolution of the features traced from
    that raster. Tracing the raster into polygons is done by an external
    tool; here its output is the `features` parameter. */
module Regions {
  import opened Wrappers
  import Tables
  import DisplayNames
  import opened Palette
  import opened Labels
  import opened Features
  import opened Resolver

  /** The image is decoded to 8-bit RGB. */
  ghost predicate ByteImage(img: array2<Rgb>)
    reads img
  {
    forall i, j :: OnImage(img, i, j) ==> IsByteColor(img[i, j])
  }

  /** index_to_color only holds pixel colours, so only byte colours. */
  lemma PixelColorsAreBytes(img: array2<Rgb>, colors: seq<Rgb>)
    requires ByteImage(img) && StrictlySorted(colors)
    requires forall c :: c in colors ==> Occurs(img, c)
    ensures ByteColors(IndexToColor(colors))
  {
    LabelsInvert(colors);
    forall l | l in IndexToColor(colors) ensures IsByteColor(IndexToColor(colors)[l]) {
      LabelAt(colors, l - 1);
      assert Occurs(img, colors[l - 1]);
    }
  }

  /** The first colour of a strictly sorted list comes before every other one. */
  lemma HeadIsLeast(colors: seq<Rgb>, c: Rgb)
    requires StrictlySorted(colors) && c in colors
    ensures c == colors[0] || RgbBefore(colors[0], c)
  {
    var k :| 0 <= k < |colors| && colors[k] == c;
    if k > 0 {
      assert RgbBefore(colors[0], colors[k]);
    }
  }

  /** np.unique's result is determined by the set of pixel colours: two
      strictly sorted lists with the same members are equal. */
  lemma {:induction false} SortedUnique(xs: seq<Rgb>, ys: seq<Rgb>)
    requires StrictlySorted(xs) && StrictlySorted(ys)
    requires forall c :: c in xs <==> c in ys
    ensures xs == ys
  {
    if xs != [] {
      assert xs[0] in xs;
    }
    if ys != [] {
      assert ys[0] in ys;
    }
    if xs != [] && ys != [] {
      HeadIsLeast(ys, xs[0]);
      HeadIsLeast(xs, ys[0]);
      forall c ensures c in xs[1..] <==> c in ys[1..] {
        if c in xs[1..] {
          var k :| 1 <= k < |xs| && xs[k] == c;
          assert RgbBefore(xs[0], xs[k]);
          assert xs[k] in xs;
          var m :| 0 <= m < |ys| && ys[m] == c;
          assert ys[1..][m - 1] == c;
        }
        if c in ys[1..] {
          var k :| 1 <= k < |ys| && ys[k] == c;
          assert RgbBefore(ys[0], ys[k]);
          assert ys[k] in ys;
          var m :| 0 <= m < |xs| && xs[m] == c;
          assert xs[1..][m - 1] == c;
        }
      }
      SortedUnique(xs[1..], ys[1..]);
      assert xs == [xs[0]] + xs[1..] && ys == [ys[0]] + ys[1..];
    }
  }

  /** The point of the pipeline: a traced feature whose DN is the label a
      pixel of colour c received is kept exactly when c is a catalog colour,
      and then it carries c and the name of the catalog entry for c. */
  lemma LabelledFeatureNamesItsRegion(colors: seq<Rgb>, c: Rgb, f: Feature, regions: map<Rgb, string>, keepUncolored: bool)
    requires StrictlySorted(colors) && c in colors && ByteColors(IndexToColor(colors))
    requires f.props.dn == Some(LabelOf(colors, c))
    ensures var r := ResolveOne(f, IndexToColor(colors), regions, keepUncolored);
      && (r.Some? <==> c in regions)
      && (r.Some? ==> r.value.props.rgb == Some(c) && r.value.props.name == Some(regions[c]))
  {
    LabelOfProperties(colors, c, c);
  }

  /** Lines 60-146 with the tracing step supplied as `features`: an empty
      catalog fails first (line 74 runs before the image is read), an image
      without pixels fails when the GeoTIFF is created (lines 100-103);
      otherwise the result is the resolution of the features against the
      catalog table and the image's own palette. */
  method ExtractRegions(catalog: seq<Region>, img: array2<Rgb>, features: seq<Feature>, keepUncolored: bool)
    returns (res: Result<seq<Feature>, Error>)
    requires ByteImage(img)
    ensures res.Failure? <==> |catalog| == 0 || img.Length0 == 0 || img.Length1 == 0
    ensures |catalog| == 0 ==> res == Failure(EmptyCatalog)
    ensures |catalog| > 0 && (img.Length0 == 0 || img.Length1 == 0) ==> res == Failure(EmptyImage)
    ensures res.Success? ==>
              exists colors ::
                && StrictlySorted(colors)
                && (forall c :: c in colors <==> Occurs(img, c))
                && ByteColors(IndexToColor(colors))
                && res.value == ResolveAll(features, IndexToColor(colors), RegionTable(catalog).value, keepUncolored)
  {
    if |catalog| == 0 {
      return Failure(EmptyCatalog);
    }
    var regionColors := Colors(catalog);
    var regionNames := DisplayNames.NormalizeNames(Ids(catalog));
    var regions := Tables.LastWins(regionColors, regionNames);
    var colors, labels := LabelImage(img);
    if img.Length0 == 0 || img.Length1 == 0 {
      return Failure(EmptyImage);
    }
    var indexToColor := IndexToColor(colors);
    PixelColorsAreBytes(img, colors);
    var kept := ResolveFeatures(features, indexToColor, regions, keepUncolored);
    assert regions == RegionTable(catalog).value;
    res := Success(kept);
    assert && StrictlySorted(colors)
           && (forall c :: c in colors <==> Occurs(img, c))
           && ByteColors(IndexToColor(colors))
           && res.value == ResolveAll(features, IndexToColor(colors), RegionTable(catalog).value, keepUncolored);
  }
}
