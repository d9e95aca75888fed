/** The raster labeller of extract_regions (build_data.py lines 79-95 and
    125): enumerate the distinct pixel colours, number them 1..K, and write
    each pixel's number into a label raster of the same extent. */
module Labels {
  import Tables
  import opened Palette

  // ---------------------------------------------------------------------
  // np.unique(arr.reshape(-1, 3), axis=0)
  // ---------------------------------------------------------------------

  /** The lexicographic order np.unique sorts rows by. */
  predicate RgbBefore(a: Rgb, b: Rgb)
  {
    a.r < b.r || (a.r == b.r && (a.g < b.g || (a.g == b.g && a.b < b.b)))
  }

  predicate StrictlySorted(colors: seq<Rgb>)
  {
    forall i, j :: 0 <= i < j < |colors| ==> RgbBefore(colors[i], colors[j])
  }

  lemma SortedIsDistinct(colors: seq<Rgb>)
    requires StrictlySorted(colors)
    ensures Tables.Distinct(colors)
  {
    forall i, j | 0 <= i < j < |colors| ensures colors[i] != colors[j] {
      assert RgbBefore(colors[i], colors[j]);
    }
  }

  /** Adds c to a strictly sorted list at its place, unless it is already there. */
  function InsertColor(colors: seq<Rgb>, c: Rgb): (r: seq<Rgb>)
    requires StrictlySorted(colors)
    ensures StrictlySorted(r)
    ensures forall d :: d in r <==> d in colors || d == c
  {
    if colors == [] then [c]
    else if colors[0] == c then colors
    else if RgbBefore(c, colors[0]) then [c] + colors
    else
      var rest := InsertColor(colors[1..], c);
      assert forall d :: d in colors <==> d == colors[0] || d in colors[1..];
      assert RgbBefore(colors[0], c);
      assert forall k :: 0 <= k < |rest| ==> RgbBefore(colors[0], rest[k]) by {
        forall k | 0 <= k < |rest| ensures RgbBefore(colors[0], rest[k]) {
          if rest[k] != c {
            assert rest[k] in colors[1..];
            var m :| 1 <= m < |colors| && colors[m] == rest[k];
          }
        }
      }
      [colors[0]] + rest
  }

  /** Pixel (i, j) lies on the image. */
  predicate OnImage(img: array2<Rgb>, i: int, j: int)
  {
    0 <= i < img.Length0 && 0 <= j < img.Length1
  }

  /** The colour c is the colour of some pixel. */
  ghost predicate Occurs(img: array2<Rgb>, c: Rgb)
    reads img
  {
    exists i, j :: OnImage(img, i, j) && img[i, j] == c
  }

  /** np.unique over the pixels: every pixel colour exactly once, sorted. */
  method UniqueColors(img: array2<Rgb>) returns (colors: seq<Rgb>)
    ensures StrictlySorted(colors)
    ensures forall c :: c in colors <==> Occurs(img, c)
  {
    colors := [];
    for i := 0 to img.Length0
      invariant StrictlySorted(colors)
      invariant forall c :: c in colors ==> Occurs(img, c)
      invariant forall a, b :: 0 <= a < i && 0 <= b < img.Length1 ==> img[a, b] in colors
    {
      for j := 0 to img.Length1
        invariant StrictlySorted(colors)
        invariant forall c :: c in colors ==> Occurs(img, c)
        invariant forall a, b :: 0 <= a < i && 0 <= b < img.Length1 ==> img[a, b] in colors
        invariant forall b :: 0 <= b < j ==> img[i, b] in colors
      {
        assert OnImage(img, i, j);
        colors := InsertColor(colors, img[i, j]);
      }
    }
  }

  // ---------------------------------------------------------------------
  // color_to_index and index_to_color
  // ---------------------------------------------------------------------

  /** The labels 1..K in the order of `enumerate(colors)`. */
  function Numbering(k: nat): (labels: seq<int>)
    ensures |labels| == k && forall i :: 0 <= i < k ==> labels[i] == i + 1
  {
    seq(k, i => i + 1)
  }

  /** The numbers handed out are exactly 1..k. */
  lemma NumberingMembers(k: nat)
    ensures forall l :: l in Numbering(k) <==> 1 <= l <= k
  {
    var numbers := Numbering(k);
    forall l | 1 <= l <= k ensures l in numbers {
      assert numbers[l - 1] == l;
    }
  }

  /** `color_to_index = {tuple(color): idx + 1 for idx, color in enumerate(colors)}` */
  function ColorToIndex(colors: seq<Rgb>): (m: map<Rgb, int>)
    ensures forall c :: c in m <==> c in colors
  {
    Tables.LastWins(colors, Numbering(|colors|))
  }

  /** `index_to_color = {v: k for k, v in color_to_index.items()}`; the items
      of color_to_index come in the order of `colors`, which np.unique makes
      strictly sorted, so no colour repeats. */
  function IndexToColor(colors: seq<Rgb>): (m: map<int, Rgb>)
    requires StrictlySorted(colors)
    ensures forall l :: l in m <==> 1 <= l <= |colors|
  {
    NumberingMembers(|colors|);
    Tables.LastWins(Numbering(|colors|), colors)
  }

  /** The label a pixel of colour c receives: its number, or the background
      0 that np.zeros leaves when no mask covers it. */
  function LabelOf(colors: seq<Rgb>, c: Rgb): (l: int)
    ensures c !in colors ==> l == 0
  {
    var m := ColorToIndex(colors);
    if c in m then m[c] else 0
  }

  /** Colour k of the enumeration is numbered k + 1, both ways. */
  lemma LabelAt(colors: seq<Rgb>, k: int)
    requires StrictlySorted(colors) && 0 <= k < |colors|
    ensures colors[k] in ColorToIndex(colors) && ColorToIndex(colors)[colors[k]] == k + 1
    ensures k + 1 in IndexToColor(colors) && IndexToColor(colors)[k + 1] == colors[k]
  {
    SortedIsDistinct(colors);
    var numbers := Numbering(|colors|);
    assert Tables.Distinct(numbers);
    Tables.LastWinsDistinct(colors, numbers, k);
    Tables.LastWinsDistinct(numbers, colors, k);
  }

  /** Distinct colours get the labels 1..K, one each, and index_to_color is
      the exact inverse of color_to_index. */
  lemma LabelsInvert(colors: seq<Rgb>)
    requires StrictlySorted(colors)
    ensures forall c :: c in ColorToIndex(colors) <==> c in colors
    ensures forall l :: l in IndexToColor(colors) <==> 1 <= l <= |colors|
    ensures forall c :: c in ColorToIndex(colors) ==>
              ColorToIndex(colors)[c] in IndexToColor(colors) && IndexToColor(colors)[ColorToIndex(colors)[c]] == c
    ensures forall l :: l in IndexToColor(colors) ==>
              IndexToColor(colors)[l] in ColorToIndex(colors) && ColorToIndex(colors)[IndexToColor(colors)[l]] == l
  {
    forall c | c in ColorToIndex(colors)
      ensures ColorToIndex(colors)[c] in IndexToColor(colors) && IndexToColor(colors)[ColorToIndex(colors)[c]] == c
    {
      var k :| 0 <= k < |colors| && colors[k] == c;
      LabelAt(colors, k);
    }
    forall l | l in IndexToColor(colors)
      ensures IndexToColor(colors)[l] in ColorToIndex(colors) && ColorToIndex(colors)[IndexToColor(colors)[l]] == l
    {
      LabelAt(colors, l - 1);
    }
  }

  /** Different colours get different labels, and a colour that is not
      enumerated is left at the background 0. */
  lemma LabelOfProperties(colors: seq<Rgb>, c: Rgb, d: Rgb)
    requires StrictlySorted(colors)
    ensures c in colors <==> 1 <= LabelOf(colors, c) <= |colors|
    ensures c !in colors ==> LabelOf(colors, c) == 0
    ensures c in colors && d in colors && c != d ==> LabelOf(colors, c) != LabelOf(colors, d)
    ensures c in colors ==> LabelOf(colors, c) in IndexToColor(colors) && IndexToColor(colors)[LabelOf(colors, c)] == c
  {
    LabelsInvert(colors);
    if c in colors {
      var k :| 0 <= k < |colors| && colors[k] == c;
      LabelAt(colors, k);
    }
  }

  // ---------------------------------------------------------------------
  // The label raster
  // ---------------------------------------------------------------------

  /** `mask = np.all(arr == color, axis=-1); label_arr[mask] = idx` */
  method ApplyMask(labels: array2<int>, img: array2<Rgb>, color: Rgb, idx: int)
    requires labels.Length0 == img.Length0 && labels.Length1 == img.Length1
    modifies labels
    ensures forall i, j :: OnImage(img, i, j) ==>
              labels[i, j] == if img[i, j] == color then idx else old(labels[i, j])
  {
    for i := 0 to img.Length0
      invariant forall a, b :: OnImage(img, a, b) ==>
                  labels[a, b] == if a < i && img[a, b] == color then idx else old(labels[a, b])
    {
      for j := 0 to img.Length1
        invariant forall a, b :: OnImage(img, a, b) ==>
                    labels[a, b] == if (a < i || (a == i && b < j)) && img[a, b] == color then idx else old(labels[a, b])
      {
        if img[i, j] == color {
          labels[i, j] := idx;
        }
      }
    }
  }

  /** Lines 92-95: a zero raster, then one mask per enumerated colour. */
  method LabelRaster(img: array2<Rgb>, colors: seq<Rgb>) returns (labels: array2<int>)
    requires StrictlySorted(colors)
    ensures fresh(labels)
    ensures labels.Length0 == img.Length0 && labels.Length1 == img.Length1
    ensures forall i, j :: OnImage(img, i, j) ==> labels[i, j] == LabelOf(colors, img[i, j])
  {
    labels := new int[img.Length0, img.Length1]((i, j) => 0);
    LabelsInvert(colors);
    for k := 0 to |colors|
      invariant labels.Length0 == img.Length0 && labels.Length1 == img.Length1
      invariant forall i, j :: OnImage(img, i, j) ==>
                  labels[i, j] == if img[i, j] in colors[..k] then LabelOf(colors, img[i, j]) else 0
    {
      LabelAt(colors, k);
      ApplyMask(labels, img, colors[k], k + 1);
      assert forall c :: c in colors[..k + 1] <==> c in colors[..k] || c == colors[k];
    }
    assert colors[..|colors|] == colors;
    forall i, j | OnImage(img, i, j) ensures labels[i, j] == LabelOf(colors, img[i, j]) {
      LabelOfProperties(colors, img[i, j], img[i, j]);
    }
  }

  /** Lines 79-95 and 125: label every pixel of the image. Every pixel ends
      with a label in 1..K (none is left at 0), and index_to_color maps that
      label back to the pixel's exact colour. */
  method LabelImage(img: array2<Rgb>) returns (colors: seq<Rgb>, labels: array2<int>)
    ensures StrictlySorted(colors)
    ensures forall c :: c in colors <==> Occurs(img, c)
    ensures fresh(labels)
    ensures labels.Length0 == img.Length0 && labels.Length1 == img.Length1
    ensures forall i, j :: OnImage(img, i, j) ==>
              && 1 <= labels[i, j] <= |colors|
              && labels[i, j] in IndexToColor(colors)
              && IndexToColor(colors)[labels[i, j]] == img[i, j]
  {
    colors := UniqueColors(img);
    labels := LabelRaster(img, colors);
    forall i, j | OnImage(img, i, j)
      ensures && 1 <= labels[i, j] <= |colors|
              && labels[i, j] in IndexToColor(colors)
              && IndexToColor(colors)[labels[i, j]] == img[i, j]
    {
      assert Occurs(img, img[i, j]);
      LabelOfProperties(colors, img[i, j], img[i, j]);
    }
  }
}
