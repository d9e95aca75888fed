# build_data: a verified model of the region pipeline

`data_builder/build_data.py` turns a game world into a web map. Each world
has a palette-coloured region raster and an XML region catalog. The script
produces normalised, named region polygons from them. This project models
the data-shaping core of that script in Dafny and proves the properties it
relies on:

- **Display names** (`DisplayNames`, `normalize_names`):
  - the longest common prefix of all catalog ids, found by the explicit character loop;
  - its removal, then whitespace stripping and camel-case splitting.
- **Region table** (`Palette`, `Tables`):
  - the `colour -> name` dictionary, in which a later duplicate colour overwrites an earlier one;
  - the `#rrggbb` spelling of a colour.
- **Raster labeller** (`Labels`):
  - the sorted distinct pixel colours (`np.unique`);
  - the numbering `1..K` and its inverse;
  - the label raster, an `array2` written one colour mask at a time.
- **Region resolver** (`Resolver`): the filter over the traced features.
  - Features without `DN` follow `keep_uncolored_features`.
  - Labelled features are kept when their colour is a region colour.
  - A kept labelled feature gets the colour, its hex string and the region name.
- **`extract_regions`** (`Regions`): the pieces above composed. The traced features are an input.
- **Layer selection** (`LayerSelection`): the loop over the `RegionSet` nodes that picks the mining, poi and names layers.
- **Bounding box and normaliser** (`Normalizer`):
  - one box over the exterior rings of all three layers;
  - the affine map into the unit square with Y flipped, applied to every ring, holes included.

Modules:

- `Wrappers` holds `Option`, `Result` and the error cases.
- `Features` holds the GeoJSON records: polygons, multipolygons, other geometry types, and the properties the resolver reads and writes.

Each loop of the modelled code is a method with loop invariants. Most of these methods are proved equal to a recursive specification function. The others are proved against a per-element property, for example the label of every cell. The remaining properties are lemmas about those functions.

Python behaviour kept explicit:

- Dictionary comprehensions over repeated keys keep the last value (`Tables.LastWins`).
- `dict.get(idx, (0, 0, 0))` makes an unknown label black.
- Several inputs raise in the source. Each is a `Failure` case in the model:
  - `names[0]` on an empty catalog is `EmptyCatalog`.
  - `coords[0]` on a polygon without rings is `MissingExteriorRing`.
  - `zip(*[])` on a world without vertices is `NoVertices`.
  - A zero-width or zero-height box in `normalize` is `DegenerateExtent`.
  - An image of zero width or height is `EmptyImage`. The GeoTIFF driver creates no dataset for it (lines 100-102), so line 103 fails.

Behaviour of the code that a reader might not expect:

- The bounding box is taken over the exterior ring of each polygon only (lines 190-194), not over every vertex. Holes are normalised but do not widen the box.
- A labelled feature whose colour is not a region colour is always dropped (lines 139-142). `keep_uncolored_features` only decides the features that carry no `DN` at all (lines 129-132).
- An unknown label is treated as black (line 134), so it is kept when black is a region colour.

## Model

| member | source | states |
|---|---|---|
| Tables.LastWins | data_builder/build_data.py:75 | the dictionary built from parallel key and value lists has exactly the listed keys |
| Tables.LastWinsAt | data_builder/build_data.py:75 | each key maps to the value paired with its last occurrence |
| Tables.LastWinsDistinct | data_builder/build_data.py:87-89 | with distinct keys, the k-th key maps to the k-th value |
| DisplayNames.PairPrefix | data_builder/build_data.py:32-35 | the prefix kept for two strings is a prefix of both and stops at their first mismatch or at the end of one of them |
| DisplayNames.PairPrefixStopsAtMismatch | data_builder/build_data.py:32-35 | a common initial run that ends at a mismatch or at an end is exactly the two strings' shared prefix |
| DisplayNames.PairPrefixMaximal | data_builder/build_data.py:32-35 | any string that is a prefix of both inputs is a prefix of what the inner loop keeps |
| DisplayNames.MatchLength | data_builder/build_data.py:32-34 | the while loop stops at the length of the shared prefix of `common_prefix` and the name |
| DisplayNames.CommonPrefixTail | data_builder/build_data.py:30-35 | a prefix common to a list of ids is common to the first id and to the rest |
| DisplayNames.FoldPrefixCommon | data_builder/build_data.py:29-35 | the prefix the outer loop keeps is a prefix of its start value and of every id it visits |
| DisplayNames.FoldPrefixMaximal | data_builder/build_data.py:29-35 | no common prefix of the start value and of all visited ids is longer than the kept prefix |
| DisplayNames.FoldPrefixLongest | data_builder/build_data.py:29-35 | folding the pair prefix over the ids gives a prefix of the start value that is a prefix of every id, and no longer common prefix of the start value exists |
| DisplayNames.FoldPrefix | data_builder/build_data.py:29-35 | the outer loop only shortens `common_prefix`: its result is a prefix of the start value (FoldPrefixLongest states that it is the longest common prefix) |
| DisplayNames.SharedPrefix | data_builder/build_data.py:29-35 | `common_prefix` after the loop is a prefix of every id (SharedPrefixIsLongest states that no longer one exists) |
| DisplayNames.CommonPrefix | data_builder/build_data.py:29-35 | `common_prefix` after the loop is a prefix of every id and the longest such prefix |
| DisplayNames.SharedPrefixIsLongest | data_builder/build_data.py:29-35 | the computed prefix is the longest common prefix of the ids |
| DisplayNames.LongestCommonPrefixUnique | data_builder/build_data.py:29-35 | two longest common prefixes of the same ids are equal |
| DisplayNames.SharedPrefixOrderIrrelevant | data_builder/build_data.py:29-35 | reordering the ids (same multiset) does not change the shared prefix |
| DisplayNames.CommonPrefixOfSameElements | data_builder/build_data.py:29-35 | a common prefix of some ids is a common prefix of any reordering of them |
| DisplayNames.TrimStart | data_builder/build_data.py:37 | the leading half of `strip()` never lengthens the string (TrimStartCuts states what it removes) |
| DisplayNames.TrimEnd | data_builder/build_data.py:37 | the trailing half of `strip()` never lengthens the string (TrimEndCuts states what it removes) |
| DisplayNames.TrimStartCuts | data_builder/build_data.py:37 | stripping the front removes only whitespace, all of it, and leaves a suffix of the input |
| DisplayNames.TrimEndCuts | data_builder/build_data.py:37 | stripping the back removes only whitespace, all of it, and leaves a prefix of the input |
| DisplayNames.Strip | data_builder/build_data.py:37 | `strip()` never lengthens a string and leaves no whitespace at either edge (StripWellFormed states that only whitespace is cut) |
| DisplayNames.StripWellFormed | data_builder/build_data.py:37 | `strip()` leaves no whitespace at either edge and keeps every visible character in order |
| DisplayNames.StripIsSlice | data_builder/build_data.py:37 | the stripped string is a contiguous slice of the input |
| DisplayNames.TrimStartKeepsVisible | data_builder/build_data.py:37 | stripping the front keeps the visible characters |
| DisplayNames.TrimEndKeepsVisible | data_builder/build_data.py:37 | stripping the back keeps the visible characters |
| DisplayNames.VisibleAppend | data_builder/build_data.py:40 | the visible characters of a concatenation are those of its parts, in order |
| DisplayNames.VisibleOfSpaces | data_builder/build_data.py:37 | a run of whitespace has no visible characters |
| DisplayNames.Spaced | data_builder/build_data.py:40 | the camel-case join keeps at least the input's length and adds at most one character per input character (UnspaceSpaced states that the added spaces stand only before upper-case letters) |
| DisplayNames.SpacedKeepsVisible | data_builder/build_data.py:40 | the camel-case join adds no visible character and drops none |
| DisplayNames.SpacedIsCamelSpaced | data_builder/build_data.py:40 | the camel-case join puts a space before every upper-case letter and never starts with one |
| DisplayNames.SpacedWellFormed | data_builder/build_data.py:40 | the camel-case join puts a space before every upper-case letter, never starts with an upper-case letter, and adds no visible character |
| DisplayNames.UnspaceSpaced | data_builder/build_data.py:40 | dropping each space that stands right before an upper-case letter turns the camel-case join back into its input, so it inserts nothing else |
| DisplayNames.StripKeepsSpacedUpper | data_builder/build_data.py:40 | the final `strip()` keeps every upper-case letter after the first character preceded by a space |
| DisplayNames.DisplayName | data_builder/build_data.py:37-40 | a display name has no whitespace at either edge and is at most twice as long as the id's remainder (DisplayNameWellFormed states the rest) |
| DisplayNames.DisplayNameWellFormed | data_builder/build_data.py:37-41 | a display name has no edge whitespace, has a space before every inner upper-case letter, and shows exactly the visible characters of the id's remainder |
| DisplayNames.Drop | data_builder/build_data.py:37 | `name[n:]` has length `len(name) - n`, or 0 when n is past the end |
| DisplayNames.NamesWithout | data_builder/build_data.py:37-41 | one name per id, and name i depends only on id i and the prefix length |
| DisplayNames.NormalizedNames | data_builder/build_data.py:27-43 | the result has as many names as there are ids |
| DisplayNames.NormalizeNames | data_builder/build_data.py:27-43 | the in-place rewrite of the list gives, slot by slot, the display name of each id after the shared prefix |
| DisplayNames.NamesWellFormed | data_builder/build_data.py:27-43 | each output name is trimmed and camel-spaced, the shared prefix is a prefix of its id, and its visible characters are those of the id after the prefix |
| DisplayNames.IdenticalIdsGiveEmptyNames | data_builder/build_data.py:29-37 | a one-element list, or a list of identical ids, gives only empty names |
| DisplayNames.NamesFollowRotation | data_builder/build_data.py:27-43 | rotating the ids rotates the names the same way |
| Palette.Ids | data_builder/build_data.py:66-72 | the id list has one entry per catalog region, in catalog order |
| Palette.Colors | data_builder/build_data.py:66-72 | the colour list has one entry per catalog region, in catalog order |
| Palette.RegionTable | data_builder/build_data.py:74-75 | the table fails exactly on an empty catalog, with `EmptyCatalog`; otherwise its keys are exactly the catalog colours |
| Palette.RegionTableLastEntryWins | data_builder/build_data.py:64-75 | the region table holds exactly the catalog colours, and a colour maps to the display name of the last catalog entry that carries it |
| Palette.CatalogColors | data_builder/build_data.py:66-75 | the colours listed from the catalog are exactly the colours of its regions |
| Palette.EmptyCatalogFails | data_builder/build_data.py:29 | a catalog without regions makes the table fail |
| Palette.DigitValue | data_builder/build_data.py:136 | a lower-case hex digit has a value in 0..15 |
| Palette.DigitRoundTrip | data_builder/build_data.py:136 | each value 0..15 is spelled by a lower-case hex digit that reads back as the value |
| Palette.HexByte | data_builder/build_data.py:136 | `{:02x}` of a byte is exactly two lower-case hex digits |
| Palette.HexColor | data_builder/build_data.py:136 | the colour string is `#` followed by six lower-case hex digits |
| Palette.HexByteRoundTrip | data_builder/build_data.py:136 | `{:02x}` of a byte is two lower-case hex digits that read back as the byte |
| Palette.HexColorRoundTrip | data_builder/build_data.py:136 | the hex string of a byte colour is `#` and six lower-case hex digits, and parsing it gives the colour back |
| Palette.HexColorInjective | data_builder/build_data.py:136 | different byte colours have different hex strings |
| Labels.SortedIsDistinct | data_builder/build_data.py:84 | a strictly sorted colour list has no duplicates |
| Labels.InsertColor | data_builder/build_data.py:84 | inserting a colour keeps the list strictly sorted and adds exactly that colour |
| Labels.UniqueColors | data_builder/build_data.py:84 | the distinct colours are strictly sorted and are exactly the colours of the image's pixels |
| Labels.Numbering | data_builder/build_data.py:87-89 | `enumerate` from 1 numbers the k-th colour k + 1 |
| Labels.NumberingMembers | data_builder/build_data.py:87-89 | the numbers `enumerate` hands out, counted from 1, are exactly 1..K |
| Labels.ColorToIndex | data_builder/build_data.py:87-89 | `color_to_index` has exactly the enumerated colours as keys |
| Labels.IndexToColor | data_builder/build_data.py:125 | for the strictly sorted output of `np.unique`, `index_to_color` has exactly the labels 1..K as keys |
| Labels.LabelOf | data_builder/build_data.py:90-95 | a colour that is not enumerated keeps the background label 0 of `np.zeros` (LabelOfProperties states the labels of enumerated colours) |
| Labels.LabelAt | data_builder/build_data.py:87-89 | colour k gets label k + 1, and label k + 1 maps back to colour k |
| Labels.LabelsInvert | data_builder/build_data.py:125 | the labels are exactly 1..K, and `index_to_color` is the exact inverse of `color_to_index` in both directions |
| Labels.LabelOfProperties | data_builder/build_data.py:87-95 | an enumerated colour gets a label in 1..K and any other colour gets 0; different colours get different labels; the label maps back to the colour |
| Labels.ApplyMask | data_builder/build_data.py:93-95 | one mask writes the label into exactly the cells of that colour and leaves every other cell unchanged |
| Labels.LabelRaster | data_builder/build_data.py:92-95 | after the mask loop every cell holds the label of its pixel's exact colour |
| Labels.LabelImage | data_builder/build_data.py:79-95 | every pixel is labelled in 1..K, none is left at 0, and `index_to_color` maps its label back to the pixel's colour |
| Resolver.ColorOfLabel | data_builder/build_data.py:134 | `.get(idx, (0, 0, 0))` gives black unless the label is in the table, and a byte colour whenever the table holds byte colours |
| Resolver.ResolveOne | data_builder/build_data.py:128-142 | a kept feature keeps its geometry and its DN, and a kept feature without DN is the feature itself |
| Resolver.ResolveOneRules | data_builder/build_data.py:128-142 | a feature without DN is kept unchanged exactly when uncoloured features are kept; one with DN is kept exactly when its label's colour is a region colour, where an unknown label is black, and a kept one carries that colour, a hex string that parses back to it, and the region's name |
| Resolver.ResolveAll | data_builder/build_data.py:127-144 | the loop never yields more features than it reads (ResolveIsOrderedFilter states which ones) |
| Resolver.ResolveAllStep | data_builder/build_data.py:127-142 | one more pass of the loop body extends `new_features` by exactly what ResolveOne makes of the feature |
| Resolver.KeptPositionsExact | data_builder/build_data.py:127-144 | the kept positions are in range, strictly increasing, and are exactly the positions of the features that are kept |
| Resolver.ResolveAtKeptPositions | data_builder/build_data.py:127-144 | there are as many outputs as kept positions, and output j is the resolved feature at kept position j |
| Resolver.ResolveIsOrderedFilter | data_builder/build_data.py:127-144 | the output is an order-preserving subsequence of the input: the j-th output is the resolved form of the input at the j-th kept position, positions strictly increase, and exactly the kept inputs appear |
| Resolver.ResolveFeatures | data_builder/build_data.py:127-144 | the loop appends exactly the resolved features, in order |
| LayerSelection.Lower | data_builder/build_data.py:163 | lower-casing keeps the length; LowerFoldsCase and LowerAgrees give what it does to each character |
| LayerSelection.LowerFoldsCase | data_builder/build_data.py:163 | no ASCII capital is left; each capital becomes its small letter and every other character is unchanged |
| LayerSelection.LowerAgrees | data_builder/build_data.py:163 | two Ids that differ only in ASCII case lower-case to the same string |
| LayerSelection.Contains | data_builder/build_data.py:164-168 | Python's `in` on strings holds only for a pattern no longer than the string (ContainsAtOffset states when it holds) |
| LayerSelection.ContainsGivesOffset | data_builder/build_data.py:164-168 | a successful substring test has an offset where the pattern occurs |
| LayerSelection.OffsetGivesContains | data_builder/build_data.py:164-168 | an occurrence at any offset makes the substring test succeed |
| LayerSelection.ContainsAtOffset | data_builder/build_data.py:164-168 | the substring test holds exactly when the pattern occurs at some offset |
| LayerSelection.Classify | data_builder/build_data.py:159-169 | a set is given a layer only if it has a Texture and its lower-cased Id contains that layer's word |
| LayerSelection.ClassifyIgnoresCase | data_builder/build_data.py:163-169 | an Id that differs from a set's Id only in ASCII case selects the same layer |
| LayerSelection.LastOfExtend | data_builder/build_data.py:158-169 | one more RegionSet becomes the choice for its own layer and leaves the other choices as they were |
| LayerSelection.SelectLayers | data_builder/build_data.py:158-169 | each layer node is the last RegionSet with a Texture classified to that layer, or none when there is no such set |
| LayerSelection.PriorityOrder | data_builder/build_data.py:164-169 | "mining" beats "poi", which beats "named" |
| Normalizer.ConcatFailureSticks | data_builder/build_data.py:190-194 | once one polygon has no exterior ring, the rest of the collection changes nothing |
| Normalizer.ConcatSucceeds | data_builder/build_data.py:185-194 | the collection succeeds exactly when every piece does |
| Normalizer.ConcatCollects | data_builder/build_data.py:185-194 | in a successful collection every piece succeeds and all its vertices are collected |
| Normalizer.ConcatFrom | data_builder/build_data.py:185-194 | every collected vertex comes from a piece that succeeded |
| Normalizer.ExteriorRing | data_builder/build_data.py:191 | `coords[0]` is the first ring and fails, with `MissingExteriorRing`, exactly when the polygon has no rings |
| Normalizer.ExteriorOfPolygons | data_builder/build_data.py:192-194 | the MultiPolygon loop fails, with `MissingExteriorRing`, exactly when one of its polygons has no rings |
| Normalizer.ExteriorOf | data_builder/build_data.py:188-194 | one geometry's exterior vertices; it fails exactly on a Polygon without rings or a MultiPolygon with a polygon without rings, and then with `MissingExteriorRing` |
| Normalizer.ExteriorOfFeatures | data_builder/build_data.py:187-194 | one layer's exterior vertices; it fails exactly when one of its features has no exterior ring, and then with `MissingExteriorRing` |
| Normalizer.ExteriorOfLayers | data_builder/build_data.py:185-194 | `all_coords` of the three layers; it fails exactly when some feature of some layer has no exterior ring, and then with `MissingExteriorRing` |
| Normalizer.LayersExteriorCollected | data_builder/build_data.py:185-194 | every exterior-ring vertex of every feature of every layer is among the collected vertices |
| Normalizer.CollectedAreExterior | data_builder/build_data.py:185-194 | every collected vertex is an exterior-ring vertex of some feature of some layer |
| Normalizer.ExteriorVerticesCollected | data_builder/build_data.py:185-194 | `all_coords` holds exactly the exterior-ring vertices of all features, holes excluded |
| Normalizer.ExtendWithExterior | data_builder/build_data.py:190-194 | one geometry appends its exterior ring or rings to the collected vertices, or fails on a polygon without rings |
| Normalizer.CollectExterior | data_builder/build_data.py:185-194 | the nested loop collects the exterior vertices of all three layers in order, stopping at the first polygon without rings |
| Normalizer.BoundsOf | data_builder/build_data.py:196-198 | every collected vertex lies in the box, and each of the four sides is reached by some vertex |
| Normalizer.WorldBox | data_builder/build_data.py:196-198 | every exterior vertex of every feature of every layer lies in the world box, and each of min_x, max_x, min_y and max_y is reached by such a vertex |
| Normalizer.NormalizeSides | data_builder/build_data.py:201-204 | min_x maps to x 0, max_x to x 1, min_y to y 1 and max_y to y 0 |
| Normalizer.Normalize | data_builder/build_data.py:201-204 | `normalize` maps every point of the box into the unit square |
| Normalizer.NormalizeRoundTrip | data_builder/build_data.py:201-204 | the inverse affine map recovers every point, so no two vertices merge |
| Normalizer.NormalizeOrder | data_builder/build_data.py:201-204 | the map keeps the order of x and reverses the order of y |
| Normalizer.NormalizeRing | data_builder/build_data.py:211 | the normalised ring has the same length, and vertex j is the normalised vertex j |
| Normalizer.NormalizeRings | data_builder/build_data.py:210-216 | every ring of a polygon is normalised, and the polygon keeps its number of rings |
| Normalizer.NormalizeGeometry | data_builder/build_data.py:206-217 | normalising keeps the geometry type and the numbers of polygons, rings and vertices per ring |
| Normalizer.NormalizeExterior | data_builder/build_data.py:206-217 | the exterior rings of a normalised geometry are its normalised exterior rings |
| Normalizer.NormalizeLayers | data_builder/build_data.py:206-217 | every feature of every layer gets its geometry normalised, with the same box, and nothing else changes |
| Normalizer.NormalizeWorld | data_builder/build_data.py:184-217 | fails on a polygon without rings, on a world without vertices and on a zero-width or zero-height box; otherwise only the coordinates change, each geometry keeps its shape, and every exterior vertex lies in the unit square |
| Regions.PixelColorsAreBytes | data_builder/build_data.py:80-89 | the label-to-colour table of an 8-bit RGB image holds only byte colours |
| Regions.HeadIsLeast | data_builder/build_data.py:84 | the first of the sorted distinct colours comes before every other one |
| Regions.SortedUnique | data_builder/build_data.py:84 | the distinct-colour list is determined by the set of pixel colours |
| Regions.LabelledFeatureNamesItsRegion | data_builder/build_data.py:92-142 | a feature traced from the label of a colour is kept exactly when the colour is a region colour, and then carries the colour and that region's name |
| Regions.ExtractRegions | data_builder/build_data.py:60-146 | an empty catalog fails first, then an image without pixels; otherwise the result is the resolution of the features against the region table and the image's own sorted palette |

## Left out

- `build_terrain` is not part of this model. It is floating-point image processing and file I/O.
- `find_start_locations` is not part of this model. It is XML traversal feeding the same `normalize_names`.
- XML parsing and path resolution are not modelled. The catalog is an already-parsed sequence of `(id, colour)` pairs, and a RegionSet is its Id plus whether it has a Texture.
- Image decoding is not modelled. The image is an `array2` of RGB triples, required to be 8-bit.
- Writing the GeoTIFF and running `gdal_polygonize.py` and `ogr2ogr` are not modelled, because they are external tools. Their GeoJSON output is the `features` input of `Regions.ExtractRegions`, and `Regions.LabelledFeatureNamesItsRegion` states what a feature traced from a label becomes.
- `Topology(data).to_dict()`, `json.dump`, temporary directories and the thread-per-world driver are not modelled: they are a foreign library call, I/O and concurrency.
- Passing a missing layer node to `extract_regions` crashes in the source. It is not modelled. `LayerSelection.SelectLayers` returns `None` for that layer.
- Floating-point rounding is not modelled. Coordinates are exact reals, and nothing is claimed about IEEE behaviour.
- `str.isspace`, `str.isupper` and `str.lower` are modelled on ASCII characters only.
- Labels.LabelRaster: labels are unbounded integers. Above 65535 colours the source's `uint16` label raster overflows: depending on the NumPy version the label wraps or the assignment raises. The model does not capture that.
- DisplayNames.NormalizeNames: requires a non-empty list. On an empty list the source raises at `names[0]`, and the model reports that at the catalog level as `EmptyCatalog`.
- The resolver also writes `rgb` and `color_hex` into dropped features, which are then discarded. This aliasing on dictionaries that are no longer reachable is not modelled.
- A geometry without a `coordinates` member raises at line 189 in the source. Examples are a null geometry and a GeometryCollection. It is not modelled: every geometry of the model has coordinates.
- Coordinates beyond `x, y` (a third ordinate in a GeoJSON position) are not modelled.
