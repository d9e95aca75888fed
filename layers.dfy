/** Choosing the three region layers of a world (build_data.py lines
    154-169): every RegionSet with a Texture is classified by its lower-cased
    Id, and for each layer the last matching set wins. */
module LayerSelection {
  import opened Wrappers

  /** A `<RegionSet Id=..>` node: its Id and whether it has a Texture child. */
  datatype RegionSet = RegionSet(id: string, hasTexture: bool)

  datatype Layer = Mining | Poi | Named | Unused

  /** str.lower() restricted to ASCII letters. */
  function LowerChar(c: char): char
  {
    if 'A' <= c <= 'Z' then (c as int - 'A' as int + 'a' as int) as char else c
  }

  function Lower(s: string): (r: string)
    ensures |r| == |s|
  {
    if s == [] then [] else [LowerChar(s[0])] + Lower(s[1..])
  }

  /** Lower-casing folds every ASCII capital to its small letter (code plus
      32) and leaves every other character as it was. */
  lemma {:induction false} LowerFoldsCase(s: string)
    ensures forall i :: 0 <= i < |s| ==> !('A' <= Lower(s)[i] <= 'Z')
    ensures forall i :: 0 <= i < |s| && !('A' <= s[i] <= 'Z') ==> Lower(s)[i] == s[i]
    ensures forall i :: 0 <= i < |s| && 'A' <= s[i] <= 'Z' ==> Lower(s)[i] as int == s[i] as int + 32
  {
    if s != [] {
      LowerFoldsCase(s[1..]);
      assert forall i :: 1 <= i < |s| ==> Lower(s)[i] == Lower(s[1..])[i - 1];
    }
  }

  /** Two strings that agree up to ASCII case lower-case to the same string. */
  lemma {:induction false} LowerAgrees(s: string, t: string)
    requires |s| == |t|
    requires forall i :: 0 <= i < |s| ==> LowerChar(s[i]) == LowerChar(t[i])
    ensures Lower(s) == Lower(t)
  {
    if s != [] {
      assert forall i :: 0 <= i < |s| - 1 ==> s[1..][i] == s[i + 1] && t[1..][i] == t[i + 1];
      LowerAgrees(s[1..], t[1..]);
    }
  }

  /** Python's `t in s` for strings. */
  predicate Contains(s: string, t: string)
    ensures Contains(s, t) ==> |t| <= |s|
    decreases |s|
  {
    t <= s || (s != [] && Contains(s[1..], t))
  }

  /** t occurs in s at offset k. */
  predicate OccursAt(s: string, t: string, k: int)
  {
    0 <= k <= |s| - |t| && t == s[k..k + |t|]
  }

  lemma {:induction false} ContainsGivesOffset(s: string, t: string)
    requires Contains(s, t)
    ensures exists k :: OccursAt(s, t, k)
    decreases |s|
  {
    if t <= s {
      assert OccursAt(s, t, 0);
    } else {
      ContainsGivesOffset(s[1..], t);
      var k :| OccursAt(s[1..], t, k);
      assert OccursAt(s, t, k + 1);
    }
  }

  lemma {:induction false} OffsetGivesContains(s: string, t: string, k: int)
    requires OccursAt(s, t, k)
    ensures Contains(s, t)
    decreases k
  {
    if k > 0 {
      assert OccursAt(s[1..], t, k - 1);
      OffsetGivesContains(s[1..], t, k - 1);
    } else {
      assert t <= s;
    }
  }

  /** The substring test holds exactly when t occurs at some offset of s. */
  lemma ContainsAtOffset(s: string, t: string)
    ensures Contains(s, t) <==> exists k :: OccursAt(s, t, k)
  {
    if Contains(s, t) {
      ContainsGivesOffset(s, t);
    }
    if exists k :: OccursAt(s, t, k) {
      var k :| OccursAt(s, t, k);
      OffsetGivesContains(s, t, k);
    }
  }

  /** The word of the Id that selects a layer (lines 164-169). */
  function LayerWord(layer: Layer): string
    requires layer != Unused
  {
    match layer
    case Mining => "mining"
    case Poi => "poi"
    case Named => "named"
  }

  /** Lines 159-169 for one set: skipped without a Texture, otherwise the
      first of "mining", "poi", "named" that its Id contains. */
  function Classify(rs: RegionSet): (layer: Layer)
    ensures layer != Unused ==> rs.hasTexture && Contains(Lower(rs.id), LayerWord(layer))
  {
    if !rs.hasTexture then Unused
    else
      var id := Lower(rs.id);
      if Contains(id, "mining") then Mining
      else if Contains(id, "poi") then Poi
      else if Contains(id, "named") then Named
      else Unused
  }

  /** `choice` is the position of the last set of the given layer, or None
      when no set is of that layer. */
  predicate IsLastOf(sets: seq<RegionSet>, layer: Layer, choice: Option<nat>)
  {
    match choice
    case None => forall k :: 0 <= k < |sets| ==> Classify(sets[k]) != layer
    case Some(k) =>
      k < |sets| && Classify(sets[k]) == layer &&
      forall j :: k < j < |sets| ==> Classify(sets[j]) != layer
  }

  /** One more set: it becomes the choice for its own layer. */
  lemma LastOfExtend(sets: seq<RegionSet>, k: int, layer: Layer, choice: Option<nat>)
    requires 0 <= k < |sets| && IsLastOf(sets[..k], layer, choice)
    ensures IsLastOf(sets[..k + 1], layer, if Classify(sets[k]) == layer then Some(k) else choice)
  {
    var prefix, longer := sets[..k], sets[..k + 1];
    assert forall j :: 0 <= j < k ==> longer[j] == prefix[j];
    assert longer[k] == sets[k];
    if Classify(sets[k]) != layer && choice.None? {
      assert forall j :: 0 <= j < k + 1 ==> Classify(longer[j]) != layer;
    }
  }

  /** Lines 154-169: the mining, poi and names nodes, as positions in `sets`. */
  method SelectLayers(sets: seq<RegionSet>) returns (mining: Option<nat>, poi: Option<nat>, names: Option<nat>)
    ensures IsLastOf(sets, Mining, mining)
    ensures IsLastOf(sets, Poi, poi)
    ensures IsLastOf(sets, Named, names)
  {
    mining, poi, names := None, None, None;
    for k := 0 to |sets|
      invariant IsLastOf(sets[..k], Mining, mining)
      invariant IsLastOf(sets[..k], Poi, poi)
      invariant IsLastOf(sets[..k], Named, names)
    {
      ghost var layer := Classify(sets[k]);
      LastOfExtend(sets, k, Mining, mining);
      LastOfExtend(sets, k, Poi, poi);
      LastOfExtend(sets, k, Named, names);
      var region := sets[k];
      if !region.hasTexture {
        assert layer == Unused;
        continue;
      }
      var regName := Lower(region.id);
      if Contains(regName, "mining") {
        assert layer == Mining;
        mining := Some(k);
      } else if Contains(regName, "poi") {
        assert layer == Poi;
        poi := Some(k);
      } else if Contains(regName, "named") {
        assert layer == Named;
        names := Some(k);
      } else {
        assert layer == Unused;
      }
    }
    assert sets[..|sets|] == sets;
  }

  /** Classification ignores ASCII case: an Id spelled "MINING_..." selects
      the same layer as one spelled "mining_...". */
  lemma ClassifyIgnoresCase(rs: RegionSet, id: string)
    requires |id| == |rs.id|
    requires forall i :: 0 <= i < |id| ==> LowerChar(id[i]) == LowerChar(rs.id[i])
    ensures Classify(RegionSet(id, rs.hasTexture)) == Classify(rs)
  {
    LowerAgrees(id, rs.id);
  }

  /** The priority order: an Id that mentions "mining" never selects the poi
      or names layer, and one that mentions "poi" never selects names. */
  lemma PriorityOrder(rs: RegionSet)
    requires rs.hasTexture
    ensures Contains(Lower(rs.id), "mining") ==> Classify(rs) == Mining
    ensures Contains(Lower(rs.id), "poi") ==> Classify(rs) in {Mining, Poi}
    ensures (!Contains(Lower(rs.id), "mining") && !Contains(Lower(rs.id), "poi") && Contains(Lower(rs.id), "named"))
            ==> Classify(rs) == Named
  {
  }
}
