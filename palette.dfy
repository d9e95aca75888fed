/** The region catalog of one layer and the `color -> name` table built from
    it (build_data.py lines 64-75), plus the `#rrggbb` spelling of a colour
    (line 136). */
module Palette {
  import opened Wrappers
  import Tables
  import DisplayNames

  /** An RGB triple. Catalog channels are whatever integers the XML holds;
      pixel channels are bytes. */
  datatype Rgb = Rgb(r: int, g: int, b: int)

  predicate IsByte(v: int)
  {
    0 <= v < 256
  }

  predicate IsByteColor(c: Rgb)
  {
    IsByte(c.r) && IsByte(c.g) && IsByte(c.b)
  }

  /** One `<Region Id=.. R=.. G=.. B=..>` entry of a RegionSet, already parsed. */
  datatype Region = Region(id: string, color: Rgb)

  function Ids(catalog: seq<Region>): (ids: seq<string>)
    ensures |ids| == |catalog| && forall k :: 0 <= k < |catalog| ==> ids[k] == catalog[k].id
  {
    seq(|catalog|, k requires 0 <= k < |catalog| => catalog[k].id)
  }

  function Colors(catalog: seq<Region>): (colors: seq<Rgb>)
    ensures |colors| == |catalog| && forall k :: 0 <= k < |catalog| ==> colors[k] == catalog[k].color
  {
    seq(|catalog|, k requires 0 <= k < |catalog| => catalog[k].color)
  }

  /** `regions`: each catalog colour mapped to the display name of its entry;
      an empty catalog makes normalize_names fail on `names[0]`. */
  function RegionTable(catalog: seq<Region>): (r: Result<map<Rgb, string>, Error>)
    ensures r.Failure? <==> |catalog| == 0
    ensures r.Failure? ==> r.error == EmptyCatalog
    ensures r.Success? ==> r.value.Keys == set e | e in catalog :: e.color
  {
    if |catalog| == 0 then Failure(EmptyCatalog)
    else
      CatalogColors(catalog);
      Success(Tables.LastWins(Colors(catalog), DisplayNames.NormalizedNames(Ids(catalog))))
  }

  /** The table holds exactly the catalog's colours, and each colour names
      the last catalog entry that carries it. */
  lemma RegionTableLastEntryWins(catalog: seq<Region>, k: int)
    requires 0 <= k < |catalog|
    requires forall j :: k < j < |catalog| ==> catalog[j].color != catalog[k].color
    ensures RegionTable(catalog).Success?
    ensures RegionTable(catalog).value.Keys == set e | e in catalog :: e.color
    ensures RegionTable(catalog).value[catalog[k].color]
            == DisplayNames.NormalizedNames(Ids(catalog))[k]
  {
    var colors := Colors(catalog);
    assert Tables.IsLastOccurrence(colors, k);
    Tables.LastWinsAt(colors, DisplayNames.NormalizedNames(Ids(catalog)), k);
    CatalogColors(catalog);
  }

  lemma CatalogColors(catalog: seq<Region>)
    ensures (set c | c in Colors(catalog)) == set e | e in catalog :: e.color
  {
    var colors := Colors(catalog);
    forall c | c in colors ensures c in set e | e in catalog :: e.color {
      var j :| 0 <= j < |colors| && colors[j] == c;
      assert catalog[j] in catalog;
    }
    forall c | c in set e | e in catalog :: e.color ensures c in colors {
      var e :| e in catalog && e.color == c;
      var j :| 0 <= j < |catalog| && catalog[j] == e;
      assert colors[j] == c;
    }
  }

  /** A catalog without entries cannot be turned into a table. */
  lemma EmptyCatalogFails()
    ensures RegionTable([]) == Failure(EmptyCatalog)
  {
  }

  // ---------------------------------------------------------------------
  // "#{:02x}{:02x}{:02x}"
  // ---------------------------------------------------------------------

  const HexDigits: string := "0123456789abcdef"

  predicate IsLowerHexDigit(ch: char)
  {
    ('0' <= ch <= '9') || ('a' <= ch <= 'f')
  }

  /** The value of a lower-case hexadecimal digit. */
  function DigitValue(ch: char): (v: int)
    requires IsLowerHexDigit(ch)
    ensures 0 <= v < 16
  {
    if ch <= '9' then ch as int - '0' as int else ch as int - 'a' as int + 10
  }

  /** `{:02x}` of a byte: two lower-case digits, high nibble first. */
  function HexByte(v: int): (s: string)
    requires IsByte(v)
    ensures |s| == 2 && IsLowerHexDigit(s[0]) && IsLowerHexDigit(s[1])
  {
    DigitRoundTrip(v / 16);
    DigitRoundTrip(v % 16);
    [HexDigits[v / 16], HexDigits[v % 16]]
  }

  /** `"#{:02x}{:02x}{:02x}".format(*color)` */
  function HexColor(c: Rgb): (s: string)
    requires IsByteColor(c)
    ensures IsHexColorString(s)
  {
    var hr, hg, hb := HexByte(c.r), HexByte(c.g), HexByte(c.b);
    var s := "#" + hr + hg + hb;
    assert s[1] == hr[0] && s[2] == hr[1] && s[3] == hg[0] && s[4] == hg[1] && s[5] == hb[0] && s[6] == hb[1];
    s
  }

  predicate IsHexColorString(s: string)
  {
    |s| == 7 && s[0] == '#' && forall i :: 1 <= i < 7 ==> IsLowerHexDigit(s[i])
  }

  /** The byte spelled by two hex digits, high nibble first. */
  function ParseHexByte(hi: char, lo: char): int
    requires IsLowerHexDigit(hi) && IsLowerHexDigit(lo)
  {
    16 * DigitValue(hi) + DigitValue(lo)
  }

  /** Reads `#rrggbb` back into a colour; anything else is rejected. */
  function ParseHexColor(s: string): Option<Rgb>
  {
    if IsHexColorString(s) then
      Some(Rgb(ParseHexByte(s[1], s[2]), ParseHexByte(s[3], s[4]), ParseHexByte(s[5], s[6])))
    else None
  }

  lemma DigitRoundTrip(v: int)
    requires 0 <= v < 16
    ensures IsLowerHexDigit(HexDigits[v]) && DigitValue(HexDigits[v]) == v
  {
  }

  lemma HexByteRoundTrip(v: int)
    requires IsByte(v)
    ensures |HexByte(v)| == 2 && IsLowerHexDigit(HexByte(v)[0]) && IsLowerHexDigit(HexByte(v)[1])
    ensures ParseHexByte(HexByte(v)[0], HexByte(v)[1]) == v
  {
    DigitRoundTrip(v / 16);
    DigitRoundTrip(v % 16);
  }

  /** A byte colour is spelled as `#` and six lower-case hex digits, and
      reading that spelling gives the colour back. */
  lemma HexColorRoundTrip(c: Rgb)
    requires IsByteColor(c)
    ensures IsHexColorString(HexColor(c))
    ensures ParseHexColor(HexColor(c)) == Some(c)
  {
    HexByteRoundTrip(c.r);
    HexByteRoundTrip(c.g);
    HexByteRoundTrip(c.b);
    var hr, hg, hb := HexByte(c.r), HexByte(c.g), HexByte(c.b);
    var s := HexColor(c);
    assert |s| == 7;
    assert s[0] == '#' && s[1] == hr[0] && s[2] == hr[1];
    assert s[3] == hg[0] && s[4] == hg[1] && s[5] == hb[0] && s[6] == hb[1];
    assert IsHexColorString(s);
  }

  /** Two different byte colours never share a hex spelling. */
  lemma HexColorInjective(c: Rgb, d: Rgb)
    requires IsByteColor(c) && IsByteColor(d) && HexColor(c) == HexColor(d)
    ensures c == d
  {
    HexColorRoundTrip(c);
    HexColorRoundTrip(d);
  }
}
