/**
  The five harmony rules of the palette tool. Each derives, from a base colour string, a
  fixed-length list of named entries: the base itself (its string kept exactly as given) and
  colours whose hue, or for the monochromatic rule whose lightness, is moved in HSL space.
  A string that is not a valid hex colour gives the one-entry fallback `[Base]`.
 */
module Harmony {
  import opened Wrappers
  import opened HexColor
  import opened Hsl
  import opened Text

  /** One palette entry: `{ hex, name }`. */
  datatype Entry = Entry(hex: string, name: string)

  datatype Rule = Complementary | Triadic | Analogous | Tetradic | Monochromatic

  /** JavaScript's `%` on integers: the remainder takes the sign of the dividend. */
  function JsRem(a: int, n: int): (r: int)
    requires n > 0
    ensures a >= 0 ==> 0 <= r < n
  {
    if a >= 0 then a % n else -((-a) % n)
  }

  function BaseEntry(baseHex: string): Entry {
    Entry(baseHex, "Base")
  }

  /** `hexToRgb` followed by `rgbToHsl`: the base colour in HSL, or nothing when invalid. */
  function BaseHsl(baseHex: string): (c: Option<HslColor>)
    ensures c.Some? <==> IsValidHex(baseHex)
    ensures c.Some? ==> IsHslRange(c.value)
  {
    HexToRgbNullIffInvalid(baseHex);
    match HexToRgb(baseHex)
    case None => None
    case Some(rgb) => HslOfRange(rgb); Some(HslOf(rgb))
  }

  /** `rgbToHex` of `hslToRgb(h, s, l)`. */
  function HexOfHsl(h: int, s: int, l: int): (hex: string)
    requires IsHslRange(HslColor(h, s, l))
    ensures IsValidHex(hex) && |hex| == 7 && hex[0] == '#'
    ensures forall i :: 1 <= i < 7 ==> IsLowerHexDigit(hex[i])
  {
    var c := RgbOf(HslColor(h, s, l));
    RgbOfInGamut(HslColor(h, s, l));
    RgbToHexRoundTrip(c.r, c.g, c.b);
    RgbToHex(c.r, c.g, c.b)
  }

  /** A colour `rgbToHex` writes: `#` and six lowercase hex digits. */
  predicate IsDerivedHex(hex: string) {
    IsValidHex(hex) && |hex| == 7 && hex[0] == '#' && forall k :: 1 <= k < 7 ==> IsLowerHexDigit(hex[k])
  }

  /** The base colour turned by a non-negative offset, modulo one full turn. */
  function Rotate(c: HslColor, offset: int): (hex: string)
    requires IsHslRange(c) && 0 <= offset
    ensures IsDerivedHex(hex)
  {
    HexOfHsl(JsRem(c.h + offset, 360), c.s, c.l)
  }

  /** `rgbToHex(hslToRgb(h, s, l))` parses back to the channels `hslToRgb` gives. */
  lemma HexOfHslParses(h: int, s: int, l: int)
    requires IsHslRange(HslColor(h, s, l))
    ensures HexToRgb(HexOfHsl(h, s, l)) == Some(RgbOf(HslColor(h, s, l)))
  {
    var rgb := RgbOf(HslColor(h, s, l));
    RgbOfInGamut(HslColor(h, s, l));
    RgbToHexRoundTrip(rgb.r, rgb.g, rgb.b);
  }

  /** The base hue and saturation at another lightness: a string that parses back to the
      channels `hslToRgb` gives for those coordinates. */
  function Lighten(c: HslColor, lightness: int): (hex: string)
    requires IsHslRange(c) && 0 <= lightness <= 100
    ensures IsDerivedHex(hex)
    ensures HexToRgb(hex) == Some(RgbOf(HslColor(c.h, c.s, lightness)))
  {
    HexOfHslParses(c.h, c.s, lightness);
    HexOfHsl(c.h, c.s, lightness)
  }

  /** `generateComplementary`. */
  function GenerateComplementary(baseHex: string): seq<Entry> {
    match BaseHsl(baseHex)
    case None => [BaseEntry(baseHex)]
    case Some(c) =>
      [BaseEntry(baseHex),
       Entry(Rotate(c, 180), "Complementary")]
  }

  /** `generateTriadic`. */
  function GenerateTriadic(baseHex: string): seq<Entry> {
    match BaseHsl(baseHex)
    case None => [BaseEntry(baseHex)]
    case Some(c) =>
      [BaseEntry(baseHex),
       Entry(Rotate(c, 120), "Triadic 1"),
       Entry(Rotate(c, 240), "Triadic 2")]
  }

  /** `generateAnalogous`: the base sits between its two neighbours. */
  function GenerateAnalogous(baseHex: string): seq<Entry> {
    match BaseHsl(baseHex)
    case None => [BaseEntry(baseHex)]
    case Some(c) =>
      [Entry(Rotate(c, -30 + 360), "Analogous -30\U{B0}"),
       BaseEntry(baseHex),
       Entry(Rotate(c, 30), "Analogous +30\U{B0}")]
  }

  /** `generateTetradic`. */
  function GenerateTetradic(baseHex: string): seq<Entry> {
    match BaseHsl(baseHex)
    case None => [BaseEntry(baseHex)]
    case Some(c) =>
      [BaseEntry(baseHex),
       Entry(Rotate(c, 90), "Tetradic +90\U{B0}"),
       Entry(Rotate(c, 180), "Tetradic +180\U{B0}"),
       Entry(Rotate(c, 270), "Tetradic +270\U{B0}")]
  }

  /** The lightness steps of the monochromatic rule. */
  const Lightnesses: seq<int> := [20, 40, 60, 80]

  /** Lightness values a CSS `hsl()` accepts: percentages from 0 to 100. */
  predicate InPercent(ls: seq<int>) {
    forall i :: 0 <= i < |ls| ==> 0 <= ls[i] <= 100
  }

  /** One element of `lightnesses.map(...)`: base hue and saturation, the given lightness,
      named by the template `Mono ${lightness}%`. */
  function MonoEntry(c: HslColor, lightness: int): Entry
    requires IsHslRange(c) && 0 <= lightness <= 100
  {
    Entry(Lighten(c, lightness), "Mono " + NatToString(lightness) + "%")
  }

  /** `generateMonochromatic`. */
  function GenerateMonochromatic(baseHex: string): seq<Entry> {
    match BaseHsl(baseHex)
    case None => [BaseEntry(baseHex)]
    case Some(c) =>
      LightnessesInPercent();
      [BaseEntry(baseHex)] + MonoShades(c, Lightnesses)
  }

  /** `lightnesses.map(...)`: one shade per lightness, in order, whose colour is the base hue
      and saturation at that lightness and whose name is `Mono <lightness>%`. */
  function MonoShades(c: HslColor, lightnesses: seq<int>): (shades: seq<Entry>)
    requires IsHslRange(c) && InPercent(lightnesses)
    ensures |shades| == |lightnesses|
    ensures forall i :: 0 <= i < |lightnesses| ==>
      && HexToRgb(shades[i].hex) == Some(RgbOf(HslColor(c.h, c.s, lightnesses[i])))
      && shades[i].name == "Mono " + NatToString(lightnesses[i]) + "%"
  {
    seq(|lightnesses|, i requires 0 <= i < |lightnesses| => MonoEntry(c, lightnesses[i]))
  }

  function Generate(rule: Rule, baseHex: string): seq<Entry> {
    match rule
    case Complementary => GenerateComplementary(baseHex)
    case Triadic => GenerateTriadic(baseHex)
    case Analogous => GenerateAnalogous(baseHex)
    case Tetradic => GenerateTetradic(baseHex)
    case Monochromatic => GenerateMonochromatic(baseHex)
  }

  /** The `harmonyType` strings the palette's `switch` recognises. */
  function RuleOf(harmonyType: string): Option<Rule> {
    if harmonyType == "complementary" then Some(Complementary)
    else if harmonyType == "triadic" then Some(Triadic)
    else if harmonyType == "analogous" then Some(Analogous)
    else if harmonyType == "tetradic" then Some(Tetradic)
    else if harmonyType == "monochromatic" then Some(Monochromatic)
    else None
  }

  /** The `switch (harmonyType)` of `generatePalette`, whose `default` is the base alone. */
  function PaletteFor(harmonyType: string, baseHex: string): seq<Entry> {
    match RuleOf(harmonyType)
    case Some(rule) => Generate(rule, baseHex)
    case None => [BaseEntry(baseHex)]
  }

  // ---------------------------------------------------------------------------
  // The table of rules, as reference data

  /** Entry names per rule, in output order. */
  function Names(rule: Rule): seq<string> {
    match rule
    case Complementary => ["Base", "Complementary"]
    case Triadic => ["Base", "Triadic 1", "Triadic 2"]
    case Analogous => ["Analogous -30\U{B0}", "Base", "Analogous +30\U{B0}"]
    case Tetradic => ["Base", "Tetradic +90\U{B0}", "Tetradic +180\U{B0}", "Tetradic +270\U{B0}"]
    case Monochromatic => ["Base", "Mono 20%", "Mono 40%", "Mono 60%", "Mono 80%"]
  }

  /** Where the base entry sits. */
  function BaseIndex(rule: Rule): nat {
    if rule == Analogous then 1 else 0
  }

  /** The non-negative hue offset of each entry of a rotating rule (-30 is written +330). */
  function HueOffsets(rule: Rule): (offsets: seq<int>)
    ensures forall i :: 0 <= i < |offsets| ==> 0 <= offsets[i] < 360
  {
    match rule
    case Complementary => [0, 180]
    case Triadic => [0, 120, 240]
    case Analogous => [330, 0, 30]
    case Tetradic => [0, 90, 180, 270]
    case Monochromatic => [0, 0, 0, 0, 0]
  }

  /** Entry names pairwise distinct, hex strings all valid. */
  predicate WellFormed(p: seq<Entry>) {
    && (forall i :: 0 <= i < |p| ==> IsValidHex(p[i].hex))
    && (forall i, j :: 0 <= i < j < |p| ==> p[i].name != p[j].name)
  }

  // ---------------------------------------------------------------------------
  // Lemmas

  /** Every rule lists pairwise-distinct names, with `Base` at the base index. */
  lemma NamesDistinct(rule: Rule)
    ensures |Names(rule)| == |HueOffsets(rule)| && BaseIndex(rule) < |Names(rule)|
    ensures Names(rule)[BaseIndex(rule)] == "Base"
    ensures forall i, j :: 0 <= i < j < |Names(rule)| ==> Names(rule)[i] != Names(rule)[j]
  {
    var ns := Names(rule);
    forall i, j | 0 <= i < j < |ns| ensures ns[i] != ns[j] {
      if |ns[i]| == |ns[j]| {
        match rule
        case Complementary =>
        case Triadic => assert ns[i][|ns[i]| - 1] != ns[j][|ns[j]| - 1];
        case Analogous => assert ns[i][10] != ns[j][10];
        case Tetradic => assert ns[i][10] != ns[j][10];
        case Monochromatic => assert ns[i][5] != ns[j][5];
      }
    }
  }

  /** The derived hues of the rotating rules all lie in [0, 360) for any base hue h >= 0. */
  lemma DerivedHuesInRange(h: int)
    requires h >= 0
    ensures forall k :: k in [180, 120, 240, 30, 90, 270] ==> 0 <= JsRem(h + k, 360) < 360
    ensures 0 <= JsRem(h - 30 + 360, 360) < 360
  {
  }

  /** An invalid base colour gives the single entry `{ hex: baseHex, name: 'Base' }` under
      every rule. */
  lemma InvalidBaseFallback(rule: Rule, baseHex: string)
    requires !IsValidHex(baseHex)
    ensures Generate(rule, baseHex) == [Entry(baseHex, "Base")]
  {
  }

  /** The names of `p` are `names`, in order. */
  ghost predicate NamesMatch(p: seq<Entry>, names: seq<string>) {
    |p| == |names| && forall i :: 0 <= i < |p| ==> p[i].name == names[i]
  }

  /** Every entry except the one at `base` is the base colour turned by its offset. */
  ghost predicate RotatedBy(p: seq<Entry>, c: HslColor, offsets: seq<int>, base: nat)
    requires IsHslRange(c)
  {
    |p| == |offsets| && forall i :: 0 <= i < |p| && i != base ==> 0 <= offsets[i] && p[i].hex == Rotate(c, offsets[i])
  }

  /** Each shade is the base hue and saturation at the matching lightness. */
  ghost predicate Lightened(shades: seq<Entry>, c: HslColor, ls: seq<int>)
    requires IsHslRange(c) && InPercent(ls)
  {
    |shades| == |ls| && forall i :: 0 <= i < |shades| ==> shades[i].hex == Lighten(c, ls[i])
  }

  /** `p` is the table of `rule` for base colour `c`: as many entries as names, the names in
      order, the base string at the base index, and every other entry the base colour turned
      by the entry's hue offset (for the monochromatic rule: the base hue and saturation at
      lightness 20, 40, 60 and 80). */
  ghost predicate MatchesTable(p: seq<Entry>, rule: Rule, baseHex: string, c: HslColor)
    requires IsHslRange(c)
  {
    && NamesMatch(p, Names(rule)) && |p| == |HueOffsets(rule)|
    && BaseIndex(rule) < |p| && p[BaseIndex(rule)] == Entry(baseHex, "Base")
    && (rule != Monochromatic ==> RotatedBy(p, c, HueOffsets(rule), BaseIndex(rule)))
    && (rule == Monochromatic ==> InPercent(Lightnesses) && Lightened(p[1..], c, Lightnesses))
  }

  lemma Names2(e0: Entry, e1: Entry)
    ensures NamesMatch([e0, e1], [e0.name, e1.name])
  {
  }

  lemma Names3(e0: Entry, e1: Entry, e2: Entry)
    ensures NamesMatch([e0, e1, e2], [e0.name, e1.name, e2.name])
  {
  }

  lemma Names4(e0: Entry, e1: Entry, e2: Entry, e3: Entry)
    ensures NamesMatch([e0, e1, e2, e3], [e0.name, e1.name, e2.name, e3.name])
  {
  }

  lemma Names5(e0: Entry, e1: Entry, e2: Entry, e3: Entry, e4: Entry)
    ensures NamesMatch([e0, e1, e2, e3, e4], [e0.name, e1.name, e2.name, e3.name, e4.name])
  {
  }

  /** The complementary output, for a valid base, as a list. */
  lemma ComplementaryList(baseHex: string)
    requires IsValidHex(baseHex)
    ensures var c := BaseHsl(baseHex).value;
      GenerateComplementary(baseHex) == [BaseEntry(baseHex), Entry(Rotate(c, 180), "Complementary")]
  {
  }

  lemma ComplementaryListMatches(baseHex: string, c: HslColor)
    requires IsHslRange(c)
    ensures MatchesTable([BaseEntry(baseHex), Entry(Rotate(c, 180), "Complementary")], Complementary, baseHex, c)
  {
    var b, e1 := BaseEntry(baseHex), Entry(Rotate(c, 180), "Complementary");
    Names2(b, e1);
    assert RotatedBy([b, e1], c, [0, 180], 0);
  }

  lemma ComplementaryTable(baseHex: string)
    requires IsValidHex(baseHex)
    ensures MatchesTable(GenerateComplementary(baseHex), Complementary, baseHex, BaseHsl(baseHex).value)
  {
    ComplementaryList(baseHex);
    ComplementaryListMatches(baseHex, BaseHsl(baseHex).value);
  }

  lemma TriadicList(baseHex: string)
    requires IsValidHex(baseHex)
    ensures var c := BaseHsl(baseHex).value;
      GenerateTriadic(baseHex) == [BaseEntry(baseHex), Entry(Rotate(c, 120), "Triadic 1"), Entry(Rotate(c, 240), "Triadic 2")]
  {
  }

  lemma TriadicListMatches(baseHex: string, c: HslColor)
    requires IsHslRange(c)
    ensures MatchesTable([BaseEntry(baseHex), Entry(Rotate(c, 120), "Triadic 1"), Entry(Rotate(c, 240), "Triadic 2")],
      Triadic, baseHex, c)
  {
    var b, e1, e2 := BaseEntry(baseHex), Entry(Rotate(c, 120), "Triadic 1"), Entry(Rotate(c, 240), "Triadic 2");
    Names3(b, e1, e2);
    RotatedAfterBase3(c, b, e1.name, e2.name, 120, 240);
  }

  lemma TriadicTable(baseHex: string)
    requires IsValidHex(baseHex)
    ensures MatchesTable(GenerateTriadic(baseHex), Triadic, baseHex, BaseHsl(baseHex).value)
  {
    TriadicList(baseHex);
    TriadicListMatches(baseHex, BaseHsl(baseHex).value);
  }

  lemma RotatedAfterBase3(c: HslColor, b: Entry, n1: string, n2: string, o1: int, o2: int)
    requires IsHslRange(c) && 0 <= o1 && 0 <= o2
    ensures RotatedBy([b, Entry(Rotate(c, o1), n1), Entry(Rotate(c, o2), n2)], c, [0, o1, o2], 0)
  {
  }

  /** The analogous output, for a valid base, as a list; `h - 30 + 360` is `h + 330`. */
  lemma AnalogousList(baseHex: string)
    requires IsValidHex(baseHex)
    ensures var c := BaseHsl(baseHex).value;
      GenerateAnalogous(baseHex) == [Entry(Rotate(c, 330), "Analogous -30\U{B0}"), BaseEntry(baseHex),
        Entry(Rotate(c, 30), "Analogous +30\U{B0}")]
  {
  }

  lemma AnalogousListMatches(baseHex: string, c: HslColor)
    requires IsHslRange(c)
    ensures MatchesTable([Entry(Rotate(c, 330), "Analogous -30\U{B0}"), BaseEntry(baseHex),
      Entry(Rotate(c, 30), "Analogous +30\U{B0}")], Analogous, baseHex, c)
  {
    var e0, b, e2 := Entry(Rotate(c, 330), "Analogous -30\U{B0}"), BaseEntry(baseHex), Entry(Rotate(c, 30), "Analogous +30\U{B0}");
    Names3(e0, b, e2);
    RotatedAroundBase(c, b, e0.name, e2.name, 330, 30);
  }

  lemma AnalogousTable(baseHex: string)
    requires IsValidHex(baseHex)
    ensures MatchesTable(GenerateAnalogous(baseHex), Analogous, baseHex, BaseHsl(baseHex).value)
  {
    AnalogousList(baseHex);
    AnalogousListMatches(baseHex, BaseHsl(baseHex).value);
  }

  lemma RotatedAroundBase(c: HslColor, b: Entry, n0: string, n2: string, o0: int, o2: int)
    requires IsHslRange(c) && 0 <= o0 && 0 <= o2
    ensures RotatedBy([Entry(Rotate(c, o0), n0), b, Entry(Rotate(c, o2), n2)], c, [o0, 0, o2], 1)
  {
  }

  lemma TetradicList(baseHex: string)
    requires IsValidHex(baseHex)
    ensures var c := BaseHsl(baseHex).value;
      GenerateTetradic(baseHex) == [BaseEntry(baseHex), Entry(Rotate(c, 90), "Tetradic +90\U{B0}"),
        Entry(Rotate(c, 180), "Tetradic +180\U{B0}"), Entry(Rotate(c, 270), "Tetradic +270\U{B0}")]
  {
  }

  lemma TetradicListMatches(baseHex: string, c: HslColor)
    requires IsHslRange(c)
    ensures MatchesTable([BaseEntry(baseHex), Entry(Rotate(c, 90), "Tetradic +90\U{B0}"),
      Entry(Rotate(c, 180), "Tetradic +180\U{B0}"), Entry(Rotate(c, 270), "Tetradic +270\U{B0}")], Tetradic, baseHex, c)
  {
    var b := BaseEntry(baseHex);
    var e1, e2, e3 := Entry(Rotate(c, 90), "Tetradic +90\U{B0}"), Entry(Rotate(c, 180), "Tetradic +180\U{B0}"),
      Entry(Rotate(c, 270), "Tetradic +270\U{B0}");
    Names4(b, e1, e2, e3);
    RotatedAfterBase4(c, b, e1.name, e2.name, e3.name, 90, 180, 270);
  }

  lemma TetradicTable(baseHex: string)
    requires IsValidHex(baseHex)
    ensures MatchesTable(GenerateTetradic(baseHex), Tetradic, baseHex, BaseHsl(baseHex).value)
  {
    TetradicList(baseHex);
    TetradicListMatches(baseHex, BaseHsl(baseHex).value);
  }

  lemma RotatedAfterBase4(c: HslColor, b: Entry, n1: string, n2: string, n3: string, o1: int, o2: int, o3: int)
    requires IsHslRange(c) && 0 <= o1 && 0 <= o2 && 0 <= o3
    ensures RotatedBy([b, Entry(Rotate(c, o1), n1), Entry(Rotate(c, o2), n2), Entry(Rotate(c, o3), n3)],
      c, [0, o1, o2, o3], 0)
  {
  }

  /** The template `Mono ${lightness}%` for the four steps. */
  lemma MonoNames()
    ensures "Mono " + NatToString(20) + "%" == "Mono 20%" && "Mono " + NatToString(40) + "%" == "Mono 40%"
    ensures "Mono " + NatToString(60) + "%" == "Mono 60%" && "Mono " + NatToString(80) + "%" == "Mono 80%"
  {
    assert NatToString(20) == "20" && NatToString(40) == "40";
    assert NatToString(60) == "60" && NatToString(80) == "80";
  }

  lemma LightnessesInPercent()
    ensures InPercent(Lightnesses)
  {
  }

  /** The k-th shade is the base colour at the k-th lightness. */
  lemma ShadesLightened(c: HslColor, ls: seq<int>)
    requires IsHslRange(c) && InPercent(ls)
    ensures Lightened(MonoShades(c, ls), c, ls)
  {
  }

  /** The names the template gives the four steps are the table's, in order. */
  lemma MonoNamesTable()
    ensures |Names(Monochromatic)| == |Lightnesses| + 1
    ensures forall i :: 0 <= i < |Lightnesses| ==> "Mono " + NatToString(Lightnesses[i]) + "%" == Names(Monochromatic)[i + 1]
  {
    MonoNames();
  }

  lemma MonochromaticListMatches(baseHex: string, c: HslColor)
    requires IsHslRange(c)
    ensures InPercent(Lightnesses)
      && MatchesTable([BaseEntry(baseHex)] + MonoShades(c, Lightnesses), Monochromatic, baseHex, c)
  {
    LightnessesInPercent();
    var shades := MonoShades(c, Lightnesses);
    var p := [BaseEntry(baseHex)] + shades;
    assert p[1..] == shades;
    ShadesLightened(c, Lightnesses);
    MonoNamesTable();
    forall i | 1 <= i < |p| ensures p[i].name == Names(Monochromatic)[i] {
      assert p[i] == shades[i - 1];
    }
  }

  lemma MonochromaticTable(baseHex: string)
    requires IsValidHex(baseHex)
    ensures MatchesTable(GenerateMonochromatic(baseHex), Monochromatic, baseHex, BaseHsl(baseHex).value)
  {
    LightnessesInPercent();
    var c := BaseHsl(baseHex).value;
    assert GenerateMonochromatic(baseHex) == [BaseEntry(baseHex)] + MonoShades(c, Lightnesses);
    MonochromaticListMatches(baseHex, c);
  }

  /** For a valid base every rule yields exactly its table. */
  lemma GenerateMatchesTable(rule: Rule, baseHex: string)
    requires IsValidHex(baseHex)
    ensures MatchesTable(Generate(rule, baseHex), rule, baseHex, BaseHsl(baseHex).value)
  {
    match rule
    case Complementary => ComplementaryTable(baseHex);
    case Triadic => TriadicTable(baseHex);
    case Analogous => AnalogousTable(baseHex);
    case Tetradic => TetradicTable(baseHex);
    case Monochromatic => MonochromaticTable(baseHex);
  }

  /** The entry counts of the rules: 2, 3, 3, 4 and 5. */
  lemma EntryCounts(baseHex: string)
    requires IsValidHex(baseHex)
    ensures |GenerateComplementary(baseHex)| == 2 && |GenerateTriadic(baseHex)| == 3
    ensures |GenerateAnalogous(baseHex)| == 3 && |GenerateTetradic(baseHex)| == 4
    ensures |GenerateMonochromatic(baseHex)| == 5
  {
  }

  /** A palette that matches a rule's table, built on a valid base, is well-formed, and every
      entry other than the base is a colour `rgbToHex` wrote. */
  lemma TableWellFormed(p: seq<Entry>, rule: Rule, baseHex: string, c: HslColor)
    requires IsValidHex(baseHex) && IsHslRange(c) && MatchesTable(p, rule, baseHex, c)
    ensures WellFormed(p)
    ensures forall i :: 0 <= i < |p| && i != BaseIndex(rule) ==> IsDerivedHex(p[i].hex)
  {
    NamesDistinct(rule);
    forall i | 0 <= i < |p| && i != BaseIndex(rule) ensures IsDerivedHex(p[i].hex) {
      if rule == Monochromatic {
        assert 1 <= i;
        assert p[i] == p[1..][i - 1];
      } else {
        assert p[i].hex == Rotate(c, HueOffsets(rule)[i]);
      }
    }
    forall i, j | 0 <= i < j < |p| ensures p[i].name != p[j].name {
      assert p[i].name == Names(rule)[i] && p[j].name == Names(rule)[j];
    }
  }

  /** Whatever the rule, a valid base gives a palette of valid colours with distinct names;
      every entry other than the base is a lowercase `#rrggbb`. */
  lemma GenerateWellFormed(rule: Rule, baseHex: string)
    requires IsValidHex(baseHex)
    ensures WellFormed(Generate(rule, baseHex))
    ensures var p := Generate(rule, baseHex);
      forall i :: 0 <= i < |p| && i != BaseIndex(rule) ==> IsDerivedHex(p[i].hex)
  {
    GenerateMatchesTable(rule, baseHex);
    TableWellFormed(Generate(rule, baseHex), rule, baseHex, BaseHsl(baseHex).value);
  }

  /** `generatePalette`'s choice for a valid base: the matching rule, or the base alone for a
      harmony type the switch does not know; either way a well-formed palette. */
  lemma PaletteForWellFormed(harmonyType: string, baseHex: string)
    requires IsValidHex(baseHex)
    ensures WellFormed(PaletteFor(harmonyType, baseHex))
    ensures RuleOf(harmonyType).None? ==> PaletteFor(harmonyType, baseHex) == [Entry(baseHex, "Base")]
    ensures RuleOf(harmonyType).Some? ==> |PaletteFor(harmonyType, baseHex)| == |Names(RuleOf(harmonyType).value)|
  {
    match RuleOf(harmonyType)
    case Some(rule) => GenerateWellFormed(rule, baseHex); GenerateMatchesTable(rule, baseHex);
    case None =>
  }

  lemma RedParses()
    ensures HexToRgb("#FF0000") == Some(Rgb(255, 0, 0))
  {
    var s := "#FF0000";
    assert IsValidHex(s);
    assert RemoveFirstHash(s) == s[1..];
    assert NormalizeHex(s) == s;
    HexToRgbChannels(s);
  }

  lemma RedHsl()
    ensures HslOf(Rgb(255, 0, 0)) == HslColor(0, 100, 50)
  {
    assert Max3(1.0, 0.0, 0.0) == 1.0 && Min3(1.0, 0.0, 0.0) == 0.0;
    assert Sextant(1.0, 0.0, 0.0, 1.0, 0.0) == 0.0;
    assert Saturation(1.0, 0.0) == 1.0;
    RoundNear(50.0, 50);
    RoundNear(100.0, 100);
    RoundNear(0.0, 0);
  }

  lemma CyanRgb()
    ensures RgbOf(HslColor(180, 100, 50)) == Rgb(0, 255, 255)
  {
    assert UpperQ(1.0, 0.5) == 1.0;
    assert Hue2Rgb(0.0, 1.0, 0.5 + 1.0 / 3.0) == 0.0;
    assert Hue2Rgb(0.0, 1.0, 0.5) == 1.0;
    assert Hue2Rgb(0.0, 1.0, 0.5 - 1.0 / 3.0) == 1.0;
    RoundNear(0.0, 0);
    RoundNear(255.0, 255);
  }

  lemma CyanHex()
    ensures RgbToHex(0, 255, 255) == "#00ffff"
  {
    assert ChannelHex(0) == "00" && ChannelHex(255) == "ff";
  }

  /** `hslToRgb(180, 100, 50)` written by `rgbToHex` is `#00ffff`, in lowercase. */
  lemma CyanOfHsl(h: int, s: int, l: int)
    requires h == 180 && s == 100 && l == 50
    ensures HexOfHsl(h, s, l) == "#00ffff"
  {
    CyanRgb();
    CyanHex();
  }

  /** Turning pure red half a turn gives cyan. */
  lemma RedComplement(c: HslColor)
    requires c.h == 0 && c.s == 100 && c.l == 50
    ensures Rotate(c, 180) == "#00ffff"
  {
    CyanOfHsl(JsRem(c.h + 180, 360), c.s, c.l);
  }

  /** The complementary palette whose derived entry is a given string. */
  lemma ComplementaryOf(baseHex: string, c: HslColor, hex: string)
    requires BaseHsl(baseHex) == Some(c) && Rotate(c, 180) == hex
    ensures GenerateComplementary(baseHex) == [Entry(baseHex, "Base"), Entry(hex, "Complementary")]
  {
  }

  /** A base colour with the HSL coordinates of pure red has cyan as its complementary; the
      derived entry is lowercase whatever the spelling of the base. */
  lemma ComplementOfRedHue(baseHex: string)
    requires BaseHsl(baseHex) == Some(HslColor(0, 100, 50))
    ensures GenerateComplementary(baseHex) == [Entry(baseHex, "Base"), Entry("#00ffff", "Complementary")]
  {
    var c := BaseHsl(baseHex).value;
    RedComplement(c);
    ComplementaryOf(baseHex, c, "#00ffff");
  }

  /** `#FF0000` has the HSL coordinates of pure red. */
  lemma RedBase()
    ensures BaseHsl("#FF0000") == Some(HslColor(0, 100, 50))
  {
    RedParses();
    RedHsl();
  }

  /** The complementary palette of `#FF0000` is the base, then `#00ffff` in lowercase. */
  lemma ComplementOfRed(baseHex: string)
    requires baseHex == "#FF0000"
    ensures GenerateComplementary(baseHex) == [Entry(baseHex, "Base"), Entry("#00ffff", "Complementary")]
  {
    RedBase();
    ComplementOfRedHue(baseHex);
  }
}
