# Colour palette engine, modelled in Dafny

This project models the colour engine of the palette tool in
`src/components/tools/ColorPalette.jsx` and proves properties of it. The engine has five
parts:

- **Hex colours** (`hex.dfy`, module `HexColor`). `isValidHex` accepts an optional `#` and then
  3 or 6 hex digits in either case. `normalizeHex` removes the first `#` and doubles the digits
  of a shorthand. `hexToRgb` returns channels or `null`. `rgbToHex` writes `#rrggbb` in lowercase.
  This is the hex notation of section 5.2 of CSS Color Module Level 4, restricted to its 3- and
  6-digit forms.
- **HSL and the other colour models** (`hsl.dfy`, module `Hsl`; `colormath.dfy`, module
  `ColorMath`). `rgbToHsl` and `hslToRgb` use only arithmetic and `Math.round`. They are modelled
  over exact reals: a function for the generators to call, and a method that runs the source's
  step-by-step reassignments and is proved equal to the function. `rgbToOklch` and
  `calculateLuminance` are written out in full. The power, cube-root, square-root and `atan2`
  primitives they call are a `MathLib` record of functions passed as a parameter. `Sound(m)`
  lists the facts about them the proofs use.
- **Decimal text** (`text.dfy`, module `Text`). This covers how template literals print the
  integers and the rounded OKLCH numbers, ASCII case mapping, the `\s` class of JavaScript
  regular expressions, and the slug of an entry name used in export.
- **Harmony rules** (`harmony.dfy`, module `Harmony`). There are five generators:
  complementary, triadic, analogous, tetradic and monochromatic. `generatePalette`'s `switch` is
  the function `PaletteFor`. `Names`, `BaseIndex`, `HueOffsets` and `MatchesTable` are an
  independent table of the rules. Every generator is proved to agree with that table.
- **Contrast** (`contrast.dfy`, module `Contrast`). This is the contrast ratio of the WCAG 2.1
  glossary, `(L1 + 0.05) / (L2 + 0.05)` with L1 the lighter luminance. The rating has tiers AAA
  from 7:1 (Success Criterion 1.4.6), AA from 4.5:1 (Success Criterion 1.4.3), and the tool's own
  A tier from 3:1.
- **Formatting and export** (`format.dfy`, module `Format`). `formatColor` covers the hex, rgb,
  rgba, hsl, hsla and oklch forms, and returns its input for an invalid colour or an unknown
  format. Export produces the CSS `:root { … }` block and the SCSS lines.
- **The tool's state** (`tool.dfy`, module `Tool`). Class `PaletteTool` holds the component's
  `baseColor`, `harmonyType`, `palette`, `exportFormat` and `colorFormat` state:
  - `Regenerate` is `generatePalette`. It runs when the effect fires, which happens after any
    change of the base colour or the harmony type, and when the Regenerate button is pressed.
  - The setters model the input handlers.
  - `ExportPalette` builds the export text in a loop, as the `forEach` does.

`wrappers.dfy` holds the `Option` type, which models `null` and the unmodelled JSON text.

Two behaviours of the code are easy to miss, and the model keeps both:

- `rgbToHex` writes lowercase digits. The complementary of `#FF0000` is `#00ffff`
  (`Harmony.ComplementOfRed`, built from `Harmony.RedBase` and `Harmony.ComplementOfRedHue`).
- `rgbToHsl` can return the hue 360 as well as [0, 360): rounding `rgb(255, 0, 1)` gives h = 360
  (`Hsl.HueReachesFullTurn`). The ranges proved therefore allow 0..360.

## Model

| member | source | states |
|---|---|---|
| HexColor.IsValidHex | src/components/tools/ColorPalette.jsx:15-17 | the regular expression `^#?([a-f\d]{3}|[a-f\d]{6})$/i` as a predicate; `Digits` states which strings it accepts and `HexToRgbNullIffInvalid` that parsing fails exactly where it rejects |
| HexColor.NormalizeHex | src/components/tools/ColorPalette.jsx:19-29 | drops the first `#` and doubles a 3-digit shorthand; `NormalizeValid`, `DoubleEach` and `RemoveFirstHash` state its result |
| HexColor.Digits | src/components/tools/ColorPalette.jsx:15-17 | a string `isValidHex` accepts is 3 or 6 hex digits, alone or after one `#` |
| HexColor.NormalizeValid | src/components/tools/ColorPalette.jsx:19-29 | normalising a valid string gives `#` and 6 hex digits: a shorthand's digits each doubled in order, a full form's digits unchanged |
| HexColor.DoubleEach | src/components/tools/ColorPalette.jsx:24-26 | the doubled string is twice as long and repeats each character in place |
| HexColor.RemoveFirstHash | src/components/tools/ColorPalette.jsx:21 | a string without `#` is unchanged; otherwise it is one character shorter, and `RemoveFirstHashContents` says which character goes |
| HexColor.RemoveFirstHashContents | src/components/tools/ColorPalette.jsx:21 | with a `#` present, `replace('#', '')` removes exactly the first `#` and keeps everything before and after it in order |
| HexColor.FirstHash | src/components/tools/ColorPalette.jsx:21 | the index of the first `#`: a `#` with none before it |
| HexColor.FirstHashRemoved | src/components/tools/ColorPalette.jsx:21 | the result is the text before the first `#` followed by the text after it |
| HexColor.HexToRgb | src/components/tools/ColorPalette.jsx:32-43 | every channel it yields lies in 0..255 |
| HexColor.HexToRgbNullIffInvalid | src/components/tools/ColorPalette.jsx:32-43 | `hexToRgb` gives `null` exactly for the strings `isValidHex` rejects |
| HexColor.HexToRgbChannels | src/components/tools/ColorPalette.jsx:35-42 | each channel is the base-16 value of the matching digit pair of the normalised string |
| HexColor.HexToRgbShorthand | src/components/tools/ColorPalette.jsx:24-42 | for a 3-digit colour each channel is 17 times its digit's value |
| HexColor.RgbToHex | src/components/tools/ColorPalette.jsx:45-47 | for channels in 0..255 the result is `#` and 6 lowercase digits, two per channel, each pair worth its channel |
| HexColor.RgbToHexDigits | src/components/tools/ColorPalette.jsx:46 | base 16 of 2^24 + r·2^16 + g·2^8 + b, without its leading `1`, is the three zero-padded channel pairs |
| HexColor.RgbToHexRoundTrip | src/components/tools/ColorPalette.jsx:32-47 | `rgbToHex` output is valid, already normalised, and parses back to the same channels; `ParseThenWrite` is the other direction |
| HexColor.ParseThenWrite | src/components/tools/ColorPalette.jsx:32-47 | a valid string parses to channels that `rgbToHex` writes back as the normalised string in lowercase |
| HexColor.WriteOfPairs | src/components/tools/ColorPalette.jsx:45-47 | channels read from the digit pairs of `#` and 6 hex digits are written back as that string in lowercase |
| HexColor.ChannelOfPair | src/components/tools/ColorPalette.jsx:45-46 | the two-digit base-16 text of a digit pair's value is the pair in lowercase |
| Hsl.HslOf | src/components/tools/ColorPalette.jsx:49-75 | the reference HSL of a colour; `RgbToHsl` is proved equal to it and `HslOfRange` states its ranges |
| Hsl.RgbToHsl | src/components/tools/ColorPalette.jsx:49-75 | the step-by-step conversion equals the reference `HslOf`, lands in h 0..360, s and l 0..100, and a grey has hue and saturation 0 |
| Hsl.HslOfRange | src/components/tools/ColorPalette.jsx:49-75 | the HSL of any in-gamut colour is in range, and a grey has h = s = 0 |
| Hsl.SextantRange | src/components/tools/ColorPalette.jsx:61-68 | the hue before scaling lies in [0, 6) |
| Hsl.SaturationRange | src/components/tools/ColorPalette.jsx:60-61 | the saturation before scaling lies in [0, 1] |
| Hsl.HueReachesFullTurn | src/components/tools/ColorPalette.jsx:71-74 | rounding makes `rgb(255, 0, 1)` report hue 360 |
| Hsl.RgbOf | src/components/tools/ColorPalette.jsx:77-107 | the reference RGB of an HSL colour; `HslToRgb` is proved equal to it and `RgbOfInGamut` states its range and the grey case |
| Hsl.Hue2Rgb | src/components/tools/ColorPalette.jsx:81-88 | the `hue2rgb` helper, with t wrapped once into [0, 1]; `Hue2RgbRange` states its range |
| Hsl.HslToRgb | src/components/tools/ColorPalette.jsx:77-107 | the step-by-step conversion equals the reference `RgbOf`, and an in-range HSL colour gives channels in 0..255 |
| Hsl.Hue2RgbRange | src/components/tools/ColorPalette.jsx:81-88 | `hue2rgb` stays in [0, 1] for p, q in [0, 1] and t in [-1, 2] |
| Hsl.PqRange | src/components/tools/ColorPalette.jsx:95-96 | q and p = 2l − q both lie in [0, 1] |
| Hsl.RgbOfInGamut | src/components/tools/ColorPalette.jsx:77-107 | every in-range HSL colour maps into the gamut, and saturation 0 gives a grey |
| Hsl.Max3 | src/components/tools/ColorPalette.jsx:53 | `Math.max` of three values is one of them and bounds all three |
| Hsl.Min3 | src/components/tools/ColorPalette.jsx:54 | `Math.min` of three values is one of them and is below all three |
| ColorMath.RgbToOklch | src/components/tools/ColorPalette.jsx:109-144 | `rgbToOklch` written out, ending in the rounding to 4, 4 and 2 places; `OklchRange` states its ranges |
| ColorMath.Luminance | src/components/tools/ColorPalette.jsx:243-249 | `calculateLuminance`, the weighted sum of the decoded channels; `LuminanceRange` states its range and the values at black and white |
| ColorMath.DecodedRange | src/components/tools/ColorPalette.jsx:111-116 | each linearised channel lies in [0, 1] |
| ColorMath.LuminanceRange | src/components/tools/ColorPalette.jsx:243-249 | relative luminance lies in [0, 1]; black has 0 and white has 1 |
| ColorMath.OklchRange | src/components/tools/ColorPalette.jsx:109-144 | OKLCH lightness and chroma are non-negative and the hue lies in 0..360 |
| ColorMath.LightnessNonNegative | src/components/tools/ColorPalette.jsx:118-127 | non-negative linear channels give a non-negative OKLab lightness |
| ColorMath.AngleToDegrees | src/components/tools/ColorPalette.jsx:134 | an angle in [-4, 4], which holds of `Math.atan2` and so covers `Math.PI` itself, converts to degrees strictly between -360 and 360 |
| ColorMath.SoundAdmitsMathPi | src/components/tools/ColorPalette.jsx:134 | `Sound` holds of a library whose `atan2(0, -1)` is exactly `Math.PI`, so the hypothesis does not rule out the double-precision `Math.atan2` |
| Text.NatToString | src/components/tools/ColorPalette.jsx:284-293 | a printed natural number is a non-empty digit string that starts with `0` only for 0 |
| Text.NatToStringRoundTrip | src/components/tools/ColorPalette.jsx:284-293 | reading the printed digits back gives the number |
| Text.FixedToString | src/components/tools/ColorPalette.jsx:139-141 | prints `Math.round(x * 10^k) / 10^k` from its integer numerator; `FixedToStringReadsBack` and `FixedToStringChars` state what the text is |
| Text.FixedToStringReadsBack | src/components/tools/ColorPalette.jsx:139-141 | reading the printed text as a decimal number gives back n / 10^places exactly |
| Text.UnsignedFixedReadsBack | src/components/tools/ColorPalette.jsx:139-141 | a printed non-negative number begins with a digit and reads back as its numerator |
| Text.ReadFixed | src/components/tools/ColorPalette.jsx:139-141 | the reference reader of decimal text: an optional `-`, digits, and at most `places` fraction digits after a point, giving the numerator over 10^places |
| Text.PadDecimalValue | src/components/tools/ColorPalette.jsx:139-141 | the integer part and the zero-padded fraction digits together make up the numerator |
| Text.TrimValue | src/components/tools/ColorPalette.jsx:139-141 | dropping trailing zeros from the fraction keeps its value once rescaled |
| Text.FixedToStringChars | src/components/tools/ColorPalette.jsx:139-141 | a printed rounded OKLCH number consists of digits, a minus sign and a point only |
| Text.TrimTrailingZeros | src/components/tools/ColorPalette.jsx:139-141 | the trimmed fraction is a prefix of the fraction, does not end in `0`, and only zeros were dropped |
| Text.AsciiUpper | src/components/tools/ColorPalette.jsx:283 | upper-casing keeps the length, maps each character, and leaves no lowercase letter |
| Text.AsciiLower | src/components/tools/ColorPalette.jsx:364 | lower-casing keeps the length, maps each character, and leaves no uppercase letter (the same expression is line 372 for SCSS) |
| Text.ReplaceSpaceRunsNoSpace | src/components/tools/ColorPalette.jsx:364 | after replacing white-space runs, no white space remains (the same expression is line 372 for SCSS) |
| Text.ReplaceSpaceRunsIdentity | src/components/tools/ColorPalette.jsx:364 | a string without white space is left as it is (the same expression is line 372 for SCSS) |
| Text.Slug | src/components/tools/ColorPalette.jsx:364 | the variable name of an entry: `toLowerCase` then every white-space run replaced by `-` (the same at line 372); `RunBecomesDash` and `ReplaceSpaceRunsIdentity` fix what the replacement gives, and `SlugIsCanonical` what a slug looks like |
| Text.RunBecomesDash | src/components/tools/ColorPalette.jsx:364 | a maximal white-space run after text without white space becomes exactly one `-`, the text before it kept and the rest replaced in turn (the same expression at line 372) |
| Text.DropRun | src/components/tools/ColorPalette.jsx:364 | skipping white space removes a whole run and stops at the next other character |
| Text.SlugIsCanonical | src/components/tools/ColorPalette.jsx:364 | a slug has no white space and no uppercase letter, and slugging it again changes nothing (the same expression is line 372 for SCSS) |
| Harmony.JsRem | src/components/tools/ColorPalette.jsx:153 | `%` on a non-negative hue lands in [0, 360) |
| Harmony.BaseHsl | src/components/tools/ColorPalette.jsx:148-151 | a generator finds HSL coordinates exactly when the base is valid, and they are in range |
| Harmony.HexOfHsl | src/components/tools/ColorPalette.jsx:154-158 | a derived colour is a valid 7-character `#` string of lowercase digits |
| Harmony.Rotate | src/components/tools/ColorPalette.jsx:153-154 | a base colour turned by a non-negative hue offset, modulo 360, is a derived colour |
| Harmony.Lighten | src/components/tools/ColorPalette.jsx:233 | the base hue and saturation at a lightness in 0..100 give a derived colour that parses back to `hslToRgb`'s channels for that lightness |
| Harmony.HexOfHslParses | src/components/tools/ColorPalette.jsx:154-158 | the hex of an in-range HSL colour parses back to exactly `hslToRgb`'s channels |
| Harmony.HueOffsets | src/components/tools/ColorPalette.jsx:153-236 | every rule's hue offset lies in [0, 360) |
| Harmony.DerivedHuesInRange | src/components/tools/ColorPalette.jsx:153-208 | every derived hue expression, `(h - 30 + 360) % 360` included, lies in [0, 360) for h ≥ 0 |
| Harmony.InvalidBaseFallback | src/components/tools/ColorPalette.jsx:147-240 | every generator returns the single `{hex: baseHex, name: 'Base'}` for an invalid base |
| Harmony.NamesDistinct | src/components/tools/ColorPalette.jsx:147-240 | each rule's names are pairwise distinct, and the name at the base index is `Base` |
| Harmony.GenerateComplementary | src/components/tools/ColorPalette.jsx:147-159 | `generateComplementary`; `ComplementaryTable`, `InvalidBaseFallback` and `GenerateMatchesTable` state its output |
| Harmony.GenerateTriadic | src/components/tools/ColorPalette.jsx:161-179 | `generateTriadic`; `TriadicTable`, `InvalidBaseFallback` and `GenerateMatchesTable` state its output |
| Harmony.GenerateAnalogous | src/components/tools/ColorPalette.jsx:181-198 | `generateAnalogous`; `AnalogousTable`, `InvalidBaseFallback` and `GenerateMatchesTable` state its output |
| Harmony.GenerateTetradic | src/components/tools/ColorPalette.jsx:200-220 | `generateTetradic`; `TetradicTable`, `InvalidBaseFallback` and `GenerateMatchesTable` state its output |
| Harmony.GenerateMonochromatic | src/components/tools/ColorPalette.jsx:222-240 | `generateMonochromatic`; `MonochromaticTable`, `MonoShades` and `GenerateMatchesTable` state its output |
| Harmony.Generate | src/components/tools/ColorPalette.jsx:309-324 | the generator a recognised harmony type selects; `GenerateMatchesTable` and `GenerateWellFormed` state its output |
| Harmony.PaletteFor | src/components/tools/ColorPalette.jsx:309-327 | the `switch` of `generatePalette`, with `Base` alone for an unknown type; `PaletteForWellFormed` states its output |
| Harmony.ComplementaryTable | src/components/tools/ColorPalette.jsx:147-160 | complementary gives Base, then the base hue + 180 |
| Harmony.TriadicTable | src/components/tools/ColorPalette.jsx:162-179 | triadic gives Base, +120, +240 |
| Harmony.AnalogousTable | src/components/tools/ColorPalette.jsx:181-198 | analogous gives −30, Base at index 1, then +30 |
| Harmony.TetradicTable | src/components/tools/ColorPalette.jsx:200-220 | tetradic gives Base, +90, +180, +270 |
| Harmony.MonoShades | src/components/tools/ColorPalette.jsx:228-238 | one shade per lightness of the list, in order: the k-th parses back to `hslToRgb` of the base hue and saturation at the k-th lightness and is named `Mono <k-th lightness>%` |
| Harmony.ShadesLightened | src/components/tools/ColorPalette.jsx:232-235 | the k-th shade's colour is the base hue and saturation at the k-th lightness |
| Harmony.MonoNamesTable | src/components/tools/ColorPalette.jsx:228-236 | the shade names of the fixed lightness list are exactly the table's names after `Base`, in order |
| Harmony.MonochromaticTable | src/components/tools/ColorPalette.jsx:222-240 | monochromatic gives Base, then the base hue and saturation at lightness 20, 40, 60 and 80 |
| Harmony.MonoNames | src/components/tools/ColorPalette.jsx:236 | the four lightnesses print as `20`, `40`, `60` and `80` |
| Harmony.GenerateMatchesTable | src/components/tools/ColorPalette.jsx:147-240 | for a valid base, every rule's output matches the table: length, names in order, `Base` carrying the unnormalised input at its index, and each other hex the base HSL rotated or lightened by the rule's offset |
| Harmony.EntryCounts | src/components/tools/ColorPalette.jsx:147-240 | the rules give 2, 3, 3, 4 and 5 entries |
| Harmony.GenerateWellFormed | src/components/tools/ColorPalette.jsx:147-240 | every generated palette has only valid hex strings and distinct names, and every derived entry is 7 lowercase characters |
| Harmony.TableWellFormed | src/components/tools/ColorPalette.jsx:147-240 | any list that matches a rule's table has valid colours and distinct names, and all its non-base colours are derived |
| Harmony.PaletteForWellFormed | src/components/tools/ColorPalette.jsx:307-328 | the `switch` yields a well-formed palette: the recognised rule's entries in full, or `Base` alone for an unknown type |
| Harmony.RedBase | src/components/tools/ColorPalette.jsx:147-150 | `#FF0000` parses to the HSL coordinates (0, 100, 50) |
| Harmony.ComplementOfRedHue | src/components/tools/ColorPalette.jsx:147-160 | any base whose HSL coordinates are (0, 100, 50) has the lowercase `#00ffff` as its complementary |
| Harmony.ComplementOfRed | src/components/tools/ColorPalette.jsx:147-160 | the complementary palette of `#FF0000` is `#FF0000` then `#00ffff` |
| Contrast.RatioOf | src/components/tools/ColorPalette.jsx:258-263 | the ratio is at least 1, and equals 1 exactly when the luminances are equal |
| Contrast.ContrastRatio | src/components/tools/ColorPalette.jsx:251-264 | the ratio lies in [1, 21], and is 1 when either colour is invalid |
| Contrast.ContrastSymmetric | src/components/tools/ColorPalette.jsx:251-264 | swapping the colours gives the same ratio |
| Contrast.ContrastWithItself | src/components/tools/ColorPalette.jsx:251-264 | a colour against itself has ratio 1 |
| Contrast.RatioSymmetric | src/components/tools/ColorPalette.jsx:258-263 | the ratio of two luminances does not depend on their order |
| Contrast.ContrastOfParsed | src/components/tools/ColorPalette.jsx:251-264 | for valid colours the ratio is that of their luminances |
| Contrast.BlackOnWhite | src/components/tools/ColorPalette.jsx:251-264 | white against black gives 21 |
| Contrast.RatioMonotone | src/components/tools/ColorPalette.jsx:258-263 | raising the brighter luminance or lowering the darker one never lowers the ratio |
| Contrast.AccessibilityRating | src/components/tools/ColorPalette.jsx:266-271 | AAA exactly from 7, AA exactly on [4.5, 7), A exactly on [3, 4.5), Fail exactly below 3 |
| Contrast.RatingMonotone | src/components/tools/ColorPalette.jsx:266-271 | a larger ratio never gets a lower tier |
| Contrast.RatingMatchesWcag | src/components/tools/ColorPalette.jsx:266-271 | AA-or-better is exactly WCAG 1.4.3's 4.5:1, AAA exactly 1.4.6's 7:1, and each tier has its fixed text |
| Contrast.RatiosAgainstExtremes | src/components/tools/ColorPalette.jsx:524-525 | a luminance's ratios against white and against black multiply to 21 |
| Contrast.CardRatios | src/components/tools/ColorPalette.jsx:524-525 | a card's ratios against `#FFFFFF` and `#000000` are its luminance's ratios against 1 and 0 |
| Contrast.ExtremesMeetAA | src/components/tools/ColorPalette.jsx:524-527 | one of the two ratios against luminance 1 and 0 reaches 4.5 |
| Contrast.AAWithWhiteOrBlack | src/components/tools/ColorPalette.jsx:524-527 | every valid card colour has AA or better against white or against black |
| Format.FormatColor | src/components/tools/ColorPalette.jsx:274-297 | `formatColor`; `FormatFallsThrough`, `HexFormatSameColour`, `RgbFormat`, `HslFormat` and `OklchFormat` state each case |
| Format.FormatFallsThrough | src/components/tools/ColorPalette.jsx:274-297 | an invalid colour or an unknown format returns the input unchanged |
| Format.HexFormatUpper | src/components/tools/ColorPalette.jsx:282-283 | the `hex` form of a valid colour is the string upper-cased |
| Format.HexFormatSameColour | src/components/tools/ColorPalette.jsx:282-283 | the `hex` form is the input upper-cased, still valid, with no lowercase letter, and the same colour |
| Format.RgbFormat | src/components/tools/ColorPalette.jsx:284-287 | `rgb(r, g, b)` and `rgba(r, g, b, 1)` print each channel in decimal, and the digits read back as the channel |
| Format.HslFormat | src/components/tools/ColorPalette.jsx:288-291 | `hsl(h, s%, l%)` and `hsla(…, 1)` print the in-range HSL coordinates in decimal, readable back |
| Format.OklchFormat | src/components/tools/ColorPalette.jsx:292-293 | `oklch(L C H)` holds the three rounded coordinates separated by single spaces, each made of digits, point and minus sign only |
| Format.OklchNumbers | src/components/tools/ColorPalette.jsx:292-293 | each printed OKLCH number is digits, point and minus sign only, and reads back as exactly its rounded coordinate |
| Format.ExampleRgb | src/components/tools/ColorPalette.jsx:284-285 | `#3498db` in the rgb format is `rgb(52, 152, 219)` |
| Format.FormatHasNoNewline | src/components/tools/ColorPalette.jsx:274-297 | a formatted colour contains no line break unless its input did |
| Format.LineIsOneLine | src/components/tools/ColorPalette.jsx:364-365 | a declaration line with a value free of line breaks ends in `;\n`, holds exactly one line break, and its slug has no white space and no uppercase |
| Format.DeclarationIsOneLine | src/components/tools/ColorPalette.jsx:363-372 | each exported declaration is exactly one line, ending in `;\n`, with a slug of no white space and no uppercase |
| Format.DeclarationsCons | src/components/tools/ColorPalette.jsx:362-372 | the appended text is the first entry's declaration followed by the rest's, in palette order |
| Format.DeclarationsAppend | src/components/tools/ColorPalette.jsx:363-366 | one more entry appends exactly its own declaration at the end of the text |
| Format.ConcatCons | src/components/tools/ColorPalette.jsx:363-366 | joining lines puts the first line first |
| Format.ConcatLineCount | src/components/tools/ColorPalette.jsx:363-366 | lines with one line break each join into a text with as many line breaks as lines |
| Format.DeclarationsLineCount | src/components/tools/ColorPalette.jsx:362-372 | the declarations of n entries hold exactly n line breaks |
| Format.ExportText | src/components/tools/ColorPalette.jsx:357-390 | the text `exportPalette` copies, per format; `ExportShape`, `DeclarationsCons` and `ExportOtherFormats` state it |
| Format.ExportShape | src/components/tools/ColorPalette.jsx:359-375 | CSS export starts with `:root {\n`, ends with `}` and has one line per entry plus the opening; SCSS has exactly one line per entry |
| Format.ExportOtherFormats | src/components/tools/ColorPalette.jsx:357-389 | an export format the `switch` does not know yields the empty text; JSON is not modelled |
| Tool.PaletteTool.constructor | src/components/tools/ColorPalette.jsx:5-9 | the initial state: `#663399`, complementary, an empty palette, css export and oklch display |
| Tool.PaletteTool.Regenerate | src/components/tools/ColorPalette.jsx:300-334 | an invalid base leaves the palette untouched; otherwise it becomes the chosen rule's output, or `Base` alone for an unknown type; the palette stays well-formed |
| Tool.PaletteTool.SetBaseColor | src/components/tools/ColorPalette.jsx:336-338 | a new base colour is stored and the effect regenerates the palette from it |
| Tool.PaletteTool.SetHarmonyType | src/components/tools/ColorPalette.jsx:336-338 | a new harmony type is stored and the effect regenerates the palette with it |
| Tool.PaletteTool.SetColorFormat | src/components/tools/ColorPalette.jsx:471 | the display format is stored and nothing else changes |
| Tool.PaletteTool.SetExportFormat | src/components/tools/ColorPalette.jsx:484 | the export format is stored and nothing else changes |
| Tool.PaletteTool.ExportPalette | src/components/tools/ColorPalette.jsx:357-375 | the text the loop builds is exactly the specified export text, declaration after declaration; with the palette well-formed, CSS has one line per colour plus the opening and SCSS one per colour |
| Tool.ExportLineCount | src/components/tools/ColorPalette.jsx:357-375 | for a well-formed palette, the CSS export holds one line break per entry plus one, and the SCSS export one per entry |

## Left out

- Floating point: every computation is over exact reals, with `Math.round` as `(x + 0.5).Floor`.
  The model claims no IEEE-754 behaviour, such as the ±1 HSL round trip.
- `Math.pow`, `Math.cbrt`, `Math.sqrt` and `Math.atan2` are parameters of type `MathLib`, not
  definitions. Where a proof needs a property of them (range, monotonicity of the cube root,
  `pow(1, 2.4) = 1`), that property is the hypothesis `Sound(m)`. Its bounds leave room for
  rounding: for 0 <= x <= 8y the cube root of x is at most 3 times, rather than twice, that of
  y, and `atan2` lies in [-4, 4] rather than [-π, π]. `Math.PI`, the value of
  `Math.atan2(0, -1)`, lies above the decimal 3.141592653589793, and the wider bound leaves
  room for rounding.
- ColorMath.OklchRange: states ranges only, not the exact OKLCH values, which depend on the
  floating-point primitives.
- ColorMath.LuminanceRange: states the range and the values at black and white only, for the
  same reason.
- The JSON export branch (lines 377-389) relies on `JSON.stringify` pretty-printing. Its text is
  `None`.
- The `try`/`catch` fallback in `generatePalette` cannot fire in the model, because nothing in
  the switch throws.
- Clipboard, timers, the copied flags, `showAccessibility`, React rendering and `toFixed`
  display are browser I/O and presentation.
- The rating's CSS class names are kept in `Rating` but nothing is proved about them.
- Text.AsciiUpper and Text.AsciiLower: only ASCII letters change case. `toUpperCase` and
  `toLowerCase` map all of Unicode. For hex digits this is exact; for entry names it differs
  only outside ASCII.
- Text.FixedToString: prints numbers as JavaScript does only for magnitudes below 10^21 and,
  when nonzero, not below 10^-6. Outside that range JavaScript switches to exponent notation
  (`1e-7` where the model prints `0.0000001`). A nonzero n / 10^places is at least 10^-6
  whenever places <= 6, and the source uses 4 and 2 places; the rounded OKLCH values are also
  far below 10^21.
- Harmony.Rotate: states that a turned colour is a derived hex, but not what it parses back
  to, as `Harmony.Lighten` does. Unfolding `Rotate` beside the `hslToRgb` arithmetic exceeds
  the proof's resource bound. The tables therefore check each rotated entry through the same
  `Rotate` the generators call.
- Tool.PaletteTool.constructor: stops at the initial state. The effect's first run after mount
  is a separate call of `Regenerate`.
- Tool.PaletteTool.SetBaseColor: React does not re-run the effect when the same value is set
  again. Regenerating then leaves the palette as it is anyway, so the model regenerates
  unconditionally.
- `formatColor` computes HSL and OKLCH even for the hex and rgb formats. The model does the same
  and gives those values to `Render`.
