/**
  The palette tool's state and the operations that change it: the component's `useState`
  fields, `generatePalette` (run by the effect whenever the base colour or the harmony type
  changes) and the text-building loop of `exportPalette`.
 */
module Tool {
  import opened Wrappers
  import opened HexColor
  import opened ColorMath
  import opened Text
  import opened Harmony
  import opened Format

  class PaletteTool {
    var baseColor: string
    var harmonyType: string
    var palette: seq<Entry>
    var exportFormat: string
    var colorFormat: string
    /** The transcendental functions the formatter needs. */
    const math: MathLib

    /** Every colour shown is valid and no two entries share a name. */
    ghost predicate Valid()
      reads this
    {
      WellFormed(palette)
    }

    /** The initial state; the palette stays empty until the effect first runs, a call of
        `Regenerate`. */
    constructor (m: MathLib)
      ensures baseColor == "#663399" && harmonyType == "complementary"
      ensures exportFormat == "css" && colorFormat == "oklch" && math == m
      ensures palette == [] && Valid()
    {
      baseColor := "#663399";
      harmonyType := "complementary";
      palette := [];
      exportFormat := "css";
      colorFormat := "oklch";
      math := m;
    }

    /** `generatePalette`: nothing changes for an invalid base colour; otherwise the palette
        becomes the output of the rule the harmony type names, or the base alone for an unknown
        type. */
    method Regenerate()
      modifies this`palette
      ensures !IsValidHex(baseColor) ==> palette == old(palette)
      ensures IsValidHex(baseColor) ==> palette == PaletteFor(harmonyType, baseColor)
      ensures old(Valid()) ==> Valid()
    {
      if !IsValidHex(baseColor) {
        return;
      }
      // The `switch` on the harmony type, whose `default` keeps the base alone.
      palette := PaletteFor(harmonyType, baseColor);
      assert Valid() by {
        PaletteForWellFormed(harmonyType, baseColor);
      }
    }

    /** A new base colour, then the effect. */
    method SetBaseColor(color: string)
      modifies this`baseColor, this`palette
      ensures baseColor == color
      ensures !IsValidHex(color) ==> palette == old(palette)
      ensures IsValidHex(color) ==> palette == PaletteFor(harmonyType, color)
      ensures old(Valid()) ==> Valid()
    {
      baseColor := color;
      Regenerate();
    }

    /** A new harmony type, then the effect. */
    method SetHarmonyType(harmony: string)
      modifies this`harmonyType, this`palette
      ensures harmonyType == harmony
      ensures !IsValidHex(baseColor) ==> palette == old(palette)
      ensures IsValidHex(baseColor) ==> palette == PaletteFor(harmony, baseColor)
      ensures old(Valid()) ==> Valid()
    {
      harmonyType := harmony;
      Regenerate();
    }

    method SetColorFormat(format: string)
      modifies this`colorFormat
      ensures colorFormat == format
    {
      colorFormat := format;
    }

    method SetExportFormat(format: string)
      modifies this`exportFormat
      ensures exportFormat == format
    {
      exportFormat := format;
    }

    /** The text `exportPalette` hands to the clipboard, built line by line (`None` for the JSON
        format, which is not modelled). Since the palette is well-formed, a CSS export holds one
        line per colour plus the opening line, and an SCSS export one line per colour. */
    method ExportPalette() returns (text: Option<string>)
      requires Valid()
      ensures text == ExportText(palette, exportFormat, colorFormat, math)
      ensures exportFormat == "css" ==> text.Some? && multiset(text.value)['\n'] == |palette| + 1
      ensures exportFormat == "scss" ==> text.Some? && multiset(text.value)['\n'] == |palette|
    {
      var exportText := "";
      if exportFormat == "css" {
        exportText := ":root {\n";
        for i := 0 to |palette|
          invariant exportText == ":root {\n" + Declarations(Css, palette[..i], colorFormat, math)
        {
          var color := palette[i];
          var varName := Slug(color.name);
          var line := "  --color-" + varName + ": " + FormatColor(color.hex, colorFormat, math) + ";\n";
          DeclarationsAppend(Css, palette, i, colorFormat, math);
          Associative(":root {\n", Declarations(Css, palette[..i], colorFormat, math), line);
          exportText := exportText + line;
        }
        assert palette[..|palette|] == palette;
        exportText := exportText + "}";
        text := Some(exportText);
      } else if exportFormat == "scss" {
        for i := 0 to |palette|
          invariant exportText == Declarations(Scss, palette[..i], colorFormat, math)
        {
          var color := palette[i];
          var varName := Slug(color.name);
          var line := "$color-" + varName + ": " + FormatColor(color.hex, colorFormat, math) + ";\n";
          DeclarationsAppend(Scss, palette, i, colorFormat, math);
          exportText := exportText + line;
        }
        assert palette[..|palette|] == palette;
        text := Some(exportText);
      } else if exportFormat == "json" {
        text := None;
      } else {
        text := Some(exportText);
      }
      ExportLineCount(palette, exportFormat, colorFormat, math, text);
    }
  }

  /** The line count of an export, as `ExportShape` gives it, for the text of one format. */
  lemma ExportLineCount(p: seq<Entry>, exportFormat: string, colorFormat: string, m: MathLib,
                        text: Option<string>)
    requires WellFormed(p) && text == ExportText(p, exportFormat, colorFormat, m)
    ensures exportFormat == "css" ==> text.Some? && multiset(text.value)['\n'] == |p| + 1
    ensures exportFormat == "scss" ==> text.Some? && multiset(text.value)['\n'] == |p|
  {
    ExportShape(p, colorFormat, m);
  }
}
