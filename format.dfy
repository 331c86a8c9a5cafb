/**
  The textual forms of a colour (`formatColor`) and the CSS and SCSS export of a palette
  (the text `exportPalette` assembles before handing it to the clipboard).
 */
module Format {
  import opened Wrappers
  import opened HexColor
  import opened Hsl
  import opened ColorMath
  import opened Text
  import opened Harmony

  /** The formats the `switch` of `formatColor` recognises. */
  predicate KnownFormat(format: string) {
    format in {"hex", "rgb", "rgba", "hsl", "hsla", "oklch"}
  }

  /** `${r}, ${g}, ${b}`: the channel list of the `rgb` and `rgba` forms. */
  function RgbList(c: Rgb): string {
    IntToString(c.r) + ", " + IntToString(c.g) + ", " + IntToString(c.b)
  }

  /** `${h}, ${s}%, ${l}%`: the coordinate list of the `hsl` and `hsla` forms. */
  function HslList(c: HslColor): string {
    IntToString(c.h) + ", " + IntToString(c.s) + "%, " + IntToString(c.l) + "%"
  }

  /** `${l} ${c} ${h}` of the `oklch` form, each number as JavaScript prints it. */
  function OklchList(o: Oklch): string {
    FixedToString(o.l4, 4) + " " + FixedToString(o.c4, 4) + " " + FixedToString(o.h2, 2)
  }

  /** The `switch (format)` of `formatColor`, given the colour in its three models. */
  function Render(hex: string, format: string, rgb: Rgb, hsl: HslColor, oklch: Oklch): string {
    if format == "hex" then AsciiUpper(hex)
    else if format == "rgb" then "rgb(" + RgbList(rgb) + ")"
    else if format == "rgba" then "rgba(" + RgbList(rgb) + ", 1)"
    else if format == "hsl" then "hsl(" + HslList(hsl) + ")"
    else if format == "hsla" then "hsla(" + HslList(hsl) + ", 1)"
    else if format == "oklch" then "oklch(" + OklchList(oklch) + ")"
    else hex
  }

  /** `formatColor`: the input itself when it is not a valid colour or the format is unknown. */
  function FormatColor(hex: string, format: string, m: MathLib): string {
    match HexToRgb(hex)
    case None => hex
    case Some(rgb) => Render(hex, format, rgb, HslOf(rgb), RgbToOklch(rgb, m))
  }

  /** The two declaration syntaxes of the export. */
  datatype Dialect = Css | Scss

  /** One exported line: `  --color-<slug>: <value>;\n` or `$color-<slug>: <value>;\n`. */
  function DeclarationLine(d: Dialect, name: string, value: string): string {
    VariablePrefix(d) + Slug(name) + ": " + value + ";\n"
  }

  /** The custom-property prefix of CSS (indented inside the block) or the SCSS variable sigil. */
  function VariablePrefix(d: Dialect): string {
    match d
    case Css => "  --color-"
    case Scss => "$color-"
  }

  /** The line of one entry, its colour in the chosen format. */
  function Declaration(d: Dialect, e: Entry, colorFormat: string, m: MathLib): string {
    DeclarationLine(d, e.name, FormatColor(e.hex, colorFormat, m))
  }

  /** Lines joined in order, each appended after the ones before it. */
  function Concat(lines: seq<string>): string
    decreases |lines|
  {
    if lines == [] then "" else Concat(lines[..|lines| - 1]) + lines[|lines| - 1]
  }

  /** `f` applied to every entry, in the palette's order. */
  function MapLines(f: Entry -> string, p: seq<Entry>): seq<string> {
    seq(|p|, i requires 0 <= i < |p| => f(p[i]))
  }

  /** The declaration of an entry, as a function of the entry. */
  function DeclarationOf(d: Dialect, colorFormat: string, m: MathLib): Entry -> string {
    e => Declaration(d, e, colorFormat, m)
  }

  /** The text the `forEach` appends, entry after entry. */
  function Declarations(d: Dialect, p: seq<Entry>, colorFormat: string, m: MathLib): string {
    Concat(MapLines(DeclarationOf(d, colorFormat, m), p))
  }

  /** The export text: the CSS block, the SCSS lines, nothing modelled for JSON (`None`), and the
      empty initial text for a format the `switch` does not know. */
  function ExportText(p: seq<Entry>, exportFormat: string, colorFormat: string, m: MathLib): Option<string> {
    if exportFormat == "css" then Some(":root {\n" + Declarations(Css, p, colorFormat, m) + "}")
    else if exportFormat == "scss" then Some(Declarations(Scss, p, colorFormat, m))
    else if exportFormat == "json" then None
    else Some("")
  }

  predicate NoNewline(s: string) { '\n' !in s }

  // ---------------------------------------------------------------------------
  // Lemmas about formatColor

  /** An invalid colour or an unknown format comes back unchanged. */
  lemma FormatFallsThrough(hex: string, format: string, m: MathLib)
    requires !IsValidHex(hex) || !KnownFormat(format)
    ensures FormatColor(hex, format, m) == hex
  {
    HexToRgbNullIffInvalid(hex);
  }

  lemma UpperHexDigit(ch: char)
    requires IsHexDigit(ch)
    ensures IsHexDigit(AsciiUpperChar(ch)) && HexValue(AsciiUpperChar(ch)) == HexValue(ch)
  {
  }

  /** For the full six-digit form each channel is the value of its digit pair. */
  lemma HexToRgbFullForm(s: string)
    requires IsValidHex(s) && |Digits(s)| == 6
    ensures var d := Digits(s);
      HexToRgb(s) == Some(Rgb(PairValue(d[0], d[1]), PairValue(d[2], d[3]), PairValue(d[4], d[5])))
  {
    HexToRgbChannels(s);
    NormalizeValid(s);
    var d := Digits(s);
    var n := NormalizeHex(s);
    assert n == "#" + d;
    assert n[1] == d[0] && n[2] == d[1] && n[3] == d[2] && n[4] == d[3] && n[5] == d[4] && n[6] == d[5];
  }

  /** Upper-casing a valid colour string keeps it valid, and upper-cases its digits. */
  lemma UpperDigits(s: string)
    requires IsValidHex(s)
    ensures IsValidHex(AsciiUpper(s))
    ensures Digits(AsciiUpper(s)) == AsciiUpper(Digits(s))
  {
    var u := AsciiUpper(s);
    var d := Digits(s);
    var ud := AsciiUpper(d);
    if s == d {
      assert StripHash(u) == u;
    } else {
      assert s == "#" + d;
      assert u == "#" + ud by {
        assert AsciiUpper(s) == [AsciiUpperChar(s[0])] + AsciiUpper(s[1..]);
        assert s[1..] == d;
      }
      assert StripHash(u) == ud;
    }
    forall i | 0 <= i < |ud| ensures IsHexDigit(ud[i]) {
      UpperHexDigit(d[i]);
    }
  }

  /** Upper-casing keeps every digit's value. */
  lemma UpperDigitValues(d: string)
    requires AllHex(d)
    ensures |AsciiUpper(d)| == |d|
    ensures forall i :: 0 <= i < |d| ==> IsHexDigit(AsciiUpper(d)[i]) && HexValue(AsciiUpper(d)[i]) == HexValue(d[i])
  {
    forall i | 0 <= i < |d| ensures IsHexDigit(AsciiUpper(d)[i]) && HexValue(AsciiUpper(d)[i]) == HexValue(d[i]) {
      UpperHexDigit(d[i]);
    }
  }

  lemma UpperFullForm(hex: string)
    requires IsValidHex(hex) && |Digits(hex)| == 6
    ensures IsValidHex(AsciiUpper(hex)) && HexToRgb(AsciiUpper(hex)) == HexToRgb(hex)
  {
    var u, d := AsciiUpper(hex), Digits(hex);
    UpperDigits(hex);
    var ud := Digits(u);
    UpperDigitValues(d);
    assert forall i :: 0 <= i < 6 ==> HexValue(ud[i]) == HexValue(d[i]);
    HexToRgbFullForm(hex);
    HexToRgbFullForm(u);
    assert PairValue(ud[0], ud[1]) == PairValue(d[0], d[1]);
    assert PairValue(ud[2], ud[3]) == PairValue(d[2], d[3]);
    assert PairValue(ud[4], ud[5]) == PairValue(d[4], d[5]);
  }

  lemma UpperShorthand(hex: string)
    requires IsValidHex(hex) && |Digits(hex)| == 3
    ensures IsValidHex(AsciiUpper(hex)) && HexToRgb(AsciiUpper(hex)) == HexToRgb(hex)
  {
    UpperDigits(hex);
    UpperDigitValues(Digits(hex));
    HexToRgbShorthand(hex);
    HexToRgbShorthand(AsciiUpper(hex));
  }

  /** The `hex` format of a valid colour is its string upper-cased. */
  lemma HexFormatUpper(hex: string, m: MathLib)
    requires IsValidHex(hex)
    ensures FormatColor(hex, "hex", m) == AsciiUpper(hex)
  {
    HexToRgbNullIffInvalid(hex);
  }

  /** The `hex` format upper-cases the string and still denotes the same colour. */
  lemma HexFormatSameColour(hex: string, m: MathLib)
    requires IsValidHex(hex)
    ensures var s := FormatColor(hex, "hex", m);
      && s == AsciiUpper(hex) && IsValidHex(s) && NoAsciiLower(s)
      && HexToRgb(s) == HexToRgb(hex)
  {
    HexFormatUpper(hex, m);
    if |Digits(hex)| == 6 {
      UpperFullForm(hex);
    } else {
      UpperShorthand(hex);
    }
  }

  /** `rgb(r, g, b)` with each channel in decimal, which reads back as the channel; `rgba` is the
      same list with an alpha of 1. */
  lemma RgbFormat(hex: string, m: MathLib)
    requires IsValidHex(hex)
    ensures HexToRgb(hex).Some?
    ensures var c := HexToRgb(hex).value;
      && FormatColor(hex, "rgb", m) == "rgb(" + RgbList(c) + ")"
      && FormatColor(hex, "rgba", m) == "rgba(" + RgbList(c) + ", 1)"
      && var r, g, b := NatToString(c.r), NatToString(c.g), NatToString(c.b);
      && RgbList(c) == r + ", " + g + ", " + b
      && DecimalValue(r) == c.r && DecimalValue(g) == c.g && DecimalValue(b) == c.b
  {
    HexToRgbNullIffInvalid(hex);
    var c := HexToRgb(hex).value;
    NatToStringRoundTrip(c.r);
    NatToStringRoundTrip(c.g);
    NatToStringRoundTrip(c.b);
  }

  /** `hsl(h, s%, l%)` with the HSL coordinates of the colour in decimal, each within its range;
      `hsla` adds an alpha of 1. */
  lemma HslFormat(hex: string, m: MathLib)
    requires IsValidHex(hex)
    ensures HexToRgb(hex).Some?
    ensures var c := HslOf(HexToRgb(hex).value);
      && IsHslRange(c)
      && FormatColor(hex, "hsl", m) == "hsl(" + HslList(c) + ")"
      && FormatColor(hex, "hsla", m) == "hsla(" + HslList(c) + ", 1)"
      && var h, s, l := NatToString(c.h), NatToString(c.s), NatToString(c.l);
      && HslList(c) == h + ", " + s + "%, " + l + "%"
      && DecimalValue(h) == c.h && DecimalValue(s) == c.s && DecimalValue(l) == c.l
  {
    HexToRgbNullIffInvalid(hex);
    var c := HslOf(HexToRgb(hex).value);
    HslOfRange(HexToRgb(hex).value);
    NatToStringRoundTrip(c.h);
    NatToStringRoundTrip(c.s);
    NatToStringRoundTrip(c.l);
  }

  /** `oklch(L C H)`: the rounded coordinates, three numbers made only of digits, points and
      minus signs, separated by single spaces; `OklchNumbers` reads each back as its coordinate. */
  lemma OklchFormat(hex: string, m: MathLib)
    requires IsValidHex(hex)
    ensures HexToRgb(hex).Some?
    ensures var o := RgbToOklch(HexToRgb(hex).value, m);
      && FormatColor(hex, "oklch", m) == "oklch(" + OklchList(o) + ")"
      && var l, c, h := FixedToString(o.l4, 4), FixedToString(o.c4, 4), FixedToString(o.h2, 2);
      && OklchList(o) == l + " " + c + " " + h
      && NumberText(l) && NumberText(c) && NumberText(h)
  {
    HexToRgbNullIffInvalid(hex);
    var o := RgbToOklch(HexToRgb(hex).value, m);
    FixedToStringChars(o.l4, 4);
    FixedToStringChars(o.c4, 4);
    FixedToStringChars(o.h2, 2);
  }

  /** The three printed OKLCH numbers: digits, points and minus signs only, each reading back as
      its coordinate. */
  lemma OklchNumbers(o: Oklch)
    ensures var l, c, h := FixedToString(o.l4, 4), FixedToString(o.c4, 4), FixedToString(o.h2, 2);
      && NumberText(l) && NumberText(c) && NumberText(h)
      && ReadFixed(l, 4) == Some(o.l4) && ReadFixed(c, 4) == Some(o.c4) && ReadFixed(h, 2) == Some(o.h2)
  {
    FixedToStringChars(o.l4, 4);
    FixedToStringChars(o.c4, 4);
    FixedToStringChars(o.h2, 2);
    FixedToStringReadsBack(o.l4, 4);
    FixedToStringReadsBack(o.c4, 4);
    FixedToStringReadsBack(o.h2, 2);
  }

  predicate NumberText(s: string) {
    forall i :: 0 <= i < |s| ==> IsDigit(s[i]) || s[i] == '-' || s[i] == '.'
  }

  lemma ExampleParses()
    ensures HexToRgb("#3498db") == Some(Rgb(52, 152, 219))
  {
    var s := "#3498db";
    assert IsValidHex(s);
    assert RemoveFirstHash(s) == s[1..];
    HexToRgbChannels(s);
  }

  lemma ExampleChannels()
    ensures NatToString(52) == "52" && NatToString(152) == "152" && NatToString(219) == "219"
  {
    assert NatToString(5) == "5" && NatToString(15) == "15" && NatToString(21) == "21";
  }

  lemma RgbDigits()
    ensures RgbList(Rgb(52, 152, 219)) == "52, 152, 219"
  {
    ExampleChannels();
  }

  /** The placeholder colour `#3498db` in RGB. */
  lemma ExampleRgb(hex: string, m: MathLib)
    requires hex == "#3498db"
    ensures FormatColor(hex, "rgb", m) == "rgb(52, 152, 219)"
  {
    ExampleParses();
    RgbOfParsed(hex, Rgb(52, 152, 219), m);
    RgbDigits();
    assert "rgb(" + "52, 152, 219" + ")" == "rgb(52, 152, 219)";
  }

  lemma RgbOfParsed(hex: string, c: Rgb, m: MathLib)
    requires HexToRgb(hex) == Some(c)
    ensures FormatColor(hex, "rgb", m) == "rgb(" + RgbList(c) + ")"
  {
  }

  lemma NumbersHaveNoNewline(n: int, k: int, places: nat)
    ensures NoNewline(IntToString(n))
    ensures NoNewline(FixedToString(k, places))
  {
    IntToStringChars(n);
    FixedToStringChars(k, places);
  }

  lemma ListsHaveNoNewline(c: Rgb, h: HslColor, o: Oklch)
    ensures NoNewline(RgbList(c)) && NoNewline(HslList(h)) && NoNewline(OklchList(o))
  {
    NumbersHaveNoNewline(c.r, o.l4, 4);
    NumbersHaveNoNewline(c.g, o.c4, 4);
    NumbersHaveNoNewline(c.b, o.h2, 2);
    NumbersHaveNoNewline(h.h, 0, 0);
    NumbersHaveNoNewline(h.s, 0, 0);
    NumbersHaveNoNewline(h.l, 0, 0);
  }

  lemma UpperHasNoNewline(s: string)
    requires NoNewline(s)
    ensures NoNewline(AsciiUpper(s))
  {
  }

  lemma WrappedHasNoNewline(open: string, s: string, close: string)
    requires NoNewline(open) && NoNewline(s) && NoNewline(close)
    ensures NoNewline(open + s + close)
  {
  }

  lemma RenderHasNoNewline(hex: string, format: string, rgb: Rgb, hsl: HslColor, oklch: Oklch)
    requires NoNewline(hex)
    ensures NoNewline(Render(hex, format, rgb, hsl, oklch))
  {
    ListsHaveNoNewline(rgb, hsl, oklch);
    UpperHasNoNewline(hex);
    WrappedHasNoNewline("rgb(", RgbList(rgb), ")");
    WrappedHasNoNewline("rgba(", RgbList(rgb), ", 1)");
    WrappedHasNoNewline("hsl(", HslList(hsl), ")");
    WrappedHasNoNewline("hsla(", HslList(hsl), ", 1)");
    WrappedHasNoNewline("oklch(", OklchList(oklch), ")");
  }

  /** No format puts a line break into a colour that had none. */
  lemma FormatHasNoNewline(hex: string, format: string, m: MathLib)
    requires NoNewline(hex)
    ensures NoNewline(FormatColor(hex, format, m))
  {
    match HexToRgb(hex)
    case None =>
    case Some(rgb) => RenderHasNoNewline(hex, format, rgb, HslOf(rgb), RgbToOklch(rgb, m));
  }

  // ---------------------------------------------------------------------------
  // Lemmas about the export

  lemma SlugHasNoNewline(name: string)
    ensures NoNewline(Slug(name))
  {
    SlugChars(name);
    assert IsSpace('\n');
  }

  lemma PrefixHasNoNewline(d: Dialect)
    ensures NoNewline(VariablePrefix(d))
  {
  }

  /** A declaration line ends in the one line break it contains, and its variable name is a
      canonical slug. */
  lemma LineIsOneLine(d: Dialect, name: string, value: string)
    requires NoNewline(value)
    ensures var s := DeclarationLine(d, name, value);
      && |s| >= 2 && s[|s| - 2..] == ";\n" && multiset(s)['\n'] == 1
    ensures NoSpace(Slug(name)) && NoAsciiUpper(Slug(name))
  {
    SlugChars(name);
    SlugHasNoNewline(name);
    PrefixHasNoNewline(d);
    OneLine(VariablePrefix(d), Slug(name), value);
  }

  /** Each declaration ends in the one line break it contains, and its variable name is a
      canonical slug. */
  lemma DeclarationIsOneLine(d: Dialect, e: Entry, colorFormat: string, m: MathLib)
    requires NoNewline(e.hex)
    ensures var s := Declaration(d, e, colorFormat, m);
      && |s| >= 2 && s[|s| - 2..] == ";\n" && multiset(s)['\n'] == 1
    ensures NoSpace(Slug(e.name)) && NoAsciiUpper(Slug(e.name))
  {
    FormatHasNoNewline(e.hex, colorFormat, m);
    LineIsOneLine(d, e.name, FormatColor(e.hex, colorFormat, m));
  }

  lemma OneLine(prefix: string, slug: string, value: string)
    requires NoNewline(prefix) && NoNewline(slug) && NoNewline(value)
    ensures var s := prefix + slug + ": " + value + ";\n";
      |s| >= 2 && s[|s| - 2..] == ";\n" && multiset(s)['\n'] == 1
  {
    var s := prefix + slug + ": " + value + ";\n";
    assert multiset(s) == multiset(prefix) + multiset(slug) + multiset(": ") + multiset(value) + multiset(";\n");
    assert multiset(";\n")['\n'] == 1;
  }

  lemma Associative(a: string, b: string, c: string)
    ensures (a + b) + c == a + (b + c)
  {
  }

  /** Appending one more line appends its text. */
  lemma ConcatAppend(lines: seq<string>, line: string)
    ensures Concat(lines + [line]) == Concat(lines) + line
  {
    assert (lines + [line])[..|lines|] == lines;
  }

  /** Joining puts the first line first. */
  lemma {:induction false} ConcatCons(line: string, lines: seq<string>)
    ensures Concat([line] + lines) == line + Concat(lines)
    decreases |lines|
  {
    if lines != [] {
      var init, last := lines[..|lines| - 1], lines[|lines| - 1];
      assert [line] + lines == ([line] + init) + [last];
      ConcatAppend([line] + init, last);
      ConcatCons(line, init);
      assert lines == init + [last];
      ConcatAppend(init, last);
      Associative(line, Concat(init), last);
    }
  }

  /** Lines with one line break each join into a text with one per line. */
  lemma {:induction false} ConcatLineCount(lines: seq<string>)
    requires forall i :: 0 <= i < |lines| ==> multiset(lines[i])['\n'] == 1
    ensures multiset(Concat(lines))['\n'] == |lines|
    decreases |lines|
  {
    if lines != [] {
      ConcatLineCount(lines[..|lines| - 1]);
    }
  }

  /** The lines of a palette with one more entry at the end. */
  lemma MapLinesAppend(f: Entry -> string, p: seq<Entry>, i: nat)
    requires i < |p|
    ensures MapLines(f, p[..i + 1]) == MapLines(f, p[..i]) + [f(p[i])]
  {
    var a, b := MapLines(f, p[..i + 1]), MapLines(f, p[..i]) + [f(p[i])];
    forall k | 0 <= k < |a| ensures a[k] == b[k] {
      assert p[..i + 1][k] == p[k];
      if k < i {
        assert p[..i][k] == p[k];
      }
    }
    assert a == b;
  }

  /** The lines of a palette with one more entry at the front. */
  lemma MapLinesCons(f: Entry -> string, e: Entry, p: seq<Entry>)
    ensures MapLines(f, [e] + p) == [f(e)] + MapLines(f, p)
  {
    var q := [e] + p;
    assert q[0] == e;
    forall i | 1 <= i < |q| ensures q[i] == p[i - 1] {}
  }

  /** The declarations follow the palette's order: the first entry's line comes first. */
  lemma DeclarationsCons(d: Dialect, e: Entry, p: seq<Entry>, colorFormat: string, m: MathLib)
    ensures Declarations(d, [e] + p, colorFormat, m)
         == Declaration(d, e, colorFormat, m) + Declarations(d, p, colorFormat, m)
  {
    var f := DeclarationOf(d, colorFormat, m);
    MapLinesCons(f, e, p);
    ConcatCons(f(e), MapLines(f, p));
  }

  /** One more entry adds its declaration at the end. */
  lemma DeclarationsAppend(d: Dialect, p: seq<Entry>, i: nat, colorFormat: string, m: MathLib)
    requires i < |p|
    ensures Declarations(d, p[..i + 1], colorFormat, m)
         == Declarations(d, p[..i], colorFormat, m) + Declaration(d, p[i], colorFormat, m)
  {
    var f := DeclarationOf(d, colorFormat, m);
    MapLinesAppend(f, p, i);
    ConcatAppend(MapLines(f, p[..i]), f(p[i]));
  }

  /** One line per entry: as many line breaks as entries when no colour string holds one. */
  lemma DeclarationsLineCount(d: Dialect, p: seq<Entry>, colorFormat: string, m: MathLib)
    requires forall i :: 0 <= i < |p| ==> NoNewline(p[i].hex)
    ensures multiset(Declarations(d, p, colorFormat, m))['\n'] == |p|
  {
    var lines := MapLines(DeclarationOf(d, colorFormat, m), p);
    forall i | 0 <= i < |lines| ensures multiset(lines[i])['\n'] == 1 {
      assert lines[i] == Declaration(d, p[i], colorFormat, m);
      DeclarationIsOneLine(d, p[i], colorFormat, m);
    }
    ConcatLineCount(lines);
  }

  lemma ValidHexHasNoNewline(s: string)
    requires IsValidHex(s)
    ensures NoNewline(s)
  {
    var d := Digits(s);
    assert !IsHexDigit('\n');
  }

  /** The CSS export of a well-formed palette: `:root {`, then one line per entry, then `}`;
      the SCSS one is the bare lines. */
  lemma ExportShape(p: seq<Entry>, colorFormat: string, m: MathLib)
    requires WellFormed(p)
    ensures var css := ExportText(p, "css", colorFormat, m).value;
      && css[..8] == ":root {\n" && css[|css| - 1] == '}'
      && multiset(css)['\n'] == |p| + 1
    ensures multiset(ExportText(p, "scss", colorFormat, m).value)['\n'] == |p|
  {
    forall i | 0 <= i < |p| ensures NoNewline(p[i].hex) {
      ValidHexHasNoNewline(p[i].hex);
    }
    DeclarationsLineCount(Css, p, colorFormat, m);
    DeclarationsLineCount(Scss, p, colorFormat, m);
    RootBlock(Declarations(Css, p, colorFormat, m));
  }

  lemma RootBlock(body: string)
    ensures var css := ":root {\n" + body + "}";
      && css[..8] == ":root {\n" && css[|css| - 1] == '}'
      && multiset(css)['\n'] == multiset(body)['\n'] + 1
  {
    var css := ":root {\n" + body + "}";
    assert css == ":root {\n" + (body + "}");
    assert multiset(css) == multiset(":root {\n") + multiset(body) + multiset("}");
  }

  /** JSON is not modelled, and a format the switch does not know exports the empty text. */
  lemma ExportOtherFormats(p: seq<Entry>, exportFormat: string, colorFormat: string, m: MathLib)
    ensures ExportText(p, "json", colorFormat, m).None?
    ensures exportFormat !in {"css", "scss", "json"} ==> ExportText(p, exportFormat, colorFormat, m) == Some("")
  {
  }
}
