/**
  The HSL conversions of the palette tool, written over exact reals. `Math.round` is
  `Round(x) = (x + 0.5).Floor`; nothing here models IEEE-754 rounding of the divisions.
 */
module Hsl {
  import opened HexColor

  /** Hue in degrees, saturation and lightness in percent, each rounded to an integer. */
  datatype HslColor = HslColor(h: int, s: int, l: int)

  /** `Math.round`: the nearest integer, halves rounded towards +infinity. */
  function Round(x: real): int {
    (x + 0.5).Floor
  }

  function Max3(a: real, b: real, c: real): (m: real)
    ensures m == a || m == b || m == c
    ensures a <= m && b <= m && c <= m
  {
    if a >= b && a >= c then a else if b >= c then b else c
  }

  function Min3(a: real, b: real, c: real): (m: real)
    ensures m == a || m == b || m == c
    ensures m <= a && m <= b && m <= c
  {
    if a <= b && a <= c then a else if b <= c then b else c
  }

  /** The hue in sixths of a turn (`h` before `h /= 6`), for distinct extremes `mx > mn`;
      `switch (max)` tests red, then green, then blue. */
  function Sextant(r: real, g: real, b: real, mx: real, mn: real): real
    requires mx > mn
  {
    var d := mx - mn;
    if mx == r then (g - b) / d + (if g < b then 6.0 else 0.0)
    else if mx == g then (b - r) / d + 2.0
    else (r - g) / d + 4.0
  }

  /** The saturation as a fraction, for distinct extremes of channels in [0, 1]. */
  function Saturation(mx: real, mn: real): real
    requires 0.0 <= mn < mx <= 1.0
  {
    var l := (mx + mn) / 2.0;
    if l > 0.5 then (mx - mn) / (2.0 - mx - mn) else (mx - mn) / (mx + mn)
  }

  /** `rgbToHsl` as a function of the channels. */
  function HslOf(c: Rgb): HslColor
    requires InGamut(c)
  {
    var r, g, b := c.r as real / 255.0, c.g as real / 255.0, c.b as real / 255.0;
    var mx, mn := Max3(r, g, b), Min3(r, g, b);
    var l := (mx + mn) / 2.0;
    var h := if mx == mn then 0.0 else Sextant(r, g, b, mx, mn) / 6.0;
    var s := if mx == mn then 0.0 else Saturation(mx, mn);
    HslColor(Round(h * 360.0), Round(s * 100.0), Round(l * 100.0))
  }

  /** The inner `hue2rgb(p, q, t)`: `t` is brought into [0, 1] by one turn at most. */
  function Hue2Rgb(p: real, q: real, t0: real): real {
    var t1 := if t0 < 0.0 then t0 + 1.0 else t0;
    var t := if t1 > 1.0 then t1 - 1.0 else t1;
    if t < 1.0 / 6.0 then p + (q - p) * 6.0 * t
    else if t < 1.0 / 2.0 then q
    else if t < 2.0 / 3.0 then p + (q - p) * (2.0 / 3.0 - t) * 6.0
    else p
  }

  /** `255 * x` rounded: one output channel of `hslToRgb`. */
  function Channel(x: real): int {
    Round(x * 255.0)
  }

  /** The `q` of `hslToRgb`, from saturation and lightness as fractions. */
  function UpperQ(s: real, l: real): real {
    if l < 0.5 then l * (1.0 + s) else l + s - l * s
  }

  /** `hslToRgb` as a function of hue, saturation and lightness. */
  function RgbOf(c: HslColor): Rgb {
    var h, s, l := c.h as real / 360.0, c.s as real / 100.0, c.l as real / 100.0;
    if s == 0.0 then
      Rgb(Channel(l), Channel(l), Channel(l))
    else
      var q := UpperQ(s, l);
      var p := 2.0 * l - q;
      Rgb(Channel(Hue2Rgb(p, q, h + 1.0 / 3.0)), Channel(Hue2Rgb(p, q, h)), Channel(Hue2Rgb(p, q, h - 1.0 / 3.0)))
  }

  predicate IsHslRange(c: HslColor) {
    0 <= c.h <= 360 && 0 <= c.s <= 100 && 0 <= c.l <= 100
  }

  /** `rgbToHsl` step by step: the channels are scaled in place, `h` and `s` are assigned
      on one of two paths and `h` is divided by 6 before rounding. */
  method RgbToHsl(r0: int, g0: int, b0: int) returns (hsl: HslColor)
    requires InGamut(Rgb(r0, g0, b0))
    ensures hsl == HslOf(Rgb(r0, g0, b0))
    ensures IsHslRange(hsl)
    ensures r0 == g0 == b0 ==> hsl.h == 0 && hsl.s == 0
  {
    var r, g, b := r0 as real, g0 as real, b0 as real;
    r := r / 255.0;
    g := g / 255.0;
    b := b / 255.0;
    var mx := Max3(r, g, b);
    var mn := Min3(r, g, b);
    var h: real, s: real;
    var l := (mx + mn) / 2.0;
    if mx == mn {
      h, s := 0.0, 0.0;
    } else {
      var d := mx - mn;
      s := if l > 0.5 then d / (2.0 - mx - mn) else d / (mx + mn);
      if mx == r {
        h := (g - b) / d + (if g < b then 6.0 else 0.0);
      } else if mx == g {
        h := (b - r) / d + 2.0;
      } else {
        h := (r - g) / d + 4.0;
      }
      assert h == Sextant(r, g, b, mx, mn);
      assert s == Saturation(mx, mn);
      h := h / 6.0;
    }
    assert h == if mx == mn then 0.0 else Sextant(r, g, b, mx, mn) / 6.0;
    hsl := HslColor(Round(h * 360.0), Round(s * 100.0), Round(l * 100.0));
    HslOfRange(Rgb(r0, g0, b0));
  }

  /** `hslToRgb` step by step, with its `if (s === 0)` shortcut for greys. */
  method HslToRgb(h0: int, s0: int, l0: int) returns (rgb: Rgb)
    ensures rgb == RgbOf(HslColor(h0, s0, l0))
    ensures IsHslRange(HslColor(h0, s0, l0)) ==> InGamut(rgb)
  {
    var h, s, l := h0 as real, s0 as real, l0 as real;
    h := h / 360.0;
    s := s / 100.0;
    l := l / 100.0;
    var r: real, g: real, b: real;
    if s == 0.0 {
      r, g, b := l, l, l;
    } else {
      var q := if l < 0.5 then l * (1.0 + s) else l + s - l * s;
      assert q == UpperQ(s, l);
      var p := 2.0 * l - q;
      r := Hue2Rgb(p, q, h + 1.0 / 3.0);
      g := Hue2Rgb(p, q, h);
      b := Hue2Rgb(p, q, h - 1.0 / 3.0);
    }
    rgb := Rgb(Round(r * 255.0), Round(g * 255.0), Round(b * 255.0));
    assert rgb == Rgb(Channel(r), Channel(g), Channel(b));
    if IsHslRange(HslColor(h0, s0, l0)) {
      RgbOfInGamut(HslColor(h0, s0, l0));
    }
  }

  // ---------------------------------------------------------------------------
  // Lemmas

  lemma RoundBetween(x: real, lo: int, hi: int)
    requires lo as real <= x <= hi as real
    ensures lo <= Round(x) <= hi
  {
  }

  lemma RoundNonNegative(x: real)
    requires 0.0 <= x
    ensures 0 <= Round(x)
  {
  }

  lemma RoundNear(x: real, n: int)
    requires n as real - 0.5 <= x < n as real + 0.5
    ensures Round(x) == n
  {
  }

  /** a * b is at most b for a factor a in [0, 1] and b >= 0. */
  lemma ScaleDown(a: real, b: real)
    requires 0.0 <= a <= 1.0 && 0.0 <= b
    ensures 0.0 <= a * b <= b
  {
    assert (1.0 - a) * b >= 0.0;
  }

  lemma QuotientBounds(a: real, d: real)
    requires d > 0.0 && -d <= a <= d
    ensures -1.0 <= a / d <= 1.0
  {
  }

  /** The hue before scaling to degrees, in sextants: a value in [0, 6). */
  lemma SextantRange(r: real, g: real, b: real)
    requires 0.0 <= r <= 1.0 && 0.0 <= g <= 1.0 && 0.0 <= b <= 1.0
    requires Max3(r, g, b) > Min3(r, g, b)
    ensures 0.0 <= Sextant(r, g, b, Max3(r, g, b), Min3(r, g, b)) < 6.0
  {
    var mx, mn := Max3(r, g, b), Min3(r, g, b);
    var d := mx - mn;
    if mx == r {
      QuotientBounds(g - b, d);
      if g < b {
        var q := (g - b) / d;
        assert q * d == g - b;
        assert q < 0.0;
      }
    } else if mx == g {
      QuotientBounds(b - r, d);
    } else {
      QuotientBounds(r - g, d);
    }
  }

  /** The saturation before rounding lies in [0, 1]. */
  lemma SaturationRange(mx: real, mn: real)
    requires 0.0 <= mn < mx <= 1.0
    ensures 0.0 <= Saturation(mx, mn) <= 1.0
  {
    var l := (mx + mn) / 2.0;
    if l > 0.5 {
      QuotientBounds(mx - mn, 2.0 - mx - mn);
    } else {
      QuotientBounds(mx - mn, mx + mn);
    }
  }

  /** `rgbToHsl` of in-range channels gives a hue in [0, 360] and percentages in [0, 100];
      a grey has hue and saturation 0. */
  lemma HslOfRange(c: Rgb)
    requires InGamut(c)
    ensures IsHslRange(HslOf(c))
    ensures c.r == c.g == c.b ==> HslOf(c).h == 0 && HslOf(c).s == 0
  {
    var r, g, b := c.r as real / 255.0, c.g as real / 255.0, c.b as real / 255.0;
    var mx, mn := Max3(r, g, b), Min3(r, g, b);
    if mx != mn {
      SextantRange(r, g, b);
      SaturationRange(mx, mn);
      var h := Sextant(r, g, b, mx, mn) / 6.0;
      RoundBetween(h * 360.0, 0, 360);
      RoundBetween(Saturation(mx, mn) * 100.0, 0, 100);
    }
    RoundBetween((mx + mn) / 2.0 * 100.0, 0, 100);
  }

  /** The hue can round up to a full turn: `rgbToHsl(255, 0, 1)` has `h == 360`, outside the
      half-open range [0, 360). The generators only use it modulo 360. */
  lemma HueReachesFullTurn()
    ensures HslOf(Rgb(255, 0, 1)).h == 360
  {
    var r, g, b := 1.0, 0.0, 1.0 / 255.0;
    assert Max3(r, g, b) == 1.0 && Min3(r, g, b) == 0.0;
    assert Sextant(r, g, b, 1.0, 0.0) == -1.0 / 255.0 + 6.0;
    assert (-1.0 / 255.0 + 6.0) / 6.0 * 360.0 == 360.0 - 60.0 / 255.0;
    RoundNear(360.0 - 60.0 / 255.0, 360);
  }

  /** A channel of `hue2rgb` stays in [0, 1] for p and q in [0, 1] when t is at most one turn
      outside [0, 1]. */
  lemma Hue2RgbRange(p: real, q: real, t0: real)
    requires 0.0 <= p <= 1.0 && 0.0 <= q <= 1.0 && -1.0 <= t0 <= 2.0
    ensures 0.0 <= Hue2Rgb(p, q, t0) <= 1.0
  {
    var t1 := if t0 < 0.0 then t0 + 1.0 else t0;
    var t := if t1 > 1.0 then t1 - 1.0 else t1;
    assert 0.0 <= t <= 1.0;
    if t < 1.0 / 6.0 {
      var w := 6.0 * t;
      assert 0.0 <= w <= 1.0;
      Mix(p, q, w);
      assert Hue2Rgb(p, q, t0) == p + (q - p) * 6.0 * t;
      assert p + (q - p) * 6.0 * t == p + (q - p) * w;
    } else if t < 2.0 / 3.0 && t >= 1.0 / 2.0 {
      var w := (2.0 / 3.0 - t) * 6.0;
      assert 0.0 <= w <= 1.0;
      Mix(p, q, w);
      assert Hue2Rgb(p, q, t0) == p + (q - p) * (2.0 / 3.0 - t) * 6.0;
      assert p + (q - p) * (2.0 / 3.0 - t) * 6.0 == p + (q - p) * w;
    }
  }

  /** p + (q - p) * w, a point between p and q, stays in [0, 1] for a weight w in [0, 1]. */
  lemma Mix(p: real, q: real, w: real)
    requires 0.0 <= p <= 1.0 && 0.0 <= q <= 1.0 && 0.0 <= w <= 1.0
    ensures 0.0 <= p + (q - p) * w <= 1.0
  {
    ScaleDown(p, 1.0 - w);
    ScaleDown(q, w);
    var x, y := p * (1.0 - w), q * w;
    assert p + (q - p) * w == x + y;
    assert x <= 1.0 - w;
    assert y <= w;
    assert x + y <= (1.0 - w) + w;
  }

  /** The `q` and `p` of `hslToRgb` lie in [0, 1] for s and l in [0, 1]. */
  lemma PqRange(s: real, l: real)
    requires 0.0 <= s <= 1.0 && 0.0 <= l <= 1.0
    ensures 0.0 <= UpperQ(s, l) <= 1.0 && 0.0 <= 2.0 * l - UpperQ(s, l) <= 1.0
  {
    if l < 0.5 {
      ScaleDown(s, l);
      assert l * (1.0 + s) == l + s * l;
    } else {
      ScaleDown(s, 1.0 - l);
      var q := l + s - l * s;
      assert q == l + s * (1.0 - l);
      assert l <= q <= 1.0;
      assert 2.0 * l - q == l - s * (1.0 - l);
    }
  }

  lemma ChannelRange(x: real)
    requires 0.0 <= x <= 1.0
    ensures IsChannel(Channel(x))
  {
    RoundBetween(x * 255.0, 0, 255);
  }

  /** `hslToRgb` of a hue in [0, 360] and percentages in [0, 100] gives 8-bit channels; a zero
      saturation gives a grey. */
  lemma RgbOfInGamut(c: HslColor)
    requires IsHslRange(c)
    ensures InGamut(RgbOf(c))
    ensures c.s == 0 ==> RgbOf(c).r == RgbOf(c).g == RgbOf(c).b
  {
    var h, s, l := c.h as real / 360.0, c.s as real / 100.0, c.l as real / 100.0;
    if s == 0.0 {
      ChannelRange(l);
    } else {
      PqRange(s, l);
      var q := UpperQ(s, l);
      var p := 2.0 * l - q;
      Hue2RgbRange(p, q, h + 1.0 / 3.0);
      Hue2RgbRange(p, q, h);
      Hue2RgbRange(p, q, h - 1.0 / 3.0);
      ChannelRange(Hue2Rgb(p, q, h + 1.0 / 3.0));
      ChannelRange(Hue2Rgb(p, q, h));
      ChannelRange(Hue2Rgb(p, q, h - 1.0 / 3.0));
    }
  }
}
