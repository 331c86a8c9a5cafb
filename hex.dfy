/**
  CSS hex colour notation (section 5.2 of CSS Color Module Level 4), restricted to the
  3- and 6-digit forms with an optional leading `#`: validation, normalisation of the
  shorthand, parsing into 8-bit channels and serialisation back to `#rrggbb`.
 */
module HexColor {
  import opened Wrappers
  import opened Text

  /** An sRGB colour as three integer channels. */
  datatype Rgb = Rgb(r: int, g: int, b: int)

  predicate IsChannel(c: int) { 0 <= c <= 255 }

  predicate InGamut(c: Rgb) { IsChannel(c.r) && IsChannel(c.g) && IsChannel(c.b) }

  /** `[a-f\d]` under the regex's `i` flag: an ASCII hexadecimal digit of either case. */
  predicate IsHexDigit(ch: char) {
    '0' <= ch <= '9' || 'a' <= ch <= 'f' || 'A' <= ch <= 'F'
  }

  predicate IsLowerHexDigit(ch: char) {
    '0' <= ch <= '9' || 'a' <= ch <= 'f'
  }

  predicate AllHex(s: string) {
    forall i :: 0 <= i < |s| ==> IsHexDigit(s[i])
  }

  /** The regexes' optional leading `#?`: a `#` in front is consumed, nothing else is. */
  function StripHash(s: string): (d: string)
    ensures |s| > 0 && s[0] == '#' ==> d == s[1..]
    ensures (|s| == 0 || s[0] != '#') ==> d == s
  {
    if |s| > 0 && s[0] == '#' then s[1..] else s
  }

  /** `isValidHex`: the test of `/^#?([a-f\d]{3}|[a-f\d]{6})$/i`. */
  predicate IsValidHex(s: string) {
    var d := StripHash(s);
    (|d| == 3 || |d| == 6) && AllHex(d)
  }

  /** The digits of a valid colour string, with the `#` (if any) taken off. */
  function Digits(s: string): (d: string)
    requires IsValidHex(s)
    ensures (|d| == 3 || |d| == 6) && AllHex(d)
    ensures s == d || s == "#" + d
  {
    StripHash(s)
  }

  /** `hex.replace('#', '')`: a string pattern replaces its first occurrence only. */
  function RemoveFirstHash(s: string): (t: string)
    ensures '#' !in s ==> t == s
    ensures '#' in s ==> |t| == |s| - 1
  {
    if s == [] then []
    else if s[0] == '#' then s[1..]
    else [s[0]] + RemoveFirstHash(s[1..])
  }

  /** With a `#` present, exactly the first one is removed and the rest keeps its order. */
  lemma {:induction false} RemoveFirstHashContents(s: string)
    requires '#' in s
    ensures exists k :: 0 <= k < |s| && s[k] == '#' && '#' !in s[..k] && RemoveFirstHash(s) == s[..k] + s[k + 1..]
  {
    var k := FirstHash(s);
    FirstHashRemoved(s);
  }

  /** The index of the first `#`. */
  function FirstHash(s: string): (k: nat)
    requires '#' in s
    ensures k < |s| && s[k] == '#' && '#' !in s[..k]
  {
    if s[0] == '#' then 0
    else
      assert s == [s[0]] + s[1..];
      assert s[..FirstHash(s[1..]) + 1] == [s[0]] + s[1..][..FirstHash(s[1..])];
      FirstHash(s[1..]) + 1
  }

  lemma {:induction false} FirstHashRemoved(s: string)
    requires '#' in s
    ensures RemoveFirstHash(s) == s[..FirstHash(s)] + s[FirstHash(s) + 1..]
  {
    if s[0] != '#' {
      assert s == [s[0]] + s[1..];
      FirstHashRemoved(s[1..]);
      var k := FirstHash(s[1..]);
      assert s[..k + 1] == [s[0]] + s[1..][..k];
      assert s[k + 2..] == s[1..][k + 1..];
    }
  }

  /** `hex.split('').map(char => char + char).join('')`. */
  function DoubleEach(s: string): (t: string)
    ensures |t| == 2 * |s|
    ensures forall i :: 0 <= i < |s| ==> t[2 * i] == s[i] && t[2 * i + 1] == s[i]
  {
    if s == [] then [] else [s[0], s[0]] + DoubleEach(s[1..])
  }

  /** `normalizeHex`: drop the first `#`, expand a 3-character shorthand, prefix `#`. */
  function NormalizeHex(s: string): string {
    var d := RemoveFirstHash(s);
    "#" + (if |d| == 3 then DoubleEach(d) else d)
  }

  /** `parseInt(c, 16)` of one hexadecimal digit. */
  function HexValue(ch: char): (v: int)
    requires IsHexDigit(ch)
    ensures 0 <= v < 16
  {
    if '0' <= ch <= '9' then ch as int - '0' as int
    else if 'a' <= ch <= 'f' then ch as int - 'a' as int + 10
    else ch as int - 'A' as int + 10
  }

  /** `parseInt(pair, 16)` of a two-digit group. */
  function PairValue(hi: char, lo: char): (v: int)
    requires IsHexDigit(hi) && IsHexDigit(lo)
    ensures IsChannel(v)
  {
    16 * HexValue(hi) + HexValue(lo)
  }

  /** The match of `/^#?([a-f\d]{2})([a-f\d]{2})([a-f\d]{2})$/i`: its six digits, or no match. */
  function SixDigits(s: string): (m: Option<string>)
    ensures m.Some? ==> |m.value| == 6 && AllHex(m.value)
  {
    var d := StripHash(s);
    if |d| == 6 && AllHex(d) then Some(d) else None
  }

  /** `hexToRgb`: `null` for an invalid string, else the three parsed digit pairs. */
  function HexToRgb(s: string): (c: Option<Rgb>)
    ensures c.Some? ==> InGamut(c.value)
  {
    if !IsValidHex(s) then None
    else
      match SixDigits(NormalizeHex(s))
      case None => None
      case Some(d) => Some(Rgb(PairValue(d[0], d[1]), PairValue(d[2], d[3]), PairValue(d[4], d[5])))
  }

  /** A value below 16 as a lowercase digit, as `Number.prototype.toString(16)` writes it. */
  function HexDigitChar(v: int): (ch: char)
    requires 0 <= v < 16
    ensures IsLowerHexDigit(ch) && IsHexDigit(ch) && HexValue(ch) == v
  {
    if v < 10 then ('0' as int + v) as char else ('a' as int + v - 10) as char
  }

  /** `n.toString(16)` for a non-negative integer: no padding, lowercase digits. */
  function ToBase16(n: nat): (s: string)
    ensures |s| >= 1
  {
    if n < 16 then [HexDigitChar(n)] else ToBase16(n / 16) + [HexDigitChar(n % 16)]
  }

  /** `rgbToHex`: the hex string of 2^24 + r*2^16 + g*2^8 + b with its leading `1` sliced off. */
  function RgbToHex(r: int, g: int, b: int): (s: string)
    requires IsChannel(r) && IsChannel(g) && IsChannel(b)
    ensures s == "#" + ChannelHex(r) + ChannelHex(g) + ChannelHex(b)
    ensures |s| == 7 && s[0] == '#'
    ensures forall i :: 1 <= i < 7 ==> IsLowerHexDigit(s[i])
  {
    RgbToHexDigits(r, g, b);
    "#" + ToBase16(16777216 + r * 65536 + g * 256 + b)[1..]
  }

  // ---------------------------------------------------------------------------
  // Reference definitions and lemmas

  function Pow16(k: nat): (p: nat)
    ensures p >= 1
  {
    if k == 0 then 1 else 16 * Pow16(k - 1)
  }

  /** The last k base-16 digits of v, zero-padded: the reference for the sliced string. */
  function Padded(v: nat, k: nat): (s: string)
    ensures |s| == k
  {
    if k == 0 then [] else Padded(v / 16, k - 1) + [HexDigitChar(v % 16)]
  }

  /** One channel as two lowercase digits. */
  function ChannelHex(c: int): (s: string)
    requires IsChannel(c)
    ensures |s| == 2 && IsLowerHexDigit(s[0]) && IsLowerHexDigit(s[1])
    ensures PairValue(s[0], s[1]) == c
  {
    [HexDigitChar(c / 16), HexDigitChar(c % 16)]
  }

  lemma DivMod16(q: nat, v: nat)
    ensures (16 * q + v) / 16 == q + v / 16
    ensures (16 * q + v) % 16 == v % 16
  {
  }

  /** Writing 16^k + v in base 16 gives `1` followed by v padded to k digits. */
  lemma {:induction false} ToBase16Leading(k: nat, v: nat)
    requires v < Pow16(k)
    ensures ToBase16(Pow16(k) + v) == "1" + Padded(v, k)
  {
    if k == 0 {
      assert v == 0;
    } else {
      var n := Pow16(k) + v;
      assert n >= 16;
      DivMod16(Pow16(k - 1), v);
      assert n / 16 == Pow16(k - 1) + v / 16;
      assert n % 16 == v % 16;
      assert v / 16 < Pow16(k - 1);
      ToBase16Leading(k - 1, v / 16);
    }
  }

  /** Padding splits at digit boundaries: the digits of a*16^j + b are those of a then of b. */
  lemma {:induction false} PaddedSplit(a: nat, b: nat, k: nat, j: nat)
    requires b < Pow16(j)
    ensures Padded(a * Pow16(j) + b, k + j) == Padded(a, k) + Padded(b, j)
  {
    if j == 0 {
      assert b == 0;
    } else {
      var x := a * Pow16(j) + b;
      assert a * Pow16(j) == 16 * (a * Pow16(j - 1));
      DivMod16(a * Pow16(j - 1), b);
      assert x / 16 == a * Pow16(j - 1) + b / 16;
      assert x % 16 == b % 16;
      PaddedSplit(a, b / 16, k, j - 1);
    }
  }

  lemma PaddedChannel(c: int)
    requires IsChannel(c)
    ensures Padded(c, 2) == ChannelHex(c)
  {
    assert Padded(c, 2) == Padded(c / 16, 1) + [HexDigitChar(c % 16)];
    assert Padded(c / 16, 1) == Padded(c / 256, 0) + [HexDigitChar((c / 16) % 16)];
  }

  lemma TimesPow16Two(x: nat)
    ensures x * Pow16(2) == 256 * x
  {
    assert Pow16(2) == 256;
  }

  /** Two more digits at the end: the n digits of 256 * a + b are the n - 2 of a, then b in two. */
  lemma PaddedLowByte(a: nat, b: nat, n: nat)
    requires b < 256 && n >= 2
    ensures Padded(256 * a + b, n) == Padded(a, n - 2) + Padded(b, 2)
  {
    assert Pow16(2) == 256;
    TimesPow16Two(a);
    PaddedSplit(a, b, n - 2, 2);
  }

  /** A packed value `a * 65536 + b * 256 + c` in n digits: a, then two digits each for b and c. */
  lemma PaddedBytes(a: nat, b: nat, c: nat, n: nat)
    requires b < 256 && c < 256 && n >= 4
    ensures Padded(a * 65536 + b * 256 + c, n) == Padded(a, n - 4) + Padded(b, 2) + Padded(c, 2)
  {
    PaddedLowByte(256 * a + b, c, n);
    PaddedLowByte(a, b, n - 2);
  }

  /** The sliced `toString(16)` is the three channels' two-digit groups, in order. */
  lemma RgbToHexDigits(r: int, g: int, b: int)
    requires IsChannel(r) && IsChannel(g) && IsChannel(b)
    ensures ToBase16(16777216 + r * 65536 + g * 256 + b)[1..]
         == ChannelHex(r) + ChannelHex(g) + ChannelHex(b)
  {
    var v := r * 65536 + g * 256 + b;
    var t := ToBase16(16777216 + v);
    assert Pow16(6) == 16777216;
    ToBase16Leading(6, v);
    assert t == "1" + Padded(v, 6);
    PaddedBytes(r, g, b, 6);
    assert Padded(v, 6) == Padded(r, 2) + Padded(g, 2) + Padded(b, 2);
    PaddedChannel(r);
    PaddedChannel(g);
    PaddedChannel(b);
    assert Padded(v, 6) == ChannelHex(r) + ChannelHex(g) + ChannelHex(b);
    assert t[1..] == Padded(v, 6);
  }

  lemma HexDigitsHaveNoHash(s: string)
    requires AllHex(s)
    ensures '#' !in s
  {
  }

  /** Normalising a valid string gives `#` and six digits: a shorthand has each digit doubled
      in order, a full form keeps its digits as they are. */
  lemma NormalizeValid(s: string)
    requires IsValidHex(s)
    ensures var n := NormalizeHex(s); var d := Digits(s);
      && |n| == 7 && n[0] == '#' && AllHex(n[1..])
      && (|d| == 6 ==> n == "#" + d)
      && (|d| == 3 ==> forall i :: 0 <= i < 3 ==> n[1 + 2 * i] == d[i] && n[2 + 2 * i] == d[i])
  {
    var d := Digits(s);
    HexDigitsHaveNoHash(d);
    if |s| > 0 && s[0] == '#' {
      assert RemoveFirstHash(s) == d;
    } else {
      assert RemoveFirstHash(s) == d;
    }
    var n := NormalizeHex(s);
    if |d| == 3 {
      var t := DoubleEach(d);
      assert n == "#" + t;
      forall i | 0 <= i < 6 ensures IsHexDigit(n[1..][i]) {
        assert n[1..][i] == t[i];
        assert t[2 * (i / 2)] == d[i / 2] && t[2 * (i / 2) + 1] == d[i / 2];
      }
    } else {
      assert n[1..] == d;
    }
  }

  /** `hexToRgb` is `null` exactly for the strings `isValidHex` rejects. */
  lemma HexToRgbNullIffInvalid(s: string)
    ensures HexToRgb(s).None? <==> !IsValidHex(s)
  {
    if IsValidHex(s) {
      NormalizeValid(s);
      var n := NormalizeHex(s);
      assert StripHash(n) == n[1..];
    }
  }

  /** For a valid string each channel is the base-16 value of the matching digit pair of the
      normalised form. */
  lemma {:induction false} HexToRgbChannels(s: string)
    requires IsValidHex(s)
    ensures var n := NormalizeHex(s);
      && |n| == 7 && AllHex(n[1..])
      && HexToRgb(s) == Some(Rgb(PairValue(n[1], n[2]), PairValue(n[3], n[4]), PairValue(n[5], n[6])))
  {
    NormalizeValid(s);
    var n := NormalizeHex(s);
    var d := n[1..];
    assert StripHash(n) == d;
    assert SixDigits(n) == Some(d);
    assert d[0] == n[1] && d[1] == n[2] && d[2] == n[3] && d[3] == n[4] && d[4] == n[5] && d[5] == n[6];
  }

  /** For the shorthand each channel is 17 times the value of its single digit. */
  lemma {:induction false} HexToRgbShorthand(s: string)
    requires IsValidHex(s) && |Digits(s)| == 3
    ensures var d := Digits(s);
      HexToRgb(s) == Some(Rgb(17 * HexValue(d[0]), 17 * HexValue(d[1]), 17 * HexValue(d[2])))
  {
    HexToRgbChannels(s);
    NormalizeValid(s);
    var n := NormalizeHex(s);
    var d := Digits(s);
    assert n[1] == d[0] && n[2] == d[0];
    assert n[3] == d[1] && n[4] == d[1];
    assert n[5] == d[2] && n[6] == d[2];
  }

  /** An `#rrggbb` string of lowercase digits parses back to the channels it was written from. */
  lemma {:induction false} RgbToHexRoundTrip(r: int, g: int, b: int)
    requires IsChannel(r) && IsChannel(g) && IsChannel(b)
    ensures IsValidHex(RgbToHex(r, g, b))
    ensures NormalizeHex(RgbToHex(r, g, b)) == RgbToHex(r, g, b)
    ensures HexToRgb(RgbToHex(r, g, b)) == Some(Rgb(r, g, b))
  {
    var s := RgbToHex(r, g, b);
    var d := s[1..];
    assert StripHash(s) == d;
    assert AllHex(d) by {
      forall i | 0 <= i < 6 ensures IsHexDigit(d[i]) {
        assert IsLowerHexDigit(s[i + 1]);
      }
    }
    assert IsValidHex(s);
    HexDigitsHaveNoHash(d);
    assert RemoveFirstHash(s) == d;
    assert NormalizeHex(s) == s;
    assert SixDigits(s) == Some(d);
    assert d == ChannelHex(r) + ChannelHex(g) + ChannelHex(b);
    assert d[0..2] == ChannelHex(r);
  }

  /** Writing a digit's value back gives the digit in lowercase. */
  lemma HexDigitOfValue(ch: char)
    requires IsHexDigit(ch)
    ensures HexDigitChar(HexValue(ch)) == AsciiLowerChar(ch)
  {
  }

  /** Writing a digit pair's value back gives the pair in lowercase. */
  lemma ChannelOfPair(hi: char, lo: char)
    requires IsHexDigit(hi) && IsHexDigit(lo)
    ensures ChannelHex(PairValue(hi, lo)) == [AsciiLowerChar(hi), AsciiLowerChar(lo)]
  {
    var v := PairValue(hi, lo);
    assert v / 16 == HexValue(hi) && v % 16 == HexValue(lo);
    HexDigitOfValue(hi);
    HexDigitOfValue(lo);
  }

  /** `#` and three digit pairs, written back from their values, is the string in lowercase. */
  lemma WriteOfPairs(n: string)
    requires |n| == 7 && n[0] == '#' && AllHex(n[1..])
    ensures var r, g, b := PairValue(n[1], n[2]), PairValue(n[3], n[4]), PairValue(n[5], n[6]);
      RgbToHex(r, g, b) == AsciiLower(n)
  {
    assert IsHexDigit(n[1..][0]) && IsHexDigit(n[1..][1]) && IsHexDigit(n[1..][2]);
    assert IsHexDigit(n[1..][3]) && IsHexDigit(n[1..][4]) && IsHexDigit(n[1..][5]);
    var r, g, b := PairValue(n[1], n[2]), PairValue(n[3], n[4]), PairValue(n[5], n[6]);
    ChannelOfPair(n[1], n[2]);
    ChannelOfPair(n[3], n[4]);
    ChannelOfPair(n[5], n[6]);
    var w := RgbToHex(r, g, b);
    var lower := AsciiLower(n);
    var hr, hg, hb := ChannelHex(r), ChannelHex(g), ChannelHex(b);
    assert w == "#" + hr + hg + hb;
    assert w[1] == hr[0] && w[2] == hr[1] && w[3] == hg[0] && w[4] == hg[1] && w[5] == hb[0] && w[6] == hb[1];
    assert lower[0] == '#';
    SevenEqual(w, lower);
  }

  lemma SevenEqual(a: string, b: string)
    requires |a| == 7 && |b| == 7
    requires a[0] == b[0] && a[1] == b[1] && a[2] == b[2] && a[3] == b[3]
    requires a[4] == b[4] && a[5] == b[5] && a[6] == b[6]
    ensures a == b
  {
    assert forall i :: 0 <= i < 7 ==> a[i] == b[i];
  }

  /** Parsing a valid string and writing the channels back gives its normalised form in
      lowercase: `rgbToHex` forgets only the case and the shorthand. */
  lemma ParseThenWrite(s: string)
    requires IsValidHex(s)
    ensures HexToRgb(s).Some?
    ensures var c := HexToRgb(s).value; RgbToHex(c.r, c.g, c.b) == AsciiLower(NormalizeHex(s))
  {
    HexToRgbChannels(s);
    WriteOfPairs(NormalizeHex(s));
  }
}
