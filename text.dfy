/**
  The string operations the formatter and the exporter use: JavaScript's printing of
  integers and of the rounded OKLCH numbers, ASCII case mapping, the `\s` class of
  JavaScript regular expressions, and the slug of a palette entry's name.
 */
module Text {
  import opened Wrappers

  predicate IsDigit(ch: char) { '0' <= ch <= '9' }

  predicate AllDigits(s: string) {
    forall i :: 0 <= i < |s| ==> IsDigit(s[i])
  }

  function DigitChar(v: int): (ch: char)
    requires 0 <= v < 10
    ensures IsDigit(ch) && DigitValue(ch) == v
  {
    ('0' as int + v) as char
  }

  function DigitValue(ch: char): (v: int)
    requires IsDigit(ch)
    ensures 0 <= v < 10
  {
    ch as int - '0' as int
  }

  /** A non-negative integer in decimal, as a template literal prints it. */
  function NatToString(n: nat): (s: string)
    ensures |s| >= 1 && AllDigits(s)
    ensures s[0] == '0' ==> n == 0
  {
    if n < 10 then [DigitChar(n)] else NatToString(n / 10) + [DigitChar(n % 10)]
  }

  /** An integer in decimal, with a leading `-` when negative. */
  function IntToString(n: int): (s: string)
    ensures n >= 0 ==> s == NatToString(n)
    ensures n < 0 ==> s == "-" + NatToString(-n)
  {
    if n < 0 then "-" + NatToString(-n) else NatToString(n)
  }

  /** The value of a string of decimal digits: the reference for `NatToString`. */
  function DecimalValue(s: string): nat
    requires AllDigits(s)
  {
    if s == [] then 0 else 10 * DecimalValue(s[..|s| - 1]) + DigitValue(s[|s| - 1])
  }

  /** v with its last k decimal digits removed (v divided by 10^k, rounded down). */
  function DropDecimal(v: nat, k: nat): nat {
    if k == 0 then v else DropDecimal(v / 10, k - 1)
  }

  /** The last k decimal digits of v, zero-padded. */
  function PadDecimal(v: nat, k: nat): (s: string)
    ensures |s| == k && AllDigits(s)
  {
    if k == 0 then [] else PadDecimal(v / 10, k - 1) + [DigitChar(v % 10)]
  }

  function TrimTrailingZeros(s: string): (t: string)
    ensures |t| <= |s| && t == s[..|t|]
    ensures t == [] || t[|t| - 1] != '0'
    ensures forall i :: |t| <= i < |s| ==> s[i] == '0'
  {
    if s == [] || s[|s| - 1] != '0' then s else TrimTrailingZeros(s[..|s| - 1])
  }

  /** How JavaScript prints the number n / 10^places (for magnitudes below 10^21): the integer
      part, then, unless the fraction is zero, a point and the fraction without trailing zeros. */
  function FixedToString(n: int, places: nat): string {
    (if n < 0 then "-" else "") + UnsignedFixed(if n < 0 then -n else n, places)
  }

  /** The magnitude part of `FixedToString`: a / 10^places as integer digits, then, unless the
      fraction is zero, a point and the fraction without trailing zeros. */
  function UnsignedFixed(a: nat, places: nat): string {
    var frac := TrimTrailingZeros(PadDecimal(a, places));
    NatToString(DropDecimal(a, places)) + (if frac == [] then "" else "." + frac)
  }

  /** v * 10^k. */
  function Scale(v: nat, k: nat): nat {
    if k == 0 then v else 10 * Scale(v, k - 1)
  }

  /** The position of the first `.` in s, or |s| when there is none. */
  function PointIndex(s: string): (k: nat)
    ensures k <= |s|
    ensures k < |s| ==> s[k] == '.'
  {
    if s == [] || s[0] == '.' then 0 else 1 + PointIndex(s[1..])
  }

  /** The reading of an unsigned decimal numeral `I[.F]`, with at least one integer digit and,
      after a point, between 1 and `places` fraction digits, as a multiple of 10^-places. */
  function ReadUnsigned(s: string, places: nat): Option<nat> {
    var k := PointIndex(s);
    var ip := s[..k];
    var fp := if k < |s| then s[k + 1..] else [];
    if ip == [] || !AllDigits(ip) || !AllDigits(fp) || |fp| > places || (k < |s| && fp == []) then None
    else Some(Scale(DecimalValue(ip), places) + Scale(DecimalValue(fp), places - |fp|))
  }

  /** The reading of a decimal numeral `[-]I[.F]` as a multiple of 10^-places: the reference
      that `FixedToString` is proved against. `None` for text of any other shape. */
  function ReadFixed(s: string, places: nat): Option<int> {
    if |s| > 0 && s[0] == '-' then
      match ReadUnsigned(s[1..], places)
      case None => None
      case Some(v) => Some(-(v as int))
    else
      match ReadUnsigned(s, places)
      case None => None
      case Some(v) => Some(v)
  }

  function AsciiUpperChar(ch: char): char {
    if 'a' <= ch <= 'z' then (ch as int - 32) as char else ch
  }

  function AsciiLowerChar(ch: char): char {
    if 'A' <= ch <= 'Z' then (ch as int + 32) as char else ch
  }

  /** `toUpperCase` restricted to ASCII letters. */
  function AsciiUpper(s: string): (t: string)
    ensures |t| == |s| && forall i :: 0 <= i < |s| ==> t[i] == AsciiUpperChar(s[i])
    ensures NoAsciiLower(t)
  {
    if s == [] then [] else [AsciiUpperChar(s[0])] + AsciiUpper(s[1..])
  }

  /** `toLowerCase` restricted to ASCII letters. */
  function AsciiLower(s: string): (t: string)
    ensures |t| == |s| && forall i :: 0 <= i < |s| ==> t[i] == AsciiLowerChar(s[i])
    ensures NoAsciiUpper(t)
  {
    if s == [] then [] else [AsciiLowerChar(s[0])] + AsciiLower(s[1..])
  }

  /** The `\s` class of JavaScript regular expressions: white space and line terminators. */
  predicate IsSpace(ch: char) {
    || ch == '\t' || ch == '\n' || ch == '\U{B}' || ch == '\U{C}' || ch == '\r' || ch == ' '
    || ch == '\U{A0}' || ch == '\U{1680}' || '\U{2000}' <= ch <= '\U{200A}'
    || ch == '\U{2028}' || ch == '\U{2029}' || ch == '\U{202F}' || ch == '\U{205F}'
    || ch == '\U{3000}' || ch == '\U{FEFF}'
  }

  function DropSpaces(s: string): (t: string)
    ensures |t| <= |s| && t == s[|s| - |t|..]
    ensures t == [] || !IsSpace(t[0])
  {
    if s != [] && IsSpace(s[0]) then DropSpaces(s[1..]) else s
  }

  /** `replace(/\s+/g, '-')`: every maximal run of white space becomes one `-`. */
  function ReplaceSpaceRuns(s: string): string
    decreases |s|
  {
    if s == [] then []
    else if IsSpace(s[0]) then "-" + ReplaceSpaceRuns(DropSpaces(s[1..]))
    else [s[0]] + ReplaceSpaceRuns(s[1..])
  }

  /** The variable-name part of an exported declaration:
      `name.toLowerCase().replace(/\s+/g, '-')`. */
  function Slug(name: string): string {
    ReplaceSpaceRuns(AsciiLower(name))
  }

  predicate NoSpace(s: string) {
    forall i :: 0 <= i < |s| ==> !IsSpace(s[i])
  }

  predicate NoAsciiUpper(s: string) {
    forall i :: 0 <= i < |s| ==> !('A' <= s[i] <= 'Z')
  }

  predicate NoAsciiLower(s: string) {
    forall i :: 0 <= i < |s| ==> !('a' <= s[i] <= 'z')
  }

  // ---------------------------------------------------------------------------
  // Lemmas

  /** Printing a natural number in decimal and reading it back gives the number. */
  lemma {:induction false} NatToStringRoundTrip(n: nat)
    ensures DecimalValue(NatToString(n)) == n
  {
    if n >= 10 {
      var s := NatToString(n);
      assert s[..|s| - 1] == NatToString(n / 10);
      NatToStringRoundTrip(n / 10);
    }
  }

  lemma {:induction false} ReplaceSpaceRunsNoSpace(s: string)
    ensures NoSpace(ReplaceSpaceRuns(s))
    decreases |s|
  {
    if s == [] {
    } else if IsSpace(s[0]) {
      ReplaceSpaceRunsNoSpace(DropSpaces(s[1..]));
    } else {
      ReplaceSpaceRunsNoSpace(s[1..]);
    }
  }

  lemma SuffixNoAsciiUpper(s: string, k: nat)
    requires NoAsciiUpper(s) && k <= |s|
    ensures NoAsciiUpper(s[k..])
  {
    forall i | 0 <= i < |s| - k ensures !('A' <= s[k..][i] <= 'Z') {
      assert s[k..][i] == s[k + i];
    }
  }

  lemma ConcatNoAsciiUpper(a: string, b: string)
    requires NoAsciiUpper(a) && NoAsciiUpper(b)
    ensures NoAsciiUpper(a + b)
  {
    forall i | 0 <= i < |a + b| ensures !('A' <= (a + b)[i] <= 'Z') {
      if i < |a| {
        assert (a + b)[i] == a[i];
      } else {
        assert (a + b)[i] == b[i - |a|];
      }
    }
  }

  lemma {:induction false} ReplaceSpaceRunsKeepsCase(s: string)
    requires NoAsciiUpper(s)
    ensures NoAsciiUpper(ReplaceSpaceRuns(s))
    decreases |s|
  {
    if s != [] {
      var rest := s[1..];
      SuffixNoAsciiUpper(s, 1);
      if IsSpace(s[0]) {
        var t := DropSpaces(rest);
        SuffixNoAsciiUpper(rest, |rest| - |t|);
        ReplaceSpaceRunsKeepsCase(t);
        ConcatNoAsciiUpper("-", ReplaceSpaceRuns(t));
      } else {
        ReplaceSpaceRunsKeepsCase(rest);
        assert NoAsciiUpper([s[0]]);
        ConcatNoAsciiUpper([s[0]], ReplaceSpaceRuns(rest));
      }
    }
  }

  /** A string without white space has no runs to replace. */
  lemma {:induction false} ReplaceSpaceRunsIdentity(s: string)
    requires NoSpace(s)
    ensures ReplaceSpaceRuns(s) == s
  {
    if s != [] {
      assert !IsSpace(s[0]);
      ReplaceSpaceRunsIdentity(s[1..]);
    }
  }

  predicate AllSpace(w: string) {
    forall i :: 0 <= i < |w| ==> IsSpace(w[i])
  }

  /** Skipping white space consumes a whole run and stops at the first other character. */
  lemma {:induction false} DropRun(w: string, b: string)
    requires AllSpace(w) && (b == [] || !IsSpace(b[0]))
    ensures DropSpaces(w + b) == b
  {
    if w == [] {
      assert w + b == b;
    } else {
      assert (w + b)[0] == w[0];
      assert (w + b)[1..] == w[1..] + b;
      DropRun(w[1..], b);
    }
  }

  /** A maximal white-space run after text without white space becomes a single `-`, and the
      text before it is kept as it is. */
  lemma {:induction false} RunBecomesDash(a: string, w: string, b: string)
    requires NoSpace(a) && |w| > 0 && AllSpace(w) && (b == [] || !IsSpace(b[0]))
    ensures ReplaceSpaceRuns(a + w + b) == a + "-" + ReplaceSpaceRuns(b)
    decreases |a|
  {
    var s := a + w + b;
    if a == [] {
      assert s == w + b;
      assert s[0] == w[0];
      assert s[1..] == w[1..] + b;
      DropRun(w[1..], b);
    } else {
      assert s[0] == a[0];
      assert s[1..] == a[1..] + w + b;
      RunBecomesDash(a[1..], w, b);
      assert a + "-" + ReplaceSpaceRuns(b) == [a[0]] + (a[1..] + "-" + ReplaceSpaceRuns(b));
    }
  }

  /** A slug has no white space and no upper-case ASCII letter. */
  lemma SlugChars(name: string)
    ensures NoSpace(Slug(name)) && NoAsciiUpper(Slug(name))
  {
    var lower := AsciiLower(name);
    ReplaceSpaceRunsNoSpace(lower);
    ReplaceSpaceRunsKeepsCase(lower);
  }

  /** A slug has no white space and no upper-case ASCII letter, and slugging it again changes
      nothing. */
  lemma SlugIsCanonical(name: string)
    ensures NoSpace(Slug(name)) && NoAsciiUpper(Slug(name))
    ensures Slug(Slug(name)) == Slug(name)
  {
    SlugChars(name);
    var t := Slug(name);
    var t2 := AsciiLower(t);
    assert t2 == t;
    ReplaceSpaceRunsIdentity(t);
  }

  /** Every character of a printed integer is a digit or the minus sign. */
  lemma IntToStringChars(n: int)
    ensures forall i :: 0 <= i < |IntToString(n)| ==> IsDigit(IntToString(n)[i]) || IntToString(n)[i] == '-'
  {
  }

  /** Every character of a printed fixed-point number is a digit, the minus sign or the point. */
  lemma FixedToStringChars(n: int, places: nat)
    ensures var s := FixedToString(n, places);
      forall i :: 0 <= i < |s| ==> IsDigit(s[i]) || s[i] == '-' || s[i] == '.'
  {
    var a: nat := if n < 0 then -n else n;
    var digits := PadDecimal(a, places);
    var t := TrimTrailingZeros(digits);
    assert AllDigits(t) by {
      forall i | 0 <= i < |t| ensures IsDigit(t[i]) {
        assert t[i] == digits[i];
      }
    }
  }

  /** DecimalValue reads the last digit as the units. */
  lemma DecimalValueSnoc(s: string, ch: char)
    requires AllDigits(s) && IsDigit(ch)
    ensures AllDigits(s + [ch]) && DecimalValue(s + [ch]) == 10 * DecimalValue(s) + DigitValue(ch)
  {
    assert (s + [ch])[..|s|] == s;
  }

  /** The two pieces `FixedToString` prints rebuild the number: the integer part times 10^k plus
      the k padded fraction digits. */
  lemma {:induction false} PadDecimalValue(v: nat, k: nat)
    ensures Scale(DropDecimal(v, k), k) + DecimalValue(PadDecimal(v, k)) == v
  {
    if k > 0 {
      PadDecimalValue(v / 10, k - 1);
      var pad := PadDecimal(v / 10, k - 1);
      DecimalValueSnoc(pad, DigitChar(v % 10));
      assert DecimalValue(PadDecimal(v, k)) == 10 * DecimalValue(pad) + v % 10;
    }
  }

  /** Dropping trailing zeros divides the value of a digit string by 10 per zero dropped. */
  lemma {:induction false} TrimValue(s: string)
    requires AllDigits(s)
    ensures var t := TrimTrailingZeros(s);
      AllDigits(t) && Scale(DecimalValue(t), |s| - |t|) == DecimalValue(s)
    decreases |s|
  {
    var t := TrimTrailingZeros(s);
    if s != [] && s[|s| - 1] == '0' {
      var init := s[..|s| - 1];
      TrimValue(init);
      assert t == TrimTrailingZeros(init);
      assert DecimalValue(s) == 10 * DecimalValue(init);
    } else {
      assert t == s;
    }
  }

  /** In a run of digits followed by nothing or a point, the first point is after the digits. */
  lemma {:induction false} PointAfterDigits(d: string, rest: string)
    requires AllDigits(d) && (rest == [] || rest[0] == '.')
    ensures PointIndex(d + rest) == |d|
  {
    if d != [] {
      assert (d + rest)[1..] == d[1..] + rest;
      PointAfterDigits(d[1..], rest);
    }
  }

  /** Digits, then optionally a point and fraction digits, read as the two digit strings. */
  lemma ReadUnsignedOf(ip: string, frac: string, places: nat)
    requires |ip| >= 1 && AllDigits(ip) && AllDigits(frac) && |frac| <= places
    ensures ReadUnsigned(ip + (if frac == [] then "" else "." + frac), places)
         == Some(Scale(DecimalValue(ip), places) + Scale(DecimalValue(frac), places - |frac|))
  {
    var rest := if frac == [] then "" else "." + frac;
    var body := ip + rest;
    PointAfterDigits(ip, rest);
    assert body[..|ip|] == ip;
    if frac != [] {
      assert body[|ip| + 1..] == frac;
    }
  }

  /** A leading minus sign negates the reading; text starting with a digit reads unsigned. */
  lemma ReadSign(neg: bool, body: string, places: nat)
    requires |body| >= 1 && IsDigit(body[0]) && ReadUnsigned(body, places).Some?
    ensures var v: int := ReadUnsigned(body, places).value;
      ReadFixed((if neg then "-" else "") + body, places) == Some(if neg then -v else v)
  {
    if neg {
      assert ("-" + body)[1..] == body;
    } else {
      assert ("" + body) == body;
    }
  }

  /** The magnitude part reads back as the magnitude. */
  lemma UnsignedFixedReadsBack(a: nat, places: nat)
    ensures |UnsignedFixed(a, places)| >= 1 && IsDigit(UnsignedFixed(a, places)[0])
    ensures ReadUnsigned(UnsignedFixed(a, places), places) == Some(a)
  {
    var pad := PadDecimal(a, places);
    var frac := TrimTrailingZeros(pad);
    var q := DropDecimal(a, places);
    var ip := NatToString(q);
    var rest := if frac == [] then "" else "." + frac;
    assert UnsignedFixed(a, places) == ip + rest;
    TrimValue(pad);
    assert Scale(DecimalValue(ip), places) + Scale(DecimalValue(frac), places - |frac|) == a by {
      PadDecimalValue(a, places);
      NatToStringRoundTrip(q);
    }
    ReadUnsignedOf(ip, frac, places);
    assert (ip + rest)[0] == ip[0];
  }

  /** Reading a printed fixed-point number back gives the number: `FixedToString(n, places)`
      denotes n / 10^places, with n's sign. */
  lemma FixedToStringReadsBack(n: int, places: nat)
    ensures ReadFixed(FixedToString(n, places), places) == Some(n)
  {
    var a: nat := if n < 0 then -n else n;
    UnsignedFixedReadsBack(a, places);
    ReadSign(n < 0, UnsignedFixed(a, places), places);
  }
}
