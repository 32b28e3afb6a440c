/** The public static methods of the Color class: blending two colors
    (`mix`, `darker`, `lighter`) and the validating conversions between the
    hex and rgb notations (`hex2Rgb`, `rgb2Hex`). A `null` result is `None`. */
module Color {
  import opened Wrappers
  import opened Numerals
  import opened Text
  import opened Patterns
  import opened Convert

  /** `Math.round`: the nearest integer, a half rounded up. */
  function Round(x: real): (n: int)
    ensures n as real - 0.5 <= x < n as real + 0.5
  {
    (x + 0.5).Floor
  }

  predicate Between(x: int, a: int, b: int)
  {
    (a <= x <= b) || (b <= x <= a)
  }

  predicate BetweenRgb(m: Rgb, f: Rgb, t: Rgb)
  {
    Between(m.r, f.r, t.r) && Between(m.g, f.g, t.g) && Between(m.b, f.b, t.b)
  }

  /** `c` is what `Math.round` makes of `x`: the nearest integer, a half rounded up. */
  predicate RoundsTo(c: int, x: real)
  {
    c as real - 0.5 <= x < c as real + 0.5
  }

  /** Each channel of `m` is the rounded point `(t - f) * p + f` of the matching channels. */
  predicate Blended(m: Rgb, f: Rgb, t: Rgb, p: real)
  {
    && RoundsTo(m.r, (t.r - f.r) as real * p + f.r as real)
    && RoundsTo(m.g, (t.g - f.g) as real * p + f.g as real)
    && RoundsTo(m.b, (t.b - f.b) as real * p + f.b as real)
  }

  /** One channel of `mix`: the interpolation point, rounded. The result is the integer
      nearest to that point, lies between the two channels and meets them at the two ends
      of the range. */
  function MixChannel(f: nat, t: nat, percent: real): (c: nat)
    requires 0.0 <= percent <= 1.0
    ensures RoundsTo(c, (t - f) as real * percent + f as real)
    ensures Between(c, f, t)
    ensures percent == 0.0 ==> c == f
    ensures percent == 1.0 ==> c == t
  {
    var x := Lerp(f, t, percent);
    RoundBetween(x, f, t);
    Round(x)
  }

  /** The point `(t - f) * p + f`: for `p` in [0, 1] it lies between `f` and `t`, and it
      is `f` at 0 and `t` at 1. */
  function Lerp(f: int, t: int, p: real): (x: real)
    requires 0.0 <= p <= 1.0
    ensures (f as real <= x <= t as real) || (t as real <= x <= f as real)
    ensures p == 0.0 ==> x == f as real
    ensures p == 1.0 ==> x == t as real
  {
    var d := (t - f) as real;
    var x := d * p + f as real;
    assert (f as real <= x <= t as real) || (t as real <= x <= f as real) by {
      assert d - d * p == d * (1.0 - p);
      if d >= 0.0 {
        ProductNonNegative(d, p);
        ProductNonNegative(d, 1.0 - p);
      } else {
        ProductNonNegative(-d, p);
        ProductNonNegative(-d, 1.0 - p);
      }
    }
    x
  }

  lemma ProductNonNegative(a: real, b: real)
    requires a >= 0.0 && b >= 0.0
    ensures a * b >= 0.0
  {
  }

  /** Rounding a number that lies between two integers stays between them, and an
      integer rounds to itself. */
  lemma RoundBetween(x: real, f: int, t: int)
    requires (f as real <= x <= t as real) || (t as real <= x <= f as real)
    ensures Between(Round(x), f, t)
    ensures x == f as real ==> Round(x) == f
    ensures x == t as real ==> Round(x) == t
  {
  }

  /** All three channels of `mix`. */
  function MixRgb(f: Rgb, t: Rgb, percent: real): (m: Rgb)
    requires 0.0 <= percent <= 1.0
    ensures Blended(m, f, t, percent)
    ensures BetweenRgb(m, f, t)
    ensures percent == 0.0 ==> m == f
    ensures percent == 1.0 ==> m == t
  {
    Rgb(MixChannel(f.r, t.r, percent), MixChannel(f.g, t.g, percent), MixChannel(f.b, t.b, percent))
  }

  /** `Color.mix`: blend two colors channel by channel. It returns `None` when the percent
      is outside [0, 1] or either color is rejected, and otherwise an rgb string that is
      accepted again and reads back, channel by channel, as the rounded interpolation point
      of the two colors: so between them, the first color at 0 and the second at 1. */
  function Mix(color: string, color2: string, percent: real): (r: Option<string>)
    ensures r.None? <==>
      percent < 0.0 || percent > 1.0 || ToRgbArray(color).None? || ToRgbArray(color2).None?
    ensures r.Some? ==>
      && IsRgbColor(r.value) && NormalizedRgb(r.value) == r.value
      && ToRgbArray(r.value) == Some(Channels(r.value))
      && var m, f, t := Channels(r.value), ToRgbArray(color).value, ToRgbArray(color2).value;
      && Blended(m, f, t, percent)
      && BetweenRgb(m, f, t)
      && (percent == 0.0 ==> m == f)
      && (percent == 1.0 ==> m == t)
  {
    if percent > 1.0 || percent < 0.0 then None
    else
      var f := ToRgbArray(color);
      var t := ToRgbArray(color2);
      if f.None? || t.None? then None
      else
        var m := MixRgb(f.value, t.value, percent);
        assert Below(m, 999) by {
          assert Below(f.value, 999) && Below(t.value, 999);
        }
        var s := FormatRgb(m);
        FormatRgbRoundTrip(m);
        AcceptedRgbReads(s);
        Some(s)
  }

  /** An accepted rgb string passes through `_toRgbArray` unchanged by the white-space
      removal and is read as its channels. */
  lemma AcceptedRgbReads(s: string)
    requires IsRgbColor(s)
    ensures ToRgbArray(s) == Some(Channels(s))
  {
    NotBoth(s);
    StripSpacesFixed(s);
  }

  /** `Color.darker`: mix with black, `rgb(0, 0, 0)`. No channel grows. */
  function Darker(color: string, percent: real): (r: Option<string>)
    ensures r.None? <==> percent < 0.0 || percent > 1.0 || ToRgbArray(color).None?
    ensures r.Some? ==>
      && IsRgbColor(r.value)
      && var c, d := ToRgbArray(color).value, Channels(r.value);
      && d.r <= c.r && d.g <= c.g && d.b <= c.b
      && (percent == 0.0 ==> d == c)
  {
    BlackLiteral();
    Mix(color, "rgb(0, 0, 0)", percent)
  }

  /** `Color.lighter`: mix with white, `rgb(255, 255, 255)`. A channel that starts at most
      255 does not shrink and stays at most 255. */
  function Lighter(color: string, percent: real): (r: Option<string>)
    ensures r.None? <==> percent < 0.0 || percent > 1.0 || ToRgbArray(color).None?
    ensures r.Some? ==>
      && IsRgbColor(r.value)
      && var c, l := ToRgbArray(color).value, Channels(r.value);
      && (c.r <= 255 ==> c.r <= l.r <= 255)
      && (c.g <= 255 ==> c.g <= l.g <= 255)
      && (c.b <= 255 ==> c.b <= l.b <= 255)
      && (percent == 0.0 ==> l == c)
  {
    WhiteLiteral();
    Mix(color, "rgb(255, 255, 255)", percent)
  }

  /** The spaces inside the black literal of `darker` are removed before matching, so
      it is accepted as black. */
  lemma BlackLiteral()
    ensures ToRgbArray("rgb(0, 0, 0)") == Some(Rgb(0, 0, 0))
  {
    BlackText();
    StripTwoSpaces("rgb(0,", "0,", "0)");
    FormatRgbRoundTrip(Rgb(0, 0, 0));
    AcceptedRgbReads(FormatRgb(Rgb(0, 0, 0)));
  }

  lemma BlackText()
    ensures NoSpace("rgb(0,") && NoSpace("0,") && NoSpace("0)")
    ensures "rgb(0, 0, 0)" == "rgb(0," + " " + "0," + " " + "0)"
    ensures "rgb(0," + "0," + "0)" == FormatRgb(Rgb(0, 0, 0)) == "rgb(0,0,0)"
  {
  }

  /** The spaces inside the white literal of `lighter` are removed before matching, so
      it is accepted as white. */
  lemma WhiteLiteral()
    ensures ToRgbArray("rgb(255, 255, 255)") == Some(Rgb(255, 255, 255))
  {
    WhiteText();
    WhiteFormat();
    StripTwoSpaces("rgb(255,", "255,", "255)");
    FormatRgbRoundTrip(Rgb(255, 255, 255));
    AcceptedRgbReads(FormatRgb(Rgb(255, 255, 255)));
  }

  lemma WhiteText()
    ensures NoSpace("rgb(255,") && NoSpace("255,") && NoSpace("255)")
    ensures "rgb(255, 255, 255)" == "rgb(255," + " " + "255," + " " + "255)"
  {
  }

  lemma WhiteFormat()
    ensures "rgb(255," + "255," + "255)" == FormatRgb(Rgb(255, 255, 255)) == "rgb(255,255,255)"
  {
    RenderTwoFiftyFive();
  }

  lemma RenderTwoFiftyFive()
    ensures Render(255, 10) == "255"
  {
    assert Render(25, 10) == "25" by {
      assert Render(2, 10) == "2";
    }
  }

  /** `Color.hex2Rgb`: `None` exactly when the input is not a hex color (no white space
      is removed); otherwise the normalized rgb string of the channels the hex denotes. */
  function Hex2Rgb(hex: string): (r: Option<string>)
    ensures r.None? <==> !IsHexColor(hex)
    ensures r.Some? ==>
      IsRgbColor(r.value) && Channels(r.value) == HexMeaning(hex) && NormalizedRgb(r.value) == r.value
  {
    if !IsHexColor(hex) then None else Some(Hex2RgbText(hex))
  }

  /** `Color.rgb2Hex`: `None` exactly when the input is not an rgb color (no white space is
      removed). Otherwise a seven-character lower-case hex color whose six digits are the
      packed channels modulo 2^24; for channels up to 255 it denotes the same channels. */
  function Rgb2Hex(rgb: string): (r: Option<string>)
    ensures r.None? <==> !IsRgbColor(rgb)
    ensures r.Some? ==> PackedHex(r.value, Channels(rgb))
    ensures r.Some? && Below(Channels(rgb), 255) ==>
      IsHexColor(r.value) && HexMeaning(r.value) == Channels(rgb)
  {
    if !IsRgbColor(rgb) then None
    else
      var c := Channels(rgb);
      var h := Rgb2HexText(c.r, c.g, c.b);
      Rgb2HexTextSixDigits(c.r, c.g, c.b);
      assert Below(c, 255) ==> IsHexColor(h) && HexMeaning(h) == c by {
        if Below(c, 255) {
          Rgb2HexTextMeaning(c);
        }
      }
      Some(h)
  }

  /** For channels up to 255 the hex text denotes the same channels. */
  lemma Rgb2HexTextMeaning(c: Rgb)
    requires Below(c, 255)
    ensures var h := Rgb2HexText(c.r, c.g, c.b); IsHexColor(h) && HexMeaning(h) == c
  {
    var h := Rgb2HexText(c.r, c.g, c.b);
    Rgb2HexTextShape(c.r, c.g, c.b);
    assert HexPair(h, 1) == c.r && HexPair(h, 3) == c.g && HexPair(h, 5) == c.b;
  }

  /** On an accepted rgb string `rgb2Hex` packs the channels it reads. */
  lemma Rgb2HexWrites(s: string)
    requires IsRgbColor(s)
    ensures var c := Channels(s); Rgb2Hex(s) == Some(Rgb2HexText(c.r, c.g, c.b))
  {
  }

  /** The canonical form of a hex color: shorthand expanded to six digits, every letter
      in lower case. */
  function CanonicalHex(h: string): (k: string)
    requires IsHexColor(h)
    ensures IsHexColor(k) && |k| == 7 && AllLower(k)
    ensures forall i :: 1 <= i < 7 ==> DigitValue(k[i]) == DigitValue(ExpandHex(h)[i])
  {
    var e := ExpandHex(h);
    var k := "#" + LowerAll(e[1..]);
    assert forall i :: 1 <= i < 7 ==> k[i] == LowerAll(e[1..])[i - 1];
    k
  }

  /** The canonical form written out character by character: `#` and then, in lower case,
      each digit of a six-digit color or each digit of a shorthand color twice. */
  lemma CanonicalHexDigits(h: string)
    requires IsHexColor(h)
    ensures CanonicalHex(h)[0] == '#'
    ensures |h| == 7 ==> forall i :: 1 <= i < 7 ==> CanonicalHex(h)[i] == LowerHex(h[i])
    ensures |h| == 4 ==> forall i :: 1 <= i < 7 ==> CanonicalHex(h)[i] == LowerHex(h[(i + 1) / 2])
  {
    CanonicalHexExpanded(h);
  }

  lemma CanonicalHexExpanded(h: string)
    requires IsHexColor(h)
    ensures forall i :: 1 <= i < 7 ==> CanonicalHex(h)[i] == LowerHex(ExpandHex(h)[i])
  {
    forall i | 1 <= i < 7
      ensures CanonicalHex(h)[i] == LowerHex(ExpandHex(h)[i])
    {
      CanonicalHexAt(h, i);
    }
  }

  lemma CanonicalHexAt(h: string, i: nat)
    requires IsHexColor(h) && 1 <= i < 7
    ensures CanonicalHex(h)[i] == LowerHex(ExpandHex(h)[i])
  {
    var e := ExpandHex(h);
    var l := LowerAll(e[1..]);
    assert CanonicalHex(h) == "#" + l;
    assert e[1..][i - 1] == e[i];
  }

  /** Hex round trip: converting a hex color to rgb and back gives the canonical form. */
  lemma HexRoundTrip(h: string)
    requires IsHexColor(h)
    ensures Hex2Rgb(h).Some? && Rgb2Hex(Hex2Rgb(h).value) == Some(CanonicalHex(h))
  {
    var m := HexMeaning(h);
    var e := ExpandHex(h);
    HexThenRgb2Hex(h);
    MeaningOfPairs(h);
    PairsToHex(e);
    assert CanonicalHex(h) == "#" + LowerAll(e[1..]);
  }

  /** The channels a hex color denotes are the three byte pairs of its expanded form. */
  lemma MeaningOfPairs(h: string)
    requires IsHexColor(h)
    ensures var e := ExpandHex(h);
      HexMeaning(h) == Rgb(HexPair(e, 1), HexPair(e, 3), HexPair(e, 5))
  {
    var e := ExpandHex(h);
    if |h| == 4 {
      assert e[1] == e[2] == h[1] && e[3] == e[4] == h[2] && e[5] == e[6] == h[3];
    }
  }

  /** Writing the three bytes of a six-digit color back in hex gives its digits in lower case. */
  lemma PairsToHex(e: string)
    requires IsHexColor(e) && |e| == 7
    ensures Rgb2HexText(HexPair(e, 1), HexPair(e, 3), HexPair(e, 5)) == "#" + LowerAll(e[1..])
  {
    var r, g, b := HexPair(e, 1), HexPair(e, 3), HexPair(e, 5);
    Rgb2HexTextDigits(r, g, b);
    PairPad(e, 1);
    PairPad(e, 3);
    PairPad(e, 5);
    LowerAllPairs(e);
    PrefixConcat("#", LowerAll(e[1..]), LowerAll(e[1..3]), LowerAll(e[3..5]), LowerAll(e[5..7]));
  }

  lemma HexThenRgb2Hex(h: string)
    requires IsHexColor(h)
    ensures Hex2Rgb(h).Some?
    ensures var m := HexMeaning(h); Rgb2Hex(Hex2Rgb(h).value) == Some(Rgb2HexText(m.r, m.g, m.b))
  {
  }

  /** The two fixed-width digits of a byte read from a hex pair are the pair in lower case. */
  lemma PairPad(e: string, i: nat)
    requires IsHexColor(e) && |e| == 7 && 1 <= i <= 5
    ensures AllDigits(e[i..i + 2], 16)
    ensures HexPad(HexPair(e, i), 2) == LowerAll(e[i..i + 2])
  {
    HexPadValue(e[i..i + 2]);
  }

  /** Lower-casing six digits lower-cases each of the three pairs. */
  lemma LowerAllPairs(e: string)
    requires IsHexColor(e) && |e| == 7
    ensures AllDigits(e[1..3], 16) && AllDigits(e[3..5], 16) && AllDigits(e[5..7], 16)
    ensures LowerAll(e[1..]) == LowerAll(e[1..3]) + LowerAll(e[3..5]) + LowerAll(e[5..7])
  {
    var l := LowerAll(e[1..]);
    var r := LowerAll(e[1..3]) + LowerAll(e[3..5]) + LowerAll(e[5..7]);
    forall i | 0 <= i < 6
      ensures l[i] == r[i]
    {
      assert l[i] == LowerHex(e[i + 1]);
    }
  }

  /** Rgb round trip: for channels up to 255, converting an rgb color to hex and back
      gives the rgb color with the leading zeros of its channels removed. */
  lemma RgbRoundTrip(s: string)
    requires IsRgbColor(s) && Below(Channels(s), 255)
    ensures Rgb2Hex(s).Some? && Hex2Rgb(Rgb2Hex(s).value) == Some(NormalizedRgb(s))
  {
    var c := Channels(s);
    var h := Rgb2Hex(s).value;
    Rgb2HexTextShape(c.r, c.g, c.b);
    assert HexPair(h, 1) == c.r && HexPair(h, 3) == c.g && HexPair(h, 5) == c.b;
    assert Hex2RgbText(h) == FormatRgb(c);
    FormatChannels(s);
  }

  /** Closure: whatever `mix` returns is accepted again by `mix`, `darker`, `lighter`
      and `rgb2Hex`. */
  lemma MixClosed(color: string, color2: string, percent: real, other: string, p: real)
    requires 0.0 <= percent <= 1.0 && ToRgbArray(color).Some? && ToRgbArray(color2).Some?
    requires 0.0 <= p <= 1.0 && ToRgbArray(other).Some?
    ensures Mix(color, color2, percent).Some?
    ensures var s := Mix(color, color2, percent).value;
      && Rgb2Hex(s).Some?
      && Mix(s, other, p).Some? && Mix(other, s, p).Some?
      && Darker(s, p).Some? && Lighter(s, p).Some?
  {
    RgbUsable(Mix(color, color2, percent).value, other, p);
  }

  /** Every accepted rgb string is accepted by `mix`, `darker`, `lighter` and `rgb2Hex`. */
  lemma RgbUsable(s: string, other: string, p: real)
    requires IsRgbColor(s)
    requires 0.0 <= p <= 1.0 && ToRgbArray(other).Some?
    ensures Rgb2Hex(s).Some?
    ensures Mix(s, other, p).Some? && Mix(other, s, p).Some?
    ensures Darker(s, p).Some? && Lighter(s, p).Some?
  {
    AcceptedRgbReads(s);
    MixUsable(s, other, p);
  }

  lemma MixUsable(s: string, other: string, p: real)
    requires ToRgbArray(s).Some?
    requires 0.0 <= p <= 1.0 && ToRgbArray(other).Some?
    ensures Mix(s, other, p).Some? && Mix(other, s, p).Some?
  {
  }

  /** `hex2Rgb` writes, in decimal, exactly the channels the hex color denotes. */
  lemma Hex2RgbWritesMeaning(h: string)
    requires IsHexColor(h)
    ensures Hex2Rgb(h) == Some(FormatRgb(HexMeaning(h)))
  {
    MeaningOfPairs(h);
  }

  /** `mix` sees its colors only through `_toRgbArray`: colors that read as the same
      channels are interchangeable. */
  lemma MixReadsChannels(color: string, color2: string, other: string, other2: string, percent: real)
    requires ToRgbArray(color) == ToRgbArray(other) && ToRgbArray(color2) == ToRgbArray(other2)
    ensures Mix(color, color2, percent) == Mix(other, other2, percent)
  {
  }

  /** The one operation that refuses a result of `mix` is `hex2Rgb`: the result is an
      rgb color, never a hex color. */
  lemma MixRefusedByHex2Rgb(color: string, color2: string, percent: real)
    requires Mix(color, color2, percent).Some?
    ensures Hex2Rgb(Mix(color, color2, percent).value) == None
  {
    NotBoth(Mix(color, color2, percent).value);
  }

  /** At the two ends of the range `mix` returns one of its colors, written in decimal. */
  lemma MixAtEnds(color: string, color2: string)
    requires ToRgbArray(color).Some? && ToRgbArray(color2).Some?
    ensures Mix(color, color2, 0.0) == Some(FormatRgb(ToRgbArray(color).value))
    ensures Mix(color, color2, 1.0) == Some(FormatRgb(ToRgbArray(color2).value))
  {
    FormatChannels(Mix(color, color2, 0.0).value);
    FormatChannels(Mix(color, color2, 1.0).value);
  }

  /** For rgb colors the ends of `mix` are the colors in normalized form. */
  lemma MixAtEndsNormalized(color: string, color2: string)
    requires IsRgbColor(color) && IsRgbColor(color2)
    ensures Mix(color, color2, 0.0) == Some(NormalizedRgb(color))
    ensures Mix(color, color2, 1.0) == Some(NormalizedRgb(color2))
  {
    AcceptedRgbReads(color);
    AcceptedRgbReads(color2);
    MixAtEnds(color, color2);
    FormatChannels(color);
    FormatChannels(color2);
  }

  /** `darker` is `mix` with black, however the black is spaced. */
  lemma DarkerIsMixBlack(color: string, percent: real)
    ensures Darker(color, percent) == Mix(color, "rgb(0,0,0)", percent)
  {
    BlackLiteral();
    CompactBlack();
    MixReadsChannels(color, "rgb(0, 0, 0)", color, "rgb(0,0,0)", percent);
  }

  /** `lighter` is `mix` with white, however the white is spaced. */
  lemma LighterIsMixWhite(color: string, percent: real)
    ensures Lighter(color, percent) == Mix(color, "rgb(255,255,255)", percent)
  {
    WhiteLiteral();
    CompactWhite();
    MixReadsChannels(color, "rgb(255, 255, 255)", color, "rgb(255,255,255)", percent);
  }

  lemma CompactBlack()
    ensures ToRgbArray("rgb(0,0,0)") == Some(Rgb(0, 0, 0))
  {
    BlackText();
    FormatRgbRoundTrip(Rgb(0, 0, 0));
    AcceptedRgbReads(FormatRgb(Rgb(0, 0, 0)));
  }

  lemma CompactWhite()
    ensures ToRgbArray("rgb(255,255,255)") == Some(Rgb(255, 255, 255))
  {
    WhiteFormat();
    FormatRgbRoundTrip(Rgb(255, 255, 255));
    AcceptedRgbReads(FormatRgb(Rgb(255, 255, 255)));
  }
}
