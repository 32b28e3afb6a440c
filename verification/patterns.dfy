/** The two color notations Color.js accepts, as the predicates its regular
    expressions `hexReg` and `rgbReg` decide, and the channel triple an rgb
    string denotes. */
module Patterns {
  import opened Numerals
  import opened Text

  /** A color as three channels. Channels are not clamped: an rgb string may
      carry any three-digit value, up to 999. */
  datatype Rgb = Rgb(r: nat, g: nat, b: nat)

  predicate Below(c: Rgb, bound: nat)
  {
    c.r <= bound && c.g <= bound && c.b <= bound
  }

  /** `hexReg`: `#` followed by three or by six hexadecimal digits, letters in either case. */
  predicate IsHexColor(s: string)
  {
    (|s| == 4 || |s| == 7) && s[0] == '#' && AllDigits(s[1..], 16)
  }

  /** `\d{1,3}`: one channel of an rgb string. */
  predicate IsChannelText(d: string)
  {
    1 <= |d| <= 3 && AllDigits(d, 10)
  }

  /** The text `rgb(a,b,c)`. */
  function RgbText(a: string, b: string, c: string): string
  {
    "rgb(" + a + "," + b + "," + c + ")"
  }

  /** The comma-separated fields between `rgb(` and `)`: on a string `rgbReg` accepts,
      deleting the letters `rgb` and the parentheses leaves exactly that text, and the
      split at commas cuts it. */
  function Fields(s: string): (f: seq<string>)
    requires |s| >= 5
    ensures |f| >= 1 && Join(f, ',') == s[4..|s| - 1]
  {
    Split(s[4..|s| - 1], ',')
  }

  /** `rgbReg`: `rgb(`, three channels of one to three decimal digits separated by commas, `)`. */
  predicate IsRgbColor(s: string)
  {
    && |s| >= 5 && s[..4] == "rgb(" && s[|s| - 1] == ')'
    && var f := Fields(s);
    |f| == 3 && IsChannelText(f[0]) && IsChannelText(f[1]) && IsChannelText(f[2])
  }

  /** A channel of at most three decimal digits is at most 999. */
  lemma ChannelTextBound(d: string)
    requires IsChannelText(d)
    ensures Value(d, 10) <= 999
  {
    ValueBound(d, 10);
    assert Pow(10, 1) == 10 && Pow(10, 2) == 100 && Pow(10, 3) == 1000;
  }

  /** The channels of an accepted rgb string, each field read by `parseInt`. */
  function Channels(s: string): (c: Rgb)
    requires IsRgbColor(s)
    ensures Below(c, 999)
  {
    var f := Fields(s);
    ChannelTextBound(f[0]);
    ChannelTextBound(f[1]);
    ChannelTextBound(f[2]);
    Rgb(Value(f[0], 10), Value(f[1], 10), Value(f[2], 10))
  }

  /** Any three channel texts make an accepted rgb string whose fields are those texts. */
  lemma RgbTextAccepted(a: string, b: string, c: string)
    requires IsChannelText(a) && IsChannelText(b) && IsChannelText(c)
    ensures IsRgbColor(RgbText(a, b, c))
    ensures Fields(RgbText(a, b, c)) == [a, b, c]
  {
    var s := RgbText(a, b, c);
    var inner := a + [','] + (b + [','] + c);
    assert s[..4] == "rgb(";
    assert s[4..|s| - 1] == inner;
    assert ',' !in a by { NoCommaInDigits(a); }
    assert ',' !in b by { NoCommaInDigits(b); }
    assert ',' !in c by { NoCommaInDigits(c); }
    SplitFirst(a, ',', b + [','] + c);
    SplitFirst(b, ',', c);
    SplitNoSep(c, ',');
  }

  lemma NoCommaInDigits(d: string)
    requires AllDigits(d, 10)
    ensures ',' !in d
  {
  }

  /** Every accepted rgb string is `rgb(` + channel + `,` + channel + `,` + channel + `)`:
      with RgbTextAccepted, the predicate accepts exactly the strings of `rgbReg`. */
  lemma RgbColorShape(s: string)
    requires IsRgbColor(s)
    ensures s == RgbText(Fields(s)[0], Fields(s)[1], Fields(s)[2])
  {
    var f := Fields(s);
    assert Join(f[2..], ',') == f[2];
    assert Join(f[1..], ',') == f[1] + [','] + f[2] by {
      assert f[1..][1..] == f[2..];
    }
    assert Join(f, ',') == f[0] + [','] + (f[1] + [','] + f[2]);
    assert s == s[..4] + s[4..|s| - 1] + [s[|s| - 1]];
  }

  /** A triple written the way `_hex2Rgb` and `mix` write it: each channel in decimal. */
  function FormatRgb(c: Rgb): string
  {
    RgbText(Render(c.r, 10), Render(c.g, 10), Render(c.b, 10))
  }

  /** An accepted rgb string with the leading zeros of each channel removed. */
  function NormalizedRgb(s: string): string
    requires IsRgbColor(s)
  {
    var f := Fields(s);
    RgbText(StripZeros(f[0]), StripZeros(f[1]), StripZeros(f[2]))
  }

  /** A decimal of at most 999 is a channel text. */
  lemma RenderIsChannelText(n: nat)
    requires n <= 999
    ensures IsChannelText(Render(n, 10))
  {
    assert Pow(10, 3) == 1000;
    RenderLength(n, 3);
  }

  /** Writing a triple of channels up to 999 gives an accepted rgb string that reads back
      as the same triple and is already normalized. */
  lemma FormatRgbRoundTrip(c: Rgb)
    requires Below(c, 999)
    ensures IsRgbColor(FormatRgb(c)) && Channels(FormatRgb(c)) == c
    ensures NormalizedRgb(FormatRgb(c)) == FormatRgb(c)
  {
    var a, b, d := Render(c.r, 10), Render(c.g, 10), Render(c.b, 10);
    RenderIsChannelText(c.r);
    RenderIsChannelText(c.g);
    RenderIsChannelText(c.b);
    RgbTextAccepted(a, b, d);
    ValueOfRender(c.r, 10);
    ValueOfRender(c.g, 10);
    ValueOfRender(c.b, 10);
    RenderStripsZeros(a);
    RenderStripsZeros(b);
    RenderStripsZeros(d);
  }

  /** Reading the channels of an rgb string and writing them back removes leading zeros. */
  lemma FormatChannels(s: string)
    requires IsRgbColor(s)
    ensures FormatRgb(Channels(s)) == NormalizedRgb(s)
  {
    var f := Fields(s);
    RenderStripsZeros(f[0]);
    RenderStripsZeros(f[1]);
    RenderStripsZeros(f[2]);
  }

  /** No accepted string is both a hex color and an rgb color. */
  lemma NotBoth(s: string)
    requires IsRgbColor(s)
    ensures !IsHexColor(s) && NoSpace(s)
  {
    assert s[0] == 'r';
    RgbColorShape(s);
    var f := Fields(s);
    NoSpaceInDigits(f[0]);
    NoSpaceInDigits(f[1]);
    NoSpaceInDigits(f[2]);
    assert NoSpace("rgb(") && NoSpace(",") && NoSpace(")");
    NoSpaceAppend("rgb(", f[0]);
    NoSpaceAppend("rgb(" + f[0], ",");
    NoSpaceAppend("rgb(" + f[0] + ",", f[1]);
    NoSpaceAppend("rgb(" + f[0] + "," + f[1], ",");
    NoSpaceAppend("rgb(" + f[0] + "," + f[1] + ",", f[2]);
    NoSpaceAppend("rgb(" + f[0] + "," + f[1] + "," + f[2], ")");
  }

  lemma NoSpaceInDigits(d: string)
    requires AllDigits(d, 10)
    ensures NoSpace(d)
  {
    forall i | 0 <= i < |d|
      ensures !IsSpace(d[i])
    {
      assert IsDecDigit(d[i]);
    }
  }

  lemma NoSpaceAppend(a: string, b: string)
    requires NoSpace(a) && NoSpace(b)
    ensures NoSpace(a + b)
  {
    forall i | 0 <= i < |a + b|
      ensures !IsSpace((a + b)[i])
    {
      if i >= |a| {
        assert (a + b)[i] == b[i - |a|];
      }
    }
  }
}
