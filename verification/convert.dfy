/** The module-private helpers of Color.js: `_hex2Rgb`, `_rgb2Hex` and
    `_toRgbArray`. */
module Convert {
  import opened Wrappers
  import opened Numerals
  import opened Text
  import opened Patterns

  /** Every character written twice, in order. */
  function DoubleEach(s: string): (d: string)
    ensures |d| == 2 * |s|
    ensures forall i :: 0 <= i < |d| ==> d[i] == s[i / 2]
  {
    if s == [] then [] else [s[0], s[0]] + DoubleEach(s[1..])
  }

  /** The padding step of `_hex2Rgb`: a hex color shorter than seven characters has
      each of its digits doubled (`#fff` becomes `#ffffff`). */
  function ExpandHex(h: string): (e: string)
    requires IsHexColor(h)
    ensures IsHexColor(e) && |e| == 7
    ensures |h| == 7 ==> e == h
    ensures |h| == 4 ==> forall i :: 1 <= i < 7 ==> e[i] == h[(i + 1) / 2]
  {
    if |h| < 7 then "#" + DoubleEach(h[1..]) else h
  }

  /** The channels a hex color denotes: `#rgb` stands for `#rrggbb`, so a shorthand
      digit `x` is the byte `17 * x`. */
  function HexMeaning(h: string): (c: Rgb)
    requires IsHexColor(h)
    ensures Below(c, 255)
  {
    var d := (i: nat) requires 1 <= i < |h| => DigitValue(h[i]);
    if |h| == 4 then Rgb(17 * d(1), 17 * d(2), 17 * d(3))
    else Rgb(16 * d(1) + d(2), 16 * d(3) + d(4), 16 * d(5) + d(6))
  }

  /** The byte that `parseInt` reads, in base 16, from the two digits `e[i]`, `e[i + 1]`. */
  function HexPair(e: string, i: nat): (v: nat)
    requires IsHexColor(e) && |e| == 7 && 1 <= i <= 5
    ensures v == 16 * DigitValue(e[i]) + DigitValue(e[i + 1])
  {
    var pair := e[i..i + 2];
    assert pair[..1] == [e[i]] && pair[1] == e[i + 1];
    assert Value(pair[..1], 16) == DigitValue(e[i]) by {
      assert pair[..1][..0] == [];
    }
    Value(pair, 16)
  }

  /** `_hex2Rgb`: expand a shorthand color, then write the three byte values as `rgb(r,g,b)`. */
  function Hex2RgbText(h: string): (s: string)
    requires IsHexColor(h)
    ensures IsRgbColor(s) && Channels(s) == HexMeaning(h)
    ensures NormalizedRgb(s) == s
  {
    var e := ExpandHex(h);
    var c := Rgb(HexPair(e, 1), HexPair(e, 3), HexPair(e, 5));
    FormatRgbRoundTrip(c);
    FormatRgb(c)
  }

  /** `_rgb2Hex`: pack the channels as 2^24 + r * 2^16 + g * 2^8 + b, write that number in
      hexadecimal, drop its first digit and put `#` in front. The shifts are exact products.
      What is left are the six low hex digits of the packed channels: for channels up to
      255 the two digits of each channel in turn, above that the bits the sum carried
      past 2^24 are lost. */
  function Rgb2HexText(r: nat, g: nat, b: nat): (h: string)
    ensures r <= 999 && g <= 999 && b <= 999 ==>
      h == "#" + HexPad((r * 0x1_0000 + g * 0x100 + b) % 0x100_0000, 6)
  {
    PackedTail(r, g, b);
    "#" + Render(0x100_0000 + r * 0x1_0000 + g * 0x100 + b, 16)[1..]
  }

  /** What is left once the leading digit of the packed channels is cut off. */
  lemma PackedTail(r: nat, g: nat, b: nat)
    ensures r <= 999 && g <= 999 && b <= 999 ==>
      Render(0x100_0000 + r * 0x1_0000 + g * 0x100 + b, 16)[1..]
        == HexPad((r * 0x1_0000 + g * 0x100 + b) % 0x100_0000, 6)
  {
    if r <= 999 && g <= 999 && b <= 999 {
      PackedRender(r * 0x1_0000 + g * 0x100 + b);
    }
  }

  /** For channels up to 255 the packed number lies in [2^24, 2^25): its hexadecimal text
      is a `1` followed by the three channels, two zero-padded digits each. */
  lemma Rgb2HexTextDigits(r: nat, g: nat, b: nat)
    requires r <= 255 && g <= 255 && b <= 255
    ensures Rgb2HexText(r, g, b) == "#" + HexPad(r, 2) + HexPad(g, 2) + HexPad(b, 2)
  {
    PackedPairs(r, g, b);
    PrefixConcat("#", HexPad((r * 0x1_0000 + g * 0x100 + b) % 0x100_0000, 6),
      HexPad(r, 2), HexPad(g, 2), HexPad(b, 2));
  }

  lemma PackedPairs(r: nat, g: nat, b: nat)
    requires r <= 255 && g <= 255 && b <= 255
    ensures HexPad((r * 0x1_0000 + g * 0x100 + b) % 0x100_0000, 6)
      == HexPad(r, 2) + HexPad(g, 2) + HexPad(b, 2)
  {
    SmallMod(r * 0x1_0000 + g * 0x100 + b);
    HexPadBytes(r, g, b);
  }

  lemma SmallMod(n: nat)
    requires n < 0x100_0000
    ensures n % 0x100_0000 == n
  {
  }

  lemma PrefixConcat(a: string, x: string, p: string, q: string, w: string)
    requires x == p + q + w
    ensures a + x == a + p + q + w
  {
  }

  /** Below 15 * 2^24 the packed number renders as one leading digit followed by the six
      hex digits of its remainder modulo 2^24. */
  lemma PackedRender(low: nat)
    requires low < 0xF00_0000
    ensures Render(0x100_0000 + low, 16)[1..] == HexPad(low % 0x100_0000, 6)
  {
    var n := 0x100_0000 + low;
    var q, x := n / 0x100_0000, n % 0x100_0000;
    assert Pow(16, 6) == 0x100_0000;
    assert 1 <= q < 16 && n == q * 0x100_0000 + x;
    assert x == low % 0x100_0000;
    RenderLeading(q, x, 6);
  }

  /** Six fixed-width hex digits of three packed bytes are the bytes' two digits each. */
  lemma HexPadBytes(r: nat, g: nat, b: nat)
    requires r <= 255 && g <= 255 && b <= 255
    ensures HexPad(r * 0x1_0000 + g * 0x100 + b, 6) == HexPad(r, 2) + HexPad(g, 2) + HexPad(b, 2)
  {
    var rg := r * 0x100 + g;
    var n := r * 0x1_0000 + g * 0x100 + b;
    assert n == rg * 0x100 + b;
    var pr, pg, pb := HexPad(r, 2), HexPad(g, 2), HexPad(b, 2);
    HexPadByte(n, rg, b, 4);
    HexPadByte(rg, r, g, 2);
    assert HexPad(n, 6) == HexPad(rg, 4) + pb;
    assert HexPad(rg, 4) == pr + pg;
  }

  /** Appending a byte appends its two fixed-width digits. */
  lemma HexPadByte(n: nat, a: nat, c: nat, k: nat)
    requires c <= 255 && n == a * 0x100 + c
    ensures HexPad(n, k + 2) == HexPad(a, k) + HexPad(c, 2)
  {
    assert Pow(16, 2) == 0x100 by {
      assert Pow(16, 1) == 16;
    }
    HexPadConcat(a, c, k, 2);
  }

  /** `h` is `#` and six lower-case hex digits whose value is the packed channels of `c`
      modulo 2^24. */
  predicate PackedHex(h: string, c: Rgb)
  {
    && IsHexColor(h) && |h| == 7 && AllLower(h)
    && Value(h[1..], 16) == (c.r * 0x1_0000 + c.g * 0x100 + c.b) % 0x100_0000
  }

  /** For any channels up to 999 the hex text is a seven-character lower-case hex color
      whose six digits are the packed channels modulo 2^24. */
  lemma Rgb2HexTextSixDigits(r: nat, g: nat, b: nat)
    requires r <= 999 && g <= 999 && b <= 999
    ensures PackedHex(Rgb2HexText(r, g, b), Rgb(r, g, b))
  {
    var x := (r * 0x1_0000 + g * 0x100 + b) % 0x100_0000;
    var h := Rgb2HexText(r, g, b);
    assert h[1..] == HexPad(x, 6);
    assert Pow(16, 6) == 0x100_0000;
    ValueOfHexPad(x, 6);
    HashThenLower(h);
  }

  /** `#` followed by lower-case digits has no upper-case letter. */
  lemma HashThenLower(h: string)
    requires |h| >= 1 && h[0] == '#' && AllLower(h[1..])
    ensures AllLower(h)
  {
    forall i | 0 <= i < |h| ensures !IsUpperHexLetter(h[i]) {
      if i > 0 { assert h[i] == h[1..][i - 1]; }
    }
  }

  /** The hex text of channels up to 255 is `#` and six lower-case hex digits that
      encode r, g and b in order. */
  lemma Rgb2HexTextShape(r: nat, g: nat, b: nat)
    requires r <= 255 && g <= 255 && b <= 255
    ensures var h := Rgb2HexText(r, g, b);
      && |h| == 7 && h[0] == '#' && AllDigits(h[1..], 16) && AllLower(h[1..])
      && Value(h[1..3], 16) == r && Value(h[3..5], 16) == g && Value(h[5..7], 16) == b
  {
    Rgb2HexTextDigits(r, g, b);
    var h := Rgb2HexText(r, g, b);
    var pr, pg, pb := HexPad(r, 2), HexPad(g, 2), HexPad(b, 2);
    ThreePairs(h, pr, pg, pb);
    assert Pow(16, 2) == 0x100;
    ValueOfHexPad(r, 2);
    ValueOfHexPad(g, 2);
    ValueOfHexPad(b, 2);
  }

  lemma ThreePairs(h: string, pr: string, pg: string, pb: string)
    requires |pr| == 2 && |pg| == 2 && |pb| == 2 && h == "#" + pr + pg + pb
    ensures |h| == 7 && h[0] == '#' && h[1..] == pr + pg + pb
    ensures h[1..3] == pr && h[3..5] == pg && h[5..7] == pb
  {
  }

  /** `_toRgbArray`: remove white space, accept a hex color (through `_hex2Rgb`) or an
      rgb color, and read its three channels; anything else is rejected. */
  function ToRgbArray(color: string): (c: Option<Rgb>)
    ensures var s := StripSpaces(color);
      && (c.Some? <==> IsHexColor(s) || IsRgbColor(s))
      && (c.Some? ==> Below(c.value, 999))
      && (IsHexColor(s) ==> c == Some(HexMeaning(s)))
  {
    var s := StripSpaces(color);
    if IsHexColor(s) then Some(Channels(Hex2RgbText(s)))
    else if IsRgbColor(s) then Some(Channels(s))
    else None
  }

  /** The rgb branch of `_toRgbArray`: once white space is removed, an rgb color is read as
      the channels `parseInt` takes from its fields. */
  lemma ToRgbArrayStripped(color: string)
    ensures IsRgbColor(StripSpaces(color)) ==> ToRgbArray(color) == Some(Channels(StripSpaces(color)))
  {
    var s := StripSpaces(color);
    if IsRgbColor(s) {
      NotBoth(s);
    }
  }
}
