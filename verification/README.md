# Color.js in Dafny

Color.js is a small JavaScript utility for CSS colors. It accepts two notations:

- hex colors: `#` followed by three or six hexadecimal digits, letters in either case;
- rgb colors: `rgb(r,g,b)` with one to three decimal digits per channel.

It offers five static operations on them:

- `mix` blends two colors channel by channel with a percent in [0, 1];
- `darker` and `lighter` mix with black and with white;
- `hex2Rgb` and `rgb2Hex` convert between the two notations.

Three module-private helpers do the work:

- `_hex2Rgb` expands shorthand and reads the three bytes;
- `_rgb2Hex` packs three channels into one number and prints it in base 16;
- `_toRgbArray` removes white space, validates, and reads the channels.

Where the source returns `null` (after logging), the model returns `None`.

The model is written as pure functions over strings (`seq<char>`), naturals and reals:

| module | file | what it holds |
|---|---|---|
| `Wrappers` | wrappers.dfy | `Option`, the stand-in for a `null` result |
| `Numerals` | numerals.dfy | digit strings in base 10 and 16: `parseInt` on digits (`Value`), `toString(base)` (`Render`), fixed-width hex (`HexPad`) |
| `Text` | text.dfy | the JavaScript `\s` class, white-space removal, splitting at a separator |
| `Patterns` | patterns.dfy | the two regular expressions as predicates (`IsHexColor`, `IsRgbColor`), the channel triple `Rgb`, reading and writing `rgb(...)` text |
| `Convert` | convert.dfy | `_hex2Rgb`, `_rgb2Hex`, `_toRgbArray` |
| `Color` | color.dfy | `mix`, `darker`, `lighter`, `hex2Rgb`, `rgb2Hex`, and the round-trip, closure and endpoint properties |
| `Samples` | samples.dfy | the operations on particular colors |

The main results are these:

- **Hex round trip.** `rgb2Hex(hex2Rgb(h))` is the canonical form of `h`: shorthand expanded, letters in lower case.
  - So a hex color comes back unchanged only when it already has six lower-case digits.
  - The cause is that `toString(16)` always writes lower case.
- **Rgb round trip.** For channels up to 255, `hex2Rgb(rgb2Hex(s))` is `s` with the leading zeros of each channel removed.
- **Overflowing channels.** Channels from 256 to 999 pass the rgb pattern. `rgb2Hex` then still returns six lower-case hex digits, worth the packed channels modulo 2^24.
- **Strict validation.** `hex2Rgb` and `rgb2Hex` fail exactly when their pattern rejects the input.
  - Neither removes white space, so `rgb(1, 2, 3)` is refused by `rgb2Hex` but accepted by `mix`.
- **No partial output from `mix`.** `mix` fails exactly on a percent outside [0, 1] or on an unreadable color.
  - Otherwise its result is an accepted, normalized rgb string.
  - Each channel of the result is the interpolation point rounded to the nearest integer, a half rounded up.
  - So it lies between the two inputs' channels.
  - The result equals the first color at 0 and the second at 1.
- **Closure.** Whatever `mix` returns is accepted again by `mix`, `darker`, `lighter` and `rgb2Hex`.
  - `hex2Rgb` refuses it, since it is an rgb color and not a hex color.

## Model

| member | source | states |
|---|---|---|
| `Numerals.DigitValue` | Color.js:9 | a hex digit, in either case, has a value below 16; the value is below 10 exactly for a decimal digit, and 0 exactly for `0` |
| `Numerals.DigitChar` | Color.js:14 | the digit written for a value below 16 is a lower-case hex digit that reads back as that value |
| `Numerals.LowerHex` | Color.js:14 | lower-casing a hex digit keeps its value and leaves digits that are not upper-case letters alone |
| `Numerals.LowerAll` | Color.js:14 | lower-casing a hex string keeps its length and each digit's value, and leaves no upper-case letter |
| `Numerals.Render` | Color.js:14 | `toString(base)` writes at least one lower-case digit of the base, with a leading `0` exactly for zero |
| `Numerals.HexPad` | Color.js:14 | fixed-width hex output has exactly the requested width, lower-case digits only |
| `Numerals.ValueBound` | Color.js:2 | a string of k digits is worth less than base^k |
| `Numerals.ValueOfRender` | Color.js:32-34 | `parseInt` reads back exactly the number `toString` wrote, in base 10 and in base 16 |
| `Numerals.ValueZero` | Color.js:33 | `parseInt` on digits gives zero exactly when every digit is `0` |
| `Numerals.ValueOfHexPad` | Color.js:9 | k fixed-width hex digits of a number below 16^k read back as that number |
| `Numerals.StripZeros` | Color.js:33 | removing leading zeros leaves a suffix of the digits; everything removed is `0`; the suffix is non-empty and has no leading zero unless it is the single digit `0` |
| `Numerals.RenderValue` | Color.js:33 | a decimal string without leading zeros is rewritten as itself after `parseInt` |
| `Numerals.RenderStripsZeros` | Color.js:32-34 | reading a decimal channel and writing it back removes exactly its leading zeros |
| `Numerals.RenderLength` | Color.js:2 | a number below 10^k is written in at most k decimal digits |
| `Numerals.HexPadValue` | Color.js:9-14 | reading hex digits and writing them back at the same width gives the digits in lower case |
| `Numerals.RenderLeading` | Color.js:14 | q * 16^k + x, for a digit q from 1 to 15 and x below 16^k, prints as the digit q followed by x in exactly k hex digits, which is why the leading digit can be sliced off |
| `Numerals.HexPadConcat` | Color.js:14 | the fixed-width hex digits of a * 16^m + c are those of a followed by those of c |
| `Text.StripSpaces` | Color.js:19 | the result has no white space and is no longer than the input |
| `Text.StripSpacesOne` | Color.js:19 | a single character is removed exactly when it is white space; with `StripSpacesAppend` this fixes the result on every string |
| `Text.StripSpacesFixed` | Color.js:19 | a string with no white space is left unchanged |
| `Text.StripSpacesIdempotent` | Color.js:19 | removing white space a second time changes nothing |
| `Text.StripSpacesAppend` | Color.js:19 | removing white space distributes over concatenation |
| `Text.StripTwoSpaces` | Color.js:72 | single spaces between three space-free pieces disappear |
| `Text.Split` | Color.js:32 | the split gives at least one field, no field holds the separator, and joining the fields with the separator rebuilds the input |
| `Text.SplitNoSep` | Color.js:32 | a string without the separator splits into itself alone |
| `Text.SplitFirst` | Color.js:32 | the first field ends at the first separator, and the rest is split the same way |
| `Text.SplitJoin` | Color.js:32 | splitting undoes joining fields that do not contain the separator |
| `Patterns.Fields` | Color.js:32 | the fields of an rgb string join back, with commas, into the text between `rgb(` and `)` |
| `Patterns.ChannelTextBound` | Color.js:2 | a channel of one to three decimal digits is at most 999 |
| `Patterns.Channels` | Color.js:32-34 | the channels read from an accepted rgb string are each at most 999 |
| `Patterns.RgbTextAccepted` | Color.js:2 | `rgb(` a `,` b `,` c `)` is accepted for any three channel texts, and its fields are those texts |
| `Patterns.RgbColorShape` | Color.js:2 | every accepted rgb string is `rgb(` + channel + `,` + channel + `,` + channel + `)`, the converse of `RgbTextAccepted` |
| `Patterns.RenderIsChannelText` | Color.js:10 | a channel up to 999 written in decimal is a valid channel text |
| `Patterns.FormatRgbRoundTrip` | Color.js:10 | writing channels up to 999 as `rgb(r,g,b)` gives an accepted, normalized string that reads back as the same channels |
| `Patterns.FormatChannels` | Color.js:32-34 | reading an rgb string and writing it back gives its normalized form |
| `Patterns.NotBoth` | Color.js:21-24 | no string is both an rgb color and a hex color, and an rgb color holds no white space |
| `Convert.DoubleEach` | Color.js:7 | doubling writes every character twice: twice the length, position i holds input character i/2 |
| `Convert.ExpandHex` | Color.js:6-8 | an expanded hex color has seven characters; a six-digit color is unchanged; shorthand digit j fills positions 2j-1 and 2j |
| `Convert.HexMeaning` | Color.js:4-11 | the channels a hex color denotes are bytes (at most 255) |
| `Convert.HexPair` | Color.js:9-10 | a pair of hex digits is worth 16 times the first plus the second |
| `Convert.Hex2RgbText` | Color.js:4-11 | `_hex2Rgb` returns an accepted, normalized rgb string whose channels are the ones the hex color denotes |
| `Convert.Rgb2HexText` | Color.js:13-15 | for any channels up to 999, `_rgb2Hex` returns `#` and the six fixed-width hex digits of r * 2^16 + g * 2^8 + b modulo 2^24: what carries past 2^24 is sliced off with the leading digit |
| `Convert.Rgb2HexTextSixDigits` | Color.js:13-15 | for any channels up to 999 the hex text is a seven-character lower-case hex color whose digits are worth the packed channels modulo 2^24 |
| `Convert.Rgb2HexTextDigits` | Color.js:13-15 | for channels up to 255, `_rgb2Hex` returns `#` and two fixed-width hex digits per channel |
| `Convert.PackedRender` | Color.js:14 | below 15 * 2^24, 2^24 plus a number prints as one leading digit followed by the six hex digits of the number modulo 2^24 |
| `Convert.HexPadByte` | Color.js:14 | shifting by a byte and adding one appends that byte's two hex digits |
| `Convert.HexPadBytes` | Color.js:14 | the six hex digits of three packed bytes are the three bytes' two digits each, in order |
| `Convert.Rgb2HexTextShape` | Color.js:13-15 | for channels up to 255 the hex text is `#` and six lower-case hex digits, and each pair reads back as its channel |
| `Convert.ToRgbArray` | Color.js:17-35 | after white space is removed, a color is read exactly when it is a hex or an rgb color; every channel is at most 999; a hex color reads as the channels it denotes |
| `Convert.ToRgbArrayStripped` | Color.js:17-35 | after white space is removed, an rgb color is read as the channels `parseInt` takes from its three fields, for any input including one with white space inside |
| `Color.Round` | Color.js:61 | `Math.round` returns the integer within half of x, a half rounded up |
| `Color.Lerp` | Color.js:61 | the interpolation point lies between the two channels, at the first for percent 0 and at the second for percent 1 |
| `Color.RoundBetween` | Color.js:61 | rounding a point between two integers stays between them, and an integer rounds to itself |
| `Color.MixChannel` | Color.js:61 | a mixed channel is the integer nearest to (t - f) * percent + f, a half rounded up; it lies between the two channels and equals the first at 0 and the second at 1 |
| `Color.MixRgb` | Color.js:59-67 | every mixed channel is the rounded interpolation point of the corresponding channels and lies between them; the triple is the first color at 0 and the second at 1 |
| `Color.Mix` | Color.js:50-68 | `mix` fails exactly on a percent outside [0, 1] or an unreadable color; otherwise it returns an accepted, normalized rgb string that reads as its own channels, each the rounded interpolation point of the two colors' channels, so lying between them, equal to the first at 0 and the second at 1 |
| `Color.AcceptedRgbReads` | Color.js:17-35 | an accepted rgb string is read by `_toRgbArray` as its own channels |
| `Color.Darker` | Color.js:71-73 | `darker` fails exactly when `mix` would; no channel grows, and percent 0 keeps the color |
| `Color.Lighter` | Color.js:75-77 | `lighter` fails exactly when `mix` would; a channel that starts at most 255 does not shrink and stays at most 255, and percent 0 keeps the color |
| `Color.BlackLiteral` | Color.js:72 | the spaced black literal is read as (0, 0, 0) |
| `Color.WhiteLiteral` | Color.js:76 | the spaced white literal is read as (255, 255, 255) |
| `Color.Hex2Rgb` | Color.js:79-85 | `hex2Rgb` fails exactly when its input is not a hex color, with no white space removed; otherwise it gives an accepted, normalized rgb string of the channels the hex denotes |
| `Color.Rgb2Hex` | Color.js:87-96 | `rgb2Hex` fails exactly when its input is not an rgb color, with no white space removed; otherwise it gives a seven-character lower-case hex color worth the packed channels modulo 2^24, which for channels up to 255 denotes the same channels |
| `Color.Rgb2HexTextMeaning` | Color.js:13-15 | for channels up to 255 the hex text is a hex color that denotes exactly those channels |
| `Color.CanonicalHex` | Color.js:6-14 | the canonical form of a hex color is a seven-character lower-case hex color with the same digit values as the expanded color |
| `Color.CanonicalHexDigits` | Color.js:6-8 | the canonical form character by character: `#`, then each digit in lower case, with each shorthand digit written twice |
| `Color.MeaningOfPairs` | Color.js:6-10 | the channels a hex color denotes are the three byte pairs of its expanded form |
| `Color.PairsToHex` | Color.js:14 | writing back the three bytes of a six-digit color gives its digits in lower case |
| `Color.PairPad` | Color.js:9-14 | a byte read from a hex pair and written back at width 2 is the pair in lower case |
| `Color.HexRoundTrip` | Color.js:79-96 | for every hex color, `hex2Rgb` succeeds and `rgb2Hex` of its result is the canonical form |
| `Color.RgbRoundTrip` | Color.js:79-96 | for every rgb color with channels up to 255, `rgb2Hex` succeeds and `hex2Rgb` of its result is the normalized rgb color |
| `Color.MixClosed` | Color.js:50-96 | the result of `mix` is accepted by `rgb2Hex`, by `mix` on either side, by `darker` and by `lighter` |
| `Color.MixRefusedByHex2Rgb` | Color.js:79-85 | `hex2Rgb` refuses every result of `mix`, since that result is an rgb color and never a hex color |
| `Color.RgbUsable` | Color.js:17-35 | every accepted rgb string is accepted by `rgb2Hex`, by `mix` on either side, by `darker` and by `lighter` |
| `Color.Hex2RgbWritesMeaning` | Color.js:79-85 | `hex2Rgb` writes, in decimal, exactly the channels the hex color denotes |
| `Color.MixReadsChannels` | Color.js:55-57 | `mix` depends on its colors only through `_toRgbArray`'s reading of them |
| `Color.MixAtEnds` | Color.js:59-67 | at percent 0 `mix` writes the first color's channels in decimal, at percent 1 the second's |
| `Color.MixAtEndsNormalized` | Color.js:59-67 | for rgb colors, `mix` at percent 0 is the first color normalized and at percent 1 the second |
| `Color.DarkerIsMixBlack` | Color.js:71-73 | `darker` equals `mix` with black written without spaces |
| `Color.LighterIsMixWhite` | Color.js:75-77 | `lighter` equals `mix` with white written without spaces |
| `Samples.ShorthandWhite` | Color.js:6-10 | `hex2Rgb("#fff")` is `rgb(255,255,255)` |
| `Samples.SixDigitBlack` | Color.js:79-85 | `hex2Rgb("#000000")` is `rgb(0,0,0)` |
| `Samples.RedToHex` | Color.js:87-96 | `rgb2Hex("rgb(255,0,0)")` is `#ff0000` |
| `Samples.MidGray` | Color.js:59-67 | mixing black and white at 0.5 gives `rgb(128,128,128)`: 127.5 rounds up |
| `Samples.PercentTooLarge` | Color.js:51-54 | `mix` with percent 1.5 fails for any colors |
| `Samples.NotAHexColor` | Color.js:80-83 | `hex2Rgb("notacolor")` fails |
| `Samples.SpacedRgb` | Color.js:19 | `rgb(1, 2, 3)` is read as (1, 2, 3) by `_toRgbArray` but refused by `rgb2Hex` |
| `Samples.RedSpill` | Color.js:14 | a channel of 256 spills past the six digits and is sliced away: `rgb(256,0,0)` becomes `#000000` |

## Left out

- Logging: the error messages Color.js writes to the console before returning `null` are not modelled; the failure itself is `None`.
- Regular expressions: `hexReg`, `rgbReg` and the white-space class are written as explicit predicates rather than through a regular-expression engine.
- White space: `\s` is the fixed set of ECMAScript WhiteSpace and LineTerminator characters.
  - Strings are sequences of Unicode characters rather than UTF-16 code units.
  - Every character in that set lies in the Basic Multilingual Plane, so the two readings agree.
- Deleting the letters `rgb` and the parentheses is modelled by taking the text between `rgb(` and `)`.
  - This is only done on strings the rgb pattern has already accepted, where the two agree.
- Floating point: the percent is a mathematical real, and the interpolation and `Math.round` are computed exactly.
  - IEEE double rounding of the product is not modelled.
  - A `NaN` percent, which passes the range check in the source and produces `rgb(NaN,NaN,NaN)`, is not representable.
- Integer width: the shifts in `_rgb2Hex` are 32-bit in JavaScript and are modelled as exact products.
  - They agree for every channel the source can pass, at most 999.
- Default arguments: the model takes the percent as an explicit argument.
  - The source defaults are 0.5 for `mix` and 0.2 for `darker` and `lighter`.
- Exports: the commented-out export at the end of the file is not modelled.
- Color.Rgb2Hex: the per-channel meaning of the output is stated only for channels up to 255.
  - Channels from 256 to 999 pass the rgb pattern and are packed without clamping, so they spill into the neighbouring channel's digits.
  - For them the contract gives the value of the six digits, the packed channels modulo 2^24, and `Samples.RedSpill` shows one case.
- Color.RgbRoundTrip: holds only for channels up to 255, for the same reason.
