/** Worked instances of the Color.js operations on particular colors. */
module Samples {
  import opened Wrappers
  import opened Numerals
  import opened Text
  import opened Patterns
  import opened Convert
  import opened Color

  /** Shorthand is expanded: `#fff` is white. */
  lemma ShorthandWhite()
    ensures Hex2Rgb("#fff") == Some("rgb(255,255,255)")
  {
    Hex2RgbWritesMeaning("#fff");
    ShorthandWhiteMeaning();
    WhiteFormat();
  }

  lemma ShorthandWhiteMeaning()
    ensures IsHexColor("#fff") && HexMeaning("#fff") == Rgb(255, 255, 255)
  {
    assert DigitValue('f') == 15;
  }

  lemma SixDigitBlack()
    ensures Hex2Rgb("#000000") == Some("rgb(0,0,0)")
  {
    Hex2RgbWritesMeaning("#000000");
    assert HexMeaning("#000000") == Rgb(0, 0, 0);
    BlackText();
  }

  /** Pure red in hex, two lower-case digits per channel. */
  lemma RedToHex()
    ensures Rgb2Hex("rgb(255,0,0)") == Some("#ff0000")
  {
    RedText();
    FormatRgbRoundTrip(Rgb(255, 0, 0));
    Rgb2HexWrites("rgb(255,0,0)");
    RedHexText();
  }

  lemma RedHexText()
    ensures Rgb2HexText(255, 0, 0) == "#ff0000"
  {
    Rgb2HexTextDigits(255, 0, 0);
    assert HexPad(255, 2) == "ff" && HexPad(0, 2) == "00";
  }

  lemma RedText()
    ensures FormatRgb(Rgb(255, 0, 0)) == "rgb(255,0,0)"
  {
    RenderTwoFiftyFive();
  }

  /** Half way from black to white: 127.5 is rounded up. */
  lemma MidGray()
    ensures Mix("rgb(0,0,0)", "rgb(255,255,255)", 0.5) == Some("rgb(128,128,128)")
  {
    CompactBlack();
    CompactWhite();
    GrayChannel();
    assert MixRgb(Rgb(0, 0, 0), Rgb(255, 255, 255), 0.5) == Rgb(128, 128, 128);
    GrayText();
  }

  lemma GrayChannel()
    ensures MixChannel(0, 255, 0.5) == 128
  {
    assert Lerp(0, 255, 0.5) == 127.5;
  }

  lemma GrayText()
    ensures FormatRgb(Rgb(128, 128, 128)) == "rgb(128,128,128)"
  {
    assert Render(128, 10) == "128" by {
      assert Render(12, 10) == "12" by {
        assert Render(1, 10) == "1";
      }
    }
  }

  /** A percent above one is refused whatever the colors. */
  lemma PercentTooLarge(color: string, color2: string)
    ensures Mix(color, color2, 1.5) == None
  {
  }

  lemma NotAHexColor()
    ensures Hex2Rgb("notacolor") == None
  {
    assert "notacolor"[0] != '#';
  }

  /** White space is removed inside `mix` but not by `rgb2Hex`. */
  lemma SpacedRgb()
    ensures ToRgbArray("rgb(1, 2, 3)") == Some(Rgb(1, 2, 3))
    ensures Rgb2Hex("rgb(1, 2, 3)") == None
  {
    SpacedText();
    StripTwoSpaces("rgb(1,", "2,", "3)");
    FormatRgbRoundTrip(Rgb(1, 2, 3));
    AcceptedRgbReads("rgb(1,2,3)");
    SpacedRejected();
  }

  lemma SpacedText()
    ensures NoSpace("rgb(1,") && NoSpace("2,") && NoSpace("3)")
    ensures "rgb(1, 2, 3)" == "rgb(1," + " " + "2," + " " + "3)"
    ensures "rgb(1," + "2," + "3)" == FormatRgb(Rgb(1, 2, 3)) == "rgb(1,2,3)"
  {
  }

  lemma SpacedRejected()
    ensures !IsRgbColor("rgb(1, 2, 3)")
  {
    var s := "rgb(1, 2, 3)";
    assert s[4..|s| - 1] == "1" + [','] + " 2, 3";
    assert " 2, 3" == " 2" + [','] + " 3";
    SplitFirst("1", ',', " 2, 3");
    SplitFirst(" 2", ',', " 3");
    assert Fields(s)[1] == " 2";
    assert !IsDecDigit(' ');
  }

  /** A channel above 255 spills into the bit above the packed color and is cut off
      by the slice: `rgb(256,0,0)` becomes `#000000`. */
  lemma RedSpill()
    ensures Rgb2Hex("rgb(256,0,0)") == Some("#000000")
  {
    SpillText();
    FormatRgbRoundTrip(Rgb(256, 0, 0));
    Rgb2HexWrites("rgb(256,0,0)");
    SpillHexText();
  }

  lemma SpillHexText()
    ensures Rgb2HexText(256, 0, 0) == "#000000"
  {
    assert Render(0x200_0000, 16) == "2000000";
  }

  lemma SpillText()
    ensures FormatRgb(Rgb(256, 0, 0)) == "rgb(256,0,0)"
  {
    assert Render(256, 10) == "256" by {
      assert Render(25, 10) == "25" by {
        assert Render(2, 10) == "2";
      }
    }
  }
}
