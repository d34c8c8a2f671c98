/** Concrete files and pixels: the format's two published byte strings and
    the behaviour the reader shows on small images. */
module Examples {
  import opened Wrappers
  import opened Format
  import opened Encoder
  import opened Decoder
  import opened Render
  import Interpolation

  const White := RGB(255, 255, 255)

  /** 100 by 50 solid red is 8 bytes long, and reads back as written. */
  lemma SolidRedFile()
    ensures SaveSolid(100, 50, 255, 0, 0) == Ok([0x00, 0x64, 0x00, 0x32, 0x01, 0xFF, 0x00, 0x00])
    ensures Parse([0x00, 0x64, 0x00, 0x32, 0x01, 0xFF, 0x00, 0x00]) == Ok(Scif(100, 50, Solid(RGB(255, 0, 0))))
  {
    var bs := SaveSolid(100, 50, 255, 0, 0).value;
    assert bs[..HeaderSize] == [0x00, 0x64, 0x00, 0x32, 0x01];
    assert bs == bs[..HeaderSize] + bs[HeaderSize..];
    assert bs == [0x00, 0x64, 0x00, 0x32, 0x01, 0xFF, 0x00, 0x00];
  }

  /** 4 by 4 black-to-white horizontal gradient: 11 bytes. */
  lemma HorizontalGradientFile()
    ensures SaveHorizontalGradient(4, 4, 0, 0, 0, 255, 255, 255)
         == Ok([0x00, 0x04, 0x00, 0x04, 0x03, 0x00, 0x00, 0x00, 0xFF, 0xFF, 0xFF])
    ensures Parse([0x00, 0x04, 0x00, 0x04, 0x03, 0x00, 0x00, 0x00, 0xFF, 0xFF, 0xFF])
         == Ok(Scif(4, 4, HorizontalGradient(Black, White)))
  {
    var bs := SaveHorizontalGradient(4, 4, 0, 0, 0, 255, 255, 255).value;
    assert bs[..HeaderSize] == [0x00, 0x04, 0x00, 0x04, 0x03];
    assert bs == bs[..HeaderSize] + bs[HeaderSize..];
    assert bs == [0x00, 0x04, 0x00, 0x04, 0x03, 0x00, 0x00, 0x00, 0xFF, 0xFF, 0xFF];
  }

  /** In that gradient t = x / 3, so the columns are 0, 85, 170 and 255. */
  lemma HorizontalGradientColumns(y: nat)
    requires y < 4
    ensures PixelAt(Scif(4, 4, HorizontalGradient(Black, White)), 0, y) == Black
    ensures PixelAt(Scif(4, 4, HorizontalGradient(Black, White)), 1, y) == RGB(85, 85, 85)
    ensures PixelAt(Scif(4, 4, HorizontalGradient(Black, White)), 2, y) == RGB(170, 170, 170)
    ensures PixelAt(Scif(4, 4, HorizontalGradient(Black, White)), 3, y) == White
  {
    var s := Scif(4, 4, HorizontalGradient(Black, White));
    assert PixelAt(s, 1, y) == GradientColor(Black, White, 1, 3);
    assert Interpolation.Channel(0, 255, 1, 3) == 85;
    assert PixelAt(s, 2, y) == GradientColor(Black, White, 2, 3);
    assert Interpolation.Channel(0, 255, 2, 3) == 170;
    HorizontalGradientShape(s, 0, y, y);
    HorizontalGradientShape(s, 3, y, y);
  }

  /** One pixel high: t is 0 everywhere, so every pixel is the top colour. */
  lemma FlatVerticalGradient(x: nat)
    requires x < 5
    ensures PixelAt(Scif(5, 1, VerticalGradient(RGB(1, 2, 3), RGB(250, 251, 252))), x, 0) == RGB(1, 2, 3)
  {
    VerticalGradientShape(Scif(5, 1, VerticalGradient(RGB(1, 2, 3), RGB(250, 251, 252))), x, x, 0);
  }

  /** Half-way values round to even: 0.5 to 0, 1.5 to 2, 2.5 to 2. */
  lemma GradientTiesToEven()
    ensures PixelAt(Scif(1, 3, VerticalGradient(Black, RGB(1, 3, 5))), 0, 1) == RGB(0, 2, 2)
  {
  }

  /** The four squares of a 16 by 16 red and blue checkerboard. */
  lemma CheckerboardCorners()
    ensures PixelAt(Scif(16, 16, Checkerboard(RGB(255, 0, 0), RGB(0, 0, 255))), 0, 0) == RGB(255, 0, 0)
    ensures PixelAt(Scif(16, 16, Checkerboard(RGB(255, 0, 0), RGB(0, 0, 255))), 8, 0) == RGB(0, 0, 255)
    ensures PixelAt(Scif(16, 16, Checkerboard(RGB(255, 0, 0), RGB(0, 0, 255))), 0, 8) == RGB(0, 0, 255)
    ensures PixelAt(Scif(16, 16, Checkerboard(RGB(255, 0, 0), RGB(0, 0, 255))), 8, 8) == RGB(255, 0, 0)
  {
  }

  /** A solid file with two payload bytes, a file with mode 99 and a file of
      four bytes are each refused with their own error. */
  lemma RejectedFiles()
    ensures Parse([0, 5, 0, 5, 1, 10, 20]) == Err(SolidPayloadTooSmall)
    ensures Parse([0, 1, 0, 1, 99, 0, 0, 0]) == Err(UnknownMode)
    ensures Parse([0, 1, 0, 1]) == Err(FileTooSmall)
  {
  }
}
