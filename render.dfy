/** The back half of the SCIF reader: the colour of each pixel, and the image
    filled with them. Images are indexed `img[x, y]`, x across the width and y
    down the height, as the reader's pixel access is. */
module Render {
  import opened Wrappers
  import opened Bytes
  import opened Format
  import opened Interpolation
  import Decoder

  /** Each channel blended from c1 toward c2 at t = num / den; every channel
      lies between the two colours' values. */
  function GradientColor(c1: RGB, c2: RGB, num: nat, den: nat): (c: RGB)
    requires 0 < den && num <= den
    ensures ColorBetween(c1, c2, c)
  {
    RGB(Channel(c1.r, c2.r, num, den), Channel(c1.g, c2.g, num, den), Channel(c1.b, c2.b, num, den))
  }

  /** The colour the reader paints at (x, y). For the gradients t is
      y / (height - 1) or x / (width - 1), and 0 when that dimension is at most
      one pixel; the checkerboard squares are 8 pixels wide. A solid image is
      its colour everywhere, a gradient pixel lies channel by channel between
      its two colours, and a checkerboard pixel is one of its two colours. */
  function PixelAt(s: Scif, x: nat, y: nat): (c: RGB)
    requires x < s.width && y < s.height
    ensures s.pattern.Solid? ==> c == s.pattern.color
    ensures s.pattern.VerticalGradient? ==> ColorBetween(s.pattern.top, s.pattern.bottom, c)
    ensures s.pattern.HorizontalGradient? ==> ColorBetween(s.pattern.left, s.pattern.right, c)
    ensures s.pattern.Checkerboard? ==> c == s.pattern.color1 || c == s.pattern.color2
  {
    match s.pattern
    case Solid(c) => c
    case VerticalGradient(c1, c2) =>
      if s.height > 1 then GradientColor(c1, c2, y, s.height - 1) else GradientColor(c1, c2, 0, 1)
    case HorizontalGradient(c1, c2) =>
      if s.width > 1 then GradientColor(c1, c2, x, s.width - 1) else GradientColor(c1, c2, 0, 1)
    case Checkerboard(c1, c2) =>
      if (x / 8 + y / 8) % 2 == 0 then c1 else c2
  }

  /** `img` is the width-by-height picture of `s`. */
  ghost predicate Shows(img: array2<RGB>, s: Scif)
    reads img
  {
    && img.Length0 == s.width && img.Length1 == s.height
    && forall x, y :: 0 <= x < s.width && 0 <= y < s.height ==> img[x, y] == PixelAt(s, x, y)
  }

  /** Paints a new image. A solid image is created already filled with its
      colour; the other patterns start black and are painted row by row. A
      zero width or height gives an empty image and paints nothing. */
  method Render(s: Scif) returns (img: array2<RGB>)
    ensures fresh(img)
    ensures Shows(img, s)
  {
    if s.pattern.Solid? {
      var c := s.pattern.color;
      img := new RGB[s.width, s.height]((x, y) => c);
      return;
    }
    img := new RGB[s.width, s.height]((x, y) => Black);
    var y := 0;
    while y < s.height
      invariant 0 <= y <= s.height
      invariant forall i, j :: 0 <= i < s.width && 0 <= j < y ==> img[i, j] == PixelAt(s, i, j)
    {
      var x := 0;
      while x < s.width
        invariant 0 <= x <= s.width
        invariant forall i, j :: 0 <= i < s.width && 0 <= j < y ==> img[i, j] == PixelAt(s, i, j)
        invariant forall i :: 0 <= i < x ==> img[i, y] == PixelAt(s, i, y)
      {
        img[x, y] := PixelAt(s, x, y);
        x := x + 1;
      }
      y := y + 1;
    }
  }

  /** Reads a SCIF file's bytes into an image, or fails as the reader does. */
  method ReadScif(data: seq<byte>) returns (res: Result<array2<RGB>, DecodeError>)
    ensures Decoder.Parse(data).Err? ==> res == Err(Decoder.Parse(data).error)
    ensures Decoder.Parse(data).Ok? ==> res.Ok? && fresh(res.value) && Shows(res.value, Decoder.Parse(data).value)
  {
    var parsed := Decoder.Parse(data);
    if parsed.Err? {
      return Err(parsed.error);
    }
    var img := Render(parsed.value);
    return Ok(img);
  }

  predicate ColorBetween(c1: RGB, c2: RGB, c: RGB) {
    Between(c1.r, c2.r, c.r) && Between(c1.g, c2.g, c.g) && Between(c1.b, c2.b, c.b)
  }

  /** Channel by channel, p lies no further from c1 toward c2 than q. */
  predicate ColorNoFurther(c1: RGB, c2: RGB, p: RGB, q: RGB) {
    NoFurther(c1.r, c2.r, p.r, q.r) && NoFurther(c1.g, c2.g, p.g, q.g) && NoFurther(c1.b, c2.b, p.b, q.b)
  }

  lemma GradientColorEndpoints(c1: RGB, c2: RGB, den: nat)
    requires 0 < den
    ensures GradientColor(c1, c2, 0, den) == c1
    ensures GradientColor(c1, c2, den, den) == c2
  {
    ChannelEndpoints(c1.r, c2.r, den);
    ChannelEndpoints(c1.g, c2.g, den);
    ChannelEndpoints(c1.b, c2.b, den);
  }

  lemma GradientColorNoFurther(c1: RGB, c2: RGB, num1: nat, num2: nat, den: nat)
    requires 0 < den && num1 <= num2 <= den
    ensures ColorNoFurther(c1, c2, GradientColor(c1, c2, num1, den), GradientColor(c1, c2, num2, den))
  {
    ChannelNoFurther(c1.r, c2.r, num1, num2, den);
    ChannelNoFurther(c1.g, c2.g, num1, num2, den);
    ChannelNoFurther(c1.b, c2.b, num1, num2, den);
  }

  /** Mode 2: a row has one colour; a picture one pixel high is the top colour
      throughout; otherwise the first row is the top colour and the last row
      the bottom colour. */
  lemma VerticalGradientShape(s: Scif, x1: nat, x2: nat, y: nat)
    requires s.pattern.VerticalGradient? && x1 < s.width && x2 < s.width && y < s.height
    ensures PixelAt(s, x1, y) == PixelAt(s, x2, y)
    ensures s.height <= 1 ==> PixelAt(s, x1, y) == s.pattern.top
    ensures y == 0 ==> PixelAt(s, x1, y) == s.pattern.top
    ensures 1 < s.height && y == s.height - 1 ==> PixelAt(s, x1, y) == s.pattern.bottom
  {
    var c1, c2 := s.pattern.top, s.pattern.bottom;
    if s.height > 1 {
      var g := GradientColor(c1, c2, y, s.height - 1);
      assert PixelAt(s, x1, y) == g && PixelAt(s, x2, y) == g;
      GradientColorEndpoints(c1, c2, s.height - 1);
    } else {
      var g := GradientColor(c1, c2, 0, 1);
      assert PixelAt(s, x1, y) == g && PixelAt(s, x2, y) == g;
      GradientColorEndpoints(c1, c2, 1);
    }
  }

  /** Mode 3: a column has one colour; a picture one pixel wide is the left
      colour throughout; otherwise the first column is the left colour and the
      last column the right colour. */
  lemma HorizontalGradientShape(s: Scif, x: nat, y1: nat, y2: nat)
    requires s.pattern.HorizontalGradient? && x < s.width && y1 < s.height && y2 < s.height
    ensures PixelAt(s, x, y1) == PixelAt(s, x, y2)
    ensures s.width <= 1 ==> PixelAt(s, x, y1) == s.pattern.left
    ensures x == 0 ==> PixelAt(s, x, y1) == s.pattern.left
    ensures 1 < s.width && x == s.width - 1 ==> PixelAt(s, x, y1) == s.pattern.right
  {
    var c1, c2 := s.pattern.left, s.pattern.right;
    if s.width > 1 {
      var g := GradientColor(c1, c2, x, s.width - 1);
      assert PixelAt(s, x, y1) == g && PixelAt(s, x, y2) == g;
      GradientColorEndpoints(c1, c2, s.width - 1);
    } else {
      var g := GradientColor(c1, c2, 0, 1);
      assert PixelAt(s, x, y1) == g && PixelAt(s, x, y2) == g;
      GradientColorEndpoints(c1, c2, 1);
    }
  }

  /** Mode 2: going down a column, each channel moves monotonically from the
      top colour's value toward the bottom colour's. */
  lemma VerticalGradientMonotone(s: Scif, x: nat, y1: nat, y2: nat)
    requires s.pattern.VerticalGradient? && x < s.width && y1 <= y2 < s.height
    ensures ColorNoFurther(s.pattern.top, s.pattern.bottom, PixelAt(s, x, y1), PixelAt(s, x, y2))
  {
    var c1, c2 := s.pattern.top, s.pattern.bottom;
    if s.height > 1 {
      GradientColorNoFurther(c1, c2, y1, y2, s.height - 1);
    } else {
      GradientColorNoFurther(c1, c2, 0, 0, 1);
    }
  }

  /** Mode 3: going along a row, each channel moves monotonically from the left
      colour's value toward the right colour's. */
  lemma HorizontalGradientMonotone(s: Scif, x1: nat, x2: nat, y: nat)
    requires s.pattern.HorizontalGradient? && x1 <= x2 < s.width && y < s.height
    ensures ColorNoFurther(s.pattern.left, s.pattern.right, PixelAt(s, x1, y), PixelAt(s, x2, y))
  {
    var c1, c2 := s.pattern.left, s.pattern.right;
    if s.width > 1 {
      GradientColorNoFurther(c1, c2, x1, x2, s.width - 1);
    } else {
      GradientColorNoFurther(c1, c2, 0, 0, 1);
    }
  }

  /** Mode 4: pixels in the same aligned 8-by-8 square have the same colour. */
  lemma CheckerboardSquare(s: Scif, x1: nat, y1: nat, x2: nat, y2: nat)
    requires s.pattern.Checkerboard?
    requires x1 < s.width && x2 < s.width && y1 < s.height && y2 < s.height
    requires x1 / 8 == x2 / 8 && y1 / 8 == y2 / 8
    ensures PixelAt(s, x1, y1) == PixelAt(s, x2, y2)
  {
  }

  /** Mode 4: the square at the origin has the first colour, and moving 8
      pixels across or down switches to the other colour. */
  lemma CheckerboardAlternates(s: Scif, x: nat, y: nat)
    requires s.pattern.Checkerboard? && x < s.width && y < s.height
    ensures x < 8 && y < 8 ==> PixelAt(s, x, y) == s.pattern.color1
    ensures x + 8 < s.width ==> {PixelAt(s, x, y), PixelAt(s, x + 8, y)} == {s.pattern.color1, s.pattern.color2}
    ensures y + 8 < s.height ==> {PixelAt(s, x, y), PixelAt(s, x, y + 8)} == {s.pattern.color1, s.pattern.color2}
  {
    assert (x + 8) / 8 == x / 8 + 1;
    assert (y + 8) / 8 == y / 8 + 1;
  }
}
