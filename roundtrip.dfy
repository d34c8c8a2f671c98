/** How the writers and the reader fit together: reading what a writer wrote
    gives back its arguments, and every file the reader accepts is, up to
    ignored trailing bytes, what a writer writes. */
module RoundTrip {
  import opened Wrappers
  import opened Bytes
  import opened Format
  import opened Encoder
  import opened Decoder

  /** The writer for each pattern, called with the pattern's own values. */
  function Encode(s: Scif): Result<seq<byte>, EncodeError> {
    match s.pattern
    case Solid(c) => SaveSolid(s.width, s.height, c.r, c.g, c.b)
    case VerticalGradient(c1, c2) =>
      SaveVerticalGradient(s.width, s.height, c1.r, c1.g, c1.b, c2.r, c2.g, c2.b)
    case HorizontalGradient(c1, c2) =>
      SaveHorizontalGradient(s.width, s.height, c1.r, c1.g, c1.b, c2.r, c2.g, c2.b)
    case Checkerboard(c1, c2) =>
      SaveCheckerboard(s.width, s.height, c1.r, c1.g, c1.b, c2.r, c2.g, c2.b)
  }

  /** Bytes laid out as a writer lays them out are read back as the values
      they were made from. */
  lemma ParseWritten(width: int, height: int, p: Pattern, bs: seq<byte>)
    requires WriteScif(width, height, ModeOf(p), PayloadOf(p)) == Ok(bs)
    ensures InUint16(width) && InUint16(height)
    ensures Parse(bs) == Ok(Scif(width, height, p))
  {
    var s := Parse(bs).value;
    assert bs[HeaderSize..HeaderSize + PayloadSize(ModeOf(p))] == PayloadOf(p);
    PatternFromBytes(s.pattern, p);
  }

  lemma SaveSolidRoundTrip(width: int, height: int, r: int, g: int, b: int)
    requires SaveSolid(width, height, r, g, b).Ok?
    ensures InUint16(width) && InUint16(height) && 0 <= r < 256 && 0 <= g < 256 && 0 <= b < 256
    ensures Parse(SaveSolid(width, height, r, g, b).value) == Ok(Scif(width, height, Solid(RGB(r, g, b))))
  {
    assert 0 <= r < 256 && 0 <= g < 256 && 0 <= b < 256 by {
      assert [r, g, b][0] == r && [r, g, b][1] == g && [r, g, b][2] == b;
    }
    ParseWritten(width, height, Solid(RGB(r, g, b)), SaveSolid(width, height, r, g, b).value);
  }

  /** The payload of a two-colour writer as a pair of colours. */
  lemma TwoColorPayload(r1: int, g1: int, b1: int, r2: int, g2: int, b2: int)
    requires AllBytes([r1, g1, b1, r2, g2, b2])
    ensures 0 <= r1 < 256 && 0 <= g1 < 256 && 0 <= b1 < 256
    ensures 0 <= r2 < 256 && 0 <= g2 < 256 && 0 <= b2 < 256
    ensures ColorBytes(RGB(r1, g1, b1)) + ColorBytes(RGB(r2, g2, b2)) == [r1, g1, b1, r2, g2, b2]
  {
    var cs := [r1, g1, b1, r2, g2, b2];
    assert cs[0] == r1 && cs[1] == g1 && cs[2] == b1 && cs[3] == r2 && cs[4] == g2 && cs[5] == b2;
  }

  lemma SaveVerticalGradientRoundTrip(width: int, height: int, r1: int, g1: int, b1: int, r2: int, g2: int, b2: int)
    requires SaveVerticalGradient(width, height, r1, g1, b1, r2, g2, b2).Ok?
    ensures InUint16(width) && InUint16(height)
    ensures 0 <= r1 < 256 && 0 <= g1 < 256 && 0 <= b1 < 256 && 0 <= r2 < 256 && 0 <= g2 < 256 && 0 <= b2 < 256
    ensures Parse(SaveVerticalGradient(width, height, r1, g1, b1, r2, g2, b2).value)
         == Ok(Scif(width, height, VerticalGradient(RGB(r1, g1, b1), RGB(r2, g2, b2))))
  {
    TwoColorPayload(r1, g1, b1, r2, g2, b2);
    var p := VerticalGradient(RGB(r1, g1, b1), RGB(r2, g2, b2));
    ParseWritten(width, height, p, SaveVerticalGradient(width, height, r1, g1, b1, r2, g2, b2).value);
  }

  lemma SaveHorizontalGradientRoundTrip(width: int, height: int, r1: int, g1: int, b1: int, r2: int, g2: int, b2: int)
    requires SaveHorizontalGradient(width, height, r1, g1, b1, r2, g2, b2).Ok?
    ensures InUint16(width) && InUint16(height)
    ensures 0 <= r1 < 256 && 0 <= g1 < 256 && 0 <= b1 < 256 && 0 <= r2 < 256 && 0 <= g2 < 256 && 0 <= b2 < 256
    ensures Parse(SaveHorizontalGradient(width, height, r1, g1, b1, r2, g2, b2).value)
         == Ok(Scif(width, height, HorizontalGradient(RGB(r1, g1, b1), RGB(r2, g2, b2))))
  {
    TwoColorPayload(r1, g1, b1, r2, g2, b2);
    var p := HorizontalGradient(RGB(r1, g1, b1), RGB(r2, g2, b2));
    ParseWritten(width, height, p, SaveHorizontalGradient(width, height, r1, g1, b1, r2, g2, b2).value);
  }

  lemma SaveCheckerboardRoundTrip(width: int, height: int, r1: int, g1: int, b1: int, r2: int, g2: int, b2: int)
    requires SaveCheckerboard(width, height, r1, g1, b1, r2, g2, b2).Ok?
    ensures InUint16(width) && InUint16(height)
    ensures 0 <= r1 < 256 && 0 <= g1 < 256 && 0 <= b1 < 256 && 0 <= r2 < 256 && 0 <= g2 < 256 && 0 <= b2 < 256
    ensures Parse(SaveCheckerboard(width, height, r1, g1, b1, r2, g2, b2).value)
         == Ok(Scif(width, height, Checkerboard(RGB(r1, g1, b1), RGB(r2, g2, b2))))
  {
    TwoColorPayload(r1, g1, b1, r2, g2, b2);
    var p := Checkerboard(RGB(r1, g1, b1), RGB(r2, g2, b2));
    ParseWritten(width, height, p, SaveCheckerboard(width, height, r1, g1, b1, r2, g2, b2).value);
  }

  /** Every image the format can describe is written without error and read
      back unchanged. */
  lemma EncodeThenParse(s: Scif)
    ensures Encode(s).Ok?
    ensures Parse(Encode(s).value) == Ok(s)
  {
    match s.pattern
    case Solid(c) =>
      assert AllBytes([c.r, c.g, c.b]);
      SaveSolidRoundTrip(s.width, s.height, c.r, c.g, c.b);
    case VerticalGradient(c1, c2) =>
      assert AllBytes([c1.r, c1.g, c1.b, c2.r, c2.g, c2.b]);
      SaveVerticalGradientRoundTrip(s.width, s.height, c1.r, c1.g, c1.b, c2.r, c2.g, c2.b);
    case HorizontalGradient(c1, c2) =>
      assert AllBytes([c1.r, c1.g, c1.b, c2.r, c2.g, c2.b]);
      SaveHorizontalGradientRoundTrip(s.width, s.height, c1.r, c1.g, c1.b, c2.r, c2.g, c2.b);
    case Checkerboard(c1, c2) =>
      assert AllBytes([c1.r, c1.g, c1.b, c2.r, c2.g, c2.b]);
      SaveCheckerboardRoundTrip(s.width, s.height, c1.r, c1.g, c1.b, c2.r, c2.g, c2.b);
  }

  /** Every file the reader accepts is what the matching writer writes,
      followed by bytes the reader ignores. */
  lemma ParseThenEncode(data: seq<byte>)
    requires Parse(data).Ok?
    ensures Encode(Parse(data).value) == Ok(data[..HeaderSize + PayloadSize(data[4])])
  {
    var s := Parse(data).value;
    var n := HeaderSize + PayloadSize(data[4]);
    EncodeThenParse(s);
    var bs := Encode(s).value;
    assert |bs| == n;
    Uint16Layout(s.width);
    Uint16Layout(s.height);
    assert bs[HeaderSize..] == PayloadOf(s.pattern) by {
      match s.pattern
      case Solid(c) =>
      case VerticalGradient(c1, c2) =>
      case HorizontalGradient(c1, c2) =>
      case Checkerboard(c1, c2) =>
    }
    assert bs[..HeaderSize] == data[..HeaderSize];
    assert bs == bs[..HeaderSize] + bs[HeaderSize..];
    assert data[..n] == data[..HeaderSize] + data[HeaderSize..n];
  }
}
