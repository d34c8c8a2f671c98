/** The values a SCIF file describes: a width, a height and one of four
    procedural patterns, each carrying its colour payload. */
module Format {
  import opened Bytes

  /** One pixel: three 8-bit channels in r, g, b order. */
  datatype RGB = RGB(r: byte, g: byte, b: byte)

  /** The colour of every pixel of a freshly created image before it is painted. */
  const Black := RGB(0, 0, 0)

  /** Mode 1 (solid), 2 (top-to-bottom gradient), 3 (left-to-right gradient),
      4 (checkerboard of 8-pixel squares). */
  datatype Pattern =
    | Solid(color: RGB)
    | VerticalGradient(top: RGB, bottom: RGB)
    | HorizontalGradient(left: RGB, right: RGB)
    | Checkerboard(color1: RGB, color2: RGB)

  datatype Scif = Scif(width: uint16, height: uint16, pattern: Pattern)

  /** Size of the fixed header: width (2), height (2), mode (1). */
  const HeaderSize := 5

  /** The mode byte that selects each pattern. */
  function ModeOf(p: Pattern): (mode: byte)
    ensures IsKnownMode(mode)
  {
    match p
    case Solid(_) => 1
    case VerticalGradient(_, _) => 2
    case HorizontalGradient(_, _) => 3
    case Checkerboard(_, _) => 4
  }

  predicate IsKnownMode(mode: byte) {
    1 <= mode <= 4
  }

  /** Bytes a known mode reads from its payload: one colour or two. */
  function PayloadSize(mode: byte): (n: nat)
    requires IsKnownMode(mode)
    ensures n == 3 || n == 6
    ensures n == 3 <==> mode == 1
  {
    if mode == 1 then 3 else 6
  }

  function ColorBytes(c: RGB): (bs: seq<byte>)
    ensures |bs| == 3
  {
    [c.r, c.g, c.b]
  }

  /** The payload bytes that describe a pattern's colours. */
  function PayloadOf(p: Pattern): (bs: seq<byte>)
    ensures |bs| == PayloadSize(ModeOf(p))
  {
    match p
    case Solid(c) => ColorBytes(c)
    case VerticalGradient(c1, c2) => ColorBytes(c1) + ColorBytes(c2)
    case HorizontalGradient(c1, c2) => ColorBytes(c1) + ColorBytes(c2)
    case Checkerboard(c1, c2) => ColorBytes(c1) + ColorBytes(c2)
  }

  /** Why reading a file fails; one case per `ValueError` message of the reader. */
  datatype DecodeError =
    | FileTooSmall
    | SolidPayloadTooSmall
    | GradientPayloadTooSmall
    | CheckerboardPayloadTooSmall
    | UnknownMode

  /** Why writing a file fails: `to_bytes(2, 'big')` overflows on a width or
      height outside 0..65535, `bytes([...])` rejects a channel outside 0..255. */
  datatype EncodeError =
    | WidthOutOfRange
    | HeightOutOfRange
    | ChannelOutOfRange
}
