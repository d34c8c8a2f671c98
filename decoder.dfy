/** The front half of the SCIF reader: split the file into header and payload,
    check the payload against the mode, and name the pattern it describes. */
module Decoder {
  import opened Wrappers
  import opened Bytes
  import opened Format

  /** The 5-byte header as read, with every byte after it as the payload. */
  datatype Header = Header(width: uint16, height: uint16, mode: byte, payload: seq<byte>)

  /** Reads `width`, `height` and `mode` as `int.from_bytes(header[0:2], 'big')`,
      `int.from_bytes(header[2:4], 'big')` and `header[4]`; the rest of the file
      is the payload. A file shorter than the header is "too small". */
  function ParseHeader(data: seq<byte>): (res: Result<Header, DecodeError>)
    ensures res.Err? <==> |data| < HeaderSize
    ensures res.Err? ==> res.error == FileTooSmall
    ensures res.Ok? ==>
      && res.value.width == 256 * (data[0] as int) + data[1]
      && res.value.height == 256 * (data[2] as int) + data[3]
      && res.value.mode == data[4]
      && res.value.payload == data[HeaderSize..]
  {
    if |data| < HeaderSize then Err(FileTooSmall)
    else
      var w, h := data[0..2], data[2..4];
      Pow256Two();
      assert w == [data[0], data[1]] && h == [data[2], data[3]];
      TwoBytesValue(data[0], data[1]);
      TwoBytesValue(data[2], data[3]);
      Ok(Header(FromBytesBE(w), FromBytesBE(h), data[4], data[HeaderSize..]))
  }

  /** The mode dispatch of the reader: mode 1 needs 3 payload bytes, modes 2
      to 4 need 6, any other mode is unknown; bytes beyond those are ignored. */
  function Parse(data: seq<byte>): (res: Result<Scif, DecodeError>)
    ensures |data| < HeaderSize ==> res == Err(FileTooSmall)
    ensures |data| >= HeaderSize && !IsKnownMode(data[4]) ==> res == Err(UnknownMode)
    ensures |data| >= HeaderSize && data[4] == 1 && |data| < HeaderSize + 3 ==> res == Err(SolidPayloadTooSmall)
    ensures |data| >= HeaderSize && (data[4] == 2 || data[4] == 3) && |data| < HeaderSize + 6 ==>
              res == Err(GradientPayloadTooSmall)
    ensures |data| >= HeaderSize && data[4] == 4 && |data| < HeaderSize + 6 ==> res == Err(CheckerboardPayloadTooSmall)
    ensures res.Ok? <==>
      |data| >= HeaderSize && IsKnownMode(data[4]) && |data| >= HeaderSize + PayloadSize(data[4])
    ensures res.Ok? ==>
      && res.value.width == 256 * (data[0] as int) + data[1]
      && res.value.height == 256 * (data[2] as int) + data[3]
      && ModeOf(res.value.pattern) == data[4]
      && PayloadOf(res.value.pattern) == data[HeaderSize..HeaderSize + PayloadSize(data[4])]
  {
    match ParseHeader(data)
    case Err(e) => Err(e)
    case Ok(Header(width, height, mode, p)) =>
      if mode == 1 then
        if |p| < 3 then Err(SolidPayloadTooSmall)
        else Ok(Scif(width, height, Solid(RGB(p[0], p[1], p[2]))))
      else if mode == 2 || mode == 3 then
        if |p| < 6 then Err(GradientPayloadTooSmall)
        else
          var c1, c2 := RGB(p[0], p[1], p[2]), RGB(p[3], p[4], p[5]);
          assert ColorBytes(c1) + ColorBytes(c2) == p[..6];
          Ok(Scif(width, height, if mode == 2 then VerticalGradient(c1, c2) else HorizontalGradient(c1, c2)))
      else if mode == 4 then
        if |p| < 6 then Err(CheckerboardPayloadTooSmall)
        else
          var c1, c2 := RGB(p[0], p[1], p[2]), RGB(p[3], p[4], p[5]);
          assert ColorBytes(c1) + ColorBytes(c2) == p[..6];
          Ok(Scif(width, height, Checkerboard(c1, c2)))
      else
        Err(UnknownMode)
  }

  /** A pattern is determined by its mode byte and its payload bytes. */
  lemma PatternFromBytes(p: Pattern, q: Pattern)
    requires ModeOf(p) == ModeOf(q) && PayloadOf(p) == PayloadOf(q)
    ensures p == q
  {
    var bp, bq := PayloadOf(p), PayloadOf(q);
    assert bp[0] == bq[0] && bp[1] == bq[1] && bp[2] == bq[2];
    if ModeOf(p) != 1 {
      assert bp[3] == bq[3] && bp[4] == bq[4] && bp[5] == bq[5];
    }
  }

  /** Bytes after the mode's payload never change what is read. */
  lemma TrailingBytesIgnored(data: seq<byte>, extra: seq<byte>)
    requires Parse(data).Ok?
    ensures Parse(data + extra) == Parse(data)
  {
    var s, t := Parse(data).value, Parse(data + extra).value;
    var n := HeaderSize + PayloadSize(data[4]);
    assert (data + extra)[..n] == data[..n];
    assert (data + extra)[HeaderSize..n] == data[HeaderSize..n];
    PatternFromBytes(s.pattern, t.pattern);
  }
}
