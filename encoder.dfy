/** The four writers of the SCIF tool, producing the bytes they write to the
    file: width and height as big-endian 16-bit numbers, the mode byte, then
    the colour channels. */
module Encoder {
  import opened Wrappers
  import opened Bytes
  import opened Format

  predicate InUint16(n: int) {
    0 <= n < 0x1_0000
  }

  predicate AllBytes(channels: seq<int>) {
    forall i :: 0 <= i < |channels| ==> 0 <= channels[i] < 256
  }

  /** The common shape of every writer: `width.to_bytes(2, 'big')`,
      `height.to_bytes(2, 'big')`, `bytes([mode])`, `bytes(channels)`, each
      raising on a value it cannot represent, in that order. */
  function WriteScif(width: int, height: int, mode: byte, channels: seq<int>): (res: Result<seq<byte>, EncodeError>)
    ensures res.Ok? <==> InUint16(width) && InUint16(height) && AllBytes(channels)
    ensures !InUint16(width) ==> res == Err(WidthOutOfRange)
    ensures InUint16(width) && !InUint16(height) ==> res == Err(HeightOutOfRange)
    ensures InUint16(width) && InUint16(height) && !AllBytes(channels) ==> res == Err(ChannelOutOfRange)
    ensures res.Ok? ==>
      && |res.value| == HeaderSize + |channels|
      && res.value[0] == width / 256 && res.value[1] == width % 256
      && res.value[2] == height / 256 && res.value[3] == height % 256
      && res.value[4] == mode
      && res.value[HeaderSize..] == channels
  {
    if !InUint16(width) then Err(WidthOutOfRange)
    else if !InUint16(height) then Err(HeightOutOfRange)
    else if !AllBytes(channels) then Err(ChannelOutOfRange)
    else
      var payload: seq<byte> := channels;
      Uint16Layout(width);
      Uint16Layout(height);
      Ok(ToBytesBE(width, 2) + ToBytesBE(height, 2) + [mode] + payload)
  }

  /** `save_solid`: 8 bytes, mode 1, then r, g, b. */
  function SaveSolid(width: int, height: int, r: int, g: int, b: int): (res: Result<seq<byte>, EncodeError>)
    ensures res.Ok? <==> InUint16(width) && InUint16(height) && AllBytes([r, g, b])
    ensures res.Ok? ==> |res.value| == 8 && res.value[4] == 1 && res.value[5..] == [r, g, b]
  {
    WriteScif(width, height, 1, [r, g, b])
  }

  /** `save_vertical_gradient`: 11 bytes, mode 2, top colour then bottom colour. */
  function SaveVerticalGradient(width: int, height: int, r1: int, g1: int, b1: int, r2: int, g2: int, b2: int)
    : (res: Result<seq<byte>, EncodeError>)
    ensures res.Ok? <==> InUint16(width) && InUint16(height) && AllBytes([r1, g1, b1, r2, g2, b2])
    ensures res.Ok? ==> |res.value| == 11 && res.value[4] == 2 && res.value[5..] == [r1, g1, b1, r2, g2, b2]
  {
    WriteScif(width, height, 2, [r1, g1, b1, r2, g2, b2])
  }

  /** `save_horizontal_gradient`: 11 bytes, mode 3, left colour then right colour. */
  function SaveHorizontalGradient(width: int, height: int, r1: int, g1: int, b1: int, r2: int, g2: int, b2: int)
    : (res: Result<seq<byte>, EncodeError>)
    ensures res.Ok? <==> InUint16(width) && InUint16(height) && AllBytes([r1, g1, b1, r2, g2, b2])
    ensures res.Ok? ==> |res.value| == 11 && res.value[4] == 3 && res.value[5..] == [r1, g1, b1, r2, g2, b2]
  {
    WriteScif(width, height, 3, [r1, g1, b1, r2, g2, b2])
  }

  /** `save_checkerboard`: 11 bytes, mode 4, the two square colours. Its
      `square` argument is never written, so it is not a parameter here. */
  function SaveCheckerboard(width: int, height: int, r1: int, g1: int, b1: int, r2: int, g2: int, b2: int)
    : (res: Result<seq<byte>, EncodeError>)
    ensures res.Ok? <==> InUint16(width) && InUint16(height) && AllBytes([r1, g1, b1, r2, g2, b2])
    ensures res.Ok? ==> |res.value| == 11 && res.value[4] == 4 && res.value[5..] == [r1, g1, b1, r2, g2, b2]
  {
    WriteScif(width, height, 4, [r1, g1, b1, r2, g2, b2])
  }
}
