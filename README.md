# SCIF codec in Dafny

A model of the Simple Color Image Format (SCIF) tool `scif_tools.py`. A SCIF
file is a 5-byte header followed by a payload. The header holds the width and
the height as big-endian 16-bit numbers and a mode byte. The payload holds one
colour (mode 1, solid) or two colours (mode 2, top-to-bottom gradient; mode 3,
left-to-right gradient; mode 4, checkerboard of 8-pixel squares).

The model has three parts.

- **Writers** (`encoder.dfy`). `save_solid`, `save_vertical_gradient`,
  `save_horizontal_gradient` and `save_checkerboard` become functions that
  return the bytes they would write. They fail the way the Python calls
  fail: `to_bytes(2, 'big')` on a width or height outside 0..65535, then
  `bytes([...])` on a channel outside 0..255, in that order.
- **Reader, front half** (`decoder.dfy`). `read_scif` splits the file into
  header and payload, checks the payload length for the mode and names the
  pattern. The result is a `Result` whose errors are the reader's five
  `ValueError`s: file too small, payload too small for solid colour,
  gradient or checkerboard, and unknown mode.
- **Reader, back half** (`interpolation.dfy`, `render.dfy`). `PixelAt` gives
  the colour of one pixel. `Render` paints a new `array2<RGB>`, indexed
  `[x, y]` like the reader's pixel access. A solid image is created already
  filled. The other modes start black and are painted by nested `y`/`x`
  loops. A zero width or height gives an empty image.

`bytes.dfy` models `int.from_bytes`/`to_bytes` in big-endian order.
`roundtrip.dfy` ties the writers to the reader. `examples.dfy` pins the
format's two published byte strings and a few pixel values.

Gradient arithmetic is exact. The reader computes t = y/(height-1) or
x/(width-1) (t = 0 when that dimension is at most 1), then
`round(start + (end - start) * t)`, clamped to 0..255. The model computes the
blend as the rational `(start*den + (end-start)*num) / den` and rounds it the
way Python's `round` does: to the nearest integer, with halves going to the
even neighbour. The proved properties (bounds, endpoints, monotonicity,
one-coordinate dependence) rely only on "nearest", so they hold for any tie
rule. The format text in the source (scif_tools.py:56) says only "round to
nearest integer". The code calls Python's `round`, which rounds ties to even,
and the model follows the code.

The format text embedded in `scif_tools.py` calls the 100×50 solid red
example "7 bytes" (scif_tools.py:72-75). The bytes shown are 8.
`Examples.SolidRedFile` proves that the writer produces exactly those 8 bytes.

## Model

| member | source | states |
|---|---|---|
| `Bytes.FromBytesBE` | scif_tools.py:143-144 | `int.from_bytes(bs, 'big')`: the first byte is the most significant; the value of n bytes is below 256^n, so a 2-byte width or height fits in 0..65535 |
| `Bytes.ToBytesBE` | scif_tools.py:109-110 | `n.to_bytes(len, 'big')` for an n below 256^len: exactly len bytes, the last one n mod 256 |
| `Bytes.FromToBytesBE` | scif_tools.py:109-110 | reading back what `to_bytes(len, 'big')` wrote gives the original number |
| `Bytes.ToFromBytesBE` | scif_tools.py:143-144 | writing back what `from_bytes(…, 'big')` read gives the original bytes |
| `Bytes.Pow256Two` | scif_tools.py:143-144 | two bytes hold exactly the 65536 values 0..65535 |
| `Bytes.TwoBytesValue` | scif_tools.py:143-144 | two bytes read big-endian are 256·high + low |
| `Bytes.Uint16Layout` | scif_tools.py:109-110 | a 16-bit value fits in two bytes, is written as [n div 256, n mod 256] and read back from those two bytes |
| `Format.ModeOf` | scif_tools.py:111 | every pattern's mode byte is one of the known modes 1..4 |
| `Format.PayloadOf` | scif_tools.py:112 | a pattern's payload is as long as its mode requires: 3 bytes for solid, 6 for the others |
| `Format.PayloadSize` | scif_tools.py:149-170 | the payload bytes a known mode needs: 3 exactly for mode 1 (solid), 6 for modes 2, 3 and 4 |
| `Encoder.WriteScif` | scif_tools.py:109-112 | succeeds exactly when width and height are in 0..65535 and every channel in 0..255; otherwise fails on the first bad value in write order (width, height, channels); on success writes 5 + n bytes: width high, width low, height high, height low, the mode, then the channels unchanged |
| `Encoder.SaveSolid` | scif_tools.py:107-112 | succeeds exactly when the dimensions and r, g, b are in range; then 8 bytes with mode 1 at offset 4 and r, g, b at offsets 5..7 |
| `Encoder.SaveVerticalGradient` | scif_tools.py:114-119 | succeeds exactly when the dimensions and all six channels are in range; then 11 bytes with mode 2 and the two colours in r, g, b order |
| `Encoder.SaveHorizontalGradient` | scif_tools.py:121-126 | as above with mode 3 |
| `Encoder.SaveCheckerboard` | scif_tools.py:128-134 | as above with mode 4; the unused square size is not written |
| `Decoder.ParseHeader` | scif_tools.py:140-146 | fails with "file too small" exactly when there are fewer than 5 bytes; otherwise width = 256·b0 + b1, height = 256·b2 + b3, mode = b4 and the payload is every byte after offset 5 |
| `Decoder.Parse` | scif_tools.py:148-182 | too small below 5 bytes; unknown mode outside 1..4; payload too small for solid below 3 payload bytes, for gradient (modes 2, 3) or checkerboard (mode 4) below 6; succeeds exactly otherwise, with width and height from the header, the mode byte as the pattern's mode and the first 3 or 6 payload bytes as its colours |
| `Decoder.PatternFromBytes` | scif_tools.py:151-172 | a pattern is determined by its mode byte and its 3 or 6 payload bytes |
| `Decoder.TrailingBytesIgnored` | scif_tools.py:146-172 | appending bytes to an accepted file does not change what is read |
| `Interpolation.RoundHalfEven` | scif_tools.py:163-165 | Python's `round` on the exact value n/d: the result is within one half of n/d (the nearest integer) |
| `Interpolation.Blend` | scif_tools.py:163-165 | the exact blend start + (end - start)·t with t = num/den, scaled by den: start at t = 0, end at t = 1 |
| `Interpolation.Channel` | scif_tools.py:162-166 | one gradient channel, `max(0, min(255, round(start + (end - start)·t)))`: always between start and end |
| `Interpolation.Clamp` | scif_tools.py:166 | `max(0, min(255, v))`: v itself inside 0..255, 0 below, 255 above |
| `Interpolation.RoundTieIsEven` | scif_tools.py:163-165 | a value exactly half-way between two integers rounds to the even one, as Python's `round` does |
| `Interpolation.RoundBetween` | scif_tools.py:163-165 | a value between two integers rounds to a value between them |
| `Interpolation.RoundExact` | scif_tools.py:163-165 | an integer value rounds to itself |
| `Interpolation.RoundMonotone` | scif_tools.py:163-165 | rounding preserves the order of two values |
| `Interpolation.BlendBetween` | scif_tools.py:163-165 | for 0 ≤ t ≤ 1 the blend start + (end - start)·t lies between start and end |
| `Interpolation.BlendNoFurther` | scif_tools.py:163-165 | a larger t moves the blend further from start toward end |
| `Interpolation.ChannelBetween` | scif_tools.py:162-166 | a gradient channel lies between its start and end values, so the clamp never changes it |
| `Interpolation.ChannelEndpoints` | scif_tools.py:162-165 | t = 0 gives the start channel and t = 1 the end channel exactly |
| `Interpolation.ChannelNoFurther` | scif_tools.py:162-166 | a channel is monotone in t: non-decreasing when end ≥ start, non-increasing otherwise |
| `Render.GradientColor` | scif_tools.py:163-166 | the three channels blended at the same t: every channel between the two colours' values |
| `Render.PixelAt` | scif_tools.py:151-177 | the colour the reader paints at (x, y): the solid colour; for gradients t = y/(h-1) or x/(w-1), and t = 0 when that dimension is ≤ 1, rounded half-even and clamped; checkerboard colour 1 when (x div 8 + y div 8) is even, else colour 2. Its contract: a solid pixel is the colour, a gradient pixel lies channel by channel between its two colours, a checkerboard pixel is one of its two colours |
| `Render.GradientColorEndpoints` | scif_tools.py:162-166 | t = 0 gives the start colour and t = 1 the end colour |
| `Render.GradientColorNoFurther` | scif_tools.py:162-166 | every channel of a blended colour is monotone in t |
| `Render.Render` | scif_tools.py:152-178 | returns a new width×height image whose every cell (x, y) is `PixelAt(s, x, y)`: solid filled at creation, the other modes painted row by row |
| `Render.ReadScif` | scif_tools.py:138-182 | fails with the same error as `Parse`; otherwise returns a new image that shows the parsed file |
| `Render.VerticalGradientShape` | scif_tools.py:160-166 | mode 2: a pixel depends only on y; height ≤ 1 gives the top colour everywhere; otherwise row 0 is the top colour and row height-1 the bottom colour |
| `Render.HorizontalGradientShape` | scif_tools.py:160-166 | mode 3: a pixel depends only on x; width ≤ 1 gives the left colour everywhere; otherwise column 0 is the left colour and column width-1 the right colour |
| `Render.VerticalGradientMonotone` | scif_tools.py:160-166 | mode 2: down a column every channel moves monotonically from the top value toward the bottom value |
| `Render.HorizontalGradientMonotone` | scif_tools.py:160-166 | mode 3: along a row every channel moves monotonically from the left value toward the right value |
| `Render.CheckerboardSquare` | scif_tools.py:175-178 | mode 4: pixels in the same aligned 8×8 square have the same colour |
| `Render.CheckerboardAlternates` | scif_tools.py:175-178 | mode 4: the square at the origin has colour 1, and moving 8 pixels across or down swaps colour 1 and colour 2 |
| `RoundTrip.ParseWritten` | scif_tools.py:109-146 | bytes laid out by the common writer shape are read back as the width, height and pattern they came from |
| `RoundTrip.SaveSolidRoundTrip` | scif_tools.py:107-152 | whatever `save_solid` writes, the reader reads back as the same width, height and colour |
| `RoundTrip.TwoColorPayload` | scif_tools.py:119 | the six channels of a two-colour writer are the first colour's r, g, b and then the second's |
| `RoundTrip.SaveVerticalGradientRoundTrip` | scif_tools.py:114-157 | whatever `save_vertical_gradient` writes is read back as a vertical gradient with the same size and colours |
| `RoundTrip.SaveHorizontalGradientRoundTrip` | scif_tools.py:121-157 | the same for `save_horizontal_gradient` |
| `RoundTrip.SaveCheckerboardRoundTrip` | scif_tools.py:128-172 | the same for `save_checkerboard` |
| `RoundTrip.EncodeThenParse` | scif_tools.py:107-182 | every describable image is written without error by its writer and read back unchanged |
| `RoundTrip.ParseThenEncode` | scif_tools.py:107-182 | every accepted file is exactly what the matching writer writes, up to the trailing bytes the reader ignores |
| `Examples.SolidRedFile` | scif_tools.py:72-75 | 100×50 solid red is written as `00 64 00 32 01 FF 00 00` (8 bytes) and read back as written |
| `Examples.HorizontalGradientFile` | scif_tools.py:78-82 | 4×4 black-to-white horizontal gradient is written as `00 04 00 04 03 00 00 00 FF FF FF` and read back |
| `Examples.HorizontalGradientColumns` | scif_tools.py:162-166 | in that gradient the columns are 0, 85, 170 and 255 in every row |
| `Examples.FlatVerticalGradient` | scif_tools.py:162 | a 5×1 vertical gradient is its top colour everywhere |
| `Examples.GradientTiesToEven` | scif_tools.py:163-165 | blends of exactly 0.5, 1.5 and 2.5 round to 0, 2 and 2 |
| `Examples.CheckerboardCorners` | scif_tools.py:177 | a 16×16 red/blue checkerboard has red at (0,0) and (8,8), blue at (8,0) and (0,8) |
| `Examples.RejectedFiles` | scif_tools.py:141-182 | a 2-byte solid payload, mode 99 and a 4-byte file are each refused with their own error |

## Left out

- File I/O: the writers return their bytes and the reader takes the file's bytes. Opening, reading and writing files is not modelled. A writer that fails part-way leaves a partly written file; the model only reports the error.
- The imaging library: `Image.new`, `load`, `show` and `save` are replaced by an in-memory `array2<RGB>`. Nothing about how the library stores or handles a zero-sized image is modelled beyond "the loops paint nothing".
- The command-line front end (`print_usage` and the `__main__` block): argument parsing, `int()` conversion and printing.
- Floating point: t and the blend are exact rationals, not binary floats. `Render.PixelAt` can differ from the reader by one on a blend that lands within float error of a half. The tie rule is Python's ties-to-even, applied to the exact value.
- The `square` argument of `save_checkerboard`: it is never written, and the reader always uses 8-pixel squares.
- The format description and tool notes inside the source's string literals: documentation, not code.
- Error kinds: the code raises `ValueError` (the reader, and `bytes` in the writers) and `OverflowError` (`to_bytes` in the writers); the model gives each raise site its own error case.
- A stricter policy that rejects zero width or height: the code has no such option, so zero dimensions always give an empty image.
