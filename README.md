# LSB steganography codec, modelled in Dafny

This project models the core of LSBProject, a least-significant-bit
steganography tool. The tool has three operations:

- `EmbedText.embedText` hides the UTF-8 bytes of `text + delimiter` in bit 0
  of the blue channel of an image's pixels. It writes one bit per pixel, most
  significant bit of each byte first, and walks the pixels in row-major order.
  Every pixel after the payload gets a random bit. An image with fewer pixels
  than payload bits is refused and left unchanged.
- `ExtractText.extractText` walks the pixels in the same order. It gathers
  every 8 blue LSBs into a byte and drops a trailing partial byte. It decodes
  the bytes leniently as UTF-8 and returns the text before the first
  occurrence of the delimiter, or `""` when the delimiter does not occur.
- `LSBVisualization.visualizeLSBBits` renders the blue LSB plane as a
  grayscale image of the same size: 255 where the bit is 1, 0 where it is 0.
  A null image gives a null result.

Module layout:

- `Raster`: pixels as 32-bit words, the row-major walk, the blue LSB, and the
  in-memory `Image` class with `GetRGB` and `SetRGB`.
- `BitStream`: Java bytes and shifts, MSB-first serialization, and the
  decoder's byte accumulator.
- `Utf8`: the charset step.
- `Embed`, `Extract` and `Visualize`: the three operations. Each is written as
  the source writes it: nested loops over `y` and `x` that update pixels, a
  byte buffer or an output raster in place. Each is proved against a function
  of the input: `EmbedPixels`, `ExtractedText` and `LsbPlane`.
- `RoundTrip`: what the encoder and the decoder promise together, including
  the repository's own test scenario.

Java semantics are written out explicitly:

- a `byte` is held as its bit pattern 0..255, and `Signed` gives the value
  Java computes with;
- `>>` is arithmetic (`Shr` rounds toward minus infinity);
- `(byte)` keeps the low 8 bits (`ByteCast`).

The model proves that these Java expressions compute the intended unsigned
bit operations (`SignedShiftBit`, `SignedAccumulateStep`).

The round trip holds exactly under one condition: the first occurrence of the
delimiter in `text + delimiter` must be where the text ends. The condition is
proved sufficient (`RoundTrip.EmbedThenExtract`) and necessary
(`RoundTrip.EarlyDelimiterTruncates`). The plain
condition "the text does not contain the delimiter" is not enough: the text
`"E"` with delimiter `"EE"` extracts as `""` (`RoundTrip.OverlapDefeatsRoundTrip`).
A delimiter whose first character does not occur in the text always
satisfies the condition. The repository's test (`"This is a test message."`,
delimiter `"END"`, 100 x 100 image) is proved to round-trip for every
original image and every padding.

## Model

| member | source | states |
|---|---|---|
| Raster.RowMajor | src/main/java/com/lsb/EmbedText.java:56-57 | pixel (x, y) of the walk has position y * width + x, which lies inside the width * height grid |
| Raster.RowStartIsProduct | src/main/java/com/lsb/ExtractText.java:47-48 | the nested loops visit height * width pixels in all |
| Raster.WithBlueLsb | src/main/java/com/lsb/EmbedText.java:63-70 | the rewritten pixel carries the given bit in blue bit 0, and all its other 31 bits are those of the original pixel |
| Raster.BlueLsb | src/main/java/com/lsb/ExtractText.java:50-51 | bit 0 of the blue byte is bit 0 of the whole pixel word; the same selection is made at LSBVisualization.java:36-37 |
| Raster.Lsbs | src/main/java/com/lsb/ExtractText.java:47-51 | definition: the bit stream the decoder reads, one blue LSB per pixel in row-major order; its contract states one bit per pixel |
| Raster.Image.GetRGB | src/main/java/com/lsb/ExtractText.java:49 | definition: the pixel word at the row-major position of (x, y), read without changing the image; the same read is at EmbedText.java:58 and LSBVisualization.java:35 |
| Raster.Image.SetRGB | src/main/java/com/lsb/EmbedText.java:71 | exactly the pixel at (x, y) takes the new value; no other pixel changes |
| BitStream.Signed | src/main/java/com/lsb/ExtractText.java:44 | a Java byte's value lies in -128..127 and agrees with its bit pattern modulo 256 |
| BitStream.ByteCast | src/main/java/com/lsb/ExtractText.java:53 | the cast to byte keeps the value modulo 256 |
| BitStream.Shr | src/main/java/com/lsb/EmbedText.java:62 | Java's arithmetic `>>`, repeated halving rounding toward minus infinity; on a nonnegative value the result stays between 0 and the value |
| BitStream.SignedShiftBit | src/main/java/com/lsb/EmbedText.java:62 | the arithmetic shift of the sign-extended byte, masked with 1, gives bit 7 - k of the byte's unsigned pattern, for negative bytes too |
| BitStream.ByteBitsValue | src/main/java/com/lsb/EmbedText.java:61-64 | the 8 bits the encoder takes from a byte are its binary digits, most significant first: their weighted sum 128 * b0 + 64 * b1 + ... + b7 is the byte |
| BitStream.Serialize | src/main/java/com/lsb/EmbedText.java:47 | the payload takes exactly 8 bits per byte |
| BitStream.SerializeAt | src/main/java/com/lsb/EmbedText.java:61-64 | bit i of the stream is bit 7 - i % 8 of byte i / 8, the MSB-first order of the encoder's textIndex |
| BitStream.Shift | src/main/java/com/lsb/ExtractText.java:53 | definition: the accumulator step on the unsigned byte pattern, doubling and adding the bit modulo 256; SignedAccumulateStep ties it to the Java expression |
| BitStream.Accumulate | src/main/java/com/lsb/ExtractText.java:53-54 | definition: the accumulator after taking in a run of bits from 0; AccumulateByteBits and AccumulateUniform state what it yields |
| BitStream.SignedAccumulateStep | src/main/java/com/lsb/ExtractText.java:53 | shifting the signed accumulator left, adding the bit and casting to byte equals shifting the bit into the unsigned pattern |
| BitStream.AccumulateByteBits | src/main/java/com/lsb/ExtractText.java:53-58 | accumulating the 8 MSB-first bits of a byte from 0 gives back that byte |
| BitStream.Pack | src/main/java/com/lsb/ExtractText.java:43 | n bits make floor(n / 8) bytes, the trailing partial byte dropped |
| BitStream.PackSerialize | src/main/java/com/lsb/ExtractText.java:47-63 | packing a serialized payload followed by any bits gives the payload followed by the packing of those bits |
| BitStream.PackSerializeRoundTrip | src/main/java/com/lsb/ExtractText.java:47-63 | packing undoes serializing |
| BitStream.PackGrow | src/main/java/com/lsb/ExtractText.java:54-59 | one more bit adds a byte to the packed output exactly when it completes a group of 8, and that byte is the accumulation of the group |
| BitStream.PackUniform | src/main/java/com/lsb/ExtractText.java:53-56 | a stream of equal bits packs into bytes that are all 0x00 or all 0xFF |
| Utf8.EncodeChar | src/main/java/com/lsb/EmbedText.java:46 | one character encodes to 1 to 4 bytes |
| Utf8.Encode | src/main/java/com/lsb/EmbedText.java:46 | a string of n characters encodes to n .. 4n bytes |
| Utf8.EncodeAppend | src/main/java/com/lsb/EmbedText.java:46 | encoding a concatenation concatenates the encodings |
| Utf8.DecodeHead | src/main/java/com/lsb/ExtractText.java:64 | decoding at the head of any nonempty bytes consumes 1 to all of them and never fails |
| Utf8.Decode | src/main/java/com/lsb/ExtractText.java:64 | any byte sequence decodes, to at most one character per byte |
| Utf8.DecodeHeadEncodeChar | src/main/java/com/lsb/ExtractText.java:64 | the encoding of a character, followed by anything, decodes at its head to that character and takes all of its bytes |
| Utf8.DecodeEncode | src/main/java/com/lsb/ExtractText.java:64 | decoding the encoding of s followed by any bytes gives s followed by the decoding of those bytes |
| Utf8.DecodeEncodeRoundTrip | src/main/java/com/lsb/ExtractText.java:64 | decoding undoes encoding |
| Utf8.DecodeUniform | src/main/java/com/lsb/ExtractText.java:64 | all-0x00 bytes decode to NULs and all-0xFF bytes to U+FFFD, one per byte |
| Embed.Payload | src/main/java/com/lsb/EmbedText.java:46 | the payload is the UTF-8 of the text followed by the UTF-8 of the delimiter |
| Embed.EmbedPixels | src/main/java/com/lsb/EmbedText.java:54-73 | the embedded image has the same number of pixels, differs from the original only in blue bit 0, and its LSB plane is the payload bits then the padding draws |
| Embed.EmbedPixelsBits | src/main/java/com/lsb/EmbedText.java:61-68 | pixel i carries bit 7 - i % 8 of payload byte i / 8 while the payload lasts, and padding draw i - 8 * len(payload) after it |
| Embed.EmbeddedBit | src/main/java/com/lsb/EmbedText.java:62 | the bit the Java expression selects for textIndex is bit textIndex of the serialized payload |
| Embed.CarrierNoiseBit | src/main/java/com/lsb/EmbedText.java:66-68 | padding draw d lands in the pixel right after the payload plus d |
| Embed.WriteBlueLsb | src/main/java/com/lsb/EmbedText.java:58-71 | the read-modify-write of one pixel replaces exactly that pixel with its value carrying the bit in blue bit 0 |
| Embed.EmbedPixel | src/main/java/com/lsb/EmbedText.java:58-71 | one loop step takes the next payload bit, or a padding draw once the payload is spent, and extends the finished prefix by one pixel |
| Embed.EmbedRow | src/main/java/com/lsb/EmbedText.java:57-72 | one row of the walk finishes the pixels of that row in order |
| Embed.EmbedText | src/main/java/com/lsb/EmbedText.java:40-76 | success exactly when 8 * len(payload) <= width * height; on failure the image is unchanged; on success the pixels are EmbedPixels of the original |
| Extract.IndexFrom | src/main/java/com/lsb/ExtractText.java:66 | the result is -1 or an occurrence at or after from, with no occurrence between from and it |
| Extract.IndexOf | src/main/java/com/lsb/ExtractText.java:66 | -1 exactly when the delimiter does not occur; otherwise the first occurrence |
| Extract.TextBefore | src/main/java/com/lsb/ExtractText.java:66-71 | with an occurrence, the result is the prefix that ends at the first one; without one, it is empty |
| Extract.ExtractedText | src/main/java/com/lsb/ExtractText.java:47-71 | what extractText returns for a pixel sequence: a prefix of the decoded packing of its LSB plane, at most one character per 8 pixels |
| Extract.UniformImageYieldsNothing | src/main/java/com/lsb/ExtractText.java:47-71 | an image whose blue LSBs are all equal, such as a blank white one, extracts to "" for every delimiter |
| Extract.CollectStep | src/main/java/com/lsb/ExtractText.java:53-59 | after each bit, bitIndex stays below 8, the accumulator holds the bits of the byte under way, and completed bytes are exactly the packing of the bits read; the buffer never overflows |
| Extract.ExtractPixel | src/main/java/com/lsb/ExtractText.java:49-59 | one loop step keeps the buffer equal to the packing of the LSBs read so far |
| Extract.ExtractRow | src/main/java/com/lsb/ExtractText.java:48-60 | one row keeps the buffer equal to the packing of the LSBs read so far |
| Extract.ExtractText | src/main/java/com/lsb/ExtractText.java:37-72 | the result is the decoded packing of the image's LSB plane cut at the first delimiter, or "" |
| RoundTrip.TextBeforeFirst | src/main/java/com/lsb/ExtractText.java:66-68 | if the delimiter does not start inside the text, cutting text + delimiter + anything gives the text |
| RoundTrip.EmbeddedLsbs | src/main/java/com/lsb/EmbedText.java:54-73 | the LSB plane of an embedded image is the serialized payload followed by the padding draws used |
| RoundTrip.ExtractedEmbedded | src/main/java/com/lsb/ExtractText.java:62-68 | on an embedded image, the decoder cuts the string text + delimiter + (decoded padding) |
| RoundTrip.EarlyOccurrenceCuts | src/main/java/com/lsb/ExtractText.java:66-68 | a delimiter that starts at j inside text + delimiter ends the cut at or before j, whatever follows |
| RoundTrip.EarlyDelimiterTruncates | src/test/java/com/lsb/ExtractTextTest.java:37-40 | the round-trip condition is necessary: if the delimiter starts at some j inside the text, extraction returns at most j characters and never the text |
| RoundTrip.EmbedThenExtract | src/test/java/com/lsb/ExtractTextTest.java:37-40 | extracting from a successfully embedded image gives the text back, for every original image and every padding, when the delimiter does not start inside the text |
| RoundTrip.OverlapDefeatsRoundTrip | src/main/java/com/lsb/ExtractText.java:66-68 | "E" with delimiter "EE" does not contain the delimiter, yet extracts as "" |
| RoundTrip.ForeignFirstCharRoundTrip | src/test/java/com/lsb/ExtractTextTest.java:37-40 | a delimiter whose first character is not in the text always gives the text back |
| RoundTrip.PayloadSize | src/main/java/com/lsb/EmbedText.java:46-47 | the payload takes at most 4 bytes per character of text and delimiter |
| RoundTrip.TestMessageFits | src/test/java/com/lsb/ExtractTextTest.java:30-37 | the test's message and delimiter fit in a 100 x 100 image |
| RoundTrip.TestMessageRoundTrip | src/test/java/com/lsb/ExtractTextTest.java:30-40 | the test's message embeds into any 100 x 100 image and is extracted exactly, whatever the padding |
| Visualize.GrayImage.constructor | src/main/java/com/lsb/LSBVisualization.java:29 | a new grayscale image has the given dimensions and is all black |
| Visualize.GrayImage.SetSample | src/main/java/com/lsb/LSBVisualization.java:40 | exactly the sample at (x, y) takes the new value |
| Visualize.GrayLevel | src/main/java/com/lsb/LSBVisualization.java:35-38 | the gray level is 0 or 255, and 255 exactly when the blue LSB is 1 |
| Visualize.LsbPlane | src/main/java/com/lsb/LSBVisualization.java:33-42 | the rendered plane has one sample per pixel, each 0 or 255, and 255 exactly where the blue LSB is 1 |
| Visualize.LsbPlaneOfEmbedded | src/main/java/com/lsb/LSBVisualization.java:35-38 | on an embedded image, the plane shows the payload bits MSB-first, then the padding draws |
| Visualize.VisualizePixel | src/main/java/com/lsb/LSBVisualization.java:35-40 | one loop step writes the rendered level of pixel (x, y) into the sample of the same position |
| Visualize.VisualizeRow | src/main/java/com/lsb/LSBVisualization.java:34-41 | one row writes the rendered levels of that row |
| Visualize.VisualizeLsbBits | src/main/java/com/lsb/LSBVisualization.java:22-45 | null gives null; otherwise a new image with the same dimensions whose samples are the rendered LSB plane of the input |

## Left out

- Reading and writing image files (`ImageIO.read`, `ImageIO.write`, the BMP
  format) and the `IOException` for an unreadable file are left out. The
  model works on an image held in memory. The encoder's "image too small"
  exception is the `ImageTooSmall` status.
- `Raster.Image.SetRGB` stores the 32-bit word exactly. `setRGB` keeps all
  8 bits of blue only on images with 8 bits per colour channel and no
  premultiplied alpha (`TYPE_INT_RGB`, `TYPE_INT_ARGB`, `TYPE_3BYTE_BGR`,
  `TYPE_4BYTE_ABGR`). Of those, the images without alpha drop the alpha
  byte, which does no harm here: the codec only writes back words read by
  `getRGB`, whose alpha is already 0xFF. On other images, the written blue
  LSB can be lost, and the round-trip results do not cover them:
  - indexed and 1-bit images, where `setRGB` maps the word to the nearest
    palette colour;
  - 16-bit 555 and 565 images, where `setRGB` rescales blue to 5 bits;
  - premultiplied-alpha images, where `setRGB` scales the colour by alpha.
- The desktop application (`SteganographyApp`) and `module-info.java` are
  not part of this model.
- `getBytes()` uses the platform default charset. The model takes it to be
  UTF-8, the charset the decoder uses. With another default charset, non-ASCII
  text does not round-trip.
- Java strings are UTF-16, and `indexOf` and `substring` count UTF-16 units.
  The model's strings are sequences of Unicode scalar values. The first
  occurrence and the prefix before it are the same text either way; lone
  surrogates in the text or the delimiter are not modelled.
- `Utf8.Decode` replaces each maximal ill-formed subpart with U+FFFD, as the
  Unicode Standard recommends. The model does not claim that this matches
  the JDK decoder byte for byte on malformed input. The round-trip results
  depend only on the well-formed prefix, which decodes the same under any
  policy.
- `java.util.Random` is modelled as a sequence `noise` of padding bits,
  consumed in order. Its distribution is not modelled.
- Embed.EmbedText: requires `noise` to hold at least one draw per padding
  pixel (`width * height <= 8 * len(payload) + len(noise)`), because the
  random source is an input here.
- Integer widths are left out. `width * height` is an `int` product in the
  decoder's buffer size and a `long` product in the encoder's capacity
  check. The model uses unbounded integers, so an image of more than 2^31 - 1
  pixels is not modelled.
- The "delimiter not found" outcome and an extracted empty message both give
  `""`. The model keeps this, as the code does.
- The JUnit and logging scaffolding of the tests is left out. Their
  scenarios are stated as lemmas in `RoundTrip`, and the visualizer's null
  and dimension checks are part of `Visualize.VisualizeLsbBits`.
