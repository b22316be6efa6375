/**
 * The encoder (EmbedText.embedText). The payload is the UTF-8 encoding of
 * `text + delimiter`; if its bits do not fit one per pixel the call fails and
 * the image is left as it was. Otherwise every pixel, in row-major order,
 * gets the next payload bit (most significant bit of each byte first) in bit
 * 0 of its blue channel, and once the payload is spent, a padding bit drawn
 * from the random source. Nothing but that one bit of any pixel changes.
 */
module Embed {
  import opened Raster
  import opened BitStream
  import Utf8

  datatype Status = Embedded | ImageTooSmall

  /** The bytes that are hidden: `(text + delimiter).getBytes()`. */
  function Payload(text: string, delimiter: string): (payload: seq<Byte>)
    ensures payload == Utf8.Encode(text) + Utf8.Encode(delimiter)
  {
    Utf8.EncodeAppend(text, delimiter);
    Utf8.Encode(text + delimiter)
  }

  /**
   * The bit stream that lands in the pixels: the payload's bits, then the
   * padding draws. Pixel `i` carries bit `i` of it.
   */
  function Carrier(payload: seq<Byte>, noise: seq<Bit>): seq<Bit>
  {
    Serialize(payload) + noise
  }

  /** The image after a successful embedding, as a function of the image before. */
  function EmbedPixels(px: seq<Pixel>, payload: seq<Byte>, noise: seq<Bit>): (r: seq<Pixel>)
    requires 8 * |payload| <= |px| <= 8 * |payload| + |noise|
    ensures |r| == |px|
    ensures forall i :: 0 <= i < |px| ==> r[i] & 0xFFFF_FFFE == px[i] & 0xFFFF_FFFE
    ensures Lsbs(r) == Carrier(payload, noise)[..|px|]
  {
    var bits := Carrier(payload, noise);
    seq(|px|, i requires 0 <= i < |px| => WithBlueLsb(px[i], bits[i]))
  }

  /**
   * Pixel `i` of the payload region carries bit `7 - i % 8` of payload byte
   * `i / 8`; every pixel after it carries the next padding draw.
   */
  lemma EmbedPixelsBits(px: seq<Pixel>, payload: seq<Byte>, noise: seq<Bit>, i: nat)
    requires 8 * |payload| <= |px| <= 8 * |payload| + |noise|
    requires i < |px|
    ensures i < 8 * |payload| ==> BlueLsb(EmbedPixels(px, payload, noise)[i]) == BitOf(payload[i / 8], i % 8)
    ensures i >= 8 * |payload| ==> BlueLsb(EmbedPixels(px, payload, noise)[i]) == noise[i - 8 * |payload|]
  {
    var r := EmbedPixels(px, payload, noise);
    assert BlueLsb(r[i]) == Lsbs(r)[i] == Carrier(payload, noise)[i];
    if i < 8 * |payload| {
      SerializeAt(payload, i);
    }
  }

  /**
   * The bit the encoder writes for stream position `i`, computed as Java
   * does it: `(textBytes[i / 8] >> (7 - (i % 8))) & 1` on the widened byte.
   * It is bit `i` of the MSB-first serialization of the payload.
   */
  function EmbeddedBit(payload: seq<Byte>, i: nat): (bit: Bit)
    requires i < 8 * |payload|
    ensures bit == Serialize(payload)[i]
  {
    SignedShiftBit(payload[i / 8], i % 8);
    SerializeAt(payload, i);
    JavaBit(payload[i / 8], i % 8)
  }

  /** Padding draw `d` is bit `8 * |payload| + d` of the carrier stream. */
  lemma CarrierNoiseBit(payload: seq<Byte>, noise: seq<Bit>, d: nat)
    requires d < |noise|
    ensures noise[d] == Carrier(payload, noise)[8 * |payload| + d]
  {
  }

  /**
   * The state of the pixel walk after `k` pixels: the first `k` pixels hold
   * their final value, the rest are untouched, `textIndex` payload bits and
   * `draws` padding bits have been used.
   */
  ghost predicate Progress(image: Image, original: seq<Pixel>, payload: seq<Byte>, noise: seq<Bit>,
                           k: nat, textIndex: nat, draws: nat)
    reads image.pixels
  {
    && image.Valid()
    && |original| == image.pixels.Length
    && 8 * |payload| <= |original| <= 8 * |payload| + |noise|
    && k <= |original|
    && textIndex == (if k < 8 * |payload| then k else 8 * |payload|)
    && draws == k - textIndex
    && image.pixels[..] == EmbedPixels(original, payload, noise)[..k] + original[k..]
  }

  /** Before the walk, nothing is done and everything is untouched. */
  lemma ProgressStart(image: Image, payload: seq<Byte>, noise: seq<Bit>)
    requires image.Valid()
    requires 8 * |payload| <= image.pixels.Length <= 8 * |payload| + |noise|
    ensures Progress(image, image.pixels[..], payload, noise, 0, 0, 0)
  {
    assert image.pixels[..] == EmbedPixels(image.pixels[..], payload, noise)[..0] + image.pixels[..][0..];
  }

  /** After the last row, every pixel holds its final value. */
  lemma ProgressDone(image: Image, original: seq<Pixel>, payload: seq<Byte>, noise: seq<Bit>,
                     textIndex: nat, draws: nat)
    requires Progress(image, original, payload, noise, RowStart(image.height, image.width), textIndex, draws)
    ensures image.pixels[..] == EmbedPixels(original, payload, noise)
  {
    RowStartIsProduct(image.height, image.width);
    var target := EmbedPixels(original, payload, noise);
    assert target[..|original|] == target && original[|original|..] == [];
  }

  /** Writing pixel `k`'s final value moves the boundary of the finished part by one. */
  lemma SpliceStep(original: seq<Pixel>, payload: seq<Byte>, noise: seq<Bit>, k: nat, current: seq<Pixel>)
    requires 8 * |payload| <= |original| <= 8 * |payload| + |noise|
    requires k < |original|
    requires current == EmbedPixels(original, payload, noise)[..k] + original[k..]
    ensures current[k] == original[k]
    ensures current[k := WithBlueLsb(current[k], Carrier(payload, noise)[k])]
         == EmbedPixels(original, payload, noise)[..k + 1] + original[k + 1..]
  {
  }

  /**
   * The per-pixel write of the loop body: read the pixel, put `bit` into
   * bit 0 of its blue byte, write the pixel back.
   */
  method WriteBlueLsb(image: Image, x: nat, y: nat, bit: Bit)
    requires image.Valid() && x < image.width && y < image.height
    modifies image.pixels
    ensures image.pixels[..] == old(image.pixels[..])[RowMajor(x, y, image.width, image.height) :=
                                  WithBlueLsb(old(image.GetRGB(x, y)), bit)]
  {
    var rgb := image.GetRGB(x, y);
    var blue := rgb & 0xFF;
    blue := (blue & !1) | BitWord(bit);
    rgb := (rgb & 0xFFFF_FF00) | blue;
    image.SetRGB(x, y, rgb);
  }

  /**
   * The body of the pixel loop: choose the next payload bit, or a padding
   * draw once the payload is spent, and write it into pixel (x, y).
   */
  method EmbedPixel(image: Image, x: nat, y: nat, payload: seq<Byte>, noise: seq<Bit>,
                    ghost original: seq<Pixel>, ghost k: nat, textIndex: nat, draws: nat)
    returns (textIndex': nat, draws': nat)
    requires Progress(image, original, payload, noise, k, textIndex, draws)
    requires x < image.width && y < image.height && k == RowMajor(x, y, image.width, image.height)
    modifies image.pixels
    ensures Progress(image, original, payload, noise, k + 1, textIndex', draws')
  {
    var bit: Bit;
    if textIndex < |payload| * 8 {
      bit := EmbeddedBit(payload, textIndex);
      textIndex', draws' := textIndex + 1, draws;
    } else {
      bit := noise[draws];  // random.nextInt(2)
      CarrierNoiseBit(payload, noise, draws);
      textIndex', draws' := textIndex, draws + 1;
    }
    assert bit == Carrier(payload, noise)[k];
    SpliceStep(original, payload, noise, k, image.pixels[..]);
    WriteBlueLsb(image, x, y, bit);
  }

  /** One pass of the inner loop: pixels (0, y) .. (width - 1, y), left to right. */
  method EmbedRow(image: Image, y: nat, payload: seq<Byte>, noise: seq<Bit>,
                  ghost original: seq<Pixel>, textIndex: nat, draws: nat)
    returns (textIndex': nat, draws': nat)
    requires y < image.height
    requires Progress(image, original, payload, noise, RowStart(y, image.width), textIndex, draws)
    modifies image.pixels
    ensures Progress(image, original, payload, noise, RowStart(y + 1, image.width), textIndex', draws')
  {
    textIndex', draws' := textIndex, draws;
    ghost var k := RowStart(y, image.width);
    var x := 0;
    while x < image.width
      invariant x <= image.width && k == RowStart(y, image.width) + x
      invariant Progress(image, original, payload, noise, k, textIndex', draws')
    {
      textIndex', draws' := EmbedPixel(image, x, y, payload, noise, original, k, textIndex', draws');
      k := k + 1;
      x := x + 1;
    }
    assert k == RowStart(y + 1, image.width);
  }

  /**
   * EmbedText.embedText on an image held in memory. `noise` stands for the
   * draws of `random.nextInt(2)`, taken in order, one per padding pixel.
   */
  method EmbedText(image: Image, text: string, delimiter: string, noise: seq<Bit>)
    returns (status: Status)
    requires image.Valid()
    requires image.width * image.height <= 8 * |Payload(text, delimiter)| + |noise|
    modifies image.pixels
    ensures status == if 8 * |Payload(text, delimiter)| <= image.width * image.height
                      then Embedded else ImageTooSmall
    ensures status == ImageTooSmall ==> image.pixels[..] == old(image.pixels[..])
    ensures status == Embedded ==>
      image.pixels[..] == EmbedPixels(old(image.pixels[..]), Payload(text, delimiter), noise)
  {
    var textBytes := Payload(text, delimiter);
    var totalBitsNeeded := |textBytes| * 8;
    var totalBitsAvailable := image.width * image.height;
    if totalBitsNeeded > totalBitsAvailable {
      return ImageTooSmall;
    }

    ghost var original := image.pixels[..];
    ProgressStart(image, textBytes, noise);
    var textIndex, draws := 0, 0;
    var y := 0;
    while y < image.height
      invariant y <= image.height
      invariant Progress(image, original, textBytes, noise, RowStart(y, image.width), textIndex, draws)
    {
      textIndex, draws := EmbedRow(image, y, textBytes, noise, original, textIndex, draws);
      y := y + 1;
    }
    ProgressDone(image, original, textBytes, noise, textIndex, draws);
    status := Embedded;
  }
}
