/**
 * The bit-plane viewer (LSBVisualization.visualizeLSBBits). It renders bit 0
 * of every pixel's blue byte as a grayscale image of the same size: white
 * (255) where the bit is 1, black (0) where it is 0. A null image gives a
 * null result; the input is only read.
 */
module Visualize {
  import opened Raster
  import opened BitStream
  import Embed

  /**
   * A single-band 8-bit grayscale image (BufferedImage.TYPE_BYTE_GRAY):
   * `width` by `height` samples, stored row-major. A new one is black.
   */
  class GrayImage {
    const width: nat
    const height: nat
    const samples: array<Byte>

    ghost predicate Valid()
    {
      samples.Length == width * height
    }

    constructor (width: nat, height: nat)
      ensures Valid() && fresh(samples)
      ensures this.width == width && this.height == height
      ensures forall i :: 0 <= i < samples.Length ==> samples[i] == 0
    {
      this.width := width;
      this.height := height;
      samples := new Byte[width * height](_ => 0);
    }

    /** WritableRaster.setSample(x, y, 0, value): one sample changes, nothing else. */
    method SetSample(x: nat, y: nat, value: Byte)
      requires Valid() && x < width && y < height
      modifies samples
      ensures samples[..] == old(samples[..])[RowMajor(x, y, width, height) := value]
    {
      samples[RowMajor(x, y, width, height)] := value;
    }
  }

  /** The gray level the viewer paints for one pixel: `lsb * 255`. */
  function GrayLevel(rgb: Pixel): (level: Byte)
    ensures level == 0 || level == 255
    ensures level == 255 <==> BlueLsb(rgb) == 1
  {
    BlueLsb(rgb) * 255
  }

  /** The rendered bit plane of a row-major pixel sequence. */
  function LsbPlane(px: seq<Pixel>): (plane: seq<Byte>)
    ensures |plane| == |px|
    ensures forall i :: 0 <= i < |px| ==> plane[i] == 0 || plane[i] == 255
    ensures forall i :: 0 <= i < |px| ==> (plane[i] == 255 <==> BlueLsb(px[i]) == 1)
  {
    seq(|px|, i requires 0 <= i < |px| => GrayLevel(px[i]))
  }

  /**
   * On an embedded image the plane shows the payload bits, most significant
   * bit first, then the padding draws.
   */
  lemma LsbPlaneOfEmbedded(px: seq<Pixel>, payload: seq<Byte>, noise: seq<Bit>, i: nat)
    requires 8 * |payload| <= |px| <= 8 * |payload| + |noise|
    requires i < |px|
    ensures i < 8 * |payload| ==>
      LsbPlane(Embed.EmbedPixels(px, payload, noise))[i] == (BitOf(payload[i / 8], i % 8) as int) * 255
    ensures i >= 8 * |payload| ==>
      LsbPlane(Embed.EmbedPixels(px, payload, noise))[i] == (noise[i - 8 * |payload|] as int) * 255
  {
    Embed.EmbedPixelsBits(px, payload, noise, i);
  }

  /** After `k` pixels, the first `k` samples hold their rendered value. */
  ghost predicate Painted(input: Image, output: GrayImage, k: nat)
    reads input.pixels, output.samples
  {
    && input.Valid() && output.Valid()
    && input.pixels as object != output.samples as object
    && output.width == input.width && output.height == input.height
    && k <= output.samples.Length
    && output.samples[..k] == LsbPlane(input.pixels[..])[..k]
  }

  lemma PaintedDone(input: Image, output: GrayImage)
    requires Painted(input, output, RowStart(input.height, input.width))
    ensures output.samples[..] == LsbPlane(input.pixels[..])
  {
    RowStartIsProduct(input.height, input.width);
    assert output.samples[..] == output.samples[..output.samples.Length];
  }

  /** The body of the pixel loop: paint pixel (x, y) by bit 0 of its blue byte. */
  method VisualizePixel(input: Image, output: GrayImage, x: nat, y: nat, ghost k: nat)
    requires Painted(input, output, k)
    requires x < input.width && y < input.height && k == RowMajor(x, y, input.width, input.height)
    modifies output.samples
    ensures Painted(input, output, k + 1)
  {
    var rgb := input.GetRGB(x, y);
    var blue := rgb & 0xFF;
    var lsb: Bit := if blue & 1 == 0 then 0 else 1;
    var grayScaleValue: Byte := lsb * 255;
    ghost var plane, before := LsbPlane(input.pixels[..]), output.samples[..];
    assert grayScaleValue == plane[k];
    output.SetSample(x, y, grayScaleValue);
    assert output.samples[..k + 1] == before[..k] + [plane[k]];
    assert plane[..k + 1] == plane[..k] + [plane[k]];
  }

  /** One pass of the inner loop: pixels (0, y) .. (width - 1, y), left to right. */
  method VisualizeRow(input: Image, output: GrayImage, y: nat)
    requires y < input.height
    requires Painted(input, output, RowStart(y, input.width))
    modifies output.samples
    ensures Painted(input, output, RowStart(y + 1, input.width))
  {
    ghost var k := RowStart(y, input.width);
    var x := 0;
    while x < input.width
      invariant x <= input.width && k == RowStart(y, input.width) + x
      invariant Painted(input, output, k)
    {
      VisualizePixel(input, output, x, y, k);
      k := k + 1;
      x := x + 1;
    }
    assert k == RowStart(y + 1, input.width);
  }

  /**
   * LSBVisualization.visualizeLSBBits: null for a null image; otherwise a
   * new grayscale image of the same size whose samples are the rendered bit
   * plane of the input.
   */
  method VisualizeLsbBits(inputImage: Image?) returns (outputImage: GrayImage?)
    requires inputImage != null ==> inputImage.Valid()
    ensures (outputImage == null) == (inputImage == null)
    ensures outputImage != null ==>
      && fresh(outputImage) && fresh(outputImage.samples) && outputImage.Valid()
      && outputImage.width == inputImage.width && outputImage.height == inputImage.height
      && outputImage.samples[..] == LsbPlane(inputImage.pixels[..])
  {
    if inputImage == null {
      return null;
    }

    var width := inputImage.width;
    var height := inputImage.height;
    outputImage := new GrayImage(width, height);
    assert outputImage.samples[..0] == [];
    var y := 0;
    while y < height
      invariant y <= height
      invariant Painted(inputImage, outputImage, RowStart(y, width))
      invariant fresh(outputImage.samples)
    {
      VisualizeRow(inputImage, outputImage, y);
      y := y + 1;
    }
    PaintedDone(inputImage, outputImage);
  }
}
