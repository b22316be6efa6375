/**
 * The pixel grid shared by the encoder, the decoder and the bit-plane
 * visualizer. A pixel is the 32-bit word that BufferedImage.getRGB returns
 * (0xAARRGGBB); the carrier of every hidden bit is bit 0 of its blue byte.
 * The grid is stored flat, in the row-major order that both the encoder and
 * the decoder walk: the traversal order is defined once, by RowMajor.
 */
module Raster {

  /** A pixel as the Java code holds it: the bit pattern of an `int`. */
  type Pixel = bv32

  /** One hidden bit, the value 0 or 1 that the Java code holds in an `int`. */
  type Bit = b: int | 0 <= b <= 1

  /** The bit as the low bit of an otherwise clear 32-bit word. */
  function BitWord(bit: Bit): (w: bv32)
    ensures w & 1 == w
    ensures (w == 0) == (bit == 0)
  {
    if bit == 0 then 0 else 1
  }

  /** The number of pixels in the first `rows` rows of a `width`-wide grid. */
  function RowStart(rows: nat, width: nat): nat
  {
    if rows == 0 then 0 else RowStart(rows - 1, width) + width
  }

  lemma {:induction false} RowStartIsProduct(rows: nat, width: nat)
    ensures RowStart(rows, width) == rows * width
  {
    if rows > 0 {
      RowStartIsProduct(rows - 1, width);
    }
  }

  /**
   * Position of pixel (x, y) in the row-major walk: top row first, left to
   * right within a row. Every pixel of the grid has a position inside it.
   */
  function RowMajor(x: nat, y: nat, width: nat, height: nat): (i: nat)
    requires x < width && y < height
    ensures i == y * width + x
    ensures i < width * height
  {
    RowStartIsProduct(y, width);
    assert (y + 1) * width <= height * width by {
      MulMonotone(y + 1, height, width);
    }
    RowStart(y, width) + x
  }

  lemma MulMonotone(a: nat, b: nat, c: nat)
    requires a <= b
    ensures a * c <= b * c
  {
  }

  /** The blue channel: `rgb & 0xFF`. */
  function Blue(rgb: Pixel): bv32
  {
    rgb & 0xFF
  }

  /** Bit 0 of the blue channel, the only bit the codec reads. */
  function BlueLsb(rgb: Pixel): (bit: Bit)
    ensures (bit == 1) == (rgb & 1 == 1)
  {
    if Blue(rgb) & 1 == 0 then 0 else 1
  }

  /**
   * The encoder's per-pixel write: clear bit 0 of blue, or in the new bit,
   * and put the blue byte back under the other 24 bits of the pixel.
   */
  function WithBlueLsb(rgb: Pixel, bit: Bit): (r: Pixel)
    ensures BlueLsb(r) == bit
    ensures r & 0xFFFF_FFFE == rgb & 0xFFFF_FFFE
  {
    var blue := (Blue(rgb) & !1) | BitWord(bit);
    (rgb & 0xFFFF_FF00) | blue
  }

  /** The LSB plane of a row-major pixel sequence: the bit stream the pixels carry. */
  function Lsbs(px: seq<Pixel>): (bits: seq<Bit>)
    ensures |bits| == |px|
  {
    seq(|px|, i requires 0 <= i < |px| => BlueLsb(px[i]))
  }

  /**
   * An image held in memory: `width` by `height` pixels, stored row-major in
   * `pixels`. The dimensions are fixed; only the pixel values change.
   */
  class Image {
    const width: nat
    const height: nat
    const pixels: array<Pixel>

    ghost predicate Valid()
    {
      pixels.Length == width * height
    }

    constructor (width: nat, height: nat, contents: seq<Pixel>)
      requires |contents| == width * height
      ensures Valid() && fresh(pixels)
      ensures this.width == width && this.height == height
      ensures pixels[..] == contents
    {
      this.width := width;
      this.height := height;
      pixels := new Pixel[|contents|](i requires 0 <= i < |contents| => contents[i]);
    }

    /** BufferedImage.getRGB(x, y). */
    function GetRGB(x: nat, y: nat): Pixel
      requires Valid() && x < width && y < height
      reads pixels
    {
      pixels[RowMajor(x, y, width, height)]
    }

    /** BufferedImage.setRGB(x, y, rgb): one pixel changes, nothing else. */
    method SetRGB(x: nat, y: nat, rgb: Pixel)
      requires Valid() && x < width && y < height
      modifies pixels
      ensures pixels[..] == old(pixels[..])[RowMajor(x, y, width, height) := rgb]
    {
      pixels[RowMajor(x, y, width, height)] := rgb;
    }
  }
}
