/**
 * The decoder (ExtractText.extractText). It walks the pixels in the same
 * row-major order as the encoder, shifts bit 0 of each blue byte into an
 * accumulator, stores every completed byte in a buffer sized for
 * floor(width * height / 8) bytes, decodes the buffer as UTF-8 and returns
 * the text before the first occurrence of the delimiter, or "" when the
 * delimiter does not occur. The image is only read.
 */
module Extract {
  import opened Raster
  import opened BitStream
  import Utf8

  /** `pattern` occurs in `s` starting at index `i`. */
  predicate OccursAt(s: string, pattern: string, i: nat)
  {
    i + |pattern| <= |s| && s[i..i + |pattern|] == pattern
  }

  /**
   * `s.indexOf(pattern, from)`: the first index at or after `from` where
   * `pattern` occurs, or -1. The empty pattern occurs at `from` itself.
   */
  function IndexFrom(s: string, pattern: string, from: nat): (r: int)
    requires from <= |s|
    ensures r == -1 || (from <= r <= |s| && OccursAt(s, pattern, r))
    ensures forall j :: from <= j <= |s| && (r == -1 || j < r) ==> !OccursAt(s, pattern, j)
    decreases |s| - from
  {
    if from + |pattern| > |s| then -1
    else if s[from..from + |pattern|] == pattern then from
    else IndexFrom(s, pattern, from + 1)
  }

  /** `s.indexOf(pattern)`. */
  function IndexOf(s: string, pattern: string): (r: int)
    ensures r == -1 <==> forall j :: 0 <= j <= |s| ==> !OccursAt(s, pattern, j)
    ensures r != -1 ==> 0 <= r <= |s| && OccursAt(s, pattern, r)
    ensures forall j :: 0 <= j < r ==> !OccursAt(s, pattern, j)
  {
    IndexFrom(s, pattern, 0)
  }

  /**
   * The tail of extractText: the part of the decoded string before the
   * first occurrence of the delimiter, or "" when there is none.
   */
  function TextBefore(decoded: string, delimiter: string): (text: string)
    ensures (exists j :: 0 <= j <= |decoded| && OccursAt(decoded, delimiter, j)) ==>
      && text <= decoded
      && OccursAt(decoded, delimiter, |text|)
      && forall j :: 0 <= j < |text| ==> !OccursAt(decoded, delimiter, j)
    ensures (forall j :: 0 <= j <= |decoded| ==> !OccursAt(decoded, delimiter, j)) ==> text == []
  {
    var delimiterIndex := IndexOf(decoded, delimiter);
    if delimiterIndex != -1 then decoded[..delimiterIndex] else []
  }

  /** What extractText returns for an image whose pixels, in row-major order, are `px`. */
  function ExtractedText(px: seq<Pixel>, delimiter: string): (text: string)
    ensures text <= Utf8.Decode(Pack(Lsbs(px)))
    ensures |text| <= |px| / 8
  {
    TextBefore(Utf8.Decode(Pack(Lsbs(px))), delimiter)
  }

  /** In a string of one repeated character, a pattern that occurs anywhere occurs at the start. */
  lemma UniformOccursAtStart(s: string, c: char, pattern: string, r: nat)
    requires forall i :: 0 <= i < |s| ==> s[i] == c
    requires OccursAt(s, pattern, r)
    ensures OccursAt(s, pattern, 0)
  {
    assert s[0..|pattern|] == s[r..r + |pattern|];
  }

  /** Cutting a string of one repeated character at any delimiter leaves nothing. */
  lemma UniformTextBefore(s: string, c: char, delimiter: string)
    requires forall i :: 0 <= i < |s| ==> s[i] == c
    ensures TextBefore(s, delimiter) == []
  {
    var r := IndexOf(s, delimiter);
    if r != -1 {
      UniformOccursAtStart(s, c, delimiter, r);
    }
  }

  /**
   * An image whose blue LSBs are all equal, such as a blank one, yields ""
   * for every delimiter: its bytes are all 0x00 or all 0xFF, which decode
   * to one repeated character, so a delimiter is either absent or found at
   * the very start.
   */
  lemma UniformImageYieldsNothing(px: seq<Pixel>, b: Bit, delimiter: string)
    requires forall i :: 0 <= i < |px| ==> BlueLsb(px[i]) == b
    ensures ExtractedText(px, delimiter) == ""
  {
    var bits := Lsbs(px);
    PackUniform(bits, b);
    var bytes := Pack(bits);
    Utf8.DecodeUniform(bytes, b * 255);
    var c := if b == 0 then 0 as char else Utf8.Replacement;
    UniformTextBefore(Utf8.Decode(bytes), c, delimiter);
  }

  /**
   * The decoder's state after taking in the first `k` bits of `bits`: the
   * complete bytes so far, the accumulator holding the `bitIndex` bits of the
   * byte under way, and `bitIndex` below 8.
   */
  ghost predicate Collected(bits: seq<Bit>, k: nat, bytes: seq<Byte>, currentByte: Byte, bitIndex: nat)
  {
    && k <= |bits|
    && bitIndex == k % 8
    && bytes == Pack(bits[..k])
    && currentByte == Accumulate(bits[k - bitIndex .. k])
  }

  /**
   * One more bit: it is shifted into the accumulator, and when it is the
   * eighth, the byte joins the others and the accumulator starts again.
   */
  lemma CollectStep(bits: seq<Bit>, k: nat, bytes: seq<Byte>, currentByte: Byte, bitIndex: nat)
    requires Collected(bits, k, bytes, currentByte, bitIndex) && k < |bits|
    ensures bitIndex + 1 < 8 ==>
      Collected(bits, k + 1, bytes, Shift(currentByte, bits[k]), bitIndex + 1)
    ensures bitIndex + 1 == 8 ==>
      |bytes| < |bits| / 8 && Collected(bits, k + 1, bytes + [Shift(currentByte, bits[k])], 0, 0)
  {
    AccumulateSnoc(bits, k - bitIndex, k);
    PackGrow(bits, k);
    if bitIndex + 1 == 8 {
      assert bits[k + 1..k + 1] == [];
    }
  }

  /** The decoder's state after `k` pixels of `image`, with the completed bytes in `buffer[..position]`. */
  ghost predicate Gathered(image: Image, buffer: array<Byte>, k: nat, position: nat,
                           currentByte: Byte, bitIndex: nat)
    reads image.pixels, buffer
  {
    && image.Valid()
    && image.pixels as object != buffer as object
    && buffer.Length == image.pixels.Length / 8
    && position <= buffer.Length
    && Collected(Lsbs(image.pixels[..]), k, buffer[..position], currentByte, bitIndex)
  }

  lemma GatheredStart(image: Image, buffer: array<Byte>)
    requires image.Valid() && image.pixels as object != buffer as object
    requires buffer.Length == image.pixels.Length / 8
    ensures Gathered(image, buffer, 0, 0, 0, 0)
  {
    var bits := Lsbs(image.pixels[..]);
    assert bits[..0] == [] && bits[0..0] == [];
  }

  lemma GatheredDone(image: Image, buffer: array<Byte>, position: nat, currentByte: Byte, bitIndex: nat)
    requires Gathered(image, buffer, RowStart(image.height, image.width), position, currentByte, bitIndex)
    ensures buffer[..position] == Pack(Lsbs(image.pixels[..]))
  {
    RowStartIsProduct(image.height, image.width);
    var bits := Lsbs(image.pixels[..]);
    assert bits[..|bits|] == bits;
  }

  /**
   * The body of the pixel loop: shift bit 0 of the blue byte of pixel
   * (x, y) into the accumulator, and when 8 bits are in, put the byte into
   * the buffer and start the next one.
   */
  method ExtractPixel(image: Image, x: nat, y: nat, buffer: array<Byte>, ghost k: nat,
                      position: nat, currentByte: Byte, bitIndex: nat)
    returns (position': nat, currentByte': Byte, bitIndex': nat)
    requires Gathered(image, buffer, k, position, currentByte, bitIndex)
    requires x < image.width && y < image.height && k == RowMajor(x, y, image.width, image.height)
    modifies buffer
    ensures Gathered(image, buffer, k + 1, position', currentByte', bitIndex')
  {
    ghost var bits := Lsbs(image.pixels[..]);
    var rgb := image.GetRGB(x, y);
    var blue := rgb & 0xFF;
    var bit: Bit := if blue & 1 == 0 then 0 else 1;
    assert bit == bits[k];

    currentByte' := ByteCast(2 * Signed(currentByte) + bit);
    SignedAccumulateStep(currentByte, bit);
    CollectStep(bits, k, buffer[..position], currentByte, bitIndex);
    bitIndex' := bitIndex + 1;
    position' := position;
    if bitIndex' == 8 {
      ghost var before := buffer[..position];
      buffer[position] := currentByte';  // byteBuffer.put(currentByte)
      assert buffer[..position + 1] == before + [currentByte'];
      position' := position + 1;
      currentByte' := 0;
      bitIndex' := 0;
    }
  }

  /** One pass of the inner loop: pixels (0, y) .. (width - 1, y), left to right. */
  method ExtractRow(image: Image, y: nat, buffer: array<Byte>,
                    position: nat, currentByte: Byte, bitIndex: nat)
    returns (position': nat, currentByte': Byte, bitIndex': nat)
    requires y < image.height
    requires Gathered(image, buffer, RowStart(y, image.width), position, currentByte, bitIndex)
    modifies buffer
    ensures Gathered(image, buffer, RowStart(y + 1, image.width), position', currentByte', bitIndex')
  {
    position', currentByte', bitIndex' := position, currentByte, bitIndex;
    ghost var k := RowStart(y, image.width);
    var x := 0;
    while x < image.width
      invariant x <= image.width && k == RowStart(y, image.width) + x
      invariant Gathered(image, buffer, k, position', currentByte', bitIndex')
    {
      position', currentByte', bitIndex' :=
        ExtractPixel(image, x, y, buffer, k, position', currentByte', bitIndex');
      k := k + 1;
      x := x + 1;
    }
    assert k == RowStart(y + 1, image.width);
  }

  /**
   * ExtractText.extractText on an image held in memory: the bytes packed
   * from the blue LSBs, one per 8 pixels, decoded as UTF-8 and cut at the
   * first delimiter. The image is not changed.
   */
  method ExtractText(image: Image, delimiter: string) returns (text: string)
    requires image.Valid()
    ensures text == ExtractedText(image.pixels[..], delimiter)
  {
    var byteBuffer := new Byte[(image.width * image.height) / 8];
    var position: nat, currentByte: Byte, bitIndex: nat := 0, 0, 0;
    GatheredStart(image, byteBuffer);
    var y := 0;
    while y < image.height
      invariant y <= image.height
      invariant Gathered(image, byteBuffer, RowStart(y, image.width), position, currentByte, bitIndex)
    {
      position, currentByte, bitIndex := ExtractRow(image, y, byteBuffer, position, currentByte, bitIndex);
      y := y + 1;
    }
    GatheredDone(image, byteBuffer, position, currentByte, bitIndex);
    var bytes := byteBuffer[..position];  // flip, then Arrays.copyOf(array, limit)
    var extractedText := Utf8.Decode(bytes);

    var delimiterIndex := IndexOf(extractedText, delimiter);
    if delimiterIndex != -1 {
      text := extractedText[..delimiterIndex];
    } else {
      text := "";
    }
  }
}
