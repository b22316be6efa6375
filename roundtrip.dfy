/**
 * What the encoder and the decoder promise together: extracting from an
 * image that embedding succeeded on gives back the text, provided the
 * delimiter first occurs in `text + delimiter` where the text ends.
 */
module RoundTrip {
  import opened Raster
  import opened BitStream
  import Utf8
  import opened Embed
  import opened Extract

  /** The first delimiter after `text` ends the text, whatever follows it. */
  lemma TextBeforeFirst(text: string, delimiter: string, tail: string)
    requires forall j :: 0 <= j < |text| ==> !OccursAt(text + delimiter, delimiter, j)
    ensures TextBefore(text + delimiter + tail, delimiter) == text
  {
    var decoded := text + delimiter + tail;
    assert decoded[|text|..|text| + |delimiter|] == delimiter;
    assert OccursAt(decoded, delimiter, |text|);
    forall j | 0 <= j < |text|
      ensures !OccursAt(decoded, delimiter, j)
    {
      assert !OccursAt(text + delimiter, delimiter, j);
      assert decoded[j..j + |delimiter|] == (text + delimiter)[j..j + |delimiter|];
    }
    var found := TextBefore(decoded, delimiter);
    assert |found| == |text|;
    assert found == decoded[..|text|] == text;
  }

  /**
   * The LSB plane of an embedded image: the payload's bits, then the
   * padding draws up to the last pixel.
   */
  lemma EmbeddedLsbs(px: seq<Pixel>, payload: seq<Byte>, noise: seq<Bit>)
    requires 8 * |payload| <= |px| <= 8 * |payload| + |noise|
    ensures Lsbs(EmbedPixels(px, payload, noise)) == Serialize(payload) + noise[..|px| - 8 * |payload|]
  {
    PrefixOfAppend(Serialize(payload), noise, |px|);
  }

  lemma PrefixOfAppend<T>(a: seq<T>, b: seq<T>, n: nat)
    requires |a| <= n <= |a| + |b|
    ensures (a + b)[..n] == a + b[..n - |a|]
  {
  }

  /**
   * Extraction undoes embedding: the decoded bytes start with the UTF-8 of
   * `text + delimiter`, so the first delimiter is the one the encoder put
   * after the text.
   */
  lemma EmbedThenExtract(px: seq<Pixel>, text: string, delimiter: string, noise: seq<Bit>)
    requires 8 * |Payload(text, delimiter)| <= |px| <= 8 * |Payload(text, delimiter)| + |noise|
    requires forall j :: 0 <= j < |text| ==> !OccursAt(text + delimiter, delimiter, j)
    ensures ExtractedText(EmbedPixels(px, Payload(text, delimiter), noise), delimiter) == text
  {
    ExtractedEmbedded(px, text, delimiter, noise);
    TextBeforeFirst(text, delimiter, Padding(px, text, delimiter, noise));
  }

  /**
   * The condition is also necessary: when the delimiter starts inside the
   * text, the decoder cuts there and the text does not come back whole.
   */
  lemma EarlyDelimiterTruncates(px: seq<Pixel>, text: string, delimiter: string, noise: seq<Bit>, j: nat)
    requires 8 * |Payload(text, delimiter)| <= |px| <= 8 * |Payload(text, delimiter)| + |noise|
    requires j < |text| && OccursAt(text + delimiter, delimiter, j)
    ensures |ExtractedText(EmbedPixels(px, Payload(text, delimiter), noise), delimiter)| <= j
    ensures ExtractedText(EmbedPixels(px, Payload(text, delimiter), noise), delimiter) != text
  {
    ExtractedEmbedded(px, text, delimiter, noise);
    EarlyOccurrenceCuts(text, delimiter, Padding(px, text, delimiter, noise), j);
  }

  /** The text that the padding bits after the payload decode to. */
  function Padding(px: seq<Pixel>, text: string, delimiter: string, noise: seq<Bit>): string
    requires 8 * |Payload(text, delimiter)| <= |px| <= 8 * |Payload(text, delimiter)| + |noise|
  {
    Utf8.Decode(Pack(noise[..|px| - 8 * |Payload(text, delimiter)|]))
  }

  /** What the decoder sees in an embedded image: the text, the delimiter, then decoded padding. */
  lemma ExtractedEmbedded(px: seq<Pixel>, text: string, delimiter: string, noise: seq<Bit>)
    requires 8 * |Payload(text, delimiter)| <= |px| <= 8 * |Payload(text, delimiter)| + |noise|
    ensures ExtractedText(EmbedPixels(px, Payload(text, delimiter), noise), delimiter)
         == TextBefore(text + delimiter + Padding(px, text, delimiter, noise), delimiter)
  {
    var payload := Payload(text, delimiter);
    var rest := noise[..|px| - 8 * |payload|];
    var bits := Lsbs(EmbedPixels(px, payload, noise));
    EmbeddedLsbs(px, payload, noise);
    PackSerialize(payload, rest);
    assert Pack(bits) == payload + Pack(rest);
    assert payload == Utf8.Encode(text + delimiter);
    Utf8.DecodeEncode(text + delimiter, Pack(rest));
    assert Utf8.Decode(Pack(bits)) == text + delimiter + Padding(px, text, delimiter, noise);
  }

  /** A delimiter that starts at `j` inside `text + delimiter` ends the cut by `j`. */
  lemma EarlyOccurrenceCuts(text: string, delimiter: string, tail: string, j: nat)
    requires j < |text| && OccursAt(text + delimiter, delimiter, j)
    ensures |TextBefore(text + delimiter + tail, delimiter)| <= j
  {
    var decoded := text + delimiter + tail;
    assert decoded[j..j + |delimiter|] == (text + delimiter)[j..j + |delimiter|];
    assert OccursAt(decoded, delimiter, j);
  }

  /**
   * The weaker condition "the text does not contain the delimiter" is not
   * enough: "E" does not contain "EE", but "E" + "EE" starts with "EE", so
   * the decoder cuts before the text and returns "".
   */
  lemma OverlapDefeatsRoundTrip(px: seq<Pixel>, noise: seq<Bit>)
    requires 8 * |Payload("E", "EE")| <= |px| <= 8 * |Payload("E", "EE")| + |noise|
    ensures !OccursAt("E", "EE", 0)
    ensures ExtractedText(EmbedPixels(px, Payload("E", "EE"), noise), "EE") == ""
  {
    var payload := Payload("E", "EE");
    var rest := noise[..|px| - 8 * |payload|];
    EmbeddedLsbs(px, payload, noise);
    PackSerialize(payload, rest);
    Utf8.DecodeEncode("E" + "EE", Pack(rest));
    var decoded := "E" + "EE" + Utf8.Decode(Pack(rest));
    assert OccursAt(decoded, "EE", 0) by {
      assert decoded[0..2] == "EE";
    }
  }

  /** A pattern cannot start at a character other than its first. */
  lemma MissingFirstChar(s: string, pattern: string, j: nat)
    requires 0 < |pattern| && j < |s| && s[j] != pattern[0]
    ensures !OccursAt(s, pattern, j)
  {
    if j + |pattern| <= |s| {
      assert s[j..j + |pattern|][0] == s[j];
    }
  }

  /**
   * A delimiter whose first character the text never uses is found right
   * after the text, so any text that fits comes back.
   */
  lemma ForeignFirstCharRoundTrip(px: seq<Pixel>, text: string, delimiter: string, noise: seq<Bit>)
    requires 8 * |Payload(text, delimiter)| <= |px| <= 8 * |Payload(text, delimiter)| + |noise|
    requires 0 < |delimiter| && delimiter[0] !in text
    ensures ExtractedText(EmbedPixels(px, Payload(text, delimiter), noise), delimiter) == text
  {
    forall j | 0 <= j < |text|
      ensures !OccursAt(text + delimiter, delimiter, j)
    {
      assert (text + delimiter)[j] == text[j];
      MissingFirstChar(text + delimiter, delimiter, j);
    }
    EmbedThenExtract(px, text, delimiter, noise);
  }

  /** A payload takes at most 4 bytes per character. */
  lemma PayloadSize(text: string, delimiter: string)
    ensures |Payload(text, delimiter)| <= 4 * (|text| + |delimiter|)
  {
  }

  lemma TestMessageFits()
    ensures 8 * |Payload("This is a test message.", "END")| <= 100 * 100
  {
    PayloadSize("This is a test message.", "END");
  }

  lemma TestMessageLacksDelimiterStart()
    ensures "END"[0] !in "This is a test message."
  {
  }

  /**
   * The scenario of the repository's test: "This is a test message." with
   * delimiter "END" in a 100 x 100 image fits, and is read back exactly.
   */
  lemma TestMessageRoundTrip(px: seq<Pixel>, noise: seq<Bit>)
    requires |px| == 100 * 100 && |noise| >= |px|
    ensures 8 * |Payload("This is a test message.", "END")| <= |px|
    ensures ExtractedText(EmbedPixels(px, Payload("This is a test message.", "END"), noise), "END")
         == "This is a test message."
  {
    TestMessageFits();
    TestMessageLacksDelimiterStart();
    ForeignFirstCharRoundTrip(px, "This is a test message.", "END", noise);
  }
}
