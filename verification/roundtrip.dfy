/**
 What `encode` followed by `decode` recovers, and the three scenarios the
 repository's unit tests check, on the model.
 */
module RoundTrip {
  import opened Bits
  import opened Binary
  import opened Sentinel
  import opened Raster
  import opened Planes
  import opened Results
  import opened Encoder
  import opened Decoder

  /** The packer's digits lead the unpacker's digit string whenever they fit in plane 1. */
  lemma FirstPlaneReadBack(img: Image, s: string, n: int, m: int)
    requires img.Valid()
    requires Narrow(Codes(Text(s))) && 8 * (|s| + |Mark|) <= |img.data|
    requires 1 <= n && 1 <= m <= 8
    ensures EmbedFrom(AsWritten, img.data, Payload(s), 1, n) == WritePlane(AsWritten, img.data, Payload(s), 1)
    ensures Payload(s) <= ReadFrom(WritePlane(AsWritten, img.data, Payload(s), 1), 1, m)
  {
    var d := Payload(s);
    FitsInFirstPlane(AsWritten, img.data, d, 1, n);
    ReadBackPlane(AsWritten, img.data, d, 1);
  }

  /**
   The round trip. A secret whose character codes are below 256, whose first
   marker is the appended one, and whose digits and marker fit in plane 1 is
   accepted by `encode` at any bit count from 1 up and recovered by `decode`
   at any bit count from 1 to 8.
   */
  lemma EncodeDecode(img: Image, s: string, n: int, m: int)
    requires img.Valid()
    requires Narrow(Codes(Text(s)))
    requires NoEarlyMark(s)
    requires 8 * (|s| + |Mark|) <= img.rows * img.cols * 3
    requires 1 <= n && 1 <= m <= 8
    ensures Encode(img, s, n).Ok?
    ensures Decode(Encode(img, s, n).value, m) == Ok(s)
  {
    var N := |img.data|;
    MulBounds(N + 1, n);
    assert N <= N * n;
    assert |s| <= Capacity(img, n);
    FirstPlaneReadBack(img, s, n, m);
    var e := Encode(img, s, n).value;
    DecodeLeadingPayload(e, s, m);
  }

  /**
   The round trip at the parameter defaults, which is how the Tkinter
   interface calls the codec: `encode` writes with two planes and `decode`
   reads plane 1 only.
   */
  lemma DefaultBitCounts(img: Image, s: string)
    requires img.Valid()
    requires Narrow(Codes(Text(s)))
    requires NoEarlyMark(s)
    requires 8 * (|s| + |Mark|) <= img.rows * img.cols * 3
    ensures Encode(img, s, DefaultEncodeBits).Ok?
    ensures Decode(Encode(img, s, DefaultEncodeBits).value, DefaultDecodeBits) == Ok(s)
  {
    EncodeDecode(img, s, DefaultEncodeBits, DefaultDecodeBits);
  }

  function White(rows: nat, cols: nat): (img: Image)
    ensures img.Valid()
  {
    Image(rows, cols, seq(rows * cols * 3, _ => 255))
  }

  /** No character of `s` is `=`, so no marker can start inside it. */
  lemma NoEqualsSign(s: string)
    requires forall i :: 0 <= i < |s| ==> s[i] != '='
    ensures NoEarlyMark(s)
  {
    forall i | 0 <= i < |s|
      ensures !OccursAt(s + Mark, i)
    {
      assert (s + Mark)[i] == s[i];
    }
  }

  /** `test_encode_decode`: "Hello, Steganography!" survives two planes of a 100 × 100 white image. */
  lemma HelloSteganography()
    ensures Encode(White(100, 100), "Hello, Steganography!", 2).Ok?
    ensures Decode(Encode(White(100, 100), "Hello, Steganography!", 2).value, 2) == Ok("Hello, Steganography!")
  {
    var s := "Hello, Steganography!";
    assert forall i :: 0 <= i < |s| ==> s[i] != '=' && s[i] as int < 256;
    NoEqualsSign(s);
    EncodeDecode(White(100, 100), s, 2, 2);
  }

  /** `test_insufficient_space`: 7510 characters exceed the 7500 a 100 × 100 image admits at two planes. */
  lemma InsufficientSpace()
    ensures Encode(White(100, 100), seq(100 * 100 * 3 * 2 / 8 + 10, _ => 'A'), 2) == Err(InsufficientBytes)
  {
  }

  /** `test_image_integrity`: encoding "Test" keeps the 100 × 100 × 3 shape. */
  lemma ImageIntegrity()
    ensures Encode(White(100, 100), "Test", 2).Ok?
    ensures var e := Encode(White(100, 100), "Test", 2).value;
      e.rows == 100 && e.cols == 100 && |e.data| == 100 * 100 * 3
  {
  }
}
