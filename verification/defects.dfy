/**
 Two places where `encode` does not do what its round trip needs, each shown
 on a concrete image: the capacity check leaves the marker out, and the write
 of plane 2 and up lands in plane 1.
 */
module Defects {
  import opened Bits
  import opened Binary
  import opened Sentinel
  import opened Raster
  import opened Planes
  import opened Results
  import opened Encoder
  import opened Decoder

  function Zeros(n: nat): (chs: seq<Byte>)
    ensures |chs| == n && forall i :: 0 <= i < n ==> chs[i] == 0
  {
    seq(n, _ => 0)
  }

  /**
   The capacity check does not count the marker. A 1 × 8 image holds 3
   characters at one plane; the secret "ab" passes the check, but only the
   first 24 of the 56 digits of "ab=====" are written, so the unpacker finds
   no marker and returns "ab=".
   */
  lemma MarkNotCounted()
    ensures Encode(Image(1, 8, Zeros(24)), "ab", 1).Ok?
    ensures Decode(Encode(Image(1, 8, Zeros(24)), "ab", 1).value, 1) == Ok("ab=")
  {
    var img := Image(1, 8, Zeros(24));
    var d := Payload("ab");
    assert "ab" + Mark == "ab=" + "====";
    ToBinAppend("ab=", "====");
    var head := ToBin(Text("ab="));
    assert |head| == 24 by {
      assert Narrow(Codes(Text("ab=")));
    }
    assert d[..24] == head;
    var w := WritePlane(AsWritten, img.data, head, 1);
    EmbedExhausted(AsWritten, w, 2, 1);
    assert EmbedFrom(AsWritten, img.data, d, 1, 1) == w;
    ReadBackPlane(AsWritten, img.data, head, 1);
    assert ReadFrom(w, 1, 1) == head + [];
    TextRoundTrip("ab=", []);
    assert DecodeChars(head + []) == "ab=";
  }

  /**
   The write of plane `bit` shifts the value, so from plane 2 on every payload
   digit lands in the least significant place and overwrites the one plane 1
   stored there. On a 1 × 7 image of zeros with two planes the 40 digits of the
   bare marker spill into plane 2, and the unpacker's first character no longer
   starts a marker: the empty secret comes back as a non-empty string.
   */
  lemma PlaneTwoOverwritesPlaneOne()
    ensures Encode(Image(1, 7, Zeros(21)), "", 2).Ok?
    ensures Decode(Encode(Image(1, 7, Zeros(21)), "", 2).value, 2).Ok?
    ensures Decode(Encode(Image(1, 7, Zeros(21)), "", 2).value, 2).value != ""
  {
    var e := Encode(Image(1, 7, Zeros(21)), "", 2).value;
    SpilledDigitFirst();
    var bits := ReadFrom(e.data, 1, 2);
    var u := DecodeChars(bits);
    var group := Chunks(bits)[0];
    assert group == bits[..8];
    LeadingDigit(group);
    assert !OccursAt(u, 0);
  }

  /**
   In the encoded 1 × 7 image, plane 1 of channel 0 holds digit 21 of the
   marker (a 1), written in plane 2, and not digit 0 (a 0).
   */
  lemma SpilledDigitFirst()
    ensures Encode(Image(1, 7, Zeros(21)), "", 2).Ok?
    ensures |ReadFrom(Encode(Image(1, 7, Zeros(21)), "", 2).value.data, 1, 2)| == 42
    ensures ReadFrom(Encode(Image(1, 7, Zeros(21)), "", 2).value.data, 1, 2)[0]
  {
    var img := Image(1, 7, Zeros(21));
    var d := Payload("");
    MarkDigit();
    var w := WritePlane(AsWritten, img.data, d[..21], 1);
    FitsInFirstPlane(AsWritten, w, d[21..], 2, 2);
    var e := WritePlane(AsWritten, w, d[21..], 2);
    assert EmbedFrom(AsWritten, img.data, d, 1, 2) == e;
    ShiftedWriteHitsPlaneOne(w, d[21..], 2);
    ReadFromLength(e, 1, 2);
    assert ReadFrom(e, 1, 2) == PlaneBits(e, 1) + ReadFrom(e, 2, 2);
    assert ReadFrom(e, 1, 2)[0] == PlaneBits(e, 1)[0];
  }

  /** The bare marker has 40 digits, and digit 21 (bit 2 of its third '=') is a 1. */
  lemma MarkDigit()
    ensures |Payload("")| == 40 && Payload("")[21]
  {
    assert "" + Mark == Mark;
    assert Narrow(Codes(Text(Mark)));
    ToBinMsbFirst(Text(Mark), 2, 5);
    assert Pow2(2) == 4;
  }

  /**
   Whatever plane `encode`'s write (steganography.py:37) targets, the digit it stores is the one
   plane 1 reads back: a write of plane `bit` replaces plane 1's digits with
   its own.
   */
  lemma ShiftedWriteHitsPlaneOne(chs: seq<Byte>, bits: seq<bool>, bit: nat)
    requires |bits| <= |chs| && bit >= 1
    ensures forall c :: 0 <= c < |bits| ==> PlaneBits(WritePlane(AsWritten, chs, bits, bit), 1)[c] == bits[c]
  {
    var w := WritePlane(AsWritten, chs, bits, bit);
    forall c | 0 <= c < |bits|
      ensures PlaneBits(w, 1)[c] == bits[c]
    {
      WriteBitValue(chs[c], bit, bits[c]);
      ReadBitValue(w[c], 1);
    }
  }

  /** An eight-digit group that starts with a 1 stands for a code of at least 128. */
  lemma LeadingDigit(group: seq<bool>)
    requires |group| == 8 && group[0]
    ensures ParseBin(group) >= 128
  {
    DigitFromEnd(group, 7);
    assert Pow2(7) == 128;
    var q := ParseBin(group) / 128;
    MulBounds(128, q);
  }
}
