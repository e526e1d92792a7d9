/**
 `encode` with both defects corrected: the bit count is validated, the
 capacity check counts the marker, and each payload digit replaces only the
 digit of its own plane. For this encoder the round trip holds at every bit
 count from 1 to 8.
 */
module Corrected {
  import opened Bits
  import opened Binary
  import opened Sentinel
  import opened Raster
  import opened Planes
  import opened Results
  import opened Encoder
  import opened Decoder

  /** The corrected encoder's errors: a bit count outside 1 to 8, and a secret that does not fit with its marker. */
  datatype FixedError = InvalidBitDepth | InsufficientCapacity

  /**
   The corrected encoder: bit counts outside 1 to 8 are refused, the capacity
   check counts the marker, and each payload digit replaces only the digit of
   its own plane.
   */
  function EncodeFixed(img: Image, secret: string, nBits: int): (r: Result<Image, FixedError>)
    requires img.Valid()
    ensures r.Ok? <==> 1 <= nBits <= 8 && |secret| + |Mark| <= Capacity(img, nBits)
    ensures r.Ok? ==> r.value.Valid() && r.value.rows == img.rows && r.value.cols == img.cols
    ensures r.Ok? ==> forall i :: |Payload(secret)| <= i < |img.data| ==> r.value.data[i] == img.data[i]
  {
    if nBits < 1 || nBits > 8 then Err(InvalidBitDepth)
    else if |secret| + |Mark| > Capacity(img, nBits) then Err(InsufficientCapacity)
    else Ok(Image(img.rows, img.cols, EmbedFrom(InPlace, img.data, Payload(secret), 1, nBits)))
  }

  /** Writing plane `q` in place leaves every other plane as it was. */
  lemma OtherPlanesKept(chs: seq<Byte>, bits: seq<bool>, q: nat, p: nat)
    requires |bits| <= |chs|
    requires 1 <= q <= 8 && 1 <= p <= 8 && p != q
    ensures PlaneBits(WritePlane(InPlace, chs, bits, q), p) == PlaneBits(chs, p)
  {
  }

  /** The corrected packer never disturbs a plane below the one it starts from. */
  lemma {:induction false} EarlierPlanesKept(chs: seq<Byte>, bits: seq<bool>, bit: nat, last: int, p: nat)
    requires 1 <= p < bit && p <= 8 && last <= 8
    ensures PlaneBits(EmbedFrom(InPlace, chs, bits, bit, last), p) == PlaneBits(chs, p)
    decreases last - bit
  {
    if bit <= last {
      var k := Min(|bits|, |chs|);
      var w := WritePlane(InPlace, chs, bits[..k], bit);
      OtherPlanesKept(chs, bits[..k], bit, p);
      EarlierPlanesKept(w, bits[k..], bit + 1, last, p);
    }
  }

  /**
   With in-place writes, every digit the packer stores is read back by the
   unpacker at the same position: the digits lead the unpacked string as long
   as the planes from `bit` to `last` have room for them.
   */
  lemma {:induction false} InPlaceReadBack(chs: seq<Byte>, bits: seq<bool>, bit: nat, last: int)
    requires 1 <= bit <= last + 1 && last <= 8
    requires |bits| <= (last - bit + 1) * |chs|
    ensures bits <= ReadFrom(EmbedFrom(InPlace, chs, bits, bit, last), bit, last)
    decreases last - bit
  {
    if bit <= last {
      var k := Min(|bits|, |chs|);
      var w := WritePlane(InPlace, chs, bits[..k], bit);
      var e := EmbedFrom(InPlace, w, bits[k..], bit + 1, last);
      assert EmbedFrom(InPlace, chs, bits, bit, last) == e;
      PlaneWrittenFirst(chs, bits, bit, last);
      var here := PlaneBits(e, bit);
      assert ReadFrom(e, bit, last) == here + ReadFrom(e, bit + 1, last);
      if |bits| > |chs| {
        SpareRoom(|bits|, |chs|, last - bit);
        InPlaceReadBack(w, bits[k..], bit + 1, last);
        PrefixJoin(bits, here, ReadFrom(e, bit + 1, last), k);
      } else {
        assert bits == here[..k];
      }
    }
  }

  /** The plane the corrected packer starts from holds the digits it wrote there first. */
  lemma PlaneWrittenFirst(chs: seq<Byte>, bits: seq<bool>, bit: nat, last: int)
    requires 1 <= bit <= last && last <= 8
    ensures |bits| > |chs| ==> PlaneBits(EmbedFrom(InPlace, chs, bits, bit, last), bit) == bits[..|chs|]
    ensures |bits| <= |chs| ==> PlaneBits(EmbedFrom(InPlace, chs, bits, bit, last), bit)[..|bits|] == bits
  {
    var k := Min(|bits|, |chs|);
    var w := WritePlane(InPlace, chs, bits[..k], bit);
    EarlierPlanesKept(w, bits[k..], bit + 1, last, bit);
    ReadBackPlane(InPlace, chs, bits[..k], bit);
  }

  lemma PrefixJoin(bits: seq<bool>, a: seq<bool>, b: seq<bool>, k: nat)
    requires k == |a| <= |bits| && a == bits[..k] && bits[k..] <= b
    ensures bits <= a + b
  {
    assert bits == a + bits[k..];
  }

  /** Whatever does not fit the first of `planes + 1` planes fits the other `planes`. */
  lemma SpareRoom(total: nat, n: nat, planes: int)
    requires n < total <= (planes + 1) * n
    ensures total - n <= planes * n
  {
    assert (planes + 1) * n == planes * n + n;
  }

  lemma FixedAccepts(img: Image, s: string, n: int)
    requires img.Valid()
    requires 1 <= n <= 8 && |s| + |Mark| <= Capacity(img, n)
    ensures EncodeFixed(img, s, n) == Ok(Image(img.rows, img.cols, EmbedFrom(InPlace, img.data, Payload(s), 1, n)))
  {
  }

  /** What the corrected encoder accepts fits in its planes. */
  lemma FixedFits(img: Image, s: string, n: int)
    requires img.Valid()
    requires Narrow(Codes(Text(s)))
    requires 1 <= n <= 8 && |s| + |Mark| <= Capacity(img, n)
    ensures |Payload(s)| <= (n - 1 + 1) * |img.data|
  {
    var N := |img.data|;
    assert |Payload(s)| == 8 * (|s| + |Mark|);
    assert 8 * Capacity(img, n) <= N * n;
  }

  /**
   The corrected round trip: a secret whose character codes are below 256,
   whose first marker is the appended one, and which fits with its marker in
   `n` planes is accepted by the corrected encoder and recovered by `decode`
   at the same bit count, for every `n` from 1 to 8.
   */
  lemma FixedRoundTrip(img: Image, s: string, n: int)
    requires img.Valid()
    requires Narrow(Codes(Text(s)))
    requires NoEarlyMark(s)
    requires 1 <= n <= 8 && |s| + |Mark| <= Capacity(img, n)
    ensures EncodeFixed(img, s, n).Ok?
    ensures Decode(EncodeFixed(img, s, n).value, n) == Ok(s)
  {
    FixedAccepts(img, s, n);
    FixedFits(img, s, n);
    FixedImageDecodes(img, s, n);
  }

  /** A payload that fits in planes 1 to `n`, packed by the corrected packer, decodes to the secret. */
  lemma FixedImageDecodes(img: Image, s: string, n: int)
    requires img.Valid()
    requires Narrow(Codes(Text(s)))
    requires NoEarlyMark(s)
    requires 1 <= n <= 8 && |Payload(s)| <= (n - 1 + 1) * |img.data|
    ensures Decode(Image(img.rows, img.cols, EmbedFrom(InPlace, img.data, Payload(s), 1, n)), n) == Ok(s)
  {
    var d := Payload(s);
    var data := EmbedFrom(InPlace, img.data, d, 1, n);
    assert |data| == |img.data|;
    InPlaceReadBack(img.data, d, 1, n);
    SameShapeDecodes(img, data, s, n);
  }

  lemma SameShapeDecodes(img: Image, data: seq<Byte>, s: string, n: int)
    requires img.Valid() && |data| == |img.data| && 1 <= n <= 8
    requires Narrow(Codes(Text(s))) && NoEarlyMark(s)
    requires Payload(s) <= ReadFrom(data, 1, n)
    ensures Decode(Image(img.rows, img.cols, data), n) == Ok(s)
  {
    DecodeLeadingPayload(Image(img.rows, img.cols, data), s, n);
  }
}
