/**
 `decode` with the image file read taken out: collect the digits of planes 1
 to `n_bits`, cut them into groups of eight, turn each group into a character
 and keep what precedes the first marker.
 */
module Decoder {
  import opened Bits
  import opened Binary
  import opened Sentinel
  import opened Raster
  import opened Planes
  import opened Results
  import Encoder

  /**
   `r[-bit]` on the eight-digit string of a channel raises `IndexError` once
   `bit` exceeds 8, that is when more than eight planes are requested of an
   image with at least one pixel.
   */
  datatype DecodeError = IndexError

  /** The default of `decode`'s `n_bits` parameter. */
  const DefaultDecodeBits := 1

  /** The characters the unpacker forms before cutting at the marker: one per group of eight digits, a short last group included. */
  function Unpacked(img: Image, nBits: int): (chars: string)
    requires img.Valid() && (nBits <= 8 || |img.data| == 0)
    ensures |ReadFrom(img.data, 1, nBits)| == PlaneCount(nBits) * |img.data|
    ensures |chars| == (PlaneCount(nBits) * |img.data| + 7) / 8
  {
    ReadFromLength(img.data, 1, nBits);
    DecodeChars(ReadFrom(img.data, 1, nBits))
  }

  /**
   `decode` on an already decoded image: the text before the first marker in
   the unpacked characters, all of them when there is none. The result never
   contains the marker.
   */
  function Decode(img: Image, nBits: int): (r: Result<string, DecodeError>)
    requires img.Valid()
    ensures r.Err? <==> nBits > 8 && |img.data| > 0
    ensures r.Ok? ==> r.value <= Unpacked(img, nBits)
    ensures r.Ok? ==> r.value == Unpacked(img, nBits) || OccursAt(Unpacked(img, nBits), |r.value|)
    ensures r.Ok? ==> forall i :: 0 <= i < |r.value| ==> !OccursAt(Unpacked(img, nBits), i)
    ensures r.Ok? ==> forall i :: 0 <= i < |r.value| ==> !OccursAt(r.value, i)
  {
    if nBits > 8 && |img.data| > 0 then Err(IndexError)
    else Ok(BeforeMark(Unpacked(img, nBits)))
  }

  /**
   `decode` returns the secret whenever the digits of the secret and its marker
   lead the unpacked digits, whatever digits follow them, for a secret whose
   character codes are below 256 and whose first marker is the appended one.
   */
  lemma DecodeLeadingPayload(img: Image, s: string, nBits: int)
    requires img.Valid() && 1 <= nBits <= 8
    requires Narrow(Codes(Text(s))) && NoEarlyMark(s)
    requires Encoder.Payload(s) <= ReadFrom(img.data, 1, nBits)
    ensures Decode(img, nBits) == Ok(s)
  {
    var d := Encoder.Payload(s);
    var bits := ReadFrom(img.data, 1, nBits);
    var rest := bits[|d|..];
    assert bits == d + rest;
    Encoder.MarkIsNarrow(s);
    TextRoundTrip(s + Mark, rest);
    assert Unpacked(img, nBits) == s + Mark + DecodeChars(rest);
    BeforeMarkOfPayload(s, DecodeChars(rest));
  }

  /**
   `decode` statement for statement: the digits of planes 1 to `n_bits` are
   appended plane after plane (see `UnpackPlane`), then grouped, turned into
   characters and cut at the first marker. It agrees with `Decode`.
   */
  method DecodeImage(img: Image, nBits: int) returns (r: Result<string, DecodeError>)
    requires img.Valid()
    ensures r == Decode(img, nBits)
  {
    var binaryData: seq<bool> := [];
    var bit := 1;
    while bit <= nBits
      invariant 1 <= bit && (nBits >= 1 ==> bit <= nBits + 1)
      invariant nBits < 1 ==> bit == 1
      invariant bit <= 9 || |img.data| == 0
      invariant binaryData == ReadFrom(img.data, 1, bit - 1)
    {
      var plane := UnpackPlane(img, bit);
      if plane.Err? {
        return Err(plane.error);
      }
      ReadFromSnoc(img.data, 1, bit);
      binaryData := binaryData + plane.value;
      bit := bit + 1;
    }
    var allBytes := Chunks(binaryData);
    var decodedData := seq(|allBytes|, i requires 0 <= i < |allBytes| => GroupChar(allBytes[i]));
    return Ok(BeforeMark(decodedData));
  }

  /**
   One plane of the unpacking loop: rows, pixels, and `r[-bit] + g[-bit] +
   b[-bit]` per pixel. It yields plane `bit` in storage order, or the
   `IndexError` of the first pixel when `bit` exceeds 8.
   */
  method UnpackPlane(img: Image, bit: nat) returns (r: Result<seq<bool>, DecodeError>)
    requires img.Valid() && bit >= 1
    ensures r == if bit > 8 && |img.data| > 0 then Err(IndexError) else Ok(PlaneBits(img.data, bit))
  {
    var digits: seq<bool> := [];
    var row, base := 0, 0;
    while row < img.rows
      invariant 0 <= row <= img.rows
      invariant base == row * img.cols * 3 <= |img.data|
      invariant bit > 8 ==> digits == [] && (row == 0 || img.cols == 0)
      invariant bit <= 8 ==> digits == PlaneBits(img.data, bit)[..base]
    {
      RowFits(row, img.rows, img.cols);
      if bit > 8 && img.cols > 0 {
        // `r[-bit]` on the row's first pixel: an eight-digit string has no such index.
        return Err(IndexError);
      }
      if bit <= 8 {
        var rowDigits := UnpackRow(img.data, img.cols, bit, base);
        digits := digits + rowDigits;
      }
      row := row + 1;
      base := base + 3 * img.cols;
    }
    if bit <= 8 {
      assert PlaneBits(img.data, bit)[..base] == PlaneBits(img.data, bit);
    } else {
      EmptyImage(img);
    }
    return Ok(digits);
  }

  /** `r[-bit] + g[-bit] + b[-bit]` for the pixel whose channels start at `p`. */
  function PixelDigits(chs: seq<Byte>, p: nat, bit: nat): (r: seq<bool>)
    requires 1 <= bit <= 8 && p + 3 <= |chs|
    ensures r == PlaneBits(chs, bit)[p .. p + 3]
  {
    [ReadBit(chs[p], bit), ReadBit(chs[p + 1], bit), ReadBit(chs[p + 2], bit)]
  }

  /** The `cols` pixels of one row, `r[-bit] + g[-bit] + b[-bit]` each, starting at channel `base`. */
  method UnpackRow(chs: seq<Byte>, cols: nat, bit: nat, base: nat) returns (digits: seq<bool>)
    requires 1 <= bit <= 8
    requires base + 3 * cols <= |chs|
    ensures digits == PlaneBits(chs, bit)[base .. base + 3 * cols]
  {
    digits := [];
    var col, p := 0, base;
    ghost var all := PlaneBits(chs, bit);
    while col < cols
      invariant 0 <= col <= cols && p == base + 3 * col
      invariant digits == all[base .. p]
    {
      var pixel := PixelDigits(chs, p, bit);
      assert all[base .. p + 3] == all[base .. p] + all[p .. p + 3];
      digits := digits + pixel;
      col, p := col + 1, p + 3;
    }
  }

  lemma EmptyImage(img: Image)
    requires img.Valid() && (img.rows == 0 || img.cols == 0)
    ensures |img.data| == 0
  {
  }
}
