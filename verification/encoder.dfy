/**
 `encode` with the image file read taken out: the capacity check, the marker,
 `to_bin`, and the packing loop over planes, rows, pixels and channels.
 */
module Encoder {
  import opened Bits
  import opened Binary
  import opened Sentinel
  import opened Raster
  import opened Planes
  import opened Results

  /** The `ValueError("Insufficient bytes, need a bigger image or less data.")` of the capacity check. */
  datatype EncodeError = InsufficientBytes

  /** The default of `encode`'s `n_bits` parameter. */
  const DefaultEncodeBits := 2

  /**
   `image.shape[0] * image.shape[1] * 3 * n_bits // 8`. Python's `//` rounds
   toward minus infinity, which for the positive divisor 8 is also what `/`
   does on Dafny integers, negative bit counts included.
   */
  function Capacity(img: Image, nBits: int): (n: int)
    ensures 8 * n <= img.rows * img.cols * 3 * nBits < 8 * n + 8
  {
    img.rows * img.cols * 3 * nBits / 8
  }

  /** `to_bin(secret_data + "=====")`: the digits the packer stores. */
  function Payload(secret: string): (bits: seq<bool>)
    ensures |bits| >= 8 * (|secret| + |Mark|)
    ensures Narrow(Codes(Text(secret))) ==> |bits| == 8 * (|secret| + |Mark|)
  {
    MarkIsNarrow(secret);
    ToBin(Text(secret + Mark))
  }

  /** Appending the marker keeps every character code below 256 if the secret's are. */
  lemma MarkIsNarrow(secret: string)
    ensures Narrow(Codes(Text(secret))) ==> Narrow(Codes(Text(secret + Mark)))
  {
    if Narrow(Codes(Text(secret))) {
      var t := secret + Mark;
      forall i | 0 <= i < |t|
        ensures Codes(Text(t))[i] < 256
      {
        if i < |secret| {
          assert t[i] == secret[i];
          assert Codes(Text(secret))[i] < 256;
        } else {
          assert t[i] == '=';
        }
      }
    }
  }

  /**
   `encode` on an already decoded image. It raises when the secret has more
   characters than the capacity admits (the marker is not counted); otherwise
   it packs the digits of secret and marker plane by plane and returns an
   image of the same shape in which no channel past the payload has changed.
   */
  function Encode(img: Image, secret: string, nBits: int): (r: Result<Image, EncodeError>)
    requires img.Valid()
    ensures r.Err? <==> |secret| > Capacity(img, nBits)
    ensures r.Ok? ==> r.value.Valid() && r.value.rows == img.rows && r.value.cols == img.cols
    ensures r.Ok? ==> forall i :: |Payload(secret)| <= i < |img.data| ==> r.value.data[i] == img.data[i]
  {
    if |secret| > Capacity(img, nBits) then Err(InsufficientBytes)
    else Ok(Image(img.rows, img.cols, EmbedFrom(AsWritten, img.data, Payload(secret), 1, nBits)))
  }

  /**
   The packing loop of `encode`, statement for statement: planes 1 to
   `n_bits`, and within each plane the rows, pixels and channels (see
   `PackPlane`). It computes the plane-by-plane packer, and the cursor
   `data_index` ends at the number of digits the image had room for, which is
   also the number of channel writes made.
   */
  method PackBits(img: Image, bin: seq<bool>, nBits: int) returns (out: Image, dataIndex: nat)
    requires img.Valid()
    ensures out == Image(img.rows, img.cols, EmbedFrom(AsWritten, img.data, bin, 1, nBits))
    ensures dataIndex <= |bin|
    ensures dataIndex == Min(|bin|, PlaneCount(nBits) * |img.data|)
  {
    var chs: seq<Byte> := img.data;
    ghost var n := |chs|;
    dataIndex := 0;
    var bit := 1;
    while bit <= nBits
      invariant 1 <= bit && (nBits >= 1 ==> bit <= nBits + 1)
      invariant nBits < 1 ==> bit == 1
      invariant |chs| == n
      invariant dataIndex == Min(|bin|, (bit - 1) * n)
      invariant EmbedFrom(AsWritten, chs, bin[dataIndex..], bit, nBits) == EmbedFrom(AsWritten, img.data, bin, 1, nBits)
    {
      ghost var start, startIndex := chs, dataIndex;
      chs, dataIndex := PackPlane(img.rows, img.cols, chs, bin, dataIndex, bit);
      ghost var k := dataIndex - startIndex;
      assert bin[startIndex..][..k] == bin[startIndex..dataIndex];
      assert bin[startIndex..][k..] == bin[dataIndex..];
      bit := bit + 1;
    }
    assert bit - 1 == PlaneCount(nBits);
    out := Image(img.rows, img.cols, chs);
  }

  /**
   One plane of the packing loop: rows, then pixels, then channels 0, 1, 2,
   each written only while the cursor is inside the digit string, and the
   pixel loop left as soon as the digits run out. The plane takes the next
   digits in storage order, as many as there are channels or digits left.
   */
  method PackPlane(rows: nat, cols: nat, image: seq<Byte>, bin: seq<bool>, cursor: nat, bit: nat)
    returns (chs: seq<Byte>, dataIndex: nat)
    requires |image| == rows * cols * 3
    requires cursor <= |bin| && bit >= 1
    ensures dataIndex == cursor + Min(|bin| - cursor, |image|)
    ensures chs == WritePlane(AsWritten, image, bin[cursor..dataIndex], bit)
  {
    chs, dataIndex := image, cursor;
    var dataLen := |bin|;
    var row, base := 0, 0;
    while row < rows
      invariant 0 <= row <= rows
      invariant base == row * cols * 3
      invariant |chs| == |image|
      invariant dataIndex == cursor + Min(dataLen - cursor, base)
      invariant chs == WritePlane(AsWritten, image, bin[cursor..dataIndex], bit)
    {
      RowFits(row, rows, cols);
      var col := 0;
      while col < cols
        invariant 0 <= col <= cols
        invariant |chs| == |image|
        invariant dataIndex == cursor + Min(dataLen - cursor, base + 3 * col)
        invariant chs == WritePlane(AsWritten, image, bin[cursor..dataIndex], bit)
      {
        var p := base + 3 * col;
        if dataIndex < dataLen {
          chs, dataIndex := PackChannel(image, bin, cursor, chs, dataIndex, p, bit);
        }
        if dataIndex < dataLen {
          chs, dataIndex := PackChannel(image, bin, cursor, chs, dataIndex, p + 1, bit);
        }
        if dataIndex < dataLen {
          chs, dataIndex := PackChannel(image, bin, cursor, chs, dataIndex, p + 2, bit);
        }
        if dataIndex >= dataLen {
          break;
        }
        col := col + 1;
      }
      row := row + 1;
      base := base + 3 * cols;
    }
  }

  /** One channel write of the packer, `pixel[c] = int(x[:-bit] + binary_secret_data[data_index], 2)`, and the cursor step. */
  method PackChannel(image: seq<Byte>, bin: seq<bool>, cursor: nat, chs: seq<Byte>, dataIndex: nat, p: nat, bit: nat)
    returns (chs': seq<Byte>, dataIndex': nat)
    requires cursor <= dataIndex < |bin| && bit >= 1
    requires p == dataIndex - cursor < |image|
    requires chs == WritePlane(AsWritten, image, bin[cursor..dataIndex], bit)
    ensures dataIndex' == dataIndex + 1
    ensures chs' == WritePlane(AsWritten, image, bin[cursor..dataIndex'], bit)
  {
    ghost var written := bin[cursor..dataIndex];
    var d := bin[dataIndex];
    assert |written| == p;
    assert chs[p] == image[p];
    WritePlaneExtend(AsWritten, image, written, d, bit);
    assert written + [d] == bin[cursor..dataIndex + 1];
    chs' := chs[p := WriteBit(chs[p], bit, d)];
    dataIndex' := dataIndex + 1;
  }

  /**
   `encode` statement for statement: the capacity check comes before any
   channel is written, then the marker is appended, the digits computed and
   packed. It agrees with `Encode`.
   */
  method EncodeImage(img: Image, secret: string, nBits: int) returns (r: Result<Image, EncodeError>)
    requires img.Valid()
    ensures r == Encode(img, secret, nBits)
  {
    var nBytes := img.rows * img.cols * 3 * nBits / 8;
    if |secret| > nBytes {
      return Err(InsufficientBytes);
    }
    var secretData := secret + Mark;
    var binarySecretData := ToBin(Text(secretData));
    var image, _ := PackBits(img, binarySecretData, nBits);
    return Ok(image);
  }
}
