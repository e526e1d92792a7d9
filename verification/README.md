# LSB steganography codec, modelled in Dafny

This project models the core of `steganography.py`, a tool that hides a text
in the least significant bits of the pixels of a three-channel 8-bit image
and recovers it:

- `to_bin` turns a string, or a bytes value, into binary digits, most
  significant digit first: eight per byte, and eight per character whose code
  is below 256 (more for wider characters);
- `encode` checks the capacity of the image for the requested number of bit
  planes `n_bits`, appends the marker `=====` to the secret, and writes the
  digits plane after plane (plane 1 being the least significant digit) over
  every channel of every pixel in storage order;
- `decode` reads the digits of planes 1 to `n_bits` back in the same order,
  cuts them into groups of eight, turns each group into a character and keeps
  what precedes the first marker.

The image is an `Image(rows, cols, data)` whose `data` holds the channel
values row by row, three per pixel (`Raster`). Bit strings are `seq<bool>`,
and the Python string operations the source uses are modelled as written:

- `format(v, "08b")` is `Bits.Format08b`;
- `int(s, 2)` for a non-empty `s` is `Bits.ParseBin`; `ParseBin([])` is 0
  where Python raises `ValueError`, but `steganography.py` never parses an
  empty string (line 37 appends a digit first, and the groups of line 59 are
  non-empty);
- `s[:-k]` for `k >= 1` is `Bits.DropLast` (the source never slices with `k = 0`);
- `s[-k]` is an index counted from the end.

The arithmetic meaning of the writes and reads is proved from those
definitions rather than assumed.

Modules:

- `Results` — the result type used for the errors.
- `Bits` — the digit-string primitives.
- `Binary` — `to_bin`, and the grouping and character conversion of `decode`.
- `Sentinel` — the marker and `split("=====")[0]`.
- `Raster` — the image.
- `Planes` — per-plane writes and reads, and the packing and unpacking traversals.
- `Encoder` — `encode` as a function, and as a method that follows the loops statement by statement.
- `Decoder` — `decode`, in the same two forms.
- `RoundTrip` — the round trip and the three unit-test scenarios of `unittesting.py`.
- `Defects` — two defects of `encode`, each shown on a concrete image.
- `Corrected` — an encoder with both defects corrected, and its round trip.

Three behaviours of `steganography.py` worth knowing:

- `decode` keeps a short last group of digits as one more character (steganography.py:59). See `Binary.Chunks` and `Decoder.Unpacked`.
- Neither function validates `n_bits`. A bit count below 1 visits no plane. `decode` with more than 8 planes on an image that has pixels raises the `IndexError` of `r[-9]`. From plane 8 on, `encode` writes `int(d, 2)`, because `r[:-bit]` is then empty.
- Decoding with a bit count other than the encoder's does not fail when the payload fits in plane 1. `RoundTrip.EncodeDecode` proves the recovery for every decoding bit count from 1 to 8.

## Model

| member | source | states |
|---|---|---|
| Bits.Format08b | steganography.py:11 | `format(n, "08b")` parses back to `n`; it has at least eight digits, and exactly eight if and only if `n < 256` |
| Bits.ParseBin | steganography.py:37 | `int(s, 2)` on a non-empty digit string, as here and on line 60: the value is below `2**len(s)`; `Bits.ParseFixedBits` and `Bits.FixedBitsOfParse` make it the inverse of writing a value in a fixed number of digits |
| Bits.DropLast | steganography.py:37 | `s[:-k]` for `k >= 1`: a prefix of `s`, `len(s) - k` digits long, or empty when `k >= len(s)` |
| Bits.ParsePrefix | steganography.py:37 | the digits left after dropping the last `k` (none when `k` is the length), read as a binary number, are worth `int(s, 2) // 2**k` |
| Bits.DigitFromEnd | steganography.py:57 | the digit `i + 1` places from the end of a binary string is bit `i` of its value |
| Binary.ToBin | steganography.py:9-13 | `to_bin` gives at least eight digits per character or byte, and exactly eight per element if and only if every code is below 256 |
| Binary.JoinGroup | steganography.py:11 | element `i` occupies digits `8i` to `8i+8`; that group is its code in eight digits and parses back to the code |
| Binary.ToBinMsbFirst | steganography.py:11 | digit `8i+j` of `to_bin` is bit `7-j` of the code of element `i` |
| Binary.ToBinAppend | steganography.py:11 | `to_bin(x + y) == to_bin(x) + to_bin(y)` |
| Binary.Chunks | steganography.py:59 | the slicing yields `ceil(len/8)` groups, each of one to eight digits |
| Binary.ChunksReassemble | steganography.py:59 | the groups concatenate back to the digit string, and all but the last have eight digits |
| Binary.GroupChar | steganography.py:60 | `chr(int(group, 2))` is the character whose code is the group's value, always below 256 |
| Binary.DecodeChars | steganography.py:59-60 | one character per group, a short last group included, each with a code below 256 |
| Binary.DecodeCharsAppend | steganography.py:59-60 | when the first part has a multiple of eight digits, decoding a concatenation decodes each part |
| Binary.DecodeJoin | steganography.py:59-60 | decoding the digits of codes below 256 gives back those codes, one character each |
| Binary.DecodeText | steganography.py:59-60 | decoding `to_bin(s)` gives `s` back when every code is below 256 |
| Binary.TextRoundTrip | steganography.py:59-60 | decoding `to_bin(s)` followed by any digits gives `s` followed by the decoding of those digits, for codes below 256 |
| Sentinel.BeforeMark | steganography.py:61 | `split("=====")[0]` is a prefix with no marker before its end; the whole input when there is no marker, otherwise a marker follows it; it contains no marker |
| Sentinel.BeforeMarkOfPayload | steganography.py:61 | for a text whose first marker is the appended one, `(s + "=====" + rest).split("=====")[0] == s` |
| Planes.WriteBit | steganography.py:37-43 | `int(r[:-bit] + d, 2)` for each channel write; by `Planes.WriteBitValue` it stores `(v // 2**bit) * 2 + d`, always below 256 |
| Planes.ShiftedValue | steganography.py:37 | the digits `format(v, "08b")[:-bit]` leaves (none when `bit >= 8`), read as a binary number, are worth `v // 2**bit`, and at most seven remain; so `int(r[:-bit] + d, 2) == (v // 2**bit) * 2 + d` |
| Planes.WriteBitValue | steganography.py:37-43 | the write for plane `bit` stores `(v // 2**bit) * 2 + d`: the digit always lands in plane 1, and only for `bit == 1` is the rest of `v` kept |
| Planes.ReadBitValue | steganography.py:57 | `r[-bit]` is `(v // 2**(bit-1)) % 2` |
| Planes.ReadBit | steganography.py:57 | `r[-bit]` of `format(v, "08b")`; by `Planes.ReadBitValue` it is `(v // 2**(bit-1)) % 2` |
| Planes.SetBit | steganography.py:37-43 | the corrected write sets the digit of plane `bit` and keeps the other seven planes |
| Planes.WritePlane | steganography.py:33-44 | one plane's pass of the packer over every channel; it keeps the channel count, and by `Planes.ReadBackPlane` reading the plane back gives the digits written followed by the untouched channels' digits |
| Planes.EmbedFrom | steganography.py:32-46 | the packer keeps the number of channels and never changes a channel past the payload's length |
| Planes.PlaneCount | steganography.py:32 | the number of planes `range(1, n_bits + 1)` visits, here and on line 53: `n_bits` from 1 up, none below 1; `Planes.ReadFromLength`, `Encoder.PackBits` and `Decoder.Unpacked` state their digit counts through it |
| Planes.PlaneBits | steganography.py:54-57 | one digit per channel, in storage order, `r[-bit] + g[-bit] + b[-bit]` pixel after pixel; `Planes.PlaneDigits` gives each digit's value |
| Planes.ReadFrom | steganography.py:53-57 | the unpacker's digit string for planes `bit` to `last`; `Planes.ReadFromLength` gives its length and `Planes.ReadFromSnoc` its plane-after-plane layout |
| Planes.PlaneDigits | steganography.py:53-57 | plane `bit` of the channels, in storage order, is `(v // 2**(bit-1)) % 2` of each value |
| Planes.ReadFromLength | steganography.py:53-57 | the unpacker collects one digit per channel for each plane from `bit` to `last` |
| Planes.ReadFromSnoc | steganography.py:53-57 | reading one plane more appends that plane's digits after the earlier planes' |
| Planes.EmbedExhausted | steganography.py:36-46 | with no digits left, the remaining planes change nothing |
| Planes.FitsInFirstPlane | steganography.py:32-46 | a payload no longer than one plane is written entirely in the first plane visited |
| Planes.ReadBackPlane | steganography.py:32-57 | a plane read after it was written gives the digits written, then the untouched channels' digits; for `encode`'s write (steganography.py:37) this holds in plane 1 only |
| Encoder.Capacity | steganography.py:23 | `rows*cols*3*n_bits // 8` rounded toward minus infinity: eight times the capacity is at most the number of digits the planes hold, and less than eight below it |
| Encoder.MarkIsNarrow | steganography.py:27 | appending the marker keeps every code below 256 |
| Encoder.Payload | steganography.py:27-28 | the payload has eight digits per character of the secret and marker when the codes are below 256, and at least that many otherwise |
| Encoder.Encode | steganography.py:23-27 | `encode` fails with the insufficient-bytes error exactly when the secret is longer than `rows*cols*3*n_bits // 8`; otherwise the image keeps its shape, and channels past the payload are unchanged |
| Encoder.PackBits | steganography.py:29-46 | the plane loop yields the traversal `EmbedFrom`, and `data_index` ends at the smaller of the payload length and the channels of the planes visited |
| Encoder.PackPlane | steganography.py:33-46 | one plane's row and pixel loops write the next `min(remaining, channels)` digits to the first channels in storage order |
| Encoder.PackChannel | steganography.py:36-44 | one guarded channel write extends the plane written so far by exactly one digit |
| Encoder.EncodeImage | steganography.py:21-47 | the loop-by-loop `encode` agrees with `Encode`, the error case included |
| Decoder.Unpacked | steganography.py:53-60 | the unpacker has one digit per channel per plane visited, and forms `ceil(digits/8)` characters |
| Decoder.Decode | steganography.py:49-62 | `decode` fails exactly when more than eight planes are asked of an image with pixels; otherwise it returns the unpacked text up to the first marker, all of it when there is none, and never a marker |
| Decoder.DecodeLeadingPayload | steganography.py:59-61 | `decode` returns `s` whenever the digits of `s + "====="` lead the unpacked digits, whatever follows them, for codes below 256 and no earlier marker |
| Decoder.DecodeImage | steganography.py:49-62 | the loop-by-loop `decode` agrees with `Decode`, the error case included |
| Decoder.UnpackPlane | steganography.py:54-57 | the row and pixel loops of one plane give that plane's digits in storage order, or `IndexError` past plane 8 when there is a pixel |
| Decoder.PixelDigits | steganography.py:56-57 | `r[-bit] + g[-bit] + b[-bit]` of one pixel is the pixel's three digits in plane `bit` |
| Decoder.UnpackRow | steganography.py:55-57 | the pixel loop of one row gives the row's three digits per pixel, in order |
| RoundTrip.FirstPlaneReadBack | steganography.py:32-57 | a payload that fits in plane 1 stays in plane 1 and leads the digits the unpacker reads at any bit count from 1 to 8 |
| RoundTrip.EncodeDecode | steganography.py:21-62 | `decode(encode(img, s, n), m) == s` for codes below 256, no earlier marker, and a payload that fits in plane 1, for every `n >= 1` and every `1 <= m <= 8` |
| RoundTrip.DefaultBitCounts | steganography.py:21-62 | with the parameter defaults, `encode` at two planes and `decode` at one plane, as the Tkinter interface calls them (steganography.py:78, 91), `decode(encode(img, s)) == s` under the same conditions |
| RoundTrip.NoEqualsSign | steganography.py:61 | a secret without `=` never starts a marker before the appended one |
| RoundTrip.HelloSteganography | unittesting.py:27-38 | "Hello, Steganography!" is recovered from two planes of a 100 × 100 image |
| RoundTrip.InsufficientSpace | unittesting.py:40-45 | 7510 characters are refused by a 100 × 100 image at two planes |
| RoundTrip.ImageIntegrity | unittesting.py:47-57 | encoding "Test" keeps the 100 × 100 × 3 shape |
| Defects.MarkNotCounted | steganography.py:23-27 | the capacity check accepts "ab" for a 1 × 8 image at one plane, and `decode` then returns "ab=" |
| Defects.ShiftedWriteHitsPlaneOne | steganography.py:37-43 | whatever the plane, every digit `encode`'s write (steganography.py:37) stores is read back from plane 1 |
| Defects.PlaneTwoOverwritesPlaneOne | steganography.py:37-43 | the empty secret, encoded at two planes in a 1 × 7 image, decodes to a non-empty string |
| Corrected.EncodeFixed | steganography.py:21-47 | the corrected encoder succeeds exactly when `1 <= n_bits <= 8` and the secret plus the marker fit; the shape is kept and channels past the payload are unchanged |
| Corrected.OtherPlanesKept | steganography.py:37-43 | the corrected plane write leaves every other plane as it was |
| Corrected.EarlierPlanesKept | steganography.py:32-46 | the corrected packer never disturbs a plane below the one it starts from |
| Corrected.InPlaceReadBack | steganography.py:32-57 | with the corrected write, the digits packed into planes `bit` to `last` lead the digits the unpacker reads from those planes |
| Corrected.FixedRoundTrip | steganography.py:21-62 | for every `n_bits` from 1 to 8, a secret that fits with its marker is accepted by the corrected encoder and recovered by `decode` at the same bit count, for codes below 256 and no earlier marker |

## Left out

- Reading and writing image files (`cv2.imread`, `cv2.imwrite`): the image is a parameter, and the encoded image is the result.
- The Tkinter interface (steganography.py:64-117) and the command-line front end (steganography.py:119-139): they only collect arguments and show results.
- The `np.ndarray` and integer branches of `to_bin` and its `TypeError`: the `np.ndarray` branch is used only on a pixel (steganography.py:35, 56), and it calls `format(…, "08b")` on each channel value, which the model does directly with `Format08b`. The integer branch is never reached.
- A bytes secret given to `encode`: `secret_data += "====="` raises `TypeError` on it, so only text secrets reach the packer. `Binary.ToBin` still covers bytes.
- Characters are Dafny `char`s, that is Unicode scalar values. Strings with lone surrogates are not modelled.
- Binary.TextRoundTrip: requires every code below 256. A wider character gives more than eight digits, and the grouping in `decode` cannot give it back.
- RoundTrip.EncodeDecode: requires the payload to fit in plane 1. From plane 2 on, `encode`'s write (steganography.py:37) destroys plane 1 (see `Defects`), so the round trip does not hold there.
- The parameter defaults: `encode` has `n_bits = 2` (steganography.py:21) and `decode` has `n_bits = 1` (steganography.py:49). Every model operation takes the bit count explicitly; `Encoder.DefaultEncodeBits` and `Decoder.DefaultDecodeBits` name the defaults, and `RoundTrip.DefaultBitCounts` is the `n = 2`, `m = 1` case of `RoundTrip.EncodeDecode`.
- The uint8 storage of channel values: every value written is proved to stay below 256, so no wrap-around is involved.

## Findings

| source | as written | input that shows it | evidently intended | confidence | as-written member | corrected member |
|---|---|---|---|---|---|---|
| steganography.py:23-27 | the capacity check compares the secret's length with `n_bytes` before the five-character marker is appended, so up to five characters of marker can find no room and are silently dropped | a 1 × 8 image of zeros, `n_bits = 1`, secret "ab": the check passes, 24 of the 56 digits are written, and `decode` returns "ab=" | count the marker: `len(secret_data) + 5 > n_bytes` is an error | not executed | Defects.MarkNotCounted | Corrected.EncodeFixed |
| steganography.py:37-43 | `int(r[:-bit] + d, 2)` shifts the value right by `bit` and puts `d` in the least significant digit, so from plane 2 on every write overwrites the digit plane 1 stored, and the payload digit is never placed in plane `bit` | a 1 × 7 image of zeros, `n_bits = 2`, the empty secret: the marker's 40 digits spill into plane 2, and `decode(…, 2)` returns a non-empty string | replace only the digit of plane `bit`, `r[:-bit] + d + r[len(r)-bit+1:]` | not executed | Defects.PlaneTwoOverwritesPlaneOne | Corrected.FixedRoundTrip |
