/**
 Bit planes. Plane `bit` (1 for the least significant) of a channel sequence is
 the digit `r[-bit]` of each value's `format(v, "08b")`. The packer fills the
 planes from 1 upward, each plane over all channels in storage order, and the
 unpacker reads them back in the same order.
 */
module Planes {
  import opened Bits

  /**
   How a payload digit is stored in a channel value: `AsWritten` is
   `encode`'s `int(r[:-bit] + d, 2)` (steganography.py:37); `InPlace` replaces only the digit of plane
   `bit` and is the correction the `Corrected` module uses.
   */
  datatype Rule = AsWritten | InPlace

  /**
   `encode`'s write for plane `bit` (steganography.py:37): the digits of the value without its last
   `bit` digits, followed by the payload digit. The value is shifted right by
   `bit` places and then left by one, so the payload always lands in the least
   significant digit; only for plane 1 is this a plain LSB replacement.
   */
  function WriteBit(v: Byte, bit: nat, d: bool): Byte
    requires bit >= 1
  {
    var kept := DropLast(Format08b(v), bit);
    WrittenValue(v, bit, d);
    ParseBin(kept + [d])
  }

  /**
   What `encode`'s write (steganography.py:37) stores: `(v // 2**bit) * 2 + d`, a value whose least
   significant digit is the payload digit whatever the plane; in plane 1 that
   is `v` with its least significant digit replaced.
   */
  lemma WriteBitValue(v: Byte, bit: nat, d: bool)
    requires bit >= 1
    ensures WriteBit(v, bit, d) == (v / Pow2(bit)) * 2 + BitValue(d)
    ensures WriteBit(v, bit, d) % 2 == BitValue(d)
    ensures bit == 1 ==> WriteBit(v, bit, d) == v - v % 2 + BitValue(d)
  {
    var q := v / Pow2(bit);
    WrittenValue(v, bit, d);
    DivUnique(q * 2 + BitValue(d), 2, q, BitValue(d));
    assert bit == 1 ==> Pow2(bit) == 2;
  }

  lemma WrittenValue(v: Byte, bit: nat, d: bool)
    requires bit >= 1
    ensures ParseBin(DropLast(Format08b(v), bit) + [d]) == (v / Pow2(bit)) * 2 + BitValue(d) < 256
  {
    var kept := DropLast(Format08b(v), bit);
    ShiftedValue(v, bit);
    ParseSnoc(kept, d);
    Pow2Monotonic(|kept|, 7);
    assert Pow2(7) == 128;
  }

  /** The digits `format(v, "08b")[:-bit]` leaves (none when `bit >= 8`) are worth `v // 2**bit`, and at most seven remain. */
  lemma ShiftedValue(v: Byte, bit: nat)
    requires bit >= 1
    ensures ParseBin(DropLast(Format08b(v), bit)) == v / Pow2(bit)
    ensures |DropLast(Format08b(v), bit)| <= 7
  {
    var digits := Format08b(v);
    if bit < 8 {
      ParsePrefix(digits, bit);
    } else {
      Pow2Eight();
      Pow2Monotonic(8, bit);
      DivUnique(v, Pow2(bit), 0, v);
    }
  }

  /** The digit the unpacker reads in plane `bit`: `r[-bit]` of `format(v, "08b")`. */
  function ReadBit(v: Byte, bit: nat): bool
    requires 1 <= bit <= 8
  {
    var digits := Format08b(v);
    digits[|digits| - bit]
  }

  /** The digit read in plane `bit` is `(v // 2**(bit - 1)) % 2`. */
  lemma ReadBitValue(v: Byte, bit: nat)
    requires 1 <= bit <= 8
    ensures ReadBit(v, bit) <==> (v / Pow2(bit - 1)) % 2 == 1
  {
    DigitFromEnd(Format08b(v), bit - 1);
  }

  /** Replace the digit of plane `bit` and keep all the others. */
  function SetBit(v: Byte, bit: nat, d: bool): (r: Byte)
    requires 1 <= bit <= 8
    ensures ReadBit(r, bit) == d
    ensures forall other :: 1 <= other <= 8 && other != bit ==> ReadBit(r, other) == ReadBit(v, other)
  {
    var digits := Format08b(v)[8 - bit := d];
    FixedBitsOfParse(digits);
    Pow2Eight();
    ParseBin(digits)
  }

  function Write(rule: Rule, v: Byte, bit: nat, d: bool): Byte
    requires bit >= 1 && (rule.InPlace? ==> bit <= 8)
  {
    match rule
    case AsWritten => WriteBit(v, bit, d)
    case InPlace => SetBit(v, bit, d)
  }

  /** One plane of the packer: the first `|bits|` channels take the digits in order, the rest are untouched. */
  function WritePlane(rule: Rule, chs: seq<Byte>, bits: seq<bool>, bit: nat): (r: seq<Byte>)
    requires |bits| <= |chs|
    requires bit >= 1 && (rule.InPlace? ==> bit <= 8)
    ensures |r| == |chs|
  {
    seq(|chs|, i requires 0 <= i < |chs| => if i < |bits| then Write(rule, chs[i], bit, bits[i]) else chs[i])
  }

  /**
   The packer from plane `bit` to plane `last`: each plane takes as many of the
   remaining digits as there are channels, and the digits left over go on to
   the next plane. Digits that find no plane are dropped; channels whose index
   is past the payload are never written.
   */
  function EmbedFrom(rule: Rule, chs: seq<Byte>, bits: seq<bool>, bit: nat, last: int): (r: seq<Byte>)
    requires bit >= 1 && (rule.InPlace? ==> last <= 8)
    ensures |r| == |chs|
    ensures forall i :: |bits| <= i < |chs| ==> r[i] == chs[i]
    decreases last - bit
  {
    if bit > last then chs
    else
      var k := Min(|bits|, |chs|);
      EmbedFrom(rule, WritePlane(rule, chs, bits[..k], bit), bits[k..], bit + 1, last)
  }

  /** The number of planes `range(1, n_bits + 1)` visits. */
  function PlaneCount(nBits: int): nat
  {
    if nBits < 1 then 0 else nBits
  }

  /** Plane `bit` of every channel, in storage order: `r[-bit] + g[-bit] + b[-bit]` pixel after pixel. */
  function PlaneBits(chs: seq<Byte>, bit: nat): (r: seq<bool>)
    requires 1 <= bit && (bit <= 8 || chs == [])
    ensures |r| == |chs|
  {
    seq(|chs|, c requires 0 <= c < |chs| => ReadBit(chs[c], bit))
  }

  /** Plane `bit` holds, channel by channel in storage order, `(v // 2**(bit - 1)) % 2`. */
  lemma PlaneDigits(chs: seq<Byte>, bit: nat)
    requires 1 <= bit <= 8
    ensures forall c :: 0 <= c < |chs| ==> (PlaneBits(chs, bit)[c] <==> (chs[c] / Pow2(bit - 1)) % 2 == 1)
  {
    forall c | 0 <= c < |chs|
      ensures PlaneBits(chs, bit)[c] <==> (chs[c] / Pow2(bit - 1)) % 2 == 1
    {
      ReadBitValue(chs[c], bit);
    }
  }

  /** The unpacker's digit string for planes `bit` to `last`, plane after plane. */
  function ReadFrom(chs: seq<Byte>, bit: nat, last: int): seq<bool>
    requires 1 <= bit && (last <= 8 || chs == [])
    decreases last - bit
  {
    if bit > last then [] else PlaneBits(chs, bit) + ReadFrom(chs, bit + 1, last)
  }

  /** Planes `bit` to `last` give one digit per channel each. */
  lemma {:induction false} ReadFromLength(chs: seq<Byte>, bit: nat, last: int)
    requires 1 <= bit && (last <= 8 || chs == [])
    ensures |ReadFrom(chs, bit, last)| == if last < bit then 0 else (last - bit + 1) * |chs|
    decreases last - bit
  {
    if bit <= last {
      ReadFromLength(chs, bit + 1, last);
    }
  }

  /** Extending the range of planes by one appends that plane's digits. */
  lemma {:induction false} ReadFromSnoc(chs: seq<Byte>, bit: nat, last: int)
    requires 1 <= bit <= last && (last <= 8 || chs == [])
    ensures ReadFrom(chs, bit, last) == ReadFrom(chs, bit, last - 1) + PlaneBits(chs, last)
    decreases last - bit
  {
    if bit < last {
      ReadFromSnoc(chs, bit + 1, last);
    }
  }

  lemma WritePlaneExtend(rule: Rule, chs: seq<Byte>, bits: seq<bool>, d: bool, bit: nat)
    requires |bits| < |chs|
    requires bit >= 1 && (rule.InPlace? ==> bit <= 8)
    ensures WritePlane(rule, chs, bits + [d], bit)
         == WritePlane(rule, chs, bits, bit)[|bits| := Write(rule, chs[|bits|], bit, d)]
  {
  }

  /** With no digits left the packer changes nothing, however many planes remain. */
  lemma {:induction false} EmbedExhausted(rule: Rule, chs: seq<Byte>, bit: nat, last: int)
    requires bit >= 1 && (rule.InPlace? ==> last <= 8)
    ensures EmbedFrom(rule, chs, [], bit, last) == chs
    decreases last - bit
  {
    if bit <= last {
      assert WritePlane(rule, chs, [], bit) == chs;
      EmbedExhausted(rule, chs, bit + 1, last);
    }
  }

  /** A payload no longer than one plane is written entirely into the first plane. */
  lemma FitsInFirstPlane(rule: Rule, chs: seq<Byte>, bits: seq<bool>, bit: nat, last: int)
    requires |bits| <= |chs|
    requires 1 <= bit <= last && (rule.InPlace? ==> last <= 8)
    ensures EmbedFrom(rule, chs, bits, bit, last) == WritePlane(rule, chs, bits, bit)
  {
    assert bits[..|bits|] == bits;
    EmbedExhausted(rule, WritePlane(rule, chs, bits, bit), bit + 1, last);
  }

  /**
   Reading back a plane just written gives the digits written, followed by the
   untouched channels' digits; for `encode`'s write (steganography.py:37) this holds in plane 1 only.
   */
  lemma ReadBackPlane(rule: Rule, chs: seq<Byte>, bits: seq<bool>, bit: nat)
    requires |bits| <= |chs|
    requires 1 <= bit <= 8 && (rule.AsWritten? ==> bit == 1)
    ensures PlaneBits(WritePlane(rule, chs, bits, bit), bit) == bits + PlaneBits(chs, bit)[|bits|..]
  {
    var w := WritePlane(rule, chs, bits, bit);
    forall c | 0 <= c < |bits|
      ensures ReadBit(w[c], bit) == bits[c]
    {
      if rule.AsWritten? {
        WriteBitValue(chs[c], bit, bits[c]);
        ReadBitValue(w[c], 1);
      }
    }
  }
}
