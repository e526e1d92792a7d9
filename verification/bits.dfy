/**
 The binary-string helpers the codec is built from. The source works on Python
 strings of '0' and '1' characters; here such a string is a `seq<bool>`, most
 significant digit first, and each helper mirrors one Python expression:

 - `format(n, "08b")`  is `Format08b(n)`
 - `int(s, 2)`         is `ParseBin(s)` for a non-empty `s` (`ParseBin([])` is 0,
                         where Python raises; the codec never parses an empty string)
 - `s[:-k]`            is `DropLast(s, k)` for `k >= 1`
 */
module Bits {

  /** A channel value of an 8-bit image. */
  type Byte = x: int | 0 <= x < 256

  function Pow2(n: nat): (r: nat)
    ensures r >= 1
  {
    if n == 0 then 1 else 2 * Pow2(n - 1)
  }

  function BitValue(b: bool): nat
  {
    if b then 1 else 0
  }

  function Min(a: int, b: int): int
  {
    if a <= b then a else b
  }

  /** `int(bs, 2)`: the value of a binary string read most significant digit first; 0 for the empty string, on which Python raises. */
  function ParseBin(bs: seq<bool>): (r: nat)
    ensures r < Pow2(|bs|)
  {
    if bs == [] then 0 else 2 * ParseBin(bs[..|bs| - 1]) + BitValue(bs[|bs| - 1])
  }

  /** The `w` low-order binary digits of `n`, most significant first, zero-padded. */
  function FixedBits(n: nat, w: nat): (r: seq<bool>)
    ensures |r| == w
  {
    if w == 0 then [] else FixedBits(n / 2, w - 1) + [n % 2 == 1]
  }

  /**
   `format(n, "08b")`: the binary digits of `n`, padded to at least eight. Codes
   of 256 and more get all the digits they need, so the string is then longer.
   */
  function Format08b(n: nat): (r: seq<bool>)
    ensures ParseBin(r) == n
    ensures |r| >= 8
    ensures |r| == 8 <==> n < 256
    decreases n
  {
    if n < 256 then
      Pow2Eight();
      ParseFixedBits(n, 8);
      FixedBits(n, 8)
    else
      var hi := Format08b(n / 2);
      ParseSnoc(hi, n % 2 == 1);
      hi + [n % 2 == 1]
  }

  /** Python's slice `s[:-k]` for `k >= 1`: all but the last `k` digits, empty when `k >= |s|`. */
  function DropLast(s: seq<bool>, k: nat): (r: seq<bool>)
    requires k >= 1
    ensures |r| == if k < |s| then |s| - k else 0
    ensures r <= s
  {
    s[..if k < |s| then |s| - k else 0]
  }

  lemma Pow2Eight()
    ensures Pow2(8) == 256
  {
  }

  lemma {:induction false} Pow2Monotonic(a: nat, b: nat)
    requires a <= b
    ensures Pow2(a) <= Pow2(b)
    decreases b
  {
    if a < b {
      Pow2Monotonic(a, b - 1);
    }
  }

  lemma ParseSnoc(bs: seq<bool>, b: bool)
    ensures ParseBin(bs + [b]) == 2 * ParseBin(bs) + BitValue(b)
  {
    assert (bs + [b])[..|bs|] == bs;
  }

  /** Division by a positive divisor is determined by any quotient/remainder pair. */
  lemma DivUnique(v: int, d: int, q: int, r: int)
    requires d > 0 && 0 <= r < d && v == d * q + r
    ensures v / d == q && v % d == r
  {
    var q', r' := v / d, v % d;
    MulBounds(d, q - q');
    assert d * (q - q') == r' - r;
  }

  lemma MulBounds(d: int, x: int)
    requires d > 0
    ensures x >= 1 ==> d * x >= d
    ensures x <= -1 ==> d * x <= -d
  {
  }

  lemma DivOfHalf(v: nat, k: nat)
    ensures (v / 2) / Pow2(k) == v / (2 * Pow2(k))
  {
    var q := Pow2(k);
    var a, r0 := v / 2, v % 2;
    var b, r1 := a / q, a % q;
    assert v == 2 * q * b + (2 * r1 + r0) by {
      assert v == 2 * a + r0;
      assert a == q * b + r1;
    }
    DivUnique(v, 2 * q, b, 2 * r1 + r0);
  }

  lemma {:induction false} ParseFixedBits(n: nat, w: nat)
    requires n < Pow2(w)
    ensures ParseBin(FixedBits(n, w)) == n
  {
    if w > 0 {
      ParseFixedBits(n / 2, w - 1);
      ParseSnoc(FixedBits(n / 2, w - 1), n % 2 == 1);
    }
  }

  lemma {:induction false} FixedBitsOfParse(bs: seq<bool>)
    ensures FixedBits(ParseBin(bs), |bs|) == bs
  {
    if bs != [] {
      var init, last := bs[..|bs| - 1], bs[|bs| - 1];
      FixedBitsOfParse(init);
      DivUnique(ParseBin(bs), 2, ParseBin(init), BitValue(last));
      assert bs == init + [last];
    }
  }

  /** Dropping `k` trailing digits divides the value by `2^k`; when all digits are dropped the rest is empty and worth 0. */
  lemma {:induction false} ParsePrefix(bs: seq<bool>, k: nat)
    requires k <= |bs|
    ensures ParseBin(bs[..|bs| - k]) == ParseBin(bs) / Pow2(k)
  {
    if k == 0 {
      assert bs[..|bs|] == bs;
    } else {
      var init := bs[..|bs| - 1];
      ParsePrefix(init, k - 1);
      assert init[..|init| - (k - 1)] == bs[..|bs| - k];
      assert ParseBin(bs) == 2 * ParseBin(init) + BitValue(bs[|bs| - 1]);
      DivUnique(ParseBin(bs), 2, ParseBin(init), BitValue(bs[|bs| - 1]));
      DivOfHalf(ParseBin(bs), k - 1);
      assert ParseBin(bs[..|bs| - k]) == (ParseBin(bs) / 2) / Pow2(k - 1);
      assert Pow2(k) == 2 * Pow2(k - 1);
    }
  }

  /** The digit `i` places from the end of a binary string is bit `i` of its value. */
  lemma DigitFromEnd(bs: seq<bool>, i: nat)
    requires i < |bs|
    ensures bs[|bs| - 1 - i] <==> (ParseBin(bs) / Pow2(i)) % 2 == 1
  {
    ParsePrefix(bs, i);
    var pre := bs[..|bs| - i];
    var init, d := pre[..|pre| - 1], pre[|pre| - 1];
    assert d == bs[|bs| - 1 - i];
    assert init + [d] == pre;
    ParseSnoc(init, d);
    var q := ParseBin(pre);
    assert q == ParseBin(bs) / Pow2(i);
    DivUnique(q, 2, ParseBin(init), BitValue(d));
  }
}
