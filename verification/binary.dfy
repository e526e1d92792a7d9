/**
 `to_bin` and its inverse: a payload becomes a string of binary digits, eight
 per element and most significant first; the unpacker cuts such a string back
 into eight-digit groups and turns each group into a character.
 */
module Binary {
  import opened Bits

  /**
   The payload kinds `to_bin` handles: a text string (`str`, one element per
   character) or raw bytes (`bytes`). Any other kind raises `TypeError` in the
   source; a closed datatype has no such values.
   */
  datatype BinInput = Text(text: string) | Raw(bytes: seq<Byte>)

  /** The integer each element contributes: `ord(c)` for a character, the byte itself for bytes. */
  function Codes(x: BinInput): seq<nat>
  {
    match x
    case Text(s) => seq(|s|, i requires 0 <= i < |s| => s[i] as nat)
    case Raw(b) => seq(|b|, i requires 0 <= i < |b| => b[i] as nat)
  }

  /** Every code fits in eight binary digits. */
  predicate Narrow(codes: seq<nat>)
  {
    forall i :: 0 <= i < |codes| ==> codes[i] < 256
  }

  /** `''.join([format(c, "08b") for c in codes])`. */
  function Join(codes: seq<nat>): seq<bool>
  {
    if codes == [] then [] else Format08b(codes[0]) + Join(codes[1..])
  }

  /** `to_bin(data)` for a text or bytes payload. */
  function ToBin(x: BinInput): (r: seq<bool>)
    ensures |r| >= 8 * |Codes(x)|
    ensures |r| == 8 * |Codes(x)| <==> Narrow(Codes(x))
  {
    JoinLength(Codes(x));
    Join(Codes(x))
  }

  /** `chr(n)` for a code below 256. */
  function Chr(n: nat): char
    requires n < 256
  {
    n as char
  }

  /** `[bs[i: i + 8] for i in range(0, len(bs), 8)]`: eight-digit groups, the last one possibly shorter. */
  function Chunks(bs: seq<bool>): (r: seq<seq<bool>>)
    ensures |r| == (|bs| + 7) / 8
    ensures forall i :: 0 <= i < |r| ==> 1 <= |r[i]| <= 8
    decreases |bs|
  {
    if bs == [] then []
    else if |bs| <= 8 then [bs]
    else [bs[..8]] + Chunks(bs[8..])
  }

  function Flatten(chunks: seq<seq<bool>>): seq<bool>
  {
    if chunks == [] then [] else chunks[0] + Flatten(chunks[1..])
  }

  /** The character one group of at most eight digits stands for: `chr(int(group, 2))`. */
  function GroupChar(group: seq<bool>): (c: char)
    requires |group| <= 8
    ensures c as int == ParseBin(group) && c as int < 256
  {
    Pow2Monotonic(|group|, 8);
    Pow2Eight();
    Chr(ParseBin(group))
  }

  /**
   `"".join([chr(int(byte, 2)) for byte in all_bytes])`: one character per
   group, a short trailing group included.
   */
  function DecodeChars(bs: seq<bool>): (r: string)
    ensures |r| == (|bs| + 7) / 8
    ensures forall i :: 0 <= i < |r| ==> r[i] as int < 256
  {
    var groups := Chunks(bs);
    seq(|groups|, i requires 0 <= i < |groups| => GroupChar(groups[i]))
  }

  lemma {:induction false} JoinLength(codes: seq<nat>)
    ensures |Join(codes)| >= 8 * |codes|
    ensures |Join(codes)| == 8 * |codes| <==> Narrow(codes)
  {
    if codes != [] {
      JoinLength(codes[1..]);
      if Narrow(codes[1..]) && codes[0] < 256 {
        assert Narrow(codes);
      }
      if Narrow(codes) {
        assert Narrow(codes[1..]) by {
          forall i | 0 <= i < |codes[1..]| ensures codes[1..][i] < 256 {
            assert codes[1..][i] == codes[i + 1];
          }
        }
      }
    }
  }

  /**
   Element `i` of a narrow payload occupies digits `8i .. 8i+8` of `to_bin`,
   most significant first, and `int(·, 2)` of that group gives the code back.
   */
  lemma {:induction false} JoinGroup(codes: seq<nat>, i: nat)
    requires Narrow(codes) && i < |codes|
    ensures |Join(codes)| == 8 * |codes|
    ensures Join(codes)[8 * i .. 8 * i + 8] == FixedBits(codes[i], 8)
    ensures ParseBin(Join(codes)[8 * i .. 8 * i + 8]) == codes[i]
  {
    JoinLength(codes);
    Pow2Eight();
    ParseFixedBits(codes[i], 8);
    if i > 0 {
      var rest := codes[1..];
      assert Narrow(rest) by {
        forall k | 0 <= k < |rest| ensures rest[k] < 256 {
          assert rest[k] == codes[k + 1];
        }
      }
      JoinGroup(rest, i - 1);
      var head := Format08b(codes[0]);
      var tail := Join(rest);
      assert Join(codes) == head + tail;
      assert |head| == 8;
      SliceAfter(head, tail, 8 * (i - 1), 8 * (i - 1) + 8);
    } else {
      assert Join(codes)[..8] == Format08b(codes[0]);
    }
  }

  lemma SliceAfter(a: seq<bool>, b: seq<bool>, lo: nat, hi: nat)
    requires lo <= hi <= |b|
    ensures (a + b)[|a| + lo .. |a| + hi] == b[lo..hi]
  {
  }

  /** The digits of element `i`, read from the string `to_bin` returns, are its bits from 7 down to 0. */
  lemma ToBinMsbFirst(x: BinInput, i: nat, j: nat)
    requires Narrow(Codes(x)) && i < |Codes(x)| && j < 8
    ensures |ToBin(x)| == 8 * |Codes(x)|
    ensures ToBin(x)[8 * i + j] <==> (Codes(x)[i] / Pow2(7 - j)) % 2 == 1
  {
    var codes := Codes(x);
    JoinGroup(codes, i);
    var group := ToBin(x)[8 * i .. 8 * i + 8];
    assert ToBin(x)[8 * i + j] == group[j];
    DigitFromEnd(group, 7 - j);
  }

  /** Concatenating the groups gives the digit string back, and only the last group may be short. */
  lemma {:induction false} ChunksReassemble(bs: seq<bool>)
    ensures Flatten(Chunks(bs)) == bs
    ensures forall i :: 0 <= i < |Chunks(bs)| - 1 ==> |Chunks(bs)[i]| == 8
    decreases |bs|
  {
    if bs == [] {
    } else if |bs| <= 8 {
      assert Flatten([bs]) == bs + Flatten([]);
    } else {
      var rest := Chunks(bs[8..]);
      ChunksReassemble(bs[8..]);
      assert ([bs[..8]] + rest)[1..] == rest;
      assert bs == bs[..8] + bs[8..];
    }
  }

  lemma {:induction false} JoinAppend(a: seq<nat>, b: seq<nat>)
    ensures Join(a + b) == Join(a) + Join(b)
  {
    if a == [] {
      assert a + b == b;
    } else {
      assert (a + b)[1..] == a[1..] + b;
      JoinAppend(a[1..], b);
    }
  }

  /** `to_bin(x + y) == to_bin(x) + to_bin(y)` for text. */
  lemma ToBinAppend(x: string, y: string)
    ensures ToBin(Text(x + y)) == ToBin(Text(x)) + ToBin(Text(y))
  {
    assert Codes(Text(x + y)) == Codes(Text(x)) + Codes(Text(y));
    JoinAppend(Codes(Text(x)), Codes(Text(y)));
  }

  lemma {:induction false} ChunksAppend(a: seq<bool>, b: seq<bool>)
    requires |a| % 8 == 0
    ensures Chunks(a + b) == Chunks(a) + Chunks(b)
    decreases |a|
  {
    if a == [] {
      assert a + b == b;
    } else if b == [] {
      assert a + b == a;
    } else {
      var ab := a + b;
      assert |ab| > 8;
      assert Chunks(ab) == [ab[..8]] + Chunks(ab[8..]);
      assert ab[8..] == a[8..] + b;
      assert ab[..8] == a[..8];
      ChunksAppend(a[8..], b);
      if |a| == 8 {
        assert Chunks(a) == [a];
        assert a[8..] == [];
        assert Chunks(a[8..]) == [];
        assert a[8..] + b == b;
      } else {
        assert Chunks(a) == [a[..8]] + Chunks(a[8..]);
      }
    }
  }

  /** Decoding splits at any group boundary. */
  lemma DecodeCharsAppend(a: seq<bool>, b: seq<bool>)
    requires |a| % 8 == 0
    ensures DecodeChars(a + b) == DecodeChars(a) + DecodeChars(b)
  {
    ChunksAppend(a, b);
    var ga, gb := Chunks(a), Chunks(b);
    assert forall i :: 0 <= i < |ga| ==> Chunks(a + b)[i] == ga[i];
    assert forall i :: 0 <= i < |gb| ==> Chunks(a + b)[|ga| + i] == gb[i];
  }

  /** Decoding the digits of a narrow payload gives one character per code, with that code. */
  lemma {:induction false} DecodeJoin(codes: seq<nat>)
    requires Narrow(codes)
    ensures |DecodeChars(Join(codes))| == |codes|
    ensures forall i :: 0 <= i < |codes| ==> DecodeChars(Join(codes))[i] as nat == codes[i]
  {
    JoinLength(codes);
    if codes != [] {
      var head := Format08b(codes[0]);
      assert Narrow(codes[1..]) by {
        forall k | 0 <= k < |codes[1..]| ensures codes[1..][k] < 256 {
          assert codes[1..][k] == codes[k + 1];
        }
      }
      DecodeJoin(codes[1..]);
      DecodeCharsAppend(head, Join(codes[1..]));
      assert Chunks(head) == [head];
      forall i | 0 <= i < |codes|
        ensures DecodeChars(Join(codes))[i] as nat == codes[i]
      {
        if i > 0 {
          assert codes[1..][i - 1] == codes[i];
        }
      }
    }
  }

  /**
   `to_bin` followed by the unpacker's regrouping is the identity on text whose
   character codes are all below 256, whatever digits follow.
   */
  lemma TextRoundTrip(s: string, rest: seq<bool>)
    requires Narrow(Codes(Text(s)))
    ensures DecodeChars(ToBin(Text(s)) + rest) == s + DecodeChars(rest)
  {
    var bits := ToBin(Text(s));
    DecodeText(s);
    assert |bits| == 8 * |s|;
    DecodeCharsAppend(bits, rest);
  }

  /** Decoding `to_bin(s)` gives `s` back when every code is below 256. */
  lemma DecodeText(s: string)
    requires Narrow(Codes(Text(s)))
    ensures DecodeChars(ToBin(Text(s))) == s
  {
    var codes := Codes(Text(s));
    assert ToBin(Text(s)) == Join(codes);
    DecodeJoin(codes);
    var d := DecodeChars(Join(codes));
    forall i | 0 <= i < |s|
      ensures d[i] == s[i]
    {
      assert d[i] as nat == codes[i] == s[i] as nat;
    }
  }
}
