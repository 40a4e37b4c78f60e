/** The UTF-8 decoding that java.io.InputStreamReader performs on the text bytes
  * of a telnet stream, as far as the client relies on it: whole characters are
  * decoded, and the bytes of a character not yet complete are held back until
  * more bytes arrive. Bytes are ints in 0..255; characters are code points.
  * Malformed input is not modelled: a byte that cannot start a character is
  * passed on as a character of its own. */
module Utf8 {
  /** How many bytes the character starting with byte `b` occupies. */
  function SequenceLength(b: int): (n: nat)
    ensures 1 <= n <= 4
  {
    if 0xC0 <= b < 0xE0 then 2
    else if 0xE0 <= b < 0xF0 then 3
    else if 0xF0 <= b < 0xF8 then 4
    else 1
  }

  /** The code point of one complete character. */
  function CodePoint(bs: seq<int>): int
    requires |bs| >= 1 && |bs| == SequenceLength(bs[0])
  {
    if |bs| == 1 then bs[0]
    else if |bs| == 2 then (bs[0] % 32) * 64 + bs[1] % 64
    else if |bs| == 3 then (bs[0] % 16) * 4096 + (bs[1] % 64) * 64 + bs[2] % 64
    else (bs[0] % 8) * 262144 + (bs[1] % 64) * 4096 + (bs[2] % 64) * 64 + bs[3] % 64
  }

  /** The bytes of a character that has not been completed yet (possibly none). */
  predicate Incomplete(bs: seq<int>)
  {
    bs == [] || |bs| < SequenceLength(bs[0])
  }

  datatype Decoded = Decoded(chars: seq<int>, rest: seq<int>)

  /** The characters of the longest prefix of complete characters, and the
    * incomplete character after them. */
  function Decode(bs: seq<int>): (r: Decoded)
    ensures Incomplete(r.rest)
    decreases |bs|
  {
    if bs == [] then Decoded([], [])
    else if |bs| < SequenceLength(bs[0]) then Decoded([], bs)
    else
      var n := SequenceLength(bs[0]);
      var d := Decode(bs[n..]);
      Decoded([CodePoint(bs[..n])] + d.chars, d.rest)
  }

  /** What is held back is a suffix of the input, and there are at most as many
    * characters as bytes. */
  lemma {:induction false} DecodeRest(bs: seq<int>)
    ensures |Decode(bs).rest| <= |bs| && Decode(bs).rest == bs[|bs| - |Decode(bs).rest|..]
    ensures |Decode(bs).chars| <= |bs|
    decreases |bs|
  {
    if bs != [] && |bs| >= SequenceLength(bs[0]) {
      var n := SequenceLength(bs[0]);
      DecodeRest(bs[n..]);
      assert bs[n..][|bs[n..]| - |Decode(bs).rest|..] == bs[|bs| - |Decode(bs).rest|..];
    }
  }

  /** Decoding is streaming: decoding a + b is decoding a, then decoding what a
    * held back together with b. */
  lemma {:induction false} DecodeAppend(a: seq<int>, b: seq<int>)
    ensures Decode(a + b).chars == Decode(a).chars + Decode(Decode(a).rest + b).chars
    ensures Decode(a + b).rest == Decode(Decode(a).rest + b).rest
    decreases |a|
  {
    if a == [] {
      assert a + b == b;
    } else if |a| >= SequenceLength(a[0]) {
      var n := SequenceLength(a[0]);
      var t := a[n..];
      assert (a + b)[0] == a[0];
      assert (a + b)[n..] == t + b;
      assert (a + b)[..n] == a[..n];
      var c := CodePoint(a[..n]);
      DecodeStep(a, n, c, t);
      DecodeStep(a + b, n, c, t + b);
      DecodeAppend(t, b);
      SeqAssoc([c], Decode(t).chars, Decode(Decode(t).rest + b).chars);
    } else {
      assert Decode(a) == Decoded([], a);
    }
  }

  /** Decoding a complete first character c, then the bytes t after it. */
  lemma DecodeStep(bs: seq<int>, n: nat, c: int, t: seq<int>)
    requires bs != [] && n == SequenceLength(bs[0]) && |bs| >= n
    requires c == CodePoint(bs[..n]) && t == bs[n..]
    ensures Decode(bs).chars == [c] + Decode(t).chars
    ensures Decode(bs).rest == Decode(t).rest
  {
  }

  lemma SeqAssoc(x: seq<int>, y: seq<int>, z: seq<int>)
    ensures x + (y + z) == (x + y) + z
  {
  }

  /** Held-back bytes on their own decode to no character and are held back again. */
  lemma IncompleteDecodesToNothing(bs: seq<int>)
    requires Incomplete(bs)
    ensures Decode(bs) == Decoded([], bs)
  {
  }

  /** The UTF-8 encoding of a code point. */
  function Encode(cp: int): (r: seq<int>)
    requires 0 <= cp <= 0x10FFFF
    ensures 1 <= |r| <= 4
  {
    if cp < 0x80 then [cp]
    else if cp < 0x800 then [0xC0 + cp / 64, 0x80 + cp % 64]
    else if cp < 0x10000 then [0xE0 + cp / 4096, 0x80 + (cp / 64) % 64, 0x80 + cp % 64]
    else [0xF0 + cp / 262144, 0x80 + (cp / 4096) % 64, 0x80 + (cp / 64) % 64, 0x80 + cp % 64]
  }

  predicate IsCodePoint(cp: int) { 0 <= cp <= 0x10FFFF }

  predicate AllCodePoints(cps: seq<int>)
  {
    forall i :: 0 <= i < |cps| ==> IsCodePoint(cps[i])
  }

  function EncodeAll(cps: seq<int>): seq<int>
    requires AllCodePoints(cps)
  {
    if cps == [] then [] else
      assert IsCodePoint(cps[0]);
      Encode(cps[0]) + EncodeAll(cps[1..])
  }

  /** One encoded character is read back as that character. */
  lemma EncodeDecodeChar(cp: int)
    requires IsCodePoint(cp)
    ensures SequenceLength(Encode(cp)[0]) == |Encode(cp)|
    ensures CodePoint(Encode(cp)) == cp
  {
    if cp < 0x80 {
    } else if cp < 0x800 {
      EncodeTwo(cp);
    } else if cp < 0x10000 {
      EncodeThree(cp);
    } else {
      EncodeFour(cp);
    }
  }

  lemma EncodeTwo(cp: int)
    requires 0x80 <= cp < 0x800
    ensures SequenceLength(0xC0 + cp / 64) == 2
    ensures CodePoint([0xC0 + cp / 64, 0x80 + cp % 64]) == cp
  {
    var q, r := cp / 64, cp % 64;
    assert (0xC0 + q) % 32 == q;
    assert (0x80 + r) % 64 == r;
  }

  lemma EncodeThree(cp: int)
    requires 0x800 <= cp < 0x10000
    ensures SequenceLength(0xE0 + cp / 4096) == 3
    ensures CodePoint([0xE0 + cp / 4096, 0x80 + (cp / 64) % 64, 0x80 + cp % 64]) == cp
  {
    var q, m, r := cp / 4096, (cp / 64) % 64, cp % 64;
    assert cp / 64 == q * 64 + m;
    assert (0xE0 + q) % 16 == q;
    assert (0x80 + m) % 64 == m;
    assert (0x80 + r) % 64 == r;
  }

  lemma EncodeFour(cp: int)
    requires 0x10000 <= cp <= 0x10FFFF
    ensures SequenceLength(0xF0 + cp / 262144) == 4
    ensures CodePoint([0xF0 + cp / 262144, 0x80 + (cp / 4096) % 64, 0x80 + (cp / 64) % 64, 0x80 + cp % 64]) == cp
  {
    var q, h, m, r := cp / 262144, (cp / 4096) % 64, (cp / 64) % 64, cp % 64;
    assert cp / 4096 == q * 64 + h;
    assert cp / 64 == (cp / 4096) * 64 + m;
    assert (0xF0 + q) % 8 == q;
    assert (0x80 + h) % 64 == h;
    assert (0x80 + m) % 64 == m;
    assert (0x80 + r) % 64 == r;
  }

  /** The decoder reads back exactly the characters an encoder wrote. */
  lemma {:induction false} EncodeDecode(cps: seq<int>)
    requires AllCodePoints(cps)
    ensures Decode(EncodeAll(cps)) == Decoded(cps, [])
    decreases |cps|
  {
    if cps != [] {
      assert IsCodePoint(cps[0]);
      var e := Encode(cps[0]);
      EncodeDecodeChar(cps[0]);
      EncodeDecode(cps[1..]);
      var bs := EncodeAll(cps);
      assert bs == e + EncodeAll(cps[1..]);
      assert bs[..|e|] == e && bs[|e|..] == EncodeAll(cps[1..]);
    }
  }

  /** Bytes below 0x80 are characters of their own. */
  lemma {:induction false} AsciiDecodes(bs: seq<int>)
    requires forall i :: 0 <= i < |bs| ==> 0 <= bs[i] < 0x80
    ensures Decode(bs) == Decoded(bs, [])
    decreases |bs|
  {
    if bs != [] {
      assert SequenceLength(bs[0]) == 1;
      DecodeStep(bs, 1, bs[0], bs[1..]);
      AsciiDecodes(bs[1..]);
      assert bs == [bs[0]] + bs[1..];
    }
  }

  /** An encoded character is made of bytes 0..255. */
  lemma EncodeBytes(cp: int)
    requires IsCodePoint(cp)
    ensures forall i :: 0 <= i < |Encode(cp)| ==> 0 <= Encode(cp)[i] < 256
  {
  }

  /** An encoder writes bytes 0..255 only. */
  lemma {:induction false} EncodeAllBytes(cps: seq<int>)
    requires AllCodePoints(cps)
    ensures forall i :: 0 <= i < |EncodeAll(cps)| ==> 0 <= EncodeAll(cps)[i] < 256
    decreases |cps|
  {
    if cps != [] {
      assert IsCodePoint(cps[0]);
      EncodeBytes(cps[0]);
      EncodeAllBytes(cps[1..]);
      var e, t := Encode(cps[0]), EncodeAll(cps[1..]);
      assert EncodeAll(cps) == e + t;
      forall i | 0 <= i < |e + t|
        ensures 0 <= (e + t)[i] < 256
      {
        if i < |e| {
          assert (e + t)[i] == e[i];
        } else {
          assert (e + t)[i] == t[i - |e|];
        }
      }
    }
  }
}
