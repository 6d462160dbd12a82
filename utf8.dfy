/** UTF-8 as Go's `unicode/utf8` package decodes it: `DecodeRune` accepts only
    shortest-form encodings of Unicode scalar values and reports anything else
    as `RuneError` with width 1. */
module Utf8 {
  import opened Text

  const RuneError: int := 0xFFFD
  const MaxRune: int := 0x10FFFF

  /** A Unicode scalar value: a code point that is not a surrogate. */
  predicate IsScalar(r: int) {
    0 <= r <= MaxRune && !(0xD800 <= r <= 0xDFFF)
  }

  /** The number of bytes UTF-8 uses for a scalar value. */
  function EncodedLength(r: int): nat {
    if r < 0x80 then 1 else if r < 0x800 then 2 else if r < 0x10000 then 3 else 4
  }

  predicate IsContinuation(b: Byte) {
    0x80 <= b <= 0xBF
  }

  /** The sequence length announced by a leading byte (Go's `first` table);
      0 for a byte that cannot start a sequence. */
  function SequenceLength(b0: Byte): nat {
    if b0 < 0x80 then 1
    else if b0 < 0xC2 then 0
    else if b0 < 0xE0 then 2
    else if b0 < 0xF0 then 3
    else if b0 < 0xF5 then 4
    else 0
  }

  /** The accepted range of the second byte after `b0` (Go's `acceptRanges`):
      narrower after E0, ED, F0 and F4, to exclude overlong forms, surrogates
      and values above U+10FFFF. */
  function SecondLow(b0: Byte): Byte {
    if b0 == 0xE0 then 0xA0 else if b0 == 0xF0 then 0x90 else 0x80
  }

  function SecondHigh(b0: Byte): Byte {
    if b0 == 0xED then 0x9F else if b0 == 0xF4 then 0x8F else 0xBF
  }

  /** `utf8.DecodeRune`: the first rune of `p` and its width. */
  function DecodeRune(p: Bytes): (r: (int, nat))
    requires |p| > 0
    ensures 1 <= r.1 <= |p| && r.1 <= 4
    ensures r.0 == RuneError || (IsScalar(r.0) && EncodedLength(r.0) == r.1)
    ensures r.1 > 1 ==> IsScalar(r.0) && EncodedLength(r.0) == r.1
  {
    var b0: int := p[0];
    var n := SequenceLength(p[0]);
    if n == 1 then (b0, 1)
    else if n == 0 || |p| < n then (RuneError, 1)
    else if p[1] < SecondLow(p[0]) || SecondHigh(p[0]) < p[1] then (RuneError, 1)
    else if n == 2 then ((b0 - 0xC0) * 0x40 + (p[1] as int - 0x80), 2)
    else if !IsContinuation(p[2]) then (RuneError, 1)
    else if n == 3 then ((b0 - 0xE0) * 0x1000 + (p[1] as int - 0x80) * 0x40 + (p[2] as int - 0x80), 3)
    else if !IsContinuation(p[3]) then (RuneError, 1)
    else ((b0 - 0xF0) * 0x40000 + (p[1] as int - 0x80) * 0x1000 + (p[2] as int - 0x80) * 0x40 + (p[3] as int - 0x80), 4)
  }

  /** `utf8.EncodeRune` for a scalar value. */
  function EncodeRune(r: int): (e: Bytes)
    requires IsScalar(r)
  {
    if r < 0x80 then [r]
    else if r < 0x800 then [0xC0 + r / 0x40, 0x80 + r % 0x40]
    else if r < 0x10000 then [0xE0 + r / 0x1000, 0x80 + r / 0x40 % 0x40, 0x80 + r % 0x40]
    else [0xF0 + r / 0x40000, 0x80 + r / 0x1000 % 0x40, 0x80 + r / 0x40 % 0x40, 0x80 + r % 0x40]
  }

  /** Splitting off the low six bits. */
  lemma SixBits(x: int, y: int)
    requires 0 <= x && 0 <= y < 0x40
    ensures (x * 0x40 + y) / 0x40 == x && (x * 0x40 + y) % 0x40 == y
  {
  }

  lemma SplitSixBits(r: int)
    requires 0 <= r
    ensures r == r / 0x40 * 0x40 + r % 0x40 && 0 <= r % 0x40 < 0x40
  {
  }

  /** Decoding undoes encoding: every scalar value is read back whole. */
  lemma DecodeEncode(r: int)
    requires IsScalar(r)
    ensures |EncodeRune(r)| == EncodedLength(r)
    ensures DecodeRune(EncodeRune(r)) == (r, EncodedLength(r))
  {
    var e := EncodeRune(r);
    SplitSixBits(r);
    var q1 := r / 0x40;
    SplitSixBits(q1);
    var q2 := q1 / 0x40;
    SplitSixBits(q2);
    var q3 := q2 / 0x40;
    if r < 0x80 {
    } else if r < 0x800 {
      assert e == [0xC0 + q1, 0x80 + r % 0x40];
    } else if r < 0x10000 {
      assert r / 0x1000 == q2 by { Div4096(r); }
      assert e == [0xE0 + q2, 0x80 + q1 % 0x40, 0x80 + r % 0x40];
    } else {
      assert r / 0x1000 == q2 by { Div4096(r); }
      assert r / 0x40000 == q3 by { Div262144(r); }
      assert e == [0xF0 + q3, 0x80 + q2 % 0x40, 0x80 + q1 % 0x40, 0x80 + r % 0x40];
    }
  }

  lemma Div4096(r: int)
    requires 0 <= r
    ensures r / 0x1000 == r / 0x40 / 0x40
  {
  }

  lemma Div262144(r: int)
    requires 0 <= r
    ensures r / 0x40000 == r / 0x1000 / 0x40
  {
  }

  /** Decoding looks no further than the sequence it decodes: bytes after a
      complete, valid sequence `q` do not change the result. */
  lemma DecodeReadsOnlyItsBytes(p: Bytes, q: Bytes)
    requires 0 < |q| <= |p| && q == p[..|q|]
    requires DecodeRune(q).1 == |q| && (DecodeRune(q).0 != RuneError || |q| > 1)
    ensures DecodeRune(p) == DecodeRune(q)
  {
    assert p[0] == q[0];
    if |q| > 1 { assert p[1] == q[1]; }
    if |q| > 2 { assert p[2] == q[2]; }
    if |q| > 3 { assert p[3] == q[3]; }
  }

  /** Encoding undoes decoding: a successfully decoded rune re-encodes to
      exactly the bytes it was read from. */
  lemma EncodeDecode(p: Bytes)
    requires |p| > 0
    requires DecodeRune(p).0 != RuneError || DecodeRune(p).1 > 1
    ensures EncodeRune(DecodeRune(p).0) == p[..DecodeRune(p).1]
  {
    var (r, n) := DecodeRune(p);
    if n == 1 {
    } else if n == 2 {
      SixBits(p[0] as int - 0xC0, p[1] as int - 0x80);
    } else if n == 3 {
      var x := (p[0] as int - 0xE0) * 0x40 + (p[1] as int - 0x80);
      assert r == x * 0x40 + (p[2] as int - 0x80);
      SixBits(x, p[2] as int - 0x80);
      SixBits(p[0] as int - 0xE0, p[1] as int - 0x80);
      Div4096(r);
    } else {
      var y := (p[0] as int - 0xF0) * 0x40 + (p[1] as int - 0x80);
      var x := y * 0x40 + (p[2] as int - 0x80);
      assert r == x * 0x40 + (p[3] as int - 0x80);
      SixBits(x, p[3] as int - 0x80);
      SixBits(y, p[2] as int - 0x80);
      SixBits(p[0] as int - 0xF0, p[1] as int - 0x80);
      Div4096(r);
      Div262144(r);
    }
  }
}
