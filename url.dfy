/** Percent-decoding of a URL path, as Go's `url.PathUnescape` does it
    (section 2.1 of RFC 3986): every `%` must be followed by two hexadecimal
    digits, which stand for one byte; `+` is left alone. */
module Url {
  import opened Text

  const Percent: Byte := 0x25

  predicate IsHex(b: Byte) {
    0x30 <= b <= 0x39 || 0x41 <= b <= 0x46 || 0x61 <= b <= 0x66
  }

  function UnHex(b: Byte): (v: nat)
    requires IsHex(b)
    ensures v < 16
  {
    if b <= 0x39 then b - 0x30 else if b <= 0x46 then b - 0x41 + 10 else b - 0x61 + 10
  }

  /** The upper-case hexadecimal digit for a value below 16. */
  function HexDigit(v: nat): (b: Byte)
    requires v < 16
    ensures IsHex(b) && UnHex(b) == v
  {
    if v < 10 then 0x30 + v else 0x41 + v - 10
  }

  /** `url.PathUnescape`: `None` for a malformed escape (a `%` not followed by
      two hexadecimal digits), which Go reports as an `EscapeError`. */
  function PathUnescape(s: Bytes): Option<Bytes>
    decreases |s|
  {
    if s == [] then Some([])
    else if s[0] != Percent then
      match PathUnescape(s[1..])
      case None => None
      case Some(rest) => Some([s[0]] + rest)
    else if |s| < 3 || !IsHex(s[1]) || !IsHex(s[2]) then None
    else
      match PathUnescape(s[3..])
      case None => None
      case Some(rest) => Some([UnHex(s[1]) * 16 + UnHex(s[2])] + rest)
  }

  /** Writing every byte as a `%XX` escape. */
  function PercentEncode(s: Bytes): (e: Bytes)
    ensures |e| == 3 * |s|
  {
    if s == [] then [] else [Percent, HexDigit(s[0] / 16), HexDigit(s[0] % 16)] + PercentEncode(s[1..])
  }

  /** Decoding undoes percent-encoding. */
  lemma {:induction false} UnescapeEncode(s: Bytes)
    ensures PathUnescape(PercentEncode(s)) == Some(s)
  {
    if s != [] {
      var e := PercentEncode(s);
      assert e[3..] == PercentEncode(s[1..]);
      UnescapeEncode(s[1..]);
      assert [s[0]] + s[1..] == s;
    }
  }

  /** Without a `%` there is nothing to decode. */
  lemma {:induction false} UnescapePlain(s: Bytes)
    requires Percent !in s
    ensures PathUnescape(s) == Some(s)
  {
    if s != [] {
      UnescapePlain(s[1..]);
      assert [s[0]] + s[1..] == s;
    }
  }

  /** Decoding is local: plain bytes before an escape pass through unchanged. */
  lemma {:induction false} UnescapeAfterPlain(a: Bytes, rest: Bytes)
    requires Percent !in a
    ensures PathUnescape(a + rest) ==
      match PathUnescape(rest)
      case None => None
      case Some(r) => Some(a + r)
  {
    if a != [] {
      assert (a + rest)[1..] == a[1..] + rest;
      UnescapeAfterPlain(a[1..], rest);
      assert [a[0]] + (a[1..] + rest) == a + rest;
      match PathUnescape(rest)
      case None =>
      case Some(r) => assert [a[0]] + (a[1..] + r) == a + r;
    } else {
      assert a + rest == rest;
      match PathUnescape(rest)
      case None =>
      case Some(r) => assert a + r == r;
    }
  }

  /** `%20` is a space: `SPACE%20NAME.md` names the file `SPACE NAME.md`. */
  lemma EscapedSpace(a: Bytes, b: Bytes)
    requires Percent !in a && Percent !in b
    ensures PathUnescape(a + [Percent, 0x32, 0x30] + b) == Some(a + [0x20] + b)
  {
    var esc := [Percent, 0x32, 0x30] + b;
    assert a + [Percent, 0x32, 0x30] + b == a + esc;
    UnescapeAfterPlain(a, esc);
    assert esc[3..] == b;
    UnescapePlain(b);
    assert a + ([0x20] + b) == a + [0x20] + b;
  }
}
