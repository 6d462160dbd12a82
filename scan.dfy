/** The printable text of rendered terminal output. `printableRunesAndOffsets`
    walks the bytes once. It skips control sequences introduced by `ESC [`
    (the 7-bit CSI of section 5.4 of ECMA-48) up to and including the first
    final byte in 0x40..0x7E, and decodes everything else as UTF-8, one
    printable unit at a time.

    The scan is specified by `Pieces`, which splits the input into escape
    sequences and printable units that together cover every byte once. */
module Scan {
  import opened Text
  import Utf8

  const Esc: Byte := 0x1B
  const LeftBracket: Byte := 0x5B

  /** A byte that ends a control sequence. */
  predicate IsFinal(b: Byte) {
    0x40 <= b <= 0x7E
  }

  /** `ESC [` at `i`. A lone `ESC`, or `ESC` before anything else, does not start a sequence. */
  predicate StartsEscape(s: Bytes, i: nat) {
    i + 1 < |s| && s[i] == Esc && s[i + 1] == LeftBracket
  }

  /** The end of a control sequence whose parameter bytes start at `j`: just
      past the first final byte, or the end of the input when there is none. */
  function EscapeEnd(s: Bytes, j: nat): (e: nat)
    requires j <= |s|
    ensures j <= e <= |s|
    ensures forall k :: j <= k < e - 1 ==> !IsFinal(s[k])
    ensures (j < e && IsFinal(s[e - 1])) || (e == |s| && forall k :: j <= k < |s| ==> !IsFinal(s[k]))
    decreases |s| - j
  {
    if j == |s| then j
    else if IsFinal(s[j]) then j + 1
    else EscapeEnd(s, j + 1)
  }

  /** One printable unit at `i`: the decoded rune and its width. A byte that
      does not start a valid sequence is a unit of width 1 whose value is the byte. */
  function DecodeUnit(s: Bytes, i: nat): (u: (int, nat))
    requires i < |s|
    ensures 1 <= u.1 <= |s| - i
    ensures u.1 == 1 ==> u.0 == s[i]
    ensures u.1 > 1 ==> Utf8.IsScalar(u.0) && Utf8.EncodeRune(u.0) == s[i..i + u.1]
  {
    var (r, n) := Utf8.DecodeRune(s[i..]);
    if r == Utf8.RuneError && n == 1 then (s[i] as int, 1)
    else
      Utf8.EncodeDecode(s[i..]);
      assert s[i..][..n] == s[i..i + n];
      if n == 1 then
        Utf8.DecodeEncode(r);
        (r, n)
      else (r, n)
  }

  /** A well-formed UTF-8 character is read as one unit, whatever follows it. */
  lemma DecodeUnitReadsCharacter(s: Bytes, i: nat, r: int)
    requires i < |s| && Utf8.IsScalar(r) && HasPrefix(s[i..], Utf8.EncodeRune(r))
    ensures DecodeUnit(s, i) == (r, |Utf8.EncodeRune(r)|)
  {
    var e := Utf8.EncodeRune(r);
    Utf8.DecodeEncode(r);
    Utf8.DecodeReadsOnlyItsBytes(s[i..], e);
  }

  /** A stretch of the input: a skipped control sequence or a printable unit. */
  datatype Piece = Escape(start: nat, end: nat) | Unit(rune: int, start: nat, end: nat)

  /** The input from `i` on, split as the scan walks it. */
  function Pieces(s: Bytes, i: nat): seq<Piece>
    requires i <= |s|
    decreases |s| - i
  {
    if i == |s| then []
    else
      var p := NextPiece(s, i);
      [p] + Pieces(s, p.end)
  }

  /** The piece the scan reads at `i`. */
  function NextPiece(s: Bytes, i: nat): (p: Piece)
    requires i < |s|
    ensures p.start == i < p.end <= |s|
  {
    if StartsEscape(s, i) then Escape(i, EscapeEnd(s, i + 2))
    else
      var (r, n) := DecodeUnit(s, i);
      Unit(r, i, i + n)
  }

  /** The printable units among `ps`, in order. */
  function Units(ps: seq<Piece>): (us: seq<Piece>)
    ensures forall k :: 0 <= k < |us| ==> us[k].Unit?
  {
    if ps == [] then []
    else (if ps[0].Unit? then [ps[0]] else []) + Units(ps[1..])
  }

  function RunesOf(us: seq<Piece>): (r: seq<int>)
    requires forall k :: 0 <= k < |us| ==> us[k].Unit?
    ensures |r| == |us| && forall k :: 0 <= k < |us| ==> r[k] == us[k].rune
  {
    seq(|us|, k requires 0 <= k < |us| => us[k].rune)
  }

  function StartsOf(us: seq<Piece>): (r: seq<nat>)
    ensures |r| == |us| && forall k :: 0 <= k < |us| ==> r[k] == us[k].start
  {
    seq(|us|, k requires 0 <= k < |us| => us[k].start)
  }

  /** The printable runes of `s`. */
  function PrintableRunes(s: Bytes): seq<int> {
    RunesOf(Units(Pieces(s, 0)))
  }

  /** The starting byte of every printable unit, then `|s|` as a sentinel. */
  function Offsets(s: Bytes): seq<nat> {
    StartsOf(Units(Pieces(s, 0))) + [|s|]
  }

  lemma {:induction false} UnitsAppend(ps: seq<Piece>, p: Piece)
    ensures Units(ps + [p]) == Units(ps) + Units([p])
    decreases |ps|
  {
    if ps == [] {
      assert ps + [p] == [p];
    } else {
      assert (ps + [p])[1..] == ps[1..] + [p];
      UnitsAppend(ps[1..], p);
    }
  }

  /** One step of the scan: the next piece joins the pieces read so far, and
      adds its rune and start to the printable runes and offsets when it is a unit. */
  lemma Advance(s: Bytes, done: seq<Piece>, i: nat)
    requires i < |s| && Pieces(s, 0) == done + Pieces(s, i)
    ensures Pieces(s, 0) == (done + [NextPiece(s, i)]) + Pieces(s, NextPiece(s, i).end)
    ensures NextPiece(s, i).Escape? ==> Units(done + [NextPiece(s, i)]) == Units(done)
    ensures NextPiece(s, i).Unit? ==>
      RunesOf(Units(done + [NextPiece(s, i)])) == RunesOf(Units(done)) + [NextPiece(s, i).rune] &&
      StartsOf(Units(done + [NextPiece(s, i)])) == StartsOf(Units(done)) + [i]
  {
    var p := NextPiece(s, i);
    assert Pieces(s, i) == [p] + Pieces(s, p.end);
    assert done + ([p] + Pieces(s, p.end)) == (done + [p]) + Pieces(s, p.end);
    UnitsAppend(done, p);
    if p.Unit? {
      assert Units([p]) == [p] by {
        assert [p][1..] == [];
      }
      RunesAppend(Units(done), p);
    } else {
      assert Units([p]) == [];
      assert Units(done) + [] == Units(done);
    }
  }

  lemma RunesAppend(us: seq<Piece>, p: Piece)
    requires forall k :: 0 <= k < |us| ==> us[k].Unit?
    requires p.Unit?
    ensures RunesOf(us + [p]) == RunesOf(us) + [p.rune]
    ensures StartsOf(us + [p]) == StartsOf(us) + [p.start]
  {
  }

  /** `printableRunesAndOffsets`. */
  method PrintableRunesAndOffsets(s: Bytes) returns (runes: seq<int>, offsets: seq<nat>)
    ensures runes == PrintableRunes(s) && offsets == Offsets(s)
  {
    runes, offsets := [], [];
    ghost var done: seq<Piece> := [];
    var i := 0;
    while i < |s|
      invariant 0 <= i <= |s|
      invariant Pieces(s, 0) == done + Pieces(s, i)
      invariant runes == RunesOf(Units(done))
      invariant offsets == StartsOf(Units(done))
      decreases |s| - i
    {
      Advance(s, done, i);
      ghost var p := NextPiece(s, i);
      if s[i] == Esc && i + 1 < |s| && s[i + 1] == LeftBracket {
        var e := SkipEscape(s, i);
        assert p == Escape(i, e);
        done := done + [p];
        i := e;
        continue;
      }
      var r, size := ReadUnit(s, i);
      assert p == Unit(r, i, i + size);
      runes := runes + [r];
      offsets := offsets + [i];
      done := done + [p];
      i := i + size;
      assert i == p.end;
    }
    assert done + [] == done;
    offsets := offsets + [|s|];
  }

  /** Decoding one printable unit: a byte that is not valid UTF-8 stands for itself. */
  method ReadUnit(s: Bytes, i: nat) returns (r: int, size: nat)
    requires i < |s|
    ensures (r, size) == DecodeUnit(s, i)
  {
    r, size := Utf8.DecodeRune(s[i..]).0, Utf8.DecodeRune(s[i..]).1;
    if r == Utf8.RuneError && size == 1 {
      r := s[i];
      size := 1;
    }
  }

  /** The inner loop of `printableRunesAndOffsets`: skip `ESC [` and the
      control sequence after it, through its final byte. */
  method SkipEscape(s: Bytes, i: nat) returns (e: nat)
    requires StartsEscape(s, i)
    ensures e == EscapeEnd(s, i + 2)
  {
    e := i + 2;
    while e < |s|
      invariant i + 2 <= e <= |s|
      invariant EscapeEnd(s, e) == EscapeEnd(s, i + 2)
      decreases |s| - e
    {
      var c := s[e];
      e := e + 1;
      if 0x40 <= c <= 0x7E {
        break;
      }
    }
  }

  /** The first piece from `i`, and the rest. */
  lemma PiecesStep(s: Bytes, i: nat)
    requires i < |s|
    ensures Pieces(s, i) == [NextPiece(s, i)] + Pieces(s, NextPiece(s, i).end)
  {
  }

  /** `ps` covers `[i, n)`: pieces in order, each non-empty, with no gaps. */
  ghost predicate Tiling(ps: seq<Piece>, i: nat, n: nat) {
    (ps == [] <==> i == n) &&
    (ps != [] ==> ps[0].start == i && ps[|ps| - 1].end == n) &&
    (forall k :: 0 <= k < |ps| ==> i <= ps[k].start < ps[k].end <= n) &&
    (forall k :: 0 <= k < |ps| - 1 ==> ps[k].end == ps[k + 1].start)
  }

  /** Pieces lie between `i` and the end of the input, in order, with no gaps. */
  lemma {:induction false} PiecesTile(s: Bytes, i: nat)
    requires i <= |s|
    ensures Tiling(Pieces(s, i), i, |s|)
    decreases |s| - i
  {
    if i < |s| {
      var p := NextPiece(s, i);
      PiecesStep(s, i);
      PiecesTile(s, p.end);
      TileCons(p, Pieces(s, p.end), |s|);
    }
  }

  /** A piece followed by a tiling of the rest of the input tiles it from the piece's start. */
  lemma TileCons(p: Piece, rest: seq<Piece>, n: nat)
    requires p.start < p.end && Tiling(rest, p.end, n)
    ensures Tiling([p] + rest, p.start, n)
  {
    var ps := [p] + rest;
    forall k | 1 <= k < |ps| ensures ps[k] == rest[k - 1] { }
  }

  /** Later pieces start after earlier ones end. */
  lemma PiecesOrdered(s: Bytes, i: nat, k: nat, k': nat)
    requires i <= |s| && k < k' < |Pieces(s, i)|
    ensures Pieces(s, i)[k].end <= Pieces(s, i)[k'].start
  {
    PiecesTile(s, i);
    TilingOrdered(Pieces(s, i), i, |s|, k, k');
  }

  lemma {:induction false} TilingOrdered(ps: seq<Piece>, i: nat, n: nat, k: nat, k': nat)
    requires Tiling(ps, i, n) && k < k' < |ps|
    ensures ps[k].end <= ps[k'].start
    decreases k' - k
  {
    if k + 1 < k' {
      TilingOrdered(ps, i, n, k + 1, k');
    }
  }

  /** Byte coverage: every byte of the input lies in exactly one piece. */
  lemma ByteCoverage(s: Bytes, b: nat) returns (j: nat)
    requires b < |s|
    ensures j < |Pieces(s, 0)| && Pieces(s, 0)[j].start <= b < Pieces(s, 0)[j].end
    ensures forall k :: 0 <= k < |Pieces(s, 0)| && Pieces(s, 0)[k].start <= b < Pieces(s, 0)[k].end ==> k == j
  {
    PiecesTile(s, 0);
    j := TilingCovers(Pieces(s, 0), |s|, b);
  }

  lemma TilingCovers(ps: seq<Piece>, n: nat, b: nat) returns (j: nat)
    requires Tiling(ps, 0, n) && b < n
    ensures j < |ps| && ps[j].start <= b < ps[j].end
    ensures forall k :: 0 <= k < |ps| && ps[k].start <= b < ps[k].end ==> k == j
  {
    j := 0;
    while ps[j].end <= b
      invariant j < |ps| && ps[j].start <= b
      decreases |ps| - j
    {
      j := j + 1;
    }
    forall k | 0 <= k < |ps| && ps[k].start <= b < ps[k].end ensures k == j {
      if k < j {
        TilingOrdered(ps, 0, n, k, j);
      } else if j < k {
        TilingOrdered(ps, 0, n, j, k);
      }
    }
  }

  /** What a piece looks like. A control sequence starts with `ESC [` and
      runs through its first final byte, or to the end of the input when it
      has none. A printable unit does not start with `ESC [` and is a valid
      UTF-8 encoding of its rune, or one byte carrying the byte's value. */
  ghost predicate Shaped(s: Bytes, p: Piece) {
    p.start < p.end <= |s| &&
    match p
    case Escape(a, e) =>
      StartsEscape(s, a) && a + 2 <= e &&
      (forall j :: a + 2 <= j < e - 1 ==> !IsFinal(s[j])) &&
      ((a + 2 < e && IsFinal(s[e - 1])) || (e == |s| && forall j :: a + 2 <= j < |s| ==> !IsFinal(s[j])))
    case Unit(r, a, e) =>
      !StartsEscape(s, a) &&
      (e == a + 1 ==> r == s[a]) &&
      (e > a + 1 ==> Utf8.IsScalar(r) && Utf8.EncodeRune(r) == s[a..e])
  }

  lemma NextPieceShaped(s: Bytes, i: nat)
    requires i < |s|
    ensures Shaped(s, NextPiece(s, i))
  {
  }

  /** Every piece of the scan is a control sequence or a printable unit, as `Shaped` describes. */
  lemma {:induction false} PieceShapes(s: Bytes, i: nat, k: nat)
    requires i <= |s| && k < |Pieces(s, i)|
    ensures i <= Pieces(s, i)[k].start && Shaped(s, Pieces(s, i)[k])
    decreases |s| - i
  {
    PiecesStep(s, i);
    var p := NextPiece(s, i);
    if k == 0 {
      NextPieceShaped(s, i);
    } else {
      PieceShapes(s, p.end, k - 1);
      assert Pieces(s, i)[k] == Pieces(s, p.end)[k - 1];
    }
  }

  /** A lone `ESC`, or `ESC` not followed by `[`, is an ordinary printable unit. */
  lemma LoneEscapeIsPrintable(s: Bytes, i: nat)
    requires i < |s| && s[i] == Esc && (i + 1 == |s| || s[i + 1] != LeftBracket)
    ensures Pieces(s, i)[0] == Unit(Esc as int, i, i + 1)
  {
    assert Utf8.DecodeRune(s[i..]) == (Esc as int, 1);
  }

  /** Every unit is one of the pieces. */
  lemma {:induction false} UnitsAreAmong(ps: seq<Piece>)
    ensures forall k :: 0 <= k < |Units(ps)| ==> Units(ps)[k] in ps
  {
    if ps != [] {
      UnitsAreAmong(ps[1..]);
      var us := Units(ps);
      var head := if ps[0].Unit? then [ps[0]] else [];
      forall k | 0 <= k < |us| ensures us[k] in ps {
        if k < |head| {
          assert us[k] == ps[0];
        } else {
          assert us[k] == Units(ps[1..])[k - |head|];
          assert us[k] in ps[1..];
        }
      }
    }
  }

  /** The units of the pieces from `i` start at or after `i`, in order. */
  lemma {:induction false} UnitsOrdered(s: Bytes, i: nat)
    requires i <= |s|
    ensures forall k :: 0 <= k < |Units(Pieces(s, i))| ==>
      i <= Units(Pieces(s, i))[k].start < Units(Pieces(s, i))[k].end <= |s|
    ensures forall k :: 0 <= k < |Units(Pieces(s, i))| - 1 ==>
      Units(Pieces(s, i))[k].end <= Units(Pieces(s, i))[k + 1].start
    decreases |s| - i
  {
    if i < |s| {
      var ps := Pieces(s, i);
      PiecesStep(s, i);
      var e := ps[0].end;
      UnitsOrdered(s, e);
      assert Units(ps) == (if ps[0].Unit? then [ps[0]] else []) + Units(Pieces(s, e));
    }
  }

  /** Offset table shape: one entry per printable rune plus the sentinel
      `|s|`, strictly increasing, every entry before the sentinel a byte of `s`. */
  lemma OffsetTable(s: Bytes)
    ensures |Offsets(s)| == |PrintableRunes(s)| + 1
    ensures Offsets(s)[|Offsets(s)| - 1] == |s|
    ensures forall k :: 0 <= k < |Offsets(s)| - 1 ==> Offsets(s)[k] < |s|
    ensures forall k, k' :: 0 <= k < k' < |Offsets(s)| ==> Offsets(s)[k] < Offsets(s)[k']
  {
    UnitsOrdered(s, 0);
    var us := Units(Pieces(s, 0));
    var os := Offsets(s);
    assert os == StartsOf(us) + [|s|];
    forall k | 0 <= k < |os| - 1 ensures os[k] < os[k + 1] {
      if k + 1 < |us| {
        assert os[k] == us[k].start && os[k + 1] == us[k + 1].start;
        assert us[k].start < us[k].end <= us[k + 1].start;
      } else {
        assert os[k] == us[k].start && os[k + 1] == |s|;
        assert us[k].start < us[k].end <= |s|;
      }
    }
    forall k, k' | 0 <= k < k' < |os| ensures os[k] < os[k'] {
      Increasing(os, k, k');
    }
  }

  lemma {:induction false} Increasing(xs: seq<nat>, k: nat, k': nat)
    requires forall j :: 0 <= j < |xs| - 1 ==> xs[j] < xs[j + 1]
    requires k < k' < |xs|
    ensures xs[k] < xs[k']
    decreases k' - k
  {
    if k + 1 < k' {
      Increasing(xs, k + 1, k');
    }
  }

  /** Offsets fall on boundaries: no entry of the offset table lies strictly
      inside a piece, so cutting at offsets never splits a control sequence
      or a multi-byte character. */
  lemma OffsetsAreBoundaries(s: Bytes, k: nat, j: nat)
    requires k < |Offsets(s)| && j < |Pieces(s, 0)|
    ensures !(Pieces(s, 0)[j].start < Offsets(s)[k] < Pieces(s, 0)[j].end)
  {
    PiecesTile(s, 0);
    TilingBoundaries(Pieces(s, 0), |s|, k, j);
  }

  lemma TilingBoundaries(ps: seq<Piece>, n: nat, k: nat, j: nat)
    requires Tiling(ps, 0, n) && k < |StartsOf(Units(ps)) + [n]| && j < |ps|
    ensures !(ps[j].start < (StartsOf(Units(ps)) + [n])[k] < ps[j].end)
  {
    var us := Units(ps);
    UnitsAreAmong(ps);
    if k < |us| {
      var m :| 0 <= m < |ps| && ps[m] == us[k];
      if m < j {
        TilingOrdered(ps, 0, n, m, j);
      } else if j < m {
        TilingOrdered(ps, 0, n, j, m);
      }
    }
  }
}
