/** Go strings are byte strings. This module gives the byte type and the few
    functions of Go's `strings` package that the followable-link subsystem
    relies on, each with the contract Go documents for it.

    Whitespace and letter case are the ASCII approximations of Go's
    `unicode.IsSpace` and `unicode.ToLower`: non-ASCII spaces are not trimmed
    and non-ASCII letters are not folded. */
module Text {

  type Byte = b: int | 0 <= b < 256
  type Bytes = seq<Byte>

  datatype Option<+T> = None | Some(value: T) {
    function GetOr(default: T): T {
      match this
      case Some(v) => v
      case None => default
    }
  }

  /** ASCII whitespace as `strings.TrimSpace` sees it: `\t \n \v \f \r` and space. */
  predicate IsSpace(b: Byte) {
    b == 0x20 || 0x09 <= b <= 0x0D
  }

  /** The cutset `"<>"` of `strings.Trim(href, "<>")`. */
  predicate IsAngle(b: Byte) {
    b == 0x3C || b == 0x3E
  }

  predicate IsUpper(b: Byte) {
    0x41 <= b <= 0x5A
  }

  predicate IsAsciiLetter(b: Byte) {
    IsUpper(b) || 0x61 <= b <= 0x7A
  }

  function LowerByte(b: Byte): Byte {
    if IsUpper(b) then b + 0x20 else b
  }

  /** `strings.ToLower`, ASCII letters only. */
  function ToLower(s: Bytes): (r: Bytes)
    ensures |r| == |s|
    ensures forall k :: 0 <= k < |s| ==> r[k] == LowerByte(s[k])
  {
    seq(|s|, k requires 0 <= k < |s| => LowerByte(s[k]))
  }

  /** `strings.TrimLeftFunc`: drop the longest prefix whose bytes satisfy `cut`. */
  function TrimLeft(s: Bytes, cut: Byte -> bool): (r: Bytes)
    ensures |r| <= |s| && r == s[|s| - |r|..]
    ensures r == [] || !cut(r[0])
    ensures forall k :: 0 <= k < |s| - |r| ==> cut(s[k])
  {
    if s != [] && cut(s[0]) then TrimLeft(s[1..], cut) else s
  }

  /** `strings.TrimRightFunc`: drop the longest suffix whose bytes satisfy `cut`. */
  function TrimRight(s: Bytes, cut: Byte -> bool): (r: Bytes)
    ensures |r| <= |s| && r == s[..|r|]
    ensures r == [] || !cut(r[|r| - 1])
    ensures forall k :: |r| <= k < |s| ==> cut(s[k])
  {
    if s != [] && cut(s[|s| - 1]) then TrimRight(s[..|s| - 1], cut) else s
  }

  /** `strings.TrimFunc`: both ends. The result is the slice `s[a..b]` of `s`. */
  function Trim(s: Bytes, cut: Byte -> bool): Bytes {
    TrimRight(TrimLeft(s, cut), cut)
  }

  /** `strings.TrimSpace` (ASCII whitespace). */
  function TrimSpace(s: Bytes): Bytes {
    Trim(s, IsSpace)
  }

  /** `strings.Trim(s, "<>")`: every leading and trailing `<` or `>`, not one layer. */
  function TrimAngles(s: Bytes): Bytes {
    Trim(s, IsAngle)
  }

  /** What trimming keeps: a slice of `s` with no cut byte at either end,
      and only cut bytes removed. */
  lemma {:induction false} TrimIsSlice(s: Bytes, cut: Byte -> bool) returns (a: nat, b: nat)
    ensures a <= b <= |s| && Trim(s, cut) == s[a..b]
    ensures forall k :: 0 <= k < a ==> cut(s[k])
    ensures forall k :: b <= k < |s| ==> cut(s[k])
    ensures a < b ==> !cut(s[a]) && !cut(s[b - 1])
  {
    var l := TrimLeft(s, cut);
    var t := TrimRight(l, cut);
    a, b := SliceOfSuffix(s, l, t, cut);
  }

  /** A prefix `t` of a suffix `l` of `s`, where only cut bytes were dropped
      on either side and neither end byte of `t` is cut, is a slice `s[a..b]`. */
  lemma SliceOfSuffix(s: Bytes, l: Bytes, t: Bytes, cut: Byte -> bool) returns (a: nat, b: nat)
    requires |l| <= |s| && l == s[|s| - |l|..] && (forall k :: 0 <= k < |s| - |l| ==> cut(s[k]))
    requires |t| <= |l| && t == l[..|t|] && (forall k :: |t| <= k < |l| ==> cut(l[k]))
    requires t == [] || (!cut(t[0]) && !cut(t[|t| - 1]))
    ensures a <= b <= |s| && t == s[a..b]
    ensures forall k :: 0 <= k < a ==> cut(s[k])
    ensures forall k :: b <= k < |s| ==> cut(s[k])
    ensures a < b ==> !cut(s[a]) && !cut(s[b - 1])
  {
    a := |s| - |l|;
    b := a + |t|;
    forall j | 0 <= j < |t| ensures t[j] == s[a + j] {
      assert t[j] == l[j];
    }
    forall k | b <= k < |s| ensures cut(s[k]) {
      assert s[k] == l[k - a];
    }
  }

  /** Bytes that can never be cut survive trimming in place: an occurrence of
      a needle without cut bytes lies inside the trimmed slice. */
  lemma {:induction false} TrimKeepsOccurrence(s: Bytes, cut: Byte -> bool, needle: Bytes, k: nat)
    requires needle != [] && OccursAt(s, needle, k)
    requires forall j :: 0 <= j < |needle| ==> !cut(needle[j])
    ensures Contains(Trim(s, cut), needle)
  {
    var a, b := TrimIsSlice(s, cut);
    TrimBounds(s, cut, a, b, needle, k);
    OccursInSlice(s, a, b, needle, k);
    IndexFromFindsFirst(s[a..b], needle, 0, k - a);
  }

  lemma TrimBounds(s: Bytes, cut: Byte -> bool, a: nat, b: nat, needle: Bytes, k: nat)
    requires needle != [] && OccursAt(s, needle, k) && a <= b <= |s|
    requires forall j :: 0 <= j < |needle| ==> !cut(needle[j])
    requires forall j :: 0 <= j < a ==> cut(s[j])
    requires forall j :: b <= j < |s| ==> cut(s[j])
    ensures a <= k && k + |needle| <= b
  {
    assert s[k] == s[k..k + |needle|][0];
    assert s[k + |needle| - 1] == s[k..k + |needle|][|needle| - 1];
  }

  lemma OccursInSlice<T>(s: seq<T>, a: nat, b: nat, needle: seq<T>, k: nat)
    requires a <= k && k + |needle| <= b <= |s| && OccursAt(s, needle, k)
    ensures OccursAt(s[a..b], needle, k - a)
  {
    var t := s[a..b];
    var i := k - a;
    forall j | 0 <= j < |needle| ensures t[i..i + |needle|][j] == needle[j] {
      assert t[i + j] == s[k + j];
      assert s[k..k + |needle|][j] == s[k + j];
    }
  }

  /** A prefix without cut bytes survives trimming. */
  lemma TrimKeepsPrefix(s: Bytes, cut: Byte -> bool, p: Bytes)
    requires p != [] && HasPrefix(s, p)
    requires forall j :: 0 <= j < |p| ==> !cut(p[j])
    ensures HasPrefix(Trim(s, cut), p)
  {
    var a, b := TrimIsSlice(s, cut);
    assert s[0] == p[0];
    assert a == 0;
    assert s[|p| - 1] == p[|p| - 1];
    assert |p| <= b;
    var t := Trim(s, cut);
    assert t[..|p|] == s[..|p|];
  }

  /** A prefix without cut bytes survives trimming behind a run of cut bytes. */
  lemma LeadTrimKeepsPrefix(lead: Bytes, x: Bytes, cut: Byte -> bool, p: Bytes)
    requires forall j :: 0 <= j < |lead| ==> cut(lead[j])
    requires p != [] && HasPrefix(x, p)
    requires forall j :: 0 <= j < |p| ==> !cut(p[j])
    ensures HasPrefix(Trim(lead + x, cut), p)
  {
    assert lead + x == lead + x + [];
    TrimSurrounded(lead, x, [], cut);
    TrimKeepsPrefix(x, cut, p);
  }

  /** A string whose end bytes are not cut is left as it is. */
  lemma TrimUntouched(s: Bytes, cut: Byte -> bool)
    requires s != [] && !cut(s[0]) && !cut(s[|s| - 1])
    ensures Trim(s, cut) == s
  {
    var a, b := TrimIsSlice(s, cut);
  }

  /** Surrounding cut bytes disappear: trimming `pre + x + post` is trimming `x`. */
  lemma {:induction false} TrimSurrounded(pre: Bytes, x: Bytes, post: Bytes, cut: Byte -> bool)
    requires forall k :: 0 <= k < |pre| ==> cut(pre[k])
    requires forall k :: 0 <= k < |post| ==> cut(post[k])
    ensures Trim(pre + x + post, cut) == Trim(x, cut)
  {
    TrimLeftPrefix(pre, x + post, cut);
    assert pre + x + post == pre + (x + post);
    TrimRightSuffix(TrimLeft(x, cut), post, cut);
    TrimLeftBeforeSuffix(x, post, cut);
  }

  lemma {:induction false} TrimLeftPrefix(pre: Bytes, rest: Bytes, cut: Byte -> bool)
    requires forall k :: 0 <= k < |pre| ==> cut(pre[k])
    ensures TrimLeft(pre + rest, cut) == TrimLeft(rest, cut)
    decreases |pre|
  {
    if pre != [] {
      assert (pre + rest)[0] == pre[0];
      assert (pre + rest)[1..] == pre[1..] + rest;
      TrimLeftPrefix(pre[1..], rest, cut);
    } else {
      assert pre + rest == rest;
    }
  }

  lemma {:induction false} TrimRightSuffix(x: Bytes, post: Bytes, cut: Byte -> bool)
    requires forall k :: 0 <= k < |post| ==> cut(post[k])
    ensures TrimRight(x + post, cut) == TrimRight(x, cut)
    decreases |post|
  {
    if post != [] {
      var p' := post[..|post| - 1];
      assert (x + post)[|x + post| - 1] == post[|post| - 1];
      assert (x + post)[..|x + post| - 1] == x + p';
      TrimRightSuffix(x, p', cut);
    } else {
      assert x + post == x;
    }
  }

  /** Trimming on the left does not look at a suffix of cut bytes unless it
      reaches it, in which case everything is cut. */
  lemma {:induction false} TrimLeftBeforeSuffix(x: Bytes, post: Bytes, cut: Byte -> bool)
    requires forall k :: 0 <= k < |post| ==> cut(post[k])
    ensures TrimRight(TrimLeft(x + post, cut), cut) == TrimRight(TrimLeft(x, cut) + post, cut)
    decreases |x|
  {
    if x == [] {
      assert x + post == post;
    } else if cut(x[0]) {
      assert (x + post)[1..] == x[1..] + post;
      TrimLeftBeforeSuffix(x[1..], post, cut);
    } else {
      assert (x + post)[0] == x[0];
    }
  }

  predicate HasPrefix(s: Bytes, p: Bytes) {
    |p| <= |s| && s[..|p|] == p
  }

  predicate HasSuffix(s: Bytes, p: Bytes) {
    |p| <= |s| && s[|s| - |p|..] == p
  }

  /** `needle` occurs in `hay` at position `k`. */
  predicate OccursAt<T(==)>(hay: seq<T>, needle: seq<T>, k: int) {
    0 <= k && k + |needle| <= |hay| && hay[k..k + |needle|] == needle
  }

  /** The first occurrence of `needle` in `hay` at or after `from`, as
      `strings.Index(hay[from:], needle)` finds it (shifted by `from`). */
  function IndexFrom<T(==)>(hay: seq<T>, needle: seq<T>, from: nat): (r: Option<nat>)
    ensures r.Some? ==> from <= r.value && OccursAt(hay, needle, r.value)
    ensures forall k :: from <= k && (r.None? || k < r.value) ==> !OccursAt(hay, needle, k)
    decreases |hay| - from
  {
    if from + |needle| > |hay| then None
    else if hay[from..from + |needle|] == needle then Some(from)
    else IndexFrom(hay, needle, from + 1)
  }

  /** The search finds the first occurrence: any occurrence at or after
      `from` lies at or after what it returns. */
  lemma IndexFromFindsFirst<T>(hay: seq<T>, needle: seq<T>, from: nat, k: nat)
    requires from <= k && OccursAt(hay, needle, k)
    ensures IndexFrom(hay, needle, from).Some? && IndexFrom(hay, needle, from).value <= k
  {
  }

  /** `strings.Contains`. */
  predicate Contains(s: Bytes, sub: Bytes) {
    IndexFrom(s, sub, 0).Some?
  }

  /** A one-byte needle occurs exactly where that byte is. */
  lemma {:induction false} OccursAtByte(s: Bytes, b: Byte, k: int)
    ensures OccursAt(s, [b], k) <==> 0 <= k < |s| && s[k] == b
  {
    if 0 <= k < |s| {
      assert s[k..k + 1] == [s[k]];
    }
  }

  /** `strings.Contains(s, string(b))` is byte membership. */
  lemma {:induction false} ContainsByte(s: Bytes, b: Byte)
    ensures Contains(s, [b]) <==> b in s
  {
    if b in s {
      var k :| 0 <= k < |s| && s[k] == b;
      OccursAtByte(s, b, k);
      IndexFromFindsFirst(s, [b], 0, k);
    }
    if Contains(s, [b]) {
      var k := IndexFrom(s, [b], 0).value;
      OccursAtByte(s, b, k);
    }
  }
}
