/** Lexical path handling as Go's `path/filepath` does it on a Unix system
    (separator `/`, no volume names). A path string is read as a sequence of
    segments; `Clean`, `Dir`, `Join`, `Abs` and `Rel` are string functions
    defined through that reading, as Go's are. */
module Paths {
  import opened Text

  const Slash: Byte := 0x2F
  const DotByte: Byte := 0x2E
  const Dot: Bytes := [DotByte]
  const DotDot: Bytes := [DotByte, DotByte]
  const DotDotSlash: Bytes := [DotByte, DotByte, Slash]

  /** A path: rooted or not, and its segments between separators. */
  datatype Path = Path(absolute: bool, segs: seq<Bytes>)

  predicate NoSlash(seg: Bytes) {
    Slash !in seg
  }

  predicate AllNoSlash(segs: seq<Bytes>) {
    forall k :: 0 <= k < |segs| ==> NoSlash(segs[k])
  }

  /** `strings.Join(segs, "/")`. */
  function JoinSegs(segs: seq<Bytes>): Bytes
    decreases |segs|
  {
    if |segs| == 0 then []
    else if |segs| == 1 then segs[0]
    else segs[0] + [Slash] + JoinSegs(segs[1..])
  }

  /** `strings.Split(s, "/")`: one more piece than there are separators. */
  function Split(s: Bytes): (r: seq<Bytes>)
    ensures |r| >= 1 && AllNoSlash(r)
    ensures JoinSegs(r) == s
    decreases |s|
  {
    match IndexFrom(s, [Slash], 0)
    case None =>
      assert Slash !in s by {
        forall k | 0 <= k < |s| ensures s[k] != Slash {
          OccursAtByte(s, Slash, k);
        }
      }
      [s]
    case Some(k) =>
      OccursAtByte(s, Slash, k);
      assert NoSlash(s[..k]) by {
        forall j | 0 <= j < k ensures s[..k][j] != Slash {
          OccursAtByte(s, Slash, j);
        }
      }
      var rest := Split(s[k + 1..]);
      assert s == s[..k] + [Slash] + s[k + 1..];
      [s[..k]] + rest
  }

  /** Splitting undoes joining, for segments without separators. */
  lemma {:induction false} SplitJoin(segs: seq<Bytes>)
    requires |segs| >= 1 && AllNoSlash(segs)
    ensures Split(JoinSegs(segs)) == segs
    decreases |segs|
  {
    var s := JoinSegs(segs);
    var s0 := segs[0];
    IndexOfFirstSlash(s0, if |segs| == 1 then [] else [Slash] + JoinSegs(segs[1..]));
    if |segs| == 1 {
      assert s == s0 + [];
    } else {
      assert s == s0 + ([Slash] + JoinSegs(segs[1..]));
      assert s[|s0| + 1..] == JoinSegs(segs[1..]);
      SplitJoin(segs[1..]);
    }
  }

  /** The first separator of `seg + rest` is the first of `rest`, when `seg` has none
      and `rest` is empty or starts with one. */
  lemma IndexOfFirstSlash(seg: Bytes, rest: Bytes)
    requires NoSlash(seg)
    requires rest == [] || rest[0] == Slash
    ensures rest == [] ==> IndexFrom(seg + rest, [Slash], 0).None?
    ensures rest != [] ==> IndexFrom(seg + rest, [Slash], 0) == Some(|seg|)
    ensures (seg + rest)[..|seg|] == seg
  {
    var s := seg + rest;
    forall k | 0 <= k < |seg| ensures !OccursAt(s, [Slash], k) {
      OccursAtByte(s, Slash, k);
    }
    if rest != [] {
      OccursAtByte(s, Slash, |seg|);
      IndexFromFindsFirst(s, [Slash], 0, |seg|);
    } else {
      assert s == seg;
      forall k | 0 <= k ensures !OccursAt(s, [Slash], k) {
        OccursAtByte(s, Slash, k);
      }
    }
  }

  /** `filepath.IsAbs` on Unix. */
  predicate IsAbs(s: Bytes) {
    HasPrefix(s, [Slash])
  }

  /** Reading a path string. */
  function Parse(s: Bytes): (p: Path)
    ensures AllNoSlash(p.segs) && |p.segs| >= 1
  {
    if IsAbs(s) then Path(true, Split(s[1..])) else Path(false, Split(s))
  }

  /** Writing a path string; the empty relative path is written `.`. */
  function Format(p: Path): Bytes {
    if p.absolute then [Slash] + JoinSegs(p.segs)
    else if p.segs == [] then Dot
    else JoinSegs(p.segs)
  }

  /** The shape `Clean` produces: no empty or `.` segment, and `..` only as a
      leading run of a relative path. */
  ghost predicate IsClean(p: Path) {
    AllNoSlash(p.segs) &&
    (forall k :: 0 <= k < |p.segs| ==> p.segs[k] != [] && p.segs[k] != Dot) &&
    (forall k :: 0 <= k < |p.segs| && p.segs[k] == DotDot ==>
       !p.absolute && forall j :: 0 <= j < k ==> p.segs[j] == DotDot)
  }

  /** One step of cleaning: add `seg` to the cleaned prefix `acc`. */
  function Push(absolute: bool, acc: seq<Bytes>, seg: Bytes): seq<Bytes> {
    if seg == [] || seg == Dot then acc
    else if seg == DotDot then
      if |acc| > 0 && acc[|acc| - 1] != DotDot then acc[..|acc| - 1]
      else if absolute then acc
      else acc + [DotDot]
    else acc + [seg]
  }

  function CleanSegs(absolute: bool, acc: seq<Bytes>, segs: seq<Bytes>): (r: seq<Bytes>)
    requires IsClean(Path(absolute, acc)) && AllNoSlash(segs)
    ensures IsClean(Path(absolute, r))
    decreases |segs|
  {
    if segs == [] then acc
    else CleanSegs(absolute, Push(absolute, acc, segs[0]), segs[1..])
  }

  /** Lexical cleaning of a path value. */
  function CleanPath(p: Path): (r: Path)
    requires AllNoSlash(p.segs)
    ensures IsClean(r) && r.absolute == p.absolute
  {
    Path(p.absolute, CleanSegs(p.absolute, [], p.segs))
  }

  /** `filepath.Clean`. */
  function Clean(s: Bytes): Bytes {
    Format(CleanPath(Parse(s)))
  }

  /** Cleaning leaves a clean path as it is. */
  lemma {:induction false} CleanSegsOfClean(absolute: bool, acc: seq<Bytes>, segs: seq<Bytes>)
    requires IsClean(Path(absolute, acc + segs))
    ensures IsClean(Path(absolute, acc)) && AllNoSlash(segs)
    ensures CleanSegs(absolute, acc, segs) == acc + segs
    decreases |segs|
  {
    var all := acc + segs;
    assert forall k :: 0 <= k < |acc| ==> acc[k] == all[k];
    assert forall k :: 0 <= k < |segs| ==> segs[k] == all[|acc| + k];
    if segs != [] {
      var s0 := segs[0];
      assert s0 == all[|acc|];
      if s0 == DotDot {
        assert !absolute;
        assert |acc| > 0 ==> acc[|acc| - 1] == DotDot;
      }
      assert Push(absolute, acc, s0) == acc + [s0];
      assert acc + [s0] + segs[1..] == all;
      CleanSegsOfClean(absolute, acc + [s0], segs[1..]);
    } else {
      assert all == acc;
    }
  }

  /** Reading back a written clean path and cleaning it gives the same path. */
  lemma {:induction false} CleanFormat(p: Path)
    requires IsClean(p)
    ensures CleanPath(Parse(Format(p))) == p
  {
    if p.segs == [] {
      if p.absolute {
        assert Format(p)[1..] == [];
        var e: Bytes := [];
        assert Split(e) == [e] by { IndexOfFirstSlash(e, e); assert e + e == e; }
        assert IsAbs(Format(p));
        assert Parse(Format(p)) == Path(true, [e]);
        assert [e][1..] == [];
        assert CleanSegs(true, [], [e]) == [];
      } else {
        assert Split(Dot) == [Dot] by { IndexOfFirstSlash(Dot, []); assert Dot + [] == Dot; }
        assert !IsAbs(Dot);
        assert Parse(Format(p)) == Path(false, [Dot]);
        assert [Dot][1..] == [];
        assert CleanSegs(false, [], [Dot]) == [];
      }
    } else {
      if p.absolute {
        assert Format(p)[1..] == JoinSegs(p.segs);
      } else {
        assert p.segs[0] != [] && p.segs[0] != Dot;
        assert Format(p)[0] == p.segs[0][0] by {
          if |p.segs| > 1 {
            assert Format(p) == p.segs[0] + ([Slash] + JoinSegs(p.segs[1..]));
          }
        }
        assert p.segs[0][0] != Slash;
      }
      SplitJoin(p.segs);
      assert [] + p.segs == p.segs;
      CleanSegsOfClean(p.absolute, [], p.segs);
    }
  }

  /** `filepath.Clean` is idempotent. */
  lemma CleanIdempotent(s: Bytes)
    ensures Clean(Clean(s)) == Clean(s)
  {
    CleanFormat(CleanPath(Parse(s)));
  }

  /** The index of the last separator in `s`, or -1 when there is none. */
  function LastSlash(s: Bytes): (i: int)
    ensures -1 <= i < |s|
    ensures i >= 0 ==> s[i] == Slash
    ensures forall k :: i < k < |s| ==> s[k] != Slash
  {
    if s == [] then -1
    else if s[|s| - 1] == Slash then |s| - 1
    else LastSlash(s[..|s| - 1])
  }

  /** `filepath.Dir`: everything up to and including the last separator, cleaned. */
  function Dir(s: Bytes): Bytes {
    Clean(s[..LastSlash(s) + 1])
  }

  /** `filepath.Join` of two elements: empty elements are skipped and the
      joined string is cleaned. */
  function Join(a: Bytes, b: Bytes): Bytes {
    if a != [] then Clean(a + [Slash] + b)
    else if b != [] then Clean(b)
    else []
  }

  /** `filepath.Abs`. `cwd` stands for what `os.Getwd` returns; `None` is its
      failure, the only way `Abs` can fail. */
  function Abs(cwd: Option<Bytes>, s: Bytes): (r: Option<Bytes>)
    ensures r.None? <==> !IsAbs(s) && cwd.None?
  {
    if IsAbs(s) then Some(Clean(s))
    else match cwd
      case None => None
      case Some(wd) => Some(Join(wd, s))
  }

  /** The length of the longest common prefix of two segment lists. */
  function CommonPrefix(a: seq<Bytes>, b: seq<Bytes>): (c: nat)
    ensures c <= |a| && c <= |b| && a[..c] == b[..c]
    ensures c < |a| && c < |b| ==> a[c] != b[c]
  {
    if a == [] || b == [] || a[0] != b[0] then 0
    else
      var c := 1 + CommonPrefix(a[1..], b[1..]);
      assert a[..c] == [a[0]] + a[1..][..c - 1];
      assert b[..c] == [b[0]] + b[1..][..c - 1];
      c
  }

  function Repeat(x: Bytes, n: nat): (r: seq<Bytes>)
    ensures |r| == n && forall k :: 0 <= k < n ==> r[k] == x
  {
    if n == 0 then [] else [x] + Repeat(x, n - 1)
  }

  /** `filepath.Rel(basepath, targpath)`: a relative path that joined to
      `basepath` names `targpath`, or `None` when Go reports an error (one is
      rooted and the other is not, or `basepath` must climb out of a leading `..`). */
  function Rel(basepath: Bytes, targpath: Bytes): Option<Bytes> {
    RelPaths(CleanPath(Parse(basepath)), CleanPath(Parse(targpath)))
  }

  /** `Rel` on the cleaned paths. */
  function RelPaths(base: Path, targ: Path): Option<Bytes> {
    if Format(targ) == Format(base) then Some(Dot)
    else if base.absolute != targ.absolute then None
    else
      var c := CommonPrefix(base.segs, targ.segs);
      if c < |base.segs| && base.segs[c] == DotDot then None
      else Some(Format(Path(false, Repeat(DotDot, |base.segs| - c) + targ.segs[c..])))
  }

  /** The lexical meaning of "inside": after cleaning, `target` is `root` or
      lies below it, segment by segment (so `/root-extra` is not inside `/root`). */
  ghost predicate Within(root: Bytes, target: Bytes) {
    Below(CleanPath(Parse(root)), CleanPath(Parse(target)))
  }

  predicate Below(r: Path, t: Path) {
    r.absolute == t.absolute && |r.segs| <= |t.segs| && t.segs[..|r.segs|] == r.segs
  }

  /** The relative path "climbs out" when it is `..` or starts with `../`. */
  predicate ClimbsOut(rel: Bytes) {
    rel == DotDot || HasPrefix(rel, DotDotSlash)
  }

  /** A joined segment list begins with its first segment, followed by a
      separator when more segments follow. */
  lemma JoinSegsHead(segs: seq<Bytes>)
    requires |segs| >= 1
    ensures |segs| == 1 ==> JoinSegs(segs) == segs[0]
    ensures |segs| > 1 ==> JoinSegs(segs) == segs[0] + ([Slash] + JoinSegs(segs[1..]))
  {
  }

  /** A relative path whose first segment is `..` climbs out. */
  lemma HeadDotDotClimbs(segs: seq<Bytes>)
    requires |segs| >= 1 && segs[0] == DotDot
    ensures ClimbsOut(Format(Path(false, segs)))
  {
    JoinSegsHead(segs);
    var rel := JoinSegs(segs);
    if |segs| > 1 {
      assert rel[..3] == DotDotSlash;
    }
  }

  /** A relative path whose first segment is an ordinary name stays in place. */
  lemma OrdinaryHeadStays(segs: seq<Bytes>)
    requires |segs| >= 1 && NoSlash(segs[0])
    requires segs[0] != [] && segs[0] != Dot && segs[0] != DotDot
    ensures !ClimbsOut(Format(Path(false, segs)))
  {
    JoinSegsHead(segs);
    var rel := JoinSegs(segs);
    var s0 := segs[0];
    assert rel[..|s0|] == s0;
    if |segs| > 1 {
      assert rel[|s0|] == Slash;
      assert |rel| > |s0|;
    }
    if |s0| == 1 {
      assert s0 != [DotByte];
      assert rel[0] != DotByte;
    } else if |s0| == 2 {
      assert rel[..2] == s0;
    } else {
      assert rel[2] == s0[2];
      assert s0[2] != Slash;
    }
  }

  /** Formats of clean paths are equal only for equal paths. */
  lemma FormatInjective(p: Path, q: Path)
    requires IsClean(p) && IsClean(q) && Format(p) == Format(q)
    ensures p == q
  {
    CleanFormat(p);
    CleanFormat(q);
  }

  lemma {:induction false} RelPathsContainment(b: Path, t: Path, rel: Bytes)
    requires IsClean(b) && IsClean(t)
    requires RelPaths(b, t) == Some(rel) && !ClimbsOut(rel)
    ensures Below(b, t)
  {
    if Format(t) == Format(b) {
      FormatInjective(t, b);
    } else {
      var c := CommonPrefix(b.segs, t.segs);
      var segs := Repeat(DotDot, |b.segs| - c) + t.segs[c..];
      if c < |b.segs| {
        HeadDotDotClimbs(segs);
      }
    }
  }

  /** Soundness of the containment test: when `Rel` succeeds and its result
      does not climb out, the target lies inside the base. */
  lemma RelContainment(base: Bytes, targ: Bytes, rel: Bytes)
    requires Rel(base, targ) == Some(rel) && !ClimbsOut(rel)
    ensures Within(base, targ)
  {
    RelPathsContainment(CleanPath(Parse(base)), CleanPath(Parse(targ)), rel);
  }

  /** A prefix is shared in full; a proper prefix leaves something over. */
  lemma PrefixIsCommon(a: seq<Bytes>, b: seq<Bytes>)
    requires |a| <= |b| && b[..|a|] == a
    ensures CommonPrefix(a, b) == |a|
    ensures a != b ==> |a| < |b|
  {
    if |a| == |b| {
      assert b == b[..|a|];
    }
  }

  lemma {:induction false} RelPathsOfBelow(b: Path, t: Path)
    requires IsClean(b) && IsClean(t) && b.absolute && Below(b, t)
    ensures RelPaths(b, t).Some? && !ClimbsOut(RelPaths(b, t).value)
  {
    if Format(t) != Format(b) {
      var c := CommonPrefix(b.segs, t.segs);
      PrefixIsCommon(b.segs, t.segs);
      var segs := t.segs[c..];
      assert Repeat(DotDot, 0) + segs == segs;
      assert segs[0] == t.segs[c];
      OrdinaryHeadStays(segs);
    }
  }

  /** Completeness of the containment test for rooted paths: a target inside
      the base is never reported as climbing out. */
  lemma RelOfContained(base: Bytes, targ: Bytes)
    requires IsAbs(base) && Within(base, targ)
    ensures Rel(base, targ).Some? && !ClimbsOut(Rel(base, targ).value)
  {
    RelPathsOfBelow(CleanPath(Parse(base)), CleanPath(Parse(targ)));
  }
}
