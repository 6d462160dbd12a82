/** Followable links: which link destinations of a Markdown document the
    pager lets the reader follow, and where each one leads.

    A destination is followable when, after trimming, it is neither an
    external URL nor an absolute or UNC path and its path part ends in `.md`
    or `.markdown`. Resolution joins it to the directory of the current file
    and accepts it only when it stays inside the root directory and names a
    regular file. The filesystem is an oracle: the working directory behind
    `filepath.Abs`, `filepath.EvalSymlinks`, `os.Stat`, and the display
    helper `stripAbsolutePath`. */
module Links {
  import opened Text
  import Paths
  import Url

  const Hash: Byte := 0x23
  const Colon: Byte := 0x3A
  const Backslash: Byte := 0x5C
  /** `://` */
  const SchemeSeparator: Bytes := [0x3A, 0x2F, 0x2F]
  /** `mailto:` */
  const Mailto: Bytes := [0x6D, 0x61, 0x69, 0x6C, 0x74, 0x6F, 0x3A]
  /** `.md` */
  const MdExt: Bytes := [0x2E, 0x6D, 0x64]
  /** `.markdown` */
  const MarkdownExt: Bytes := [0x2E, 0x6D, 0x61, 0x72, 0x6B, 0x64, 0x6F, 0x77, 0x6E]

  /** A link the reader can follow. `label` is filled in by the document scan. */
  datatype FollowableLink = FollowableLink(
    href: Bytes, path: Bytes, fragment: Bytes, labelText: Bytes,
    resolvedPath: Bytes, resolvedNote: Bytes)

  /** A link destination and its text, as the Markdown parser reports them. */
  datatype RawLink = RawLink(href: Bytes, labelText: Bytes)

  datatype FileMode = RegularFile | Directory | OtherFile

  /** What the resolver learns from the operating system. `cwd` is `None`
      when the working directory cannot be determined; `evalSymlinks` and
      `stat` are `None` where the call fails. */
  datatype FileSystem = FileSystem(
    cwd: Option<Bytes>,
    evalSymlinks: Bytes -> Option<Bytes>,
    stat: Bytes -> Option<FileMode>,
    stripAbsolutePath: (Bytes, Bytes) -> Bytes)

  /** The two errors the resolver reports: `abs root dir` and `abs resolved path`. */
  datatype Error = AbsRootDir | AbsResolvedPath

  /** The resolver's `(link, ok, err)`: accepted, silently skipped, or failed. */
  datatype Resolution = Accepted(link: FollowableLink) | Skipped | Failed(error: Error)

  datatype Result<T> = Ok(value: T) | Err(error: Error)

  /** Surrounding whitespace, then every leading and trailing `<` or `>`, removed. */
  function Trimmed(href: Bytes): (h: Bytes)
    ensures |h| <= |href|
    ensures h == [] || (!IsAngle(h[0]) && !IsAngle(h[|h| - 1]))
  {
    TrimAngles(TrimSpace(href))
  }

  /** `splitFragment`: cut at the first `#`. */
  function SplitFragment(href: Bytes): (r: (Bytes, Bytes))
    ensures Hash !in r.0
    ensures Hash in href ==> r.0 + [Hash] + r.1 == href
    ensures Hash !in href ==> r.0 == href && r.1 == []
  {
    ContainsByte(href, Hash);
    match IndexFrom(href, [Hash], 0)
    case None => (href, [])
    case Some(k) =>
      OccursAtByte(href, Hash, k);
      assert forall j :: 0 <= j < k ==> href[j] != Hash by {
        forall j | 0 <= j < k ensures href[j] != Hash {
          OccursAtByte(href, Hash, j);
        }
      }
      assert href == href[..k] + [Hash] + href[k + 1..];
      (href[..k], href[k + 1..])
  }

  /** `isAbsoluteOrUNCPath`: a leading `/`, a leading `\\`, a drive letter
      followed by `:`, or what `filepath.IsAbs` calls absolute. */
  predicate IsAbsoluteOrUncPath(path: Bytes) {
    HasPrefix(path, [Paths.Slash]) ||
    HasPrefix(path, [Backslash, Backslash]) ||
    (|path| >= 2 && IsAsciiLetter(path[0]) && path[1] == Colon) ||
    Paths.IsAbs(path)
  }

  /** `isFollowableHref`. */
  predicate IsFollowableHref(href: Bytes) {
    var h := Trimmed(href);
    if Contains(h, SchemeSeparator) || HasPrefix(ToLower(h), Mailto) then false
    else
      var path := SplitFragment(h).0;
      !IsAbsoluteOrUncPath(path) &&
      (HasSuffix(ToLower(path), MdExt) || HasSuffix(ToLower(path), MarkdownExt))
  }

  /** The path part after percent-decoding, which runs only when a `%` is
      present and falls back to the raw path on a malformed escape. */
  function DecodePath(p: Bytes): (r: Bytes)
    ensures r == Url.PathUnescape(p).GetOr(p)
  {
    if Url.Percent in p then Url.PathUnescape(p).GetOr(p)
    else
      Url.UnescapePlain(p);
      p
  }

  /** The lexical target of `path` seen from the file `currentFilePath`. */
  function ResolvedTarget(currentFilePath: Bytes, path: Bytes): Bytes {
    Paths.Clean(Paths.Join(Paths.Dir(currentFilePath), path))
  }

  /** `filepath.Abs`, then `filepath.EvalSymlinks` where it succeeds. */
  function Evaluated(fs: FileSystem, p: Bytes): (r: Option<Bytes>)
    ensures r.None? ==> fs.cwd.None?
  {
    match Paths.Abs(fs.cwd, p)
    case None => None
    case Some(a) => Some(fs.evalSymlinks(a).GetOr(a))
  }

  /** `resolveFollowableLink`: the destination is trimmed once, here, and
      everything after looks only at the trimmed form. */
  function ResolveFollowableLink(fs: FileSystem, rootDir: Bytes, currentFilePath: Bytes, rawHref: Bytes): (r: Resolution)
    ensures !IsFollowableHref(Trimmed(rawHref)) ==> r == Skipped
    ensures r.Failed? ==> fs.cwd.None?
    ensures r.Accepted? ==> r.link.href == Trimmed(rawHref) && IsFollowableHref(r.link.href)
  {
    ResolveHref(fs, rootDir, currentFilePath, Trimmed(rawHref))
  }

  /** Resolution of a trimmed destination: classification, the fragment
      split, the trimmed and decoded path, and the lexical target. */
  function ResolveHref(fs: FileSystem, rootDir: Bytes, currentFilePath: Bytes, href: Bytes): (r: Resolution)
    ensures !IsFollowableHref(href) || TrimSpace(SplitFragment(href).0) == [] ==> r == Skipped
    ensures r.Failed? ==> fs.cwd.None?
    ensures r.Accepted? ==>
      IsFollowableHref(href) && r.link.href == href &&
      r.link.path == DecodePath(TrimSpace(SplitFragment(href).0)) &&
      r.link.fragment == SplitFragment(href).1 && r.link.labelText == []
  {
    if !IsFollowableHref(href) then Skipped
    else
      var (rawPath, frag) := SplitFragment(href);
      var trimmedPath := TrimSpace(rawPath);
      if trimmedPath == [] then Skipped
      else
        var path := DecodePath(trimmedPath);
        Sandbox(fs, rootDir, ResolvedTarget(currentFilePath, path), FollowableLink(href, path, frag, [], [], []))
  }

  /** The filesystem half of resolution: both paths are made absolute and
      evaluated, the target must not climb out of the root, and it must be a
      regular file. `link` carries the fields already known. */
  function Sandbox(fs: FileSystem, rootDir: Bytes, target: Bytes, link: FollowableLink): (r: Resolution)
    ensures r.Failed? ==> fs.cwd.None?
    ensures r.Accepted? ==>
      Evaluated(fs, rootDir).Some? && Evaluated(fs, target) == Some(r.link.resolvedPath) &&
      fs.stat(r.link.resolvedPath) == Some(RegularFile) &&
      r.link == link.(resolvedPath := r.link.resolvedPath,
                      resolvedNote := fs.stripAbsolutePath(r.link.resolvedPath, Evaluated(fs, rootDir).value))
  {
    match Evaluated(fs, rootDir)
    case None => Failed(AbsRootDir)
    case Some(rootAbs) =>
      match Evaluated(fs, target)
      case None => Failed(AbsResolvedPath)
      case Some(resAbs) =>
        match Paths.Rel(rootAbs, resAbs)
        case None => Skipped
        case Some(rel) =>
          if Paths.ClimbsOut(rel) then Skipped
          else if fs.stat(resAbs) != Some(RegularFile) then Skipped
          else Accepted(link.(resolvedPath := resAbs, resolvedNote := fs.stripAbsolutePath(resAbs, rootAbs)))
  }

  /** Bytes that trimming never removes. */
  predicate Uncut(b: Byte) {
    !IsSpace(b) && !IsAngle(b)
  }

  predicate AllUncut(p: Bytes) {
    forall j :: 0 <= j < |p| ==> Uncut(p[j])
  }

  lemma TrimmedKeepsPrefix(s: Bytes, p: Bytes)
    requires p != [] && HasPrefix(s, p) && AllUncut(p)
    ensures HasPrefix(Trimmed(s), p)
  {
    TrimKeepsPrefix(s, IsSpace, p);
    TrimKeepsPrefix(TrimSpace(s), IsAngle, p);
  }

  lemma TrimmedKeepsOccurrence(s: Bytes, needle: Bytes, k: nat)
    requires needle != [] && OccursAt(s, needle, k) && AllUncut(needle)
    ensures Contains(Trimmed(s), needle)
  {
    TrimKeepsOccurrence(s, IsSpace, needle, k);
    var t := TrimSpace(s);
    TrimKeepsOccurrence(t, IsAngle, needle, IndexFrom(t, needle, 0).value);
  }

  /** The path part of a destination that starts with `p#` is `p`. */
  lemma SplitAtKnownHash(h: Bytes, p: Bytes)
    requires HasPrefix(h, p + [Hash]) && Hash !in p
    ensures SplitFragment(h).0 == p
  {
    assert h[|p|] == (p + [Hash])[|p|];
    var r := SplitFragment(h).0;
    assert r == h[..|r|];
  }

  /** A path part keeps a prefix that has no `#`. */
  lemma SplitKeepsPrefix(h: Bytes, p: Bytes)
    requires HasPrefix(h, p) && Hash !in p
    ensures HasPrefix(SplitFragment(h).0, p)
  {
    var r := SplitFragment(h);
    if Hash in h {
      assert h == r.0 + [Hash] + r.1;
      assert h[|r.0|] == Hash;
      assert forall j :: 0 <= j < |p| ==> h[j] == p[j];
      assert |p| <= |r.0|;
      assert r.0[..|p|] == h[..|p|];
    }
  }

  /** External links: a destination with `://` anywhere is not followable. */
  lemma {:induction false} ExternalNotFollowable(href: Bytes, k: nat)
    requires OccursAt(href, SchemeSeparator, k)
    ensures !IsFollowableHref(href)
  {
    TrimmedKeepsOccurrence(href, SchemeSeparator, k);
  }

  /** `mailto:` links, in any letter case, are not followable, also behind
      leading whitespace and then angle brackets, which trimming removes. */
  lemma {:induction false} MailtoNotFollowable(lead: Bytes, open: Bytes, rest: Bytes)
    requires forall j :: 0 <= j < |lead| ==> IsSpace(lead[j])
    requires forall j :: 0 <= j < |open| ==> IsAngle(open[j])
    requires HasPrefix(ToLower(rest), Mailto)
    ensures !IsFollowableHref(lead + open + rest)
  {
    var href := lead + open + rest;
    var p := rest[..|Mailto|];
    LowerOfPrefix(rest, p);
    MailtoUncut(p);
    TrimmedBehindBrackets(lead, open, rest, p);
    LowerOfPrefix(Trimmed(href), p);
  }

  /** Leading whitespace and then angle brackets are trimmed away, so a
      destination behind them keeps its untrimmable prefix `p`. */
  lemma TrimmedBehindBrackets(lead: Bytes, open: Bytes, rest: Bytes, p: Bytes)
    requires forall j :: 0 <= j < |lead| ==> IsSpace(lead[j])
    requires forall j :: 0 <= j < |open| ==> IsAngle(open[j])
    requires p != [] && HasPrefix(rest, p) && AllUncut(p)
    ensures HasPrefix(Trimmed(lead + open + rest), p)
  {
    var t := BracketsBehindSpaces(lead, open, rest, p);
    LeadTrimKeepsPrefix(open, t, IsAngle, p);
  }

  /** Whitespace trimming stops at the first bracket, or at the uncut prefix `p` when there is none. */
  lemma BracketsBehindSpaces(lead: Bytes, open: Bytes, rest: Bytes, p: Bytes) returns (t: Bytes)
    requires forall j :: 0 <= j < |lead| ==> IsSpace(lead[j])
    requires forall j :: 0 <= j < |open| ==> IsAngle(open[j])
    requires p != [] && HasPrefix(rest, p) && AllUncut(p)
    ensures TrimSpace(lead + open + rest) == open + t && HasPrefix(t, p)
  {
    var x := open + rest;
    var q := open + p;
    assert forall j :: 0 <= j < |q| ==> !IsSpace(q[j]);
    assert HasPrefix(x, q);
    assert lead + open + rest == lead + x;
    LeadTrimKeepsPrefix(lead, x, IsSpace, q);
    t := SplitPrefix(TrimSpace(lead + x), open, p);
  }

  lemma SplitPrefix(u: Bytes, front: Bytes, p: Bytes) returns (t: Bytes)
    requires HasPrefix(u, front + p)
    ensures u == front + t && HasPrefix(t, p)
  {
    t := u[|front|..];
    assert u == u[..|front|] + t;
    assert u[..|front|] == (front + p)[..|front|];
    assert t[..|p|] == u[|front|..|front| + |p|];
  }

  /** Case folding commutes with taking a prefix. */
  lemma LowerOfPrefix(s: Bytes, p: Bytes)
    requires HasPrefix(s, p)
    ensures HasPrefix(ToLower(s), ToLower(p))
  {
    assert forall j :: 0 <= j < |p| ==> ToLower(s)[j] == LowerByte(p[j]);
  }

  /** Whatever folds to `mailto:` contains no whitespace and no angle bracket. */
  lemma MailtoUncut(p: Bytes)
    requires ToLower(p) == Mailto
    ensures AllUncut(p)
  {
    forall j | 0 <= j < |p| ensures Uncut(p[j]) {
      assert LowerByte(p[j]) == Mailto[j];
    }
  }

  /** Rooted, UNC and drive-letter destinations are not followable, whatever
      their extension. */
  lemma {:induction false} AbsoluteNotFollowable(lead: Bytes, open: Bytes, rest: Bytes)
    requires forall j :: 0 <= j < |lead| ==> IsSpace(lead[j])
    requires forall j :: 0 <= j < |open| ==> IsAngle(open[j])
    requires HasPrefix(rest, [Paths.Slash]) || HasPrefix(rest, [Backslash, Backslash]) ||
             (|rest| >= 2 && IsAsciiLetter(rest[0]) && rest[1] == Colon)
    ensures !IsFollowableHref(lead + open + rest)
  {
    var href := lead + open + rest;
    var p := AbsoluteHead(rest);
    TrimmedBehindBrackets(lead, open, rest, p);
    SplitKeepsPrefix(Trimmed(href), p);
    AbsoluteByPrefix(SplitFragment(Trimmed(href)).0, p);
  }

  /** The bytes that make a destination rooted, UNC or drive-lettered; trimming cannot remove them. */
  lemma AbsoluteHead(rest: Bytes) returns (p: Bytes)
    requires HasPrefix(rest, [Paths.Slash]) || HasPrefix(rest, [Backslash, Backslash]) ||
             (|rest| >= 2 && IsAsciiLetter(rest[0]) && rest[1] == Colon)
    ensures p != [] && HasPrefix(rest, p) && AllUncut(p) && Hash !in p && IsAbsoluteOrUncPath(p)
  {
    p := if HasPrefix(rest, [Paths.Slash]) then rest[..1] else rest[..2];
  }

  /** Whatever starts with a rooted, UNC or drive-letter head is itself such a path. */
  lemma AbsoluteByPrefix(path: Bytes, p: Bytes)
    requires HasPrefix(path, p) && IsAbsoluteOrUncPath(p)
    ensures IsAbsoluteOrUncPath(path)
  {
    assert p == path[..|p|];
  }

  /** The extension test looks at the path part only: a destination whose
      path part does not end in `.md` or `.markdown` stays unfollowable
      whatever its fragment says. */
  lemma {:induction false} FragmentIgnoredByExtension(p: Bytes, frag: Bytes)
    requires Hash !in p
    requires !HasSuffix(ToLower(p), MdExt) && !HasSuffix(ToLower(p), MarkdownExt)
    ensures !IsFollowableHref(p + [Hash] + frag)
  {
    var href := p + [Hash] + frag;
    var a, f := TrimmedAroundHash(p, frag);
    var path := p[a..];
    assert Hash !in path;
    assert HasPrefix(Trimmed(href), path + [Hash]);
    SplitAtKnownHash(Trimmed(href), path);
    if HasSuffix(ToLower(path), MdExt) {
      LowerKeepsSuffix(p, a, MdExt);
    }
    if HasSuffix(ToLower(path), MarkdownExt) {
      LowerKeepsSuffix(p, a, MarkdownExt);
    }
  }

  /** Trimming never gets past a `#`: what remains of the path part is a suffix of it. */
  lemma TrimAroundHash(s: Bytes, p: Bytes, frag: Bytes, cut: Byte -> bool) returns (a: nat, f: Bytes)
    requires s == p + [Hash] + frag && !cut(Hash)
    ensures a <= |p| && Trim(s, cut) == p[a..] + [Hash] + f
  {
    var a0, b0 := TrimIsSlice(s, cut);
    a, f := SliceAroundHash(p, frag, cut, a0, b0);
  }

  /** A slice that drops only cut bytes on either side keeps an uncut `#`. */
  lemma SliceAroundHash(p: Bytes, frag: Bytes, cut: Byte -> bool, a0: nat, b0: nat) returns (a: nat, f: Bytes)
    requires !cut(Hash) && a0 <= b0 <= |p| + 1 + |frag|
    requires forall k :: 0 <= k < a0 ==> cut((p + [Hash] + frag)[k])
    requires forall k :: b0 <= k < |p| + 1 + |frag| ==> cut((p + [Hash] + frag)[k])
    ensures a <= |p| && (p + [Hash] + frag)[a0..b0] == p[a..] + [Hash] + f
  {
    var s := p + [Hash] + frag;
    assert s[|p|] == Hash;
    a := a0;
    f := frag[..b0 - |p| - 1];
  }

  lemma TrimmedAroundHash(p: Bytes, frag: Bytes) returns (a: nat, f: Bytes)
    ensures a <= |p| && Trimmed(p + [Hash] + frag) == p[a..] + [Hash] + f
  {
    a, f := TwoTrimsAroundHash(p, frag, IsSpace, IsAngle);
  }

  lemma TwoTrimsAroundHash(p: Bytes, frag: Bytes, cut1: Byte -> bool, cut2: Byte -> bool) returns (a: nat, f: Bytes)
    requires !cut1(Hash) && !cut2(Hash)
    ensures a <= |p| && Trim(Trim(p + [Hash] + frag, cut1), cut2) == p[a..] + [Hash] + f
  {
    var s := p + [Hash] + frag;
    var a1, f1 := TrimAroundHash(s, p, frag, cut1);
    var t := p[a1..] + [Hash] + f1;
    var a2, f2 := TrimAroundHash(t, p[a1..], f1, cut2);
    DropTwice(p, a1, a2);
    a, f := a1 + a2, f2;
  }

  lemma DropTwice(p: Bytes, a1: nat, a2: nat)
    requires a1 <= |p| && a2 <= |p| - a1
    ensures p[a1..][a2..] == p[a1 + a2..]
  {
  }

  /** A suffix of the lower-cased tail of `p` is a suffix of the lower-cased `p`. */
  lemma LowerKeepsSuffix(p: Bytes, a: nat, ext: Bytes)
    requires a <= |p| && HasSuffix(ToLower(p[a..]), ext)
    ensures HasSuffix(ToLower(p), ext)
  {
    var l := ToLower(p);
    var m := ToLower(p[a..]);
    assert m == l[a..];
    assert l[|l| - |ext|..] == m[|m| - |ext|..];
  }

  /** `<docs/target.md>` resolves like `docs/target.md`: surrounding
      whitespace and any runs of angle brackets are removed before anything
      else looks at the destination. */
  lemma {:induction false} BracketsAndSpacesIgnored(fs: FileSystem, rootDir: Bytes, currentFilePath: Bytes,
                                                     h: Bytes, open: Bytes, close: Bytes, lead: Bytes, trail: Bytes)
    requires h != [] && Uncut(h[0]) && Uncut(h[|h| - 1])
    requires forall j :: 0 <= j < |open| ==> IsAngle(open[j])
    requires forall j :: 0 <= j < |close| ==> IsAngle(close[j])
    requires forall j :: 0 <= j < |lead| ==> IsSpace(lead[j])
    requires forall j :: 0 <= j < |trail| ==> IsSpace(trail[j])
    ensures ResolveFollowableLink(fs, rootDir, currentFilePath, lead + open + h + close + trail) ==
            ResolveFollowableLink(fs, rootDir, currentFilePath, h)
  {
    TrimmedSurrounded(h, open, close, lead, trail);
  }

  lemma TrimmedSurrounded(h: Bytes, open: Bytes, close: Bytes, lead: Bytes, trail: Bytes)
    requires h != [] && Uncut(h[0]) && Uncut(h[|h| - 1])
    requires forall j :: 0 <= j < |open| ==> IsAngle(open[j])
    requires forall j :: 0 <= j < |close| ==> IsAngle(close[j])
    requires forall j :: 0 <= j < |lead| ==> IsSpace(lead[j])
    requires forall j :: 0 <= j < |trail| ==> IsSpace(trail[j])
    ensures Trimmed(lead + open + h + close + trail) == h && Trimmed(h) == h
  {
    var x := open + h + close;
    assert lead + open + h + close + trail == lead + x + trail;
    SpacesAroundBrackets(h, open, close, lead, trail);
    TrimSurrounded(open, h, close, IsAngle);
    TrimUntouched(h, IsAngle);
    TrimUntouched(h, IsSpace);
  }

  lemma SpacesAroundBrackets(h: Bytes, open: Bytes, close: Bytes, lead: Bytes, trail: Bytes)
    requires h != [] && Uncut(h[0]) && Uncut(h[|h| - 1])
    requires forall j :: 0 <= j < |open| ==> IsAngle(open[j])
    requires forall j :: 0 <= j < |close| ==> IsAngle(close[j])
    requires forall j :: 0 <= j < |lead| ==> IsSpace(lead[j])
    requires forall j :: 0 <= j < |trail| ==> IsSpace(trail[j])
    ensures TrimSpace(lead + (open + h + close) + trail) == open + h + close
  {
    var x := open + h + close;
    BracketedEnds(h, open, close);
    TrimSurrounded(lead, x, trail, IsSpace);
    TrimUntouched(x, IsSpace);
  }

  /** A bracketed destination starts and ends with a byte that is not whitespace. */
  lemma BracketedEnds(h: Bytes, open: Bytes, close: Bytes)
    requires h != [] && Uncut(h[0]) && Uncut(h[|h| - 1])
    requires forall j :: 0 <= j < |open| ==> IsAngle(open[j])
    requires forall j :: 0 <= j < |close| ==> IsAngle(close[j])
    ensures var x := open + h + close;
      x != [] && !IsSpace(x[0]) && !IsSpace(x[|x| - 1])
  {
    var x := open + h + close;
    if open == [] {
      assert x[0] == h[0];
    } else {
      assert x[0] == open[0];
    }
    if close == [] {
      assert x[|x| - 1] == h[|h| - 1];
    } else {
      assert x[|x| - 1] == close[|close| - 1];
    }
  }

  /** `SPACE%20NAME.md` names the file `SPACE NAME.md`. */
  lemma EscapedSpaceDecoded(a: Bytes, b: Bytes)
    requires Url.Percent !in a && Url.Percent !in b
    ensures DecodePath(a + [Url.Percent, 0x32, 0x30] + b) == a + [0x20] + b
  {
    Url.EscapedSpace(a, b);
  }

  /** The containment check: an accepted target, as evaluated, lies inside
      the evaluated root directory, segment by segment. Escapes through `..`
      or through a symbolic link are therefore rejected, relative to what
      `evalSymlinks` reports. */
  lemma {:induction false} SandboxedIsInside(fs: FileSystem, rootDir: Bytes, target: Bytes, link: FollowableLink)
    requires Sandbox(fs, rootDir, target, link).Accepted?
    ensures Paths.Within(Evaluated(fs, rootDir).value, Sandbox(fs, rootDir, target, link).link.resolvedPath)
  {
    var rootAbs := Evaluated(fs, rootDir).value;
    var resAbs := Evaluated(fs, target).value;
    Paths.RelContainment(rootAbs, resAbs, Paths.Rel(rootAbs, resAbs).value);
  }

  /** Conversely, a target that evaluates to a regular file inside an
      absolute evaluated root is accepted. */
  lemma {:induction false} InsideIsSandboxed(fs: FileSystem, rootDir: Bytes, target: Bytes, link: FollowableLink,
                                             rootAbs: Bytes, resAbs: Bytes)
    requires Evaluated(fs, rootDir) == Some(rootAbs) && Paths.IsAbs(rootAbs)
    requires Evaluated(fs, target) == Some(resAbs)
    requires Paths.Within(rootAbs, resAbs) && fs.stat(resAbs) == Some(RegularFile)
    ensures Sandbox(fs, rootDir, target, link) ==
      Accepted(link.(resolvedPath := resAbs, resolvedNote := fs.stripAbsolutePath(resAbs, rootAbs)))
  {
    Paths.RelOfContained(rootAbs, resAbs);
  }

  /** Whole-resolver form of the containment check. */
  lemma AcceptedIsInside(fs: FileSystem, rootDir: Bytes, currentFilePath: Bytes, rawHref: Bytes)
    requires ResolveFollowableLink(fs, rootDir, currentFilePath, rawHref).Accepted?
    ensures var link := ResolveFollowableLink(fs, rootDir, currentFilePath, rawHref).link;
      Evaluated(fs, rootDir).Some? &&
      Paths.Within(Evaluated(fs, rootDir).value, link.resolvedPath) &&
      Evaluated(fs, ResolvedTarget(currentFilePath, link.path)) == Some(link.resolvedPath) &&
      fs.stat(link.resolvedPath) == Some(RegularFile)
  {
    var href := Trimmed(rawHref);
    var path := DecodePath(TrimSpace(SplitFragment(href).0));
    var link0 := FollowableLink(href, path, SplitFragment(href).1, [], [], []);
    SandboxedIsInside(fs, rootDir, ResolvedTarget(currentFilePath, path), link0);
  }

  /** The resolver the document scan applies to every raw destination. */
  function Resolver(fs: FileSystem, rootDir: Bytes, currentFilePath: Bytes): Bytes -> Resolution {
    h => ResolveFollowableLink(fs, rootDir, currentFilePath, h)
  }

  /** A label of whitespace only: what `strings.TrimSpace` empties
      (`BlankIsTrimmedAway`). */
  predicate IsBlank(labelText: Bytes) {
    forall k :: 0 <= k < |labelText| ==> IsSpace(labelText[k])
  }

  lemma BlankIsTrimmedAway(labelText: Bytes)
    ensures IsBlank(labelText) <==> TrimSpace(labelText) == []
  {
    var a, b := TrimIsSlice(labelText, IsSpace);
  }

  /** Whether the document scan keeps a raw link: it resolves and its text
      is not blank. */
  predicate Kept(resolve: Bytes -> Resolution, l: RawLink) {
    resolve(l.href).Accepted? && !IsBlank(l.labelText)
  }

  /** The links of a document, front to back; the first resolver error aborts. */
  function FollowableLinks(resolve: Bytes -> Resolution, raw: seq<RawLink>): Result<seq<FollowableLink>>
    decreases |raw|
  {
    if raw == [] then Ok([])
    else
      match resolve(raw[0].href)
      case Failed(e) => Err(e)
      case Skipped => FollowableLinks(resolve, raw[1..])
      case Accepted(link) =>
        if IsBlank(raw[0].labelText) then FollowableLinks(resolve, raw[1..])
        else Prepend([link.(labelText := raw[0].labelText)], FollowableLinks(resolve, raw[1..]))
  }

  function Prepend(front: seq<FollowableLink>, r: Result<seq<FollowableLink>>): Result<seq<FollowableLink>> {
    match r
    case Err(e) => Err(e)
    case Ok(rest) => Ok(front + rest)
  }

  /** `followableLinksForDocument`, over the raw links the parser reports. */
  method FollowableLinksForDocument(fs: FileSystem, rootDir: Bytes, currentFilePath: Bytes, raw: seq<RawLink>)
    returns (r: Result<seq<FollowableLink>>)
    ensures r == FollowableLinks(Resolver(fs, rootDir, currentFilePath), raw)
  {
    r := ScanLinks(Resolver(fs, rootDir, currentFilePath), raw);
  }

  /** The loop of `followableLinksForDocument`: resolve each raw link in
      order, return at the first error, keep accepted links with a
      non-blank label. */
  method ScanLinks(resolve: Bytes -> Resolution, raw: seq<RawLink>) returns (r: Result<seq<FollowableLink>>)
    ensures r == FollowableLinks(resolve, raw)
  {
    var out: seq<FollowableLink> := [];
    var i := 0;
    assert raw[0..] == raw;
    assert Prepend([], FollowableLinks(resolve, raw)) == FollowableLinks(resolve, raw) by {
      if FollowableLinks(resolve, raw).Ok? {
        assert [] + FollowableLinks(resolve, raw).value == FollowableLinks(resolve, raw).value;
      }
    }
    while i < |raw|
      invariant 0 <= i <= |raw|
      invariant FollowableLinks(resolve, raw) == Prepend(out, FollowableLinks(resolve, raw[i..]))
    {
      var l := raw[i];
      assert raw[i..][1..] == raw[i + 1..];
      match resolve(l.href) {
        case Failed(e) =>
          return Err(e);
        case Skipped =>
        case Accepted(link) =>
          if !IsBlank(l.labelText) {
            var labelled := link.(labelText := l.labelText);
            ghost var rest := FollowableLinks(resolve, raw[i + 1..]);
            assert Prepend(out, Prepend([labelled], rest)) == Prepend(out + [labelled], rest) by {
              if rest.Ok? {
                assert out + ([labelled] + rest.value) == out + [labelled] + rest.value;
              }
            }
            out := out + [labelled];
          }
      }
      i := i + 1;
    }
    assert out + [] == out;
    return Ok(out);
  }

  /** The link the scan produces for a raw link that resolves. */
  function Labelled(resolve: Bytes -> Resolution, l: RawLink): FollowableLink
    requires resolve(l.href).Accepted?
  {
    resolve(l.href).link.(labelText := l.labelText)
  }

  /** `idx` picks, in order, the kept raw links that `out` lists. */
  predicate Picks(resolve: Bytes -> Resolution, raw: seq<RawLink>, out: seq<FollowableLink>, idx: seq<nat>) {
    |idx| == |out| &&
    (forall j :: 0 <= j < |idx| ==>
       idx[j] < |raw| && Kept(resolve, raw[idx[j]]) && out[j] == Labelled(resolve, raw[idx[j]])) &&
    (forall j, j' :: 0 <= j < j' < |idx| ==> idx[j] < idx[j'])
  }

  /** Every kept raw link is picked. */
  predicate PicksAll(resolve: Bytes -> Resolution, raw: seq<RawLink>, idx: seq<nat>) {
    forall k :: 0 <= k < |raw| && Kept(resolve, raw[k]) ==> k in idx
  }

  function Shift(idx: seq<nat>): (r: seq<nat>)
    ensures |r| == |idx| && forall j :: 0 <= j < |idx| ==> r[j] == idx[j] + 1
  {
    seq(|idx|, j requires 0 <= j < |idx| => idx[j] + 1)
  }

  lemma ShiftPicks(resolve: Bytes -> Resolution, raw: seq<RawLink>, out: seq<FollowableLink>, tail: seq<nat>)
    requires raw != [] && Picks(resolve, raw[1..], out, tail)
    ensures Picks(resolve, raw, out, Shift(tail))
  {
    var shifted := Shift(tail);
    forall j | 0 <= j < |tail| ensures raw[shifted[j]] == raw[1..][tail[j]] { }
  }

  lemma ShiftPicksAll(resolve: Bytes -> Resolution, raw: seq<RawLink>, tail: seq<nat>)
    requires raw != [] && PicksAll(resolve, raw[1..], tail)
    ensures forall k :: 1 <= k < |raw| && Kept(resolve, raw[k]) ==> k in Shift(tail)
  {
    var shifted := Shift(tail);
    forall k | 1 <= k < |raw| && Kept(resolve, raw[k]) ensures k in shifted {
      assert raw[1..][k - 1] == raw[k];
      var j :| 0 <= j < |tail| && tail[j] == k - 1;
      assert shifted[j] == k;
    }
  }

  lemma ConsPicks(resolve: Bytes -> Resolution, raw: seq<RawLink>, out: seq<FollowableLink>, shifted: seq<nat>)
    requires raw != [] && Kept(resolve, raw[0]) && Picks(resolve, raw, out, shifted)
    requires forall j :: 0 <= j < |shifted| ==> shifted[j] >= 1
    ensures Picks(resolve, raw, [Labelled(resolve, raw[0])] + out, [0] + shifted)
  {
    var idx := [0] + shifted;
    var o := [Labelled(resolve, raw[0])] + out;
    forall j | 1 <= j < |idx| ensures idx[j] == shifted[j - 1] && o[j] == out[j - 1] { }
  }

  /** The document scan is an order-preserving filter: on success its links
      are, in order, exactly the kept raw links with their labels attached. */
  lemma {:induction false} FilterSubsequence(resolve: Bytes -> Resolution, raw: seq<RawLink>) returns (idx: seq<nat>)
    requires FollowableLinks(resolve, raw).Ok?
    ensures Picks(resolve, raw, FollowableLinks(resolve, raw).value, idx)
    ensures PicksAll(resolve, raw, idx)
    decreases |raw|
  {
    if raw == [] {
      idx := [];
    } else {
      FilterStep(resolve, raw);
      var rest := FollowableLinks(resolve, raw[1..]);
      var tail := FilterSubsequence(resolve, raw[1..]);
      ShiftPicks(resolve, raw, rest.value, tail);
      ShiftPicksAll(resolve, raw, tail);
      if Kept(resolve, raw[0]) {
        ConsPicks(resolve, raw, rest.value, Shift(tail));
        idx := [0] + Shift(tail);
        ConsPicksAll(resolve, raw, Shift(tail));
      } else {
        idx := Shift(tail);
        SkipPicksAll(resolve, raw, idx);
      }
    }
  }

  /** One raw link of a successful scan: the rest succeeds too, and the link is kept or dropped. */
  lemma FilterStep(resolve: Bytes -> Resolution, raw: seq<RawLink>)
    requires raw != [] && FollowableLinks(resolve, raw).Ok?
    ensures FollowableLinks(resolve, raw[1..]).Ok?
    ensures Kept(resolve, raw[0]) ==>
      FollowableLinks(resolve, raw).value == [Labelled(resolve, raw[0])] + FollowableLinks(resolve, raw[1..]).value
    ensures !Kept(resolve, raw[0]) ==> FollowableLinks(resolve, raw).value == FollowableLinks(resolve, raw[1..]).value
  {
  }

  lemma ConsPicksAll(resolve: Bytes -> Resolution, raw: seq<RawLink>, shifted: seq<nat>)
    requires raw != [] && forall k :: 1 <= k < |raw| && Kept(resolve, raw[k]) ==> k in shifted
    ensures PicksAll(resolve, raw, [0] + shifted)
  {
  }

  lemma SkipPicksAll(resolve: Bytes -> Resolution, raw: seq<RawLink>, shifted: seq<nat>)
    requires raw != [] && !Kept(resolve, raw[0])
    requires forall k :: 1 <= k < |raw| && Kept(resolve, raw[k]) ==> k in shifted
    ensures PicksAll(resolve, raw, shifted)
  {
  }

  /** The document scan fails exactly when some raw link's resolution fails,
      and with the first such failure. */
  lemma {:induction false} FilterFailsOnError(resolve: Bytes -> Resolution, raw: seq<RawLink>)
    ensures FollowableLinks(resolve, raw).Err? <==> exists k :: 0 <= k < |raw| && resolve(raw[k].href).Failed?
    ensures FollowableLinks(resolve, raw).Err? ==>
      exists k :: 0 <= k < |raw| && resolve(raw[k].href) == Failed(FollowableLinks(resolve, raw).error) &&
                  forall j :: 0 <= j < k ==> !resolve(raw[j].href).Failed?
    decreases |raw|
  {
    if raw != [] {
      FilterFailsOnError(resolve, raw[1..]);
      forall k | 1 <= k < |raw| ensures raw[k] == raw[1..][k - 1] { }
      if !resolve(raw[0].href).Failed? && FollowableLinks(resolve, raw).Err? {
        var k :| 0 <= k < |raw[1..]| && resolve(raw[1..][k].href) == Failed(FollowableLinks(resolve, raw[1..]).error) &&
                 forall j :: 0 <= j < k ==> !resolve(raw[1..][j].href).Failed?;
        assert forall j :: 1 <= j < k + 1 ==> !resolve(raw[j].href).Failed?;
      }
    }
  }

  /** A document scan can only fail when the working directory is unknown. */
  lemma DocumentErrorNeedsCwd(fs: FileSystem, rootDir: Bytes, currentFilePath: Bytes, raw: seq<RawLink>)
    requires FollowableLinks(Resolver(fs, rootDir, currentFilePath), raw).Err?
    ensures fs.cwd.None?
  {
    FilterFailsOnError(Resolver(fs, rootDir, currentFilePath), raw);
  }
}
