/**
  Highlighting the focused link inside rendered terminal text
  (`highlightFocusedLink` in ui/pager_highlight.go).

  The printable runes of the rendered text are searched, link after link,
  for each link's trimmed label, with a cursor that only moves forward.
  The focused link's match is mapped back to byte offsets through the
  offset table and wrapped in the SGR 7 / SGR 27 (reverse video on / off)
  sequences of section 8.3.117 of ECMA-48.

  The search runs on rune sequences. The source searches the UTF-8
  encoding of the printable runes for the label's bytes; both are valid
  UTF-8 when the label is, and then a byte match can only start and end on
  rune boundaries, so the two searches find the same matches.
*/
module Highlight {
  import opened Text
  import Utf8
  import Scan
  import Links

  /** `ESC [ 7 m`: reverse video on. */
  const ReverseOn: Bytes := [0x1B, 0x5B, 0x37, 0x6D]
  /** `ESC [ 2 7 m`: reverse video off. */
  const ReverseOff: Bytes := [0x1B, 0x5B, 0x32, 0x37, 0x6D]

  /** A match, in printable runes: `[start, end)`. */
  datatype RuneSpan = RuneSpan(start: nat, end: nat)
  /** A match, in bytes of the rendered text: `[start, end)`. */
  datatype ByteSpan = ByteSpan(start: nat, end: nat)

  /** The runes of a label, one per step of `utf8.DecodeRune`. */
  function LabelRunes(b: Bytes): (r: seq<int>)
    ensures |r| <= |b| && (r == [] <==> b == [])
    decreases |b|
  {
    if b == [] then []
    else
      var (c, n) := Utf8.DecodeRune(b);
      [c] + LabelRunes(b[n..])
  }

  /** The label a link is searched for: its label text without surrounding whitespace. */
  function Label(l: Links.FollowableLink): seq<int> {
    LabelRunes(TrimSpace(l.labelText))
  }

  /** The labels of all links, in order. */
  function Labels(links: seq<Links.FollowableLink>): (ls: seq<seq<int>>)
    ensures |ls| == |links| && forall k :: 0 <= k < |links| ==> ls[k] == Label(links[k])
  {
    seq(|links|, k requires 0 <= k < |links| => Label(links[k]))
  }

  /** One turn of the label loop: the match for `wanted` from cursor `from`, and the next cursor. */
  function Match(printable: seq<int>, wanted: seq<int>, from: nat): (m: (Option<RuneSpan>, nat))
    ensures m.0.None? ==> m.1 == from
    ensures m.0.Some? ==>
      wanted != [] && from <= m.0.value.start && m.1 == m.0.value.end
      && m.0.value.end == m.0.value.start + |wanted| <= |printable|
      && printable[m.0.value.start..m.0.value.end] == wanted
  {
    if wanted == [] || from >= |printable| then (None, from)
    else
      match IndexFrom(printable, wanted, from)
      case None => (None, from)
      case Some(k) => (Some(RuneSpan(k, k + |wanted|)), k + |wanted|)
  }

  /** A match is the first occurrence at or after the cursor; no match means no occurrence there. */
  lemma MatchIsFirst(printable: seq<int>, wanted: seq<int>, from: nat)
    ensures Match(printable, wanted, from).0.Some? ==>
      forall k :: from <= k < Match(printable, wanted, from).0.value.start ==> !OccursAt(printable, wanted, k)
    ensures Match(printable, wanted, from).0.None? && wanted != [] && from < |printable| ==>
      forall k :: from <= k ==> !OccursAt(printable, wanted, k)
  {
  }

  /** The matches of the first `n` links and the cursor after them. */
  function Fold(printable: seq<int>, labels: seq<seq<int>>, n: nat): (r: (seq<Option<RuneSpan>>, nat))
    requires n <= |labels|
    ensures |r.0| == n && r.1 <= |printable|
  {
    if n == 0 then ([], 0)
    else
      var (spans, from) := Fold(printable, labels, n - 1);
      var (m, next) := Match(printable, labels[n - 1], from);
      (spans + [m], next)
  }

  /**
    Matches that lie in the printable runes before `cursor`, carry their
    link's label, and come in increasing order without overlapping.
  */
  ghost predicate InOrder(printable: seq<int>, labels: seq<seq<int>>, spans: seq<Option<RuneSpan>>, cursor: nat)
    requires |spans| <= |labels|
  {
    cursor <= |printable|
    && (forall k :: 0 <= k < |spans| && spans[k].Some? ==>
          spans[k].value.start < spans[k].value.end <= cursor
          && printable[spans[k].value.start..spans[k].value.end] == labels[k])
    && (forall k, k' :: 0 <= k < k' < |spans| && spans[k].Some? && spans[k'].Some? ==>
          spans[k].value.end <= spans[k'].value.start)
  }

  /** Every match holds its link's label, and the matches come in increasing order. */
  lemma {:induction false} FoldInOrder(printable: seq<int>, labels: seq<seq<int>>, n: nat)
    requires n <= |labels|
    ensures InOrder(printable, labels, Fold(printable, labels, n).0, Fold(printable, labels, n).1)
  {
    if n > 0 {
      FoldInOrder(printable, labels, n - 1);
      var (spans, from) := Fold(printable, labels, n - 1);
      var (m, next) := Match(printable, labels[n - 1], from);
      InOrderAppend(printable, labels, spans, from, m, next);
    }
  }

  lemma InOrderAppend(printable: seq<int>, labels: seq<seq<int>>, spans: seq<Option<RuneSpan>>, from: nat,
                      m: Option<RuneSpan>, next: nat)
    requires |spans| < |labels| && InOrder(printable, labels, spans, from)
    requires m.None? ==> next == from
    requires m.Some? ==>
      from <= m.value.start < m.value.end == next <= |printable|
      && printable[m.value.start..m.value.end] == labels[|spans|]
    ensures InOrder(printable, labels, spans + [m], next)
  {
    var spans' := spans + [m];
    forall k, k' | 0 <= k < k' < |spans'| && spans'[k].Some? && spans'[k'].Some?
      ensures spans'[k].value.end <= spans'[k'].value.start
    {
      if k' == |spans| {
        assert spans'[k] == spans[k];
      }
    }
  }

  /** The matches of all labels, each a non-empty span of the printable runes. */
  function Matches(printable: seq<int>, labels: seq<seq<int>>): (ms: seq<Option<RuneSpan>>)
    ensures |ms| == |labels|
    ensures forall k :: 0 <= k < |ms| && ms[k].Some? ==> ms[k].value.start < ms[k].value.end <= |printable|
  {
    FoldInOrder(printable, labels, |labels|);
    Fold(printable, labels, |labels|).0
  }

  /** The rendered text with reverse video around bytes `[a, b)`. */
  function Wrap(rendered: Bytes, a: nat, b: nat): (w: Bytes)
    requires a <= b <= |rendered|
    ensures |w| == |rendered| + |ReverseOn| + |ReverseOff|
    ensures w[..a] == rendered[..a] && w[a..a + 4] == ReverseOn
    ensures w[a + 4..b + 4] == rendered[a..b]
    ensures w[b + 4..b + 9] == ReverseOff && w[b + 9..] == rendered[b..]
  {
    rendered[..a] + ReverseOn + rendered[a..b] + ReverseOff + rendered[b..]
  }

  /** Deleting the two markers that `Wrap` inserted at `a` and `b`. */
  function Unwrap(w: Bytes, a: nat, b: nat): Bytes
    requires a <= b && b + 9 <= |w|
  {
    w[..a] + w[a + 4..b + 4] + w[b + 9..]
  }

  /** Deleting the markers gives back the input. */
  lemma UnwrapWrap(rendered: Bytes, a: nat, b: nat)
    requires a <= b <= |rendered|
    ensures Unwrap(Wrap(rendered, a, b), a, b) == rendered
  {
    var w := Wrap(rendered, a, b);
    assert rendered == rendered[..a] + rendered[a..b] + rendered[b..];
  }

  /** An offset table for `printable` in `rendered`: strictly increasing, ending at most at `|rendered|`. */
  ghost predicate IsOffsetTable(offsets: seq<nat>, printable: seq<int>, rendered: Bytes) {
    |offsets| == |printable| + 1 && offsets[|printable|] <= |rendered|
    && forall k, k' :: 0 <= k < k' < |offsets| ==> offsets[k] < offsets[k']
  }

  /** The text with the match of label `focused` wrapped, or unchanged when that label has no match. */
  function WrapMatch(rendered: Bytes, printable: seq<int>, offsets: seq<nat>, labels: seq<seq<int>>, focused: nat): Bytes
    requires focused < |labels| && IsOffsetTable(offsets, printable, rendered)
  {
    match Matches(printable, labels)[focused]
    case None => rendered
    case Some(rs) => Wrap(rendered, offsets[rs.start], offsets[rs.end])
  }

  lemma ScanIsOffsetTable(rendered: Bytes)
    ensures IsOffsetTable(Scan.Offsets(rendered), Scan.PrintableRunes(rendered), rendered)
  {
    Scan.OffsetTable(rendered);
  }

  /** What `highlightFocusedLink` returns. */
  function Highlighted(rendered: Bytes, links: seq<Links.FollowableLink>, focused: int): (out: Bytes)
    ensures focused < 0 || focused >= |links| ==> out == rendered
    ensures Scan.PrintableRunes(rendered) == [] ==> out == rendered
  {
    if focused < 0 || focused >= |links| then rendered
    else
      var printable := Scan.PrintableRunes(rendered);
      if printable == [] then rendered
      else
        ScanIsOffsetTable(rendered);
        WrapMatch(rendered, printable, Scan.Offsets(rendered), Labels(links), focused)
  }

  /** `WrapMatch` wraps the focused label's match, at the offsets of its first and past-the-end runes. */
  lemma WrapMatchOutcome(rendered: Bytes, printable: seq<int>, offsets: seq<nat>, labels: seq<seq<int>>, focused: nat)
    returns (rs: Option<RuneSpan>)
    requires focused < |labels| && IsOffsetTable(offsets, printable, rendered)
    ensures rs == Matches(printable, labels)[focused]
    ensures rs.None? ==> WrapMatch(rendered, printable, offsets, labels, focused) == rendered
    ensures rs.Some? ==>
      rs.value.start < rs.value.end < |offsets|
      && printable[rs.value.start..rs.value.end] == labels[focused]
      && offsets[rs.value.start] < offsets[rs.value.end] <= |rendered|
      && WrapMatch(rendered, printable, offsets, labels, focused)
         == Wrap(rendered, offsets[rs.value.start], offsets[rs.value.end])
  {
    FoldInOrder(printable, labels, |labels|);
    rs := Matches(printable, labels)[focused];
  }

  /**
    The output is the input unchanged, or the input with reverse video
    around the focused link's match: both markers sit on entries of the
    offset table (which `Scan.OffsetsAreBoundaries` shows lie strictly
    inside no escape sequence and no multi-byte character), and the
    printable runes between them are the link's label.
  */
  lemma HighlightOutcome(rendered: Bytes, links: seq<Links.FollowableLink>, focused: int)
    returns (rs: Option<RuneSpan>)
    ensures 0 <= focused < |links| && Scan.PrintableRunes(rendered) != [] ==>
      rs == Matches(Scan.PrintableRunes(rendered), Labels(links))[focused]
    ensures rs.None? ==> Highlighted(rendered, links, focused) == rendered
    ensures rs.Some? ==>
      0 <= focused < |links|
      && rs.value.start < rs.value.end < |Scan.Offsets(rendered)|
      && Scan.PrintableRunes(rendered)[rs.value.start..rs.value.end] == Labels(links)[focused]
      && Scan.Offsets(rendered)[rs.value.start] < Scan.Offsets(rendered)[rs.value.end] <= |rendered|
      && Highlighted(rendered, links, focused)
         == Wrap(rendered, Scan.Offsets(rendered)[rs.value.start], Scan.Offsets(rendered)[rs.value.end])
  {
    rs := None;
    if 0 <= focused < |links| && Scan.PrintableRunes(rendered) != [] {
      ScanIsOffsetTable(rendered);
      rs := WrapMatchOutcome(rendered, Scan.PrintableRunes(rendered), Scan.Offsets(rendered), Labels(links), focused);
    }
  }

  /** The output grows by exactly nine bytes when it changes, and deleting the markers restores the input. */
  lemma HighlightOnlyInsertsMarkers(rendered: Bytes, links: seq<Links.FollowableLink>, focused: int)
    returns (a: nat, b: nat)
    ensures Highlighted(rendered, links, focused) == rendered
      || (a <= b <= |rendered|
          && |Highlighted(rendered, links, focused)| == |rendered| + 9
          && Unwrap(Highlighted(rendered, links, focused), a, b) == rendered)
  {
    var rs := HighlightOutcome(rendered, links, focused);
    a, b := 0, 0;
    if rs.Some? {
      a, b := Scan.Offsets(rendered)[rs.value.start], Scan.Offsets(rendered)[rs.value.end];
      UnwrapWrap(rendered, a, b);
    }
  }

  /** The cursor before label `n`. */
  function CursorBefore(printable: seq<int>, labels: seq<seq<int>>, n: nat): nat
    requires n <= |labels|
  {
    Fold(printable, labels, n).1
  }

  /**
    Each match is the first occurrence of its label at or after the cursor;
    a blank or missing label gets no match and leaves the cursor where it was.
  */
  lemma MatchIsFirstAfterCursor(printable: seq<int>, labels: seq<seq<int>>, n: nat)
    requires n < |labels|
    ensures Matches(printable, labels)[n].Some? ==>
      var m := Matches(printable, labels)[n].value;
      CursorBefore(printable, labels, n) <= m.start && OccursAt(printable, labels[n], m.start)
      && m.end == m.start + |labels[n]|
      && (forall k :: CursorBefore(printable, labels, n) <= k < m.start ==> !OccursAt(printable, labels[n], k))
      && CursorBefore(printable, labels, n + 1) == m.end
    ensures Matches(printable, labels)[n].None? ==>
      CursorBefore(printable, labels, n + 1) == CursorBefore(printable, labels, n)
      && (labels[n] != [] && CursorBefore(printable, labels, n) < |printable| ==>
          forall k :: CursorBefore(printable, labels, n) <= k ==> !OccursAt(printable, labels[n], k))
  {
    FoldPrefix(printable, labels, n + 1, |labels|);
    MatchIsFirst(printable, labels[n], CursorBefore(printable, labels, n));
  }

  /** Later folds extend earlier ones. */
  lemma {:induction false} FoldPrefix(printable: seq<int>, labels: seq<seq<int>>, n: nat, n': nat)
    requires n <= n' <= |labels|
    ensures Fold(printable, labels, n).0 == Fold(printable, labels, n').0[..n]
    decreases n' - n
  {
    if n < n' {
      FoldPrefix(printable, labels, n, n' - 1);
      assert Fold(printable, labels, n').0[..n' - 1] == Fold(printable, labels, n' - 1).0;
    }
  }

  /**
    Repeated labels are matched in order: when labels `n` and `n + 1` are
    the same, the cursor stands at or before its first occurrence `a`, and
    the next occurrence at or after `a + |label|` is at `b`, then link `n`
    gets `[a, a + |label|)` and link `n + 1` gets `[b, b + |label|)`.
  */
  lemma RepeatedLabelsInOrder(printable: seq<int>, labels: seq<seq<int>>, n: nat, a: nat, b: nat)
    requires n + 1 < |labels| && labels[n] == labels[n + 1] && labels[n] != []
    requires CursorBefore(printable, labels, n) <= a && OccursAt(printable, labels[n], a)
    requires forall k :: CursorBefore(printable, labels, n) <= k < a ==> !OccursAt(printable, labels[n], k)
    requires a + |labels[n]| <= b && OccursAt(printable, labels[n], b)
    requires forall k :: a + |labels[n]| <= k < b ==> !OccursAt(printable, labels[n], k)
    ensures Matches(printable, labels)[n] == Some(RuneSpan(a, a + |labels[n]|))
    ensures Matches(printable, labels)[n + 1] == Some(RuneSpan(b, b + |labels[n]|))
  {
    MatchWhenFirst(printable, labels, n, a);
    MatchWhenFirst(printable, labels, n + 1, b);
  }

  /** When the first occurrence of label `n` at or after the cursor is at `a`, link `n` gets it. */
  lemma MatchWhenFirst(printable: seq<int>, labels: seq<seq<int>>, n: nat, a: nat)
    requires n < |labels| && labels[n] != []
    requires CursorBefore(printable, labels, n) <= a && OccursAt(printable, labels[n], a)
    requires forall k :: CursorBefore(printable, labels, n) <= k < a ==> !OccursAt(printable, labels[n], k)
    ensures Matches(printable, labels)[n] == Some(RuneSpan(a, a + |labels[n]|))
    ensures CursorBefore(printable, labels, n + 1) == a + |labels[n]|
  {
    var from := CursorBefore(printable, labels, n);
    FoldStep(printable, labels, n);
    FoldPrefix(printable, labels, n + 1, |labels|);
    assert Matches(printable, labels)[n] == Fold(printable, labels, n + 1).0[n];
    var m := Match(printable, labels[n], from);
    MatchIsFirst(printable, labels[n], from);
    MatchAt(printable, labels[n], from, m.0, a);
  }

  /** A match found from cursor `from`, when the first occurrence from there is at `a`, is at `a`. */
  lemma MatchAt(hay: seq<int>, needle: seq<int>, from: nat, m: Option<RuneSpan>, a: nat)
    requires needle != [] && from <= a && OccursAt(hay, needle, a)
    requires forall k :: from <= k < a ==> !OccursAt(hay, needle, k)
    requires m.Some? ==>
      from <= m.value.start && OccursAt(hay, needle, m.value.start) && m.value.end == m.value.start + |needle|
      && forall k :: from <= k < m.value.start ==> !OccursAt(hay, needle, k)
    requires m.None? && from < |hay| ==> forall k :: from <= k ==> !OccursAt(hay, needle, k)
    ensures m == Some(RuneSpan(a, a + |needle|))
  {
  }

  /** A rune match in bytes of the rendered text. */
  function ToBytes(offsets: seq<nat>, m: Option<RuneSpan>): Option<ByteSpan>
    requires m.Some? ==> m.value.start <= m.value.end < |offsets|
  {
    match m
    case None => None
    case Some(rs) => Some(ByteSpan(offsets[rs.start], offsets[rs.end]))
  }

  /** In bytes too, the matches of successive links do not overlap and come in increasing order. */
  lemma ByteSpansInOrder(rendered: Bytes, printable: seq<int>, offsets: seq<nat>, labels: seq<seq<int>>, k: nat, k': nat)
    requires IsOffsetTable(offsets, printable, rendered) && k < k' < |labels|
    requires Matches(printable, labels)[k].Some? && Matches(printable, labels)[k'].Some?
    ensures var a, b := ToBytes(offsets, Matches(printable, labels)[k]).value,
                        ToBytes(offsets, Matches(printable, labels)[k']).value;
      a.start < a.end <= b.start < b.end <= |rendered|
  {
    FoldInOrder(printable, labels, |labels|);
    var ra, rb := Matches(printable, labels)[k].value, Matches(printable, labels)[k'].value;
    SpanInTable(offsets, printable, rendered, ra.start, ra.end);
    SpanInTable(offsets, printable, rendered, rb.start, rb.end);
    if ra.end < rb.start {
      SpanInTable(offsets, printable, rendered, ra.end, rb.start);
    }
  }

  /** One more turn of the label loop extends the fold by that label's match. */
  lemma FoldStep(printable: seq<int>, labels: seq<seq<int>>, i: nat)
    requires i < |labels|
    ensures var m := Match(printable, labels[i], CursorBefore(printable, labels, i));
      Fold(printable, labels, i + 1) == (Fold(printable, labels, i).0 + [m.0], m.1)
  {
  }

  /** Entries of an offset table around a match are in order and inside the text. */
  lemma SpanInTable(offsets: seq<nat>, printable: seq<int>, rendered: Bytes, a: nat, b: nat)
    requires IsOffsetTable(offsets, printable, rendered) && a < b <= |printable|
    ensures offsets[a] < offsets[b] <= |rendered|
  {
    if b < |printable| {
      assert offsets[b] < offsets[|printable|];
    }
  }

  /** The label loop of `highlightFocusedLink`: the byte span of every link's match. */
  method MatchSpans(rendered: Bytes, printable: seq<int>, offsets: seq<nat>, labels: seq<seq<int>>)
    returns (spans: array<Option<ByteSpan>>)
    requires IsOffsetTable(offsets, printable, rendered)
    ensures fresh(spans) && spans.Length == |labels|
    ensures forall k :: 0 <= k < |labels| ==>
      spans[k] == ToBytes(offsets, Matches(printable, labels)[k])
  {
    spans := new Option<ByteSpan>[|labels|](_ => None);
    var searchFrom := 0;
    ghost var found: seq<Option<RuneSpan>> := [];
    var i := 0;
    while i < |labels|
      invariant i <= |labels| && spans.Length == |labels|
      invariant found == Fold(printable, labels, i).0 && searchFrom == CursorBefore(printable, labels, i)
      invariant Recorded(offsets, found, spans[..])
    {
      var m := Match(printable, labels[i], searchFrom);
      FoldStep(printable, labels, i);
      ghost var before := spans[..];
      if m.0.Some? {
        var span := ByteSpanOf(rendered, printable, offsets, m.0.value);
        spans[i] := Some(span);
        assert spans[..] == before[i := Some(span)];
      }
      RecordStep(offsets, found, before, m.0);
      searchFrom := m.1;
      found := found + [m.0];
      i := i + 1;
    }
    RecordedAll(printable, labels, offsets, found, spans[..]);
  }

  /** The first `|found|` spans are the byte spans of the rune matches found so far, the rest are empty. */
  ghost predicate Recorded(offsets: seq<nat>, found: seq<Option<RuneSpan>>, spans: seq<Option<ByteSpan>>) {
    |found| <= |spans|
    && (forall k :: 0 <= k < |found| ==>
          (found[k].Some? ==> found[k].value.start <= found[k].value.end < |offsets|)
          && spans[k] == ToBytes(offsets, found[k]))
    && (forall k :: |found| <= k < |spans| ==> spans[k].None?)
  }

  lemma RecordStep(offsets: seq<nat>, found: seq<Option<RuneSpan>>, spans: seq<Option<ByteSpan>>, m: Option<RuneSpan>)
    requires Recorded(offsets, found, spans) && |found| < |spans|
    requires m.Some? ==> m.value.start <= m.value.end < |offsets|
    ensures Recorded(offsets, found + [m], spans[|found| := ToBytes(offsets, m)])
  {
  }

  lemma RecordedAll(printable: seq<int>, labels: seq<seq<int>>, offsets: seq<nat>,
                    found: seq<Option<RuneSpan>>, spans: seq<Option<ByteSpan>>)
    requires |offsets| == |printable| + 1 && found == Matches(printable, labels)
    requires Recorded(offsets, found, spans) && |spans| == |labels|
    ensures forall k :: 0 <= k < |labels| ==> spans[k] == ToBytes(offsets, Matches(printable, labels)[k])
  {
  }

  /**
    The byte span of a rune match. Neither guard of the source on the rune
    indices, nor the one on the byte offsets, can fire on an offset table.
  */
  method ByteSpanOf(rendered: Bytes, printable: seq<int>, offsets: seq<nat>, rs: RuneSpan) returns (span: ByteSpan)
    requires IsOffsetTable(offsets, printable, rendered) && rs.start < rs.end <= |printable|
    ensures span == ByteSpan(offsets[rs.start], offsets[rs.end])
    ensures span.start < span.end <= |rendered|
  {
    SpanInTable(offsets, printable, rendered, rs.start, rs.end);
    span := ByteSpan(offsets[rs.start], offsets[rs.end]);
  }

  /** `WrapMatch` in terms of the byte span that the label loop records. */
  lemma WrapMatchBytes(rendered: Bytes, printable: seq<int>, offsets: seq<nat>, labels: seq<seq<int>>, focused: nat)
    requires focused < |labels| && IsOffsetTable(offsets, printable, rendered)
    ensures var s := ToBytes(offsets, Matches(printable, labels)[focused]);
      (s.None? ==> WrapMatch(rendered, printable, offsets, labels, focused) == rendered)
      && (s.Some? ==>
            s.value.start <= s.value.end <= |rendered|
            && WrapMatch(rendered, printable, offsets, labels, focused) == Wrap(rendered, s.value.start, s.value.end))
  {
    var rs := WrapMatchOutcome(rendered, printable, offsets, labels, focused);
  }

  /** The rest of `highlightFocusedLink` once the text has printable runes: the label loop, then the wrap. */
  method WrapFocused(rendered: Bytes, printable: seq<int>, offsets: seq<nat>, labels: seq<seq<int>>, focused: nat)
    returns (out: Bytes)
    requires focused < |labels| && IsOffsetTable(offsets, printable, rendered)
    ensures out == WrapMatch(rendered, printable, offsets, labels, focused)
  {
    var spans := MatchSpans(rendered, printable, offsets, labels);
    var s := spans[focused];
    WrapMatchBytes(rendered, printable, offsets, labels, focused);
    if s.None? {
      return rendered;
    }
    out := rendered[..s.value.start] + ReverseOn + rendered[s.value.start..s.value.end]
      + ReverseOff + rendered[s.value.end..];
  }

  /** `highlightFocusedLink`. */
  method HighlightFocusedLink(rendered: Bytes, links: seq<Links.FollowableLink>, focused: int)
    returns (out: Bytes)
    ensures out == Highlighted(rendered, links, focused)
  {
    if focused < 0 || focused >= |links| {
      return rendered;
    }
    var printable, offsets := Scan.PrintableRunesAndOffsets(rendered);
    if |printable| == 0 {
      return rendered;
    }
    ScanIsOffsetTable(rendered);
    out := WrapFocused(rendered, printable, offsets, Labels(links), focused);
  }
}
