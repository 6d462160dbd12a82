# Followable links in the glow pager, in Dafny

This project models the followable-link feature of glow's terminal pager
and proves properties of the model. There are three parts.

- **Resolution.** Finding the relative Markdown links of a document that
  the reader may follow, and where each one leads (`ui/pager_links.go`).
  A destination is trimmed and classified: external URLs, `mailto:`,
  absolute and UNC paths and non-Markdown files are refused. Its fragment
  is split off and its path percent-decoded. It is then joined to the
  current file's directory, and accepted only when it stays inside the
  root directory and names a regular file.
- **Highlighting.** Highlighting the focused link in the rendered,
  ANSI-coloured text (`ui/pager_highlight.go`). One scan skips `ESC [`
  control sequences (the CSI form of section 5.4 of ECMA-48). It decodes
  the rest as UTF-8 and records where each printable rune starts. Each
  link's trimmed label is then searched for with a cursor that only moves
  forward. The focused match is wrapped in SGR 7 and SGR 27 (section
  8.3.117 of ECMA-48).
- **Navigation.** The pager's navigation state (`ui/pager.go`): Tab and
  Shift-Tab move the focus, Enter follows the focused link, Backspace
  goes back through the history. The scroll offset is restored once the
  previous page is rendered again.

Modules:

- **Text** holds bytes, ASCII trimming and case folding, and substring
  search.
- **Utf8** holds Go's `utf8.DecodeRune` and `EncodeRune`.
- **Paths** holds the lexical `path/filepath` functions `Clean`, `Dir`,
  `Join`, `Abs` and `Rel` on Unix.
- **Url** holds `url.PathUnescape`.
- **Links** covers `ui/pager_links.go`.
- **Scan** covers `printableRunesAndOffsets`.
- **Highlight** covers `highlightFocusedLink`.
- **Pager** holds the class `PagerModel`, for the `pagerModel` fields and
  event branches.

Strings are byte sequences. The filesystem is an oracle (`Links.FileSystem`). It gives:

- the working directory behind `filepath.Abs`;
- `filepath.EvalSymlinks`;
- `os.Stat`;
- the display helper `stripAbsolutePath`.

The loops of the source are methods with loop invariants:

- the escape-skipping scan;
- the label search;
- the link filter.

Each is proved equal to a specification function. The properties are
proved about those functions.

## Model

| member | source | states |
|---|---|---|
| Links.SplitFragment | ui/pager_links.go:51-57 | the path part has no `#`; with a `#`, path + `#` + fragment is the destination; without one, the path is the destination and the fragment is empty |
| Links.Trimmed | ui/pager_links.go:76-77 | surrounding whitespace and then runs of `<` and `>` are removed: the result is no longer and has no angle bracket at either end |
| Links.IsAbsoluteOrUncPath | ui/pager_links.go:59-73 | the rule: a leading `/`, a leading `\\`, an ASCII letter followed by `:`, or `filepath.IsAbs` |
| Links.IsFollowableHref | ui/pager_links.go:75-91 | the rule: after trimming, no `://`, no `mailto:` prefix in any case, a path part that is not absolute or UNC and ends in `.md` or `.markdown` in any case |
| Links.SplitAtKnownHash | ui/pager_links_test.go:80-89 | a destination starting with `p#`, where `p` has no `#`, has path part `p` |
| Links.AbsoluteNotFollowable | ui/pager_links.go:59-87 | a destination that starts with `/`, with `\\`, or with a letter and `:`, also behind leading whitespace and then angle brackets, is never followable, even with a `.md` ending |
| Links.ExternalNotFollowable | ui/pager_links.go:80-82 | a destination containing `://` anywhere is not followable |
| Links.MailtoNotFollowable | ui/pager_links.go:76-82 | a destination that, after leading whitespace and then angle brackets, starts with `mailto:` in any letter case is not followable |
| Links.FragmentIgnoredByExtension | ui/pager_links.go:76-90 | the extension test reads only the path part: a `#`-free path part not ending in `.md`/`.markdown` in any letter case is refused whatever its fragment, with or without surrounding whitespace or brackets |
| Links.TrimmedSurrounded | ui/pager_links.go:76-77 | spaces, then any run of `<` and `>` at either end, are removed, and trimming again changes nothing |
| Links.SpacesAroundBrackets | ui/pager_links.go:137 | whitespace trimming removes the surrounding spaces and leaves the brackets |
| Links.BracketsAndSpacesIgnored | ui/pager_links_test.go:90-98 | `<h>` with any surrounding spaces and bracket runs resolves exactly like `h` |
| Links.DecodePath | ui/pager_links.go:150-154 | the decoded path is the unescaped path, or the raw path when unescaping fails; skipping the decoder when there is no `%` changes nothing |
| Links.EscapedSpaceDecoded | ui/pager_links_test.go:99-107 | `%20` in a path decodes to a space, as in `SPACE%20NAME.md` |
| Url.UnescapeEncode | ui/pager_links.go:151 | unescaping a percent-encoded path gives the path back |
| Url.UnescapePlain | ui/pager_links.go:150 | a path without `%` unescapes to itself |
| Url.EscapedSpace | ui/pager_links.go:151 | `%20` between unescaped parts unescapes to one space |
| Url.PathUnescape | ui/pager_links.go:151 | the rule of `url.PathUnescape`: each `%` must be followed by two hex digits, which decode to one byte; any other byte stands for itself |
| Paths.Split | ui/pager_links.go:156-157 | the segments of a path contain no `/` and join back to the path |
| Paths.SplitJoin | ui/pager_links.go:156-157 | splitting joined segments gives the segments back |
| Paths.CleanFormat | ui/pager_links.go:157 | a clean path survives formatting and re-parsing |
| Paths.CleanIdempotent | ui/pager_links.go:157 | cleaning a clean path changes nothing |
| Paths.LastSlash | ui/pager_links.go:156 | the index of the last `/`, or -1 when there is none |
| Paths.CommonPrefix | ui/pager_links.go:175 | the length of the longest common prefix of two segment lists |
| Paths.RelContainment | ui/pager_links.go:175-181 | a relative path that is neither `..` nor starts with `../` means the target lies inside the base |
| Paths.RelOfContained | ui/pager_links.go:175-181 | conversely, a target inside an absolute base gets a relative path that does not climb out |
| Paths.Clean | ui/pager_links.go:157 | the rule of `filepath.Clean`: the formatted form of the path with empty and `.` segments dropped and `..` resolved lexically |
| Paths.Dir | ui/pager_links.go:156 | the rule of `filepath.Dir`: everything up to the last `/`, cleaned |
| Paths.Join | ui/pager_links.go:157 | the rule of `filepath.Join` for two elements: empty elements skipped, the rest joined with `/` and cleaned |
| Paths.Abs | ui/pager_links.go:159-166 | fails exactly when the path is relative and the working directory is unknown |
| Paths.Rel | ui/pager_links.go:175-181 | the rule of `filepath.Rel` on the cleaned paths, except that a target of `.` adds no segment where Go appends `/.` (the resolver never passes such arguments): `.` when they are equal; none when one is rooted and the other is not, or when the base has a `..` past the common prefix; otherwise `..` for each base segment past the common prefix, then the target's remaining segments |
| Links.Evaluated | ui/pager_links.go:159-173 | making a path absolute and evaluating symlinks fails only when the working directory is unknown |
| Links.ResolveFollowableLink | ui/pager_links.go:136-198 | a destination that is not followable after trimming is skipped; an error arises only from an unknown working directory; an accepted link carries the trimmed destination, which is followable |
| Links.ResolveHref | ui/pager_links.go:139-157 | a destination that is not followable, or whose trimmed path part is empty, is skipped; an accepted link carries the destination, the trimmed and decoded path part, the fragment, and an empty label |
| Links.Sandbox | ui/pager_links.go:159-197 | an accepted link's resolved path is the evaluated target, stat calls it a regular file, and its note is the target shortened against the evaluated root |
| Links.SandboxedIsInside | ui/pager_links.go:175-189 | an accepted target lies inside the evaluated root |
| Links.InsideIsSandboxed | ui/pager_links.go:175-197 | a target that evaluates to a regular file inside an absolute evaluated root is accepted |
| Links.AcceptedIsInside | ui/pager_links_test.go:177-193 | every link the resolver accepts lies inside the root, so escapes through `..` or a symlink are refused |
| Links.BlankIsTrimmedAway | ui/pager_links.go:42-44 | a label is blank exactly when trimming whitespace leaves nothing |
| Links.FollowableLinksForDocument | ui/pager_links.go:30-49 | returns the document's links as the filter specification defines them |
| Links.ScanLinks | ui/pager_links.go:33-48 | the loop computes the filter specification: kept links in order, or the first error |
| Links.FollowableLinks | ui/pager_links.go:30-48 | the rule of the document scan: front to back, the first failed resolution aborts, accepted links with a non-blank label are kept with that label |
| Links.FilterSubsequence | ui/pager_links.go:30-49 | on success the result is an order-preserving subsequence of the raw links: each kept raw link appears once, resolved, with its label |
| Links.FilterFailsOnError | ui/pager_links.go:35-38 | the filter fails exactly when some raw link's resolution fails, with the error of the first failure |
| Links.DocumentErrorNeedsCwd | ui/pager_links.go:159-166 | the document scan can fail only when the working directory is unknown |
| Utf8.DecodeRune | ui/pager_highlight.go:94 | the width is between 1 and 4 and within the input; a rune other than the error rune is a scalar value of that encoded width |
| Utf8.DecodeEncode | ui/pager_highlight.go:94 | decoding the encoding of a scalar value gives it back, with its width |
| Utf8.EncodeDecode | ui/pager_highlight.go:94-98 | a successfully decoded rune re-encodes to exactly the bytes it was decoded from |
| Scan.EscapeEnd | ui/pager_highlight.go:84-90 | a control sequence ends just after its first final byte (0x40-0x7E), or at the end of the input when it has none |
| Scan.DecodeUnit | ui/pager_highlight.go:94-98 | a unit has width 1 and the byte's value, or is a valid UTF-8 encoding of its rune |
| Scan.DecodeUnitReadsCharacter | ui/pager_highlight.go:94-98 | a well-formed UTF-8 character at the position is read as one unit carrying its rune, whatever bytes follow |
| Scan.PrintableRunesAndOffsets | ui/pager_highlight.go:75-108 | the loop returns the printable runes and the offset table of the specification |
| Scan.PiecesTile | ui/pager_highlight.go:81-103 | the skipped sequences and printable units lie in order, without gaps, and cover the input |
| Scan.PiecesOrdered | ui/pager_highlight.go:81-103 | a later piece starts where or after an earlier one ends |
| Scan.ByteCoverage | ui/pager_highlight.go:81-103 | every byte of the input lies in exactly one piece |
| Scan.PieceShapes | ui/pager_highlight.go:82-102 | a skipped piece starts with `ESC [` and runs to its first final byte or to the end; a printable unit does not start with `ESC [` and is one byte carrying its value or a valid encoding of its rune |
| Scan.LoneEscapeIsPrintable | ui/pager_highlight.go:82 | `ESC` not followed by `[` is a printable unit of one byte |
| Scan.UnitsOrdered | ui/pager_highlight.go:100-102 | printable units lie inside the input in increasing order |
| Scan.OffsetTable | ui/pager_highlight.go:75-107 | one offset per rune plus the sentinel `len(s)`; offsets strictly increase; all but the sentinel are below `len(s)` |
| Scan.OffsetsAreBoundaries | ui/pager_highlight.go:94-105 | no offset lies strictly inside a control sequence or a multi-byte character |
| Highlight.LabelRunes | ui/pager_highlight.go:28-29 | a label's runes are empty exactly when the label is |
| Highlight.Match | ui/pager_highlight.go:28-38 | a match holds the label, starts at or after the cursor, and moves the cursor to its end; a blank or missing label leaves the cursor where it was |
| Highlight.MatchIsFirst | ui/pager_highlight.go:33-37 | a match is the first occurrence of the label at or after the cursor; without a match the label does not occur from the cursor on |
| Highlight.FoldInOrder | ui/pager_highlight.go:26-53 | every match holds its link's label, and matches of successive links do not overlap and come in increasing order |
| Highlight.MatchIsFirstAfterCursor | ui/pager_highlight.go:26-38 | each link's match is the first occurrence of its label after the previous links' matches; with no match the cursor stays |
| Highlight.RepeatedLabelsInOrder | ui/pager_highlight.go:26-38 | of two successive links with the same label, the first gets the first occurrence and the second the next one |
| Highlight.MatchWhenFirst | ui/pager_highlight.go:26-38 | when the first occurrence of a non-blank label at or after the cursor is at `a`, that link gets the match starting at `a` and the cursor moves past it |
| Highlight.ByteSpansInOrder | ui/pager_highlight.go:40-52 | in bytes too, the matches of successive links do not overlap and come in increasing order inside the text |
| Highlight.Wrap | ui/pager_highlight.go:60-72 | the output is the text with `ESC[7m` inserted at the start and `ESC[27m` at the end of the span, nine bytes longer |
| Highlight.UnwrapWrap | ui/pager_highlight.go:65-71 | deleting the two markers gives back the input |
| Highlight.Highlighted | ui/pager_highlight.go:8-16 | out-of-range focus, or text without printable runes, returns the input unchanged |
| Highlight.WrapMatchOutcome | ui/pager_highlight.go:55-72 | the focused label's match is wrapped at the offsets of its first and past-the-end runes, or the text is unchanged |
| Highlight.HighlightOutcome | ui/pager_highlight.go:40-72 | with a focus in range and printable runes, the span is the focused link's entry of `Matches` (its label's first occurrence after the earlier links' matches); the output is the input, or the input wrapped at two offset-table entries whose printable runes in between are the focused label |
| Highlight.HighlightOnlyInsertsMarkers | ui/pager_highlight.go:55-72 | the output is the input, or nine bytes longer with markers whose removal gives back the input |
| Highlight.MatchSpans | ui/pager_highlight.go:25-53 | the label loop records, for every link, the byte span at the offset-table entries of its rune match, or no span |
| Highlight.ByteSpanOf | ui/pager_highlight.go:40-52 | a rune match maps to the offset-table entries of its ends, a non-empty span inside the text, so neither guard of the source fires |
| Highlight.WrapMatchBytes | ui/pager_highlight.go:40-72 | the byte span that the loop records is within the text and is what gets wrapped |
| Highlight.WrapFocused | ui/pager_highlight.go:55-72 | the label loop and the wrap compute the specification |
| Highlight.HighlightFocusedLink | ui/pager_highlight.go:8-73 | the method returns the specified highlighted text |
| Pager.NextFocus | ui/pager.go:228-232 | Tab focuses a link in range |
| Pager.PrevFocus | ui/pager.go:240-247 | Shift-Tab focuses the last link from no focus or from the first link, otherwise the previous link |
| Pager.FocusInverse | ui/pager.go:223-249 | Shift-Tab undoes Tab and Tab undoes Shift-Tab on a focused link |
| Pager.TabVisitsInOrder | ui/pager.go:228-232 | the first n Tab presses from no focus visit links 0 to n-1 in order |
| Pager.TabPeriodic | ui/pager.go:231 | after the last link Tab wraps to the first: the focus repeats every n presses |
| Pager.DisplayedIsRendered | ui/pager.go:154-160 | with no focus the viewport shows the rendered text; otherwise the rendered text, possibly with markers whose removal gives it back |
| Pager.PagerModel.constructor | ui/pager.go:123-136 | the pager starts with no focus, no links, empty history and nothing pending |
| Pager.PagerModel.SetLinks | ui/pager.go:112 | replaces the links, keeping the focus in range |
| Pager.PagerModel.ShowStatusMessage | ui/pager.go:178-188 | shows the message and changes nothing else |
| Pager.PagerModel.ApplyRenderedContent | ui/pager.go:154-160 | the viewport shows the rendered text, highlighted when a link has focus |
| Pager.PagerModel.HandleTab | ui/pager.go:223-234 | no links: focus unchanged, "No followable links"; otherwise focus moves to the next link and stays in range, content is re-highlighted, and the link's note is shown |
| Pager.PagerModel.HandleShiftTab | ui/pager.go:235-249 | as Tab, moving to the previous link, wrapping from the first to the last; the index read at line 249 is in range |
| Pager.PagerModel.HandleEnter | ui/pager.go:251-258 | follows only when a link has focus; otherwise nothing changes except the status-message state and the hint "Tab to select a link" when there are links |
| Pager.PagerModel.FollowFocusedLink | ui/pager.go:636-654 | a link without resolved path changes nothing; otherwise the current page is pushed when there is one, focus and scroll reset, pending restore cleared, and the link's document requested |
| Pager.PagerModel.GoBack | ui/pager.go:656-674 | empty history changes nothing; otherwise exactly the last entry is popped, its page requested and its offset made pending, focus and scroll reset |
| Pager.PagerModel.HandleBackspace | ui/pager.go:260-264 | goes back only when there is history |
| Pager.PagerModel.HandleError | ui/pager.go:305-307 | the pending restore is dropped without being applied, and the error is shown |
| Pager.PagerModel.HandleContentRendered | ui/pager.go:309-321 | the new text is shown; a pending offset is applied, clamped to the bottom, then cleared |
| Pager.PagerModel.Unload | ui/pager.go:190-207 | text, content, links, history and pending restore are cleared, focus is -1, the offset 0 |
| Pager.FollowThenBack | ui/pager.go:636-674 | following a link and going back restores the history, requests the page left, and restores its offset once rendered |

## Left out

- Reading the links out of the Markdown (`extractRawLinks`, goldmark
  parsing, ui/pager_links.go:93-134) is a foreign library. The document
  scan takes the raw links as input.
- `filepath.Abs`, `filepath.EvalSymlinks`, `os.Stat` and
  `stripAbsolutePath` are an oracle (`Links.FileSystem`), not real I/O.
  Containment is proved relative to what the oracle reports.
  `stripAbsolutePath` is defined outside the modelled files.
- Paths.Rel: when the target cleans to `.` and the base is relative, Go's `filepath.Rel` keeps the `.` (`Rel("a", ".")` is `../.`) while the model returns `..`. Both climb out, and the resolver passes only rooted paths, so no decision changes.
- Paths follow Unix `path/filepath`. On Unix `filepath.IsAbs` is a
  leading `/`, and Windows volume names are left out.
- `strings.TrimSpace` and `strings.ToLower` are modelled on ASCII:
  whitespace is space and tab through carriage return, and only `A`-`Z`
  fold. Unicode spaces and letters beyond ASCII are not modelled.
- `Highlight.Match`: the label search runs on printable runes, not on
  the UTF-8 bytes of `string(printable)`. The two agree when the label is
  valid UTF-8, because a match of valid UTF-8 in valid UTF-8 starts and
  ends on rune boundaries. That equivalence is not proved.
- For labels that are not valid UTF-8, the model can differ from the
  source's byte search and `utf8.RuneCountInString`.
- `Highlight.MatchSpans` takes the labels trimmed ahead of the loop and
  delegates the search step to `Highlight.Match`. The guards at
  ui/pager_highlight.go:42-44 and 48-50 are proved never to fire, by
  `Highlight.ByteSpanOf`, instead of being kept as branches.
- `Links.ScanLinks` receives the resolver as a function value.
- The blank-label test is `Links.IsBlank`, which is proved equal to
  "`TrimSpace` is empty" by `Links.BlankIsTrimmedAway`.
- The fsnotify watcher is concurrency and I/O and is not modelled:
  `initWatcher`, `startWatching`, `stopWatching` and `watchFile`, and
  the `startWatching` call on content-rendered.
- Rendering is terminal presentation and is not modelled: glamour, line
  numbers, the status bar, help, `toggleHelp` in `unload`, and
  high-performance viewport sync.
- The editor command, clipboard copy, reload, and the status-message
  timer are not modelled. A status message is kept as the last message
  shown.
- The viewport is reduced to its scroll offset. `GotoTop` sets it to 0;
  `PastBottom` and `GotoBottom` compare it with a `maxYOffset` given
  with each rendered document. `SetContent`'s own clamping of the offset
  is not modelled.
- Scroll offsets are `nat`: Go's `int` offsets of a viewport are never
  negative.
- `Pager.PagerModel.SetLinks`: the modelled files never assign `links`
  except to clear them. The setter requires the current focus to be in
  range of the new links.
- Loading a document (`loadLocalMarkdown`) is returned as a
  `LoadRequest` instead of being run.
- The key names and the other key bindings of `update` are not modelled
  (quit, home/end, `e`, `c`, `r`, `?`).
