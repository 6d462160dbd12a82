/**
  The link-navigation state of the pager (`pagerModel` in ui/pager.go):
  which link has focus, the back-navigation history, the scroll offset to
  restore once a document has been rendered, and the content shown.

  The viewport is reduced to its scroll offset `yOffset`; its maximum,
  which depends on the rendered content and the window height, is given
  with each rendered document. Loading a document is returned to the
  caller as a `LoadRequest` instead of being run.
*/
module Pager {
  import opened Text
  import Links
  import Highlight
  import Scan

  /** A page to go back to: its path and how far it was scrolled (`navEntry`). */
  datatype NavEntry = NavEntry(path: Bytes, yOffset: nat)

  /** Whether the status bar shows a message (`pagerState`). */
  datatype PagerState = Browse | StatusMessage

  /** The status messages of the link-navigation branches. */
  datatype Message =
    | NoFollowableLinks     // "No followable links"
    | Open(note: Bytes)     // "Open: " + the link's note
    | TabToSelectLink       // "Tab to select a link"
    | Failure(text: Bytes)  // the text of an error message

  /** A request to load and render a local document (`loadLocalMarkdown`). */
  datatype LoadRequest = LoadRequest(path: Bytes, note: Bytes)

  /** Tab: the first link from no focus, otherwise the next one, wrapping around. */
  function NextFocus(f: int, n: nat): (r: nat)
    requires 0 < n && -1 <= f < n
    ensures r < n
    ensures f + 1 < n ==> r == f + 1
    ensures f + 1 == n ==> r == 0
  {
    if f < 0 then 0
    else if f + 1 < n then
      ModBelow(f + 1, n);
      (f + 1) % n
    else
      ModSelf(n);
      (f + 1) % n
  }

  lemma ModBelow(a: int, n: int)
    requires 0 <= a < n
    ensures a % n == a
  {
  }

  lemma ModSelf(n: int)
    requires 0 < n
    ensures n % n == 0
  {
  }

  /** Shift-Tab: the last link from no focus, otherwise the previous one, wrapping around. */
  function PrevFocus(f: int, n: nat): (r: nat)
    requires 0 < n && -1 <= f < n
    ensures r < n
    ensures f <= 0 ==> r == n - 1
    ensures f > 0 ==> r == f - 1
  {
    if f < 0 then n - 1
    else if f - 1 < 0 then n - 1
    else f - 1
  }

  /** Shift-Tab undoes Tab, and Tab undoes Shift-Tab, on a focused link. */
  lemma FocusInverse(f: nat, n: nat)
    requires f < n
    ensures PrevFocus(NextFocus(f, n), n) == f
    ensures NextFocus(PrevFocus(f, n), n) == f
  {
    if f + 1 == n {
      assert NextFocus(f, n) == 0;
    } else {
      assert NextFocus(f, n) == f + 1;
    }
  }

  /** The focus after `k` Tab presses from no focus. */
  function TabPresses(n: nat, k: nat): int
    requires n > 0
  {
    if k == 0 then -1 else NextFocus(TabPresses(n, k - 1), n)
  }

  /** The first `n` Tab presses from no focus visit the links in order. */
  lemma {:induction false} TabVisitsInOrder(n: nat, k: nat)
    requires 1 <= k <= n
    ensures TabPresses(n, k) == k - 1
  {
    if k > 1 {
      TabVisitsInOrder(n, k - 1);
    }
  }

  /** After the last link Tab comes back to the first: the focus repeats every `n` presses. */
  lemma {:induction false} TabPeriodic(n: nat, k: nat)
    requires n > 0 && k >= 1
    ensures TabPresses(n, k + n) == TabPresses(n, k)
  {
    if k == 1 {
      TabVisitsInOrder(n, n);
      assert TabPresses(n, n + 1) == NextFocus(n - 1, n);
    } else {
      TabPeriodic(n, k - 1);
      assert TabPresses(n, k + n) == NextFocus(TabPresses(n, k - 1 + n), n);
    }
  }

  /** The content the viewport shows: the rendered text, with the focused link highlighted. */
  function Displayed(rendered: Bytes, links: seq<Links.FollowableLink>, focused: int): Bytes {
    if focused >= 0 then Highlight.Highlighted(rendered, links, focused) else rendered
  }

  /** The viewport shows the rendered text, unchanged or with reverse video around one span. */
  lemma DisplayedIsRendered(rendered: Bytes, links: seq<Links.FollowableLink>, focused: int)
    returns (a: nat, b: nat)
    ensures focused < 0 ==> Displayed(rendered, links, focused) == rendered
    ensures Displayed(rendered, links, focused) == rendered
      || (a <= b <= |rendered|
          && Displayed(rendered, links, focused) == Highlight.Wrap(rendered, a, b)
          && Highlight.Unwrap(Displayed(rendered, links, focused), a, b) == rendered)
  {
    a, b := 0, 0;
    if focused >= 0 {
      var rs := Highlight.HighlightOutcome(rendered, links, focused);
      if rs.Some? {
        a, b := Scan.Offsets(rendered)[rs.value.start], Scan.Offsets(rendered)[rs.value.end];
        Highlight.UnwrapWrap(rendered, a, b);
      }
    }
  }

  class PagerModel {
    /** The rendered document (`rendered`). */
    var rendered: Bytes
    /** What the viewport shows (`viewport.SetContent`). */
    var content: Bytes
    /** How far the viewport is scrolled (`viewport.YOffset`). */
    var yOffset: nat
    var links: seq<Links.FollowableLink>
    var focusedLink: int
    var history: seq<NavEntry>
    var pendingRestoreYOffset: Option<nat>
    /** The path of the current document (`currentDocument.localPath`). */
    var localPath: Bytes
    var state: PagerState
    var statusMessage: Option<Message>

    /** Focus is either off (-1) or on one of the links. */
    predicate Valid()
      reads this
    {
      -1 <= focusedLink < |links|
    }

    /** `newPagerModel`: no focus, no history, nothing pending. */
    constructor ()
      ensures Valid()
      ensures rendered == [] && content == [] && yOffset == 0 && localPath == []
      ensures links == [] && focusedLink == -1 && history == [] && pendingRestoreYOffset == None
      ensures state == Browse && statusMessage == None
    {
      rendered, content, yOffset, localPath := [], [], 0, [];
      links, focusedLink, history, pendingRestoreYOffset := [], -1, [], None;
      state, statusMessage := Browse, None;
    }

    /** The followable links of the current document, found when it was loaded. */
    method SetLinks(ls: seq<Links.FollowableLink>)
      requires Valid() && focusedLink < |ls|
      modifies this
      ensures Valid()
      ensures links == ls
      ensures rendered == old(rendered) && content == old(content) && yOffset == old(yOffset)
      ensures focusedLink == old(focusedLink) && history == old(history)
      ensures pendingRestoreYOffset == old(pendingRestoreYOffset) && localPath == old(localPath)
      ensures state == old(state) && statusMessage == old(statusMessage)
    {
      links := ls;
    }

    /** The document now open. */
    method SetLocalPath(path: Bytes)
      modifies this
      ensures localPath == path
      ensures rendered == old(rendered) && content == old(content) && yOffset == old(yOffset)
      ensures links == old(links) && focusedLink == old(focusedLink) && history == old(history)
      ensures pendingRestoreYOffset == old(pendingRestoreYOffset)
      ensures state == old(state) && statusMessage == old(statusMessage)
    {
      localPath := path;
    }

    /** `showStatusMessage`, without its timer. */
    method ShowStatusMessage(msg: Message)
      modifies this
      ensures state == StatusMessage && statusMessage == Some(msg)
      ensures rendered == old(rendered) && content == old(content) && yOffset == old(yOffset)
      ensures links == old(links) && focusedLink == old(focusedLink) && history == old(history)
      ensures pendingRestoreYOffset == old(pendingRestoreYOffset) && localPath == old(localPath)
    {
      state := StatusMessage;
      statusMessage := Some(msg);
    }

    /** `applyRenderedContent`: show the rendered text, with the focused link highlighted. */
    method ApplyRenderedContent()
      modifies this
      ensures content == Displayed(rendered, links, focusedLink)
      ensures rendered == old(rendered) && yOffset == old(yOffset)
      ensures links == old(links) && focusedLink == old(focusedLink) && history == old(history)
      ensures pendingRestoreYOffset == old(pendingRestoreYOffset) && localPath == old(localPath)
      ensures state == old(state) && statusMessage == old(statusMessage)
    {
      var c := rendered;
      if focusedLink >= 0 {
        c := Highlight.HighlightFocusedLink(c, links, focusedLink);
      }
      content := c;
    }

    /** Tab: focus the next link, or say there is none. */
    method HandleTab()
      requires Valid()
      modifies this
      ensures Valid()
      ensures state == StatusMessage
      ensures rendered == old(rendered) && yOffset == old(yOffset)
      ensures links == old(links) && history == old(history)
      ensures pendingRestoreYOffset == old(pendingRestoreYOffset) && localPath == old(localPath)
      ensures |links| == 0 ==>
        focusedLink == old(focusedLink) && content == old(content)
        && statusMessage == Some(NoFollowableLinks)
      ensures |links| > 0 ==>
        focusedLink == NextFocus(old(focusedLink), |links|) && 0 <= focusedLink
        && content == Displayed(rendered, links, focusedLink)
        && statusMessage == Some(Open(links[focusedLink].resolvedNote))
    {
      if |links| == 0 {
        ShowStatusMessage(NoFollowableLinks);
        return;
      }
      if focusedLink < 0 {
        focusedLink := 0;
      } else {
        focusedLink := (focusedLink + 1) % |links|;
      }
      ApplyRenderedContent();
      ShowStatusMessage(Open(links[focusedLink].resolvedNote));
    }

    /** Shift-Tab: focus the previous link, or say there is none. */
    method HandleShiftTab()
      requires Valid()
      modifies this
      ensures Valid()
      ensures state == StatusMessage
      ensures rendered == old(rendered) && yOffset == old(yOffset)
      ensures links == old(links) && history == old(history)
      ensures pendingRestoreYOffset == old(pendingRestoreYOffset) && localPath == old(localPath)
      ensures |links| == 0 ==>
        focusedLink == old(focusedLink) && content == old(content)
        && statusMessage == Some(NoFollowableLinks)
      ensures |links| > 0 ==>
        focusedLink == PrevFocus(old(focusedLink), |links|) && 0 <= focusedLink
        && content == Displayed(rendered, links, focusedLink)
        && statusMessage == Some(Open(links[focusedLink].resolvedNote))
    {
      if |links| == 0 {
        ShowStatusMessage(NoFollowableLinks);
        return;
      }
      if focusedLink < 0 {
        focusedLink := |links| - 1;
      } else {
        focusedLink := focusedLink - 1;
        if focusedLink < 0 {
          focusedLink := |links| - 1;
        }
      }
      ApplyRenderedContent();
      ShowStatusMessage(Open(links[focusedLink].resolvedNote));
    }

    /**
      `followFocusedLink`: remember where we are and ask for the link's
      document. A link without a resolved path changes nothing.
    */
    method FollowFocusedLink() returns (load: Option<LoadRequest>)
      requires Valid() && 0 <= focusedLink
      modifies this
      ensures Valid()
      ensures var l := old(links[focusedLink]);
        if l.resolvedPath == [] then
          load == None && focusedLink == old(focusedLink) && history == old(history)
          && yOffset == old(yOffset) && pendingRestoreYOffset == old(pendingRestoreYOffset)
        else
          load == Some(LoadRequest(l.resolvedPath, l.resolvedNote))
          && history == old(history) + (if old(localPath) != [] then [NavEntry(old(localPath), old(yOffset))] else [])
          && focusedLink == -1 && yOffset == 0 && pendingRestoreYOffset == None
      ensures rendered == old(rendered) && content == old(content) && links == old(links)
      ensures localPath == old(localPath) && state == old(state) && statusMessage == old(statusMessage)
    {
      var l := links[focusedLink];
      if l.resolvedPath == [] {
        return None;
      }
      if localPath != [] {
        history := history + [NavEntry(localPath, yOffset)];
      }
      focusedLink := -1;
      yOffset := 0;
      pendingRestoreYOffset := None;
      return Some(LoadRequest(l.resolvedPath, l.resolvedNote));
    }

    /**
      `goBack`: pop the last page off the history, ask for it, and restore
      its scroll offset once it has been rendered. The note is
      `stripAbsolutePath` of the path against the pager's working directory
      `cwd`, the same display helper the resolver uses, taken from `fs`.
    */
    method GoBack(fs: Links.FileSystem, cwd: Bytes) returns (load: Option<LoadRequest>)
      requires Valid()
      modifies this
      ensures Valid()
      ensures old(history) == [] ==>
        load == None && history == [] && focusedLink == old(focusedLink)
        && yOffset == old(yOffset) && pendingRestoreYOffset == old(pendingRestoreYOffset)
      ensures old(history) != [] ==>
        var last := old(history)[|old(history)| - 1];
        history == old(history)[..|old(history)| - 1]
        && load == Some(LoadRequest(last.path, fs.stripAbsolutePath(last.path, cwd)))
        && focusedLink == -1 && pendingRestoreYOffset == Some(last.yOffset) && yOffset == 0
      ensures rendered == old(rendered) && content == old(content) && links == old(links)
      ensures localPath == old(localPath) && state == old(state) && statusMessage == old(statusMessage)
    {
      if |history| == 0 {
        return None;
      }
      var last := history[|history| - 1];
      history := history[..|history| - 1];
      focusedLink := -1;
      pendingRestoreYOffset := Some(last.yOffset);
      yOffset := 0;
      return Some(LoadRequest(last.path, fs.stripAbsolutePath(last.path, cwd)));
    }

    /** Enter: follow the focused link; with links but none focused, say how to pick one. */
    method HandleEnter() returns (load: Option<LoadRequest>)
      requires Valid()
      modifies this
      ensures Valid()
      ensures old(focusedLink) < 0 && |links| > 0 ==> state == StatusMessage
      ensures old(focusedLink) >= 0 || |links| == 0 ==> state == old(state)
      ensures old(focusedLink) < 0 ==>
        load == None && focusedLink == old(focusedLink) && history == old(history)
        && yOffset == old(yOffset) && pendingRestoreYOffset == old(pendingRestoreYOffset)
        && statusMessage == (if |links| > 0 then Some(TabToSelectLink) else old(statusMessage))
      ensures old(focusedLink) >= 0 ==>
        var l := old(links[focusedLink]);
        statusMessage == old(statusMessage)
        && (l.resolvedPath != [] ==>
              load == Some(LoadRequest(l.resolvedPath, l.resolvedNote))
              && history == old(history) + (if old(localPath) != [] then [NavEntry(old(localPath), old(yOffset))] else [])
              && focusedLink == -1 && yOffset == 0 && pendingRestoreYOffset == None)
        && (l.resolvedPath == [] ==>
              load == None && focusedLink == old(focusedLink) && history == old(history)
              && yOffset == old(yOffset) && pendingRestoreYOffset == old(pendingRestoreYOffset))
      ensures rendered == old(rendered) && content == old(content) && links == old(links)
      ensures localPath == old(localPath)
    {
      if focusedLink >= 0 && focusedLink < |links| {
        load := FollowFocusedLink();
        return;
      }
      load := None;
      if |links| > 0 {
        ShowStatusMessage(TabToSelectLink);
      }
    }

    /** Backspace: go back when there is somewhere to go back to. */
    method HandleBackspace(fs: Links.FileSystem, cwd: Bytes) returns (load: Option<LoadRequest>)
      requires Valid()
      modifies this
      ensures Valid()
      ensures old(history) == [] ==>
        load == None && history == [] && focusedLink == old(focusedLink)
        && yOffset == old(yOffset) && pendingRestoreYOffset == old(pendingRestoreYOffset)
      ensures old(history) != [] ==>
        var last := old(history)[|old(history)| - 1];
        history == old(history)[..|old(history)| - 1]
        && load == Some(LoadRequest(last.path, fs.stripAbsolutePath(last.path, cwd)))
        && focusedLink == -1 && pendingRestoreYOffset == Some(last.yOffset) && yOffset == 0
      ensures rendered == old(rendered) && content == old(content) && links == old(links)
      ensures localPath == old(localPath) && state == old(state) && statusMessage == old(statusMessage)
    {
      load := None;
      if |history| > 0 {
        load := GoBack(fs, cwd);
      }
    }

    /** An error message: drop the pending scroll restore and show the error. */
    method HandleError(text: Bytes)
      modifies this
      ensures pendingRestoreYOffset == None
      ensures state == StatusMessage && statusMessage == Some(Failure(text))
      ensures rendered == old(rendered) && content == old(content) && yOffset == old(yOffset)
      ensures links == old(links) && focusedLink == old(focusedLink) && history == old(history)
      ensures localPath == old(localPath)
    {
      pendingRestoreYOffset := None;
      ShowStatusMessage(Failure(text));
    }

    /**
      A rendered document: show it, then apply the pending scroll restore,
      kept within `maxYOffset`, the largest offset the viewport allows for
      the new content.
    */
    method HandleContentRendered(text: Bytes, maxYOffset: nat)
      requires Valid()
      modifies this
      ensures Valid()
      ensures rendered == text && content == Displayed(text, links, focusedLink)
      ensures match old(pendingRestoreYOffset)
        case None => yOffset == old(yOffset)
        case Some(y) => yOffset == (if y > maxYOffset then maxYOffset else y) && yOffset <= maxYOffset
      ensures pendingRestoreYOffset == None
      ensures links == old(links) && focusedLink == old(focusedLink) && history == old(history)
      ensures localPath == old(localPath) && state == old(state) && statusMessage == old(statusMessage)
    {
      rendered := text;
      ApplyRenderedContent();
      if pendingRestoreYOffset.Some? {
        yOffset := pendingRestoreYOffset.value;
        if yOffset > maxYOffset {
          yOffset := maxYOffset;
        }
        pendingRestoreYOffset := None;
      }
    }

    /** `unload`: forget the document, its links, the focus, the history and any pending restore. */
    method Unload()
      modifies this
      ensures Valid()
      ensures rendered == [] && content == [] && yOffset == 0
      ensures links == [] && focusedLink == -1 && history == [] && pendingRestoreYOffset == None
      ensures state == Browse
      ensures localPath == old(localPath) && statusMessage == old(statusMessage)
    {
      state := Browse;
      content := [];
      yOffset := 0;
      rendered := [];
      links := [];
      focusedLink := -1;
      history := [];
      pendingRestoreYOffset := None;
    }
  }

  /**
    Following a link and then going back leaves the history as it was,
    asks for the page we came from, and restores its scroll offset once
    that page is rendered again.
  */
  method FollowThenBack(m: PagerModel, fs: Links.FileSystem, cwd: Bytes, maxYOffset: nat, text: Bytes)
    returns (there: Option<LoadRequest>, back: Option<LoadRequest>)
    requires m.Valid() && 0 <= m.focusedLink && m.links[m.focusedLink].resolvedPath != [] && m.localPath != []
    requires m.yOffset <= maxYOffset
    modifies m
    ensures m.Valid()
    ensures there == Some(LoadRequest(old(m.links[m.focusedLink].resolvedPath), old(m.links[m.focusedLink].resolvedNote)))
    ensures back == Some(LoadRequest(old(m.localPath), fs.stripAbsolutePath(old(m.localPath), cwd)))
    ensures m.history == old(m.history)
    ensures m.yOffset == old(m.yOffset) && m.pendingRestoreYOffset == None && m.focusedLink == -1
  {
    there := m.FollowFocusedLink();
    back := m.GoBack(fs, cwd);
    m.HandleContentRendered(text, maxYOffset);
  }
}
