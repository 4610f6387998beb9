/** main.py's traversal: open the folder, split its address into a base and a
    page, then repeatedly reload `base/page` and flag-and-open one unflagged
    message, moving to the next page only after a page ran dry while a message
    had been opened since the last move. */
module Traversal {
  import opened Basics
  import opened Text
  import opened Address
  import opened Filter
  import opened Mailbox
  import opened Session

  /** The run configuration of `ABVAttachmentDownloader.__init__`. */
  datatype Config = Config(folderName: string, skipExtensions: seq<string>)

  /** `folder_name="UBB"`, `skip_file_extensions=(".p7s",)`. */
  const DefaultConfig: Config := Config("UBB", DefaultSkipExtensions)

  /** The loop's locals: `folder_url`, `page` and `opened_mail`. */
  datatype Cursor = Cursor(base: string, page: int, openedMail: bool)

  /** How a run ends: folder exhausted on `page`; sign-in rejected; the folder
      address could not be split (an uncaught ValueError); no row carried the
      clicked marker's row key (NoSuchElementException on `page`). */
  datatype Outcome =
    | Done(page: int)
    | SignInFailed
    | Malformed(error: AddressError)
    | RowNotFound(page: int)

  /** One iteration of the loop: go round again from a new state and cursor, or
      leave the loop. */
  datatype Transition = Continue(state: Snapshot, cursor: Cursor) | Exit(state: Snapshot, outcome: Outcome)

  /** One pass through the body of `while True`. */
  function Step(s: Snapshot, c: Cursor, extensions: seq<string>, fault: Fault): Transition {
    var loaded := Navigate(s, Addr(Location(c.base, c.page)));
    var (sel, after) := SelectEffect(loaded, fault);
    match sel
    case NotFound =>
      if !c.openedMail then Exit(after, Done(c.page))
      else Continue(after, c.(openedMail := false, page := c.page + 1))
    case Stale => Continue(after, c)
    case RowMissing => Exit(after, RowNotFound(c.page))
    case Opened => Continue(DownloadEffect(after, extensions, fault).1, c.(openedMail := true))
  }

  /** The page is advanced by exactly one, and only when the page shows no
      unflagged marker while a message was opened since the last advance; the
      advance resets `openedMail`. The loop's only normal exit is the same
      situation with no message opened, and it leaves the page where it is. */
  lemma StepCursor(s: Snapshot, c: Cursor, extensions: seq<string>, fault: Fault)
    ensures
      var t := Step(s, c, extensions, fault);
      var empty := FirstUnflagged(PageAt(s.pages, c.page)).None?;
      && (t.Exit? && t.outcome.Done? <==> empty && !c.openedMail)
      && (t.Exit? && t.outcome.Done? ==> t.outcome.page == c.page && t.state.pages == s.pages)
      && (t.Exit? ==> t.outcome.Done? || (t.outcome.RowNotFound? && t.outcome.page == c.page && !empty))
      && (t.Continue? ==> t.cursor.base == c.base)
      && (t.Continue? && t.cursor.page != c.page <==> empty && c.openedMail)
      && (t.Continue? && t.cursor.page != c.page ==>
            t.cursor.page == c.page + 1 && !t.cursor.openedMail && t.state.pages == s.pages)
  {
    var loaded := Navigate(s, Addr(Location(c.base, c.page)));
    LoadShowsPage(s, Location(c.base, c.page));
    if FirstUnflagged(PageAt(s.pages, c.page)).None? {
      SelectWithoutUnflagged(loaded, fault);
    } else {
      SelectFlagsFirstUnflagged(loaded, fault);
    }
  }

  /** A selection that finds an unflagged marker clicks exactly that marker
      (the first unflagged one on the page) and then sets `openedMail`; a stale
      reference before the click changes nothing and the loop re-enters with
      the same page; one after the click leaves the message flagged but
      `openedMail` untouched. */
  lemma StepSelects(s: Snapshot, c: Cursor, extensions: seq<string>, fault: Fault)
    requires FirstUnflagged(PageAt(s.pages, c.page)).Some?
    ensures 0 <= c.page < |s.pages|
    ensures
      var t := Step(s, c, extensions, fault);
      var flag := MsgRef(c.page as nat, FirstUnflagged(PageAt(s.pages, c.page)).value);
      && (fault.StaleBeforeFlag? ==>
            (t.Continue? && t.cursor == c && t.state.pages == s.pages
             && t.state.flagClicks == s.flagClicks && t.state.downloads == s.downloads))
      && (!fault.StaleBeforeFlag? ==>
            && t.state.pages == SetFlag(s.pages, flag)
            && t.state.flagClicks == s.flagClicks + [flag]
            && UnflaggedCount(t.state.pages) == UnflaggedCount(s.pages) - 1)
      && (fault.StaleAfterFlag? ==> t.Continue? && t.cursor == c && t.state.downloads == s.downloads)
      && (!fault.StaleBeforeFlag? && !fault.StaleAfterFlag? && t.Continue? ==> t.cursor == c.(openedMail := true))
  {
    var loc := Location(c.base, c.page);
    var loaded := Navigate(s, Addr(loc));
    LoadShowsPage(s, loc);
    SelectFlagsFirstUnflagged(loaded, fault);
  }

  /** A stale reference just after the click leaves the clicked message
      flagged but not opened, with none of its attachments downloaded; being
      flagged, it is never offered by a later selection on that page. */
  lemma StaleAfterFlagSkipsMessage(s: Snapshot, c: Cursor, extensions: seq<string>)
    requires FirstUnflagged(PageAt(s.pages, c.page)).Some?
    ensures 0 <= c.page < |s.pages|
    ensures
      var t := Step(s, c, extensions, StaleAfterFlag);
      var i := FirstUnflagged(PageAt(s.pages, c.page)).value;
      && t.Continue? && t.cursor == c
      && IsFlagged(t.state.pages, MsgRef(c.page as nat, i))
      && t.state.open.None? && t.state.downloads == s.downloads
      && FirstUnflagged(PageAt(t.state.pages, c.page)) != Some(i)
  {
    var loc := Location(c.base, c.page);
    LoadShowsPage(s, loc);
    SelectFlagsFirstUnflagged(Navigate(s, Addr(loc)), StaleAfterFlag);
  }

  /** The termination argument: every iteration that goes round again either
      clicks a marker, or clears `openedMail`, or consumes a stale reference that
      struck before any click. */
  lemma StepMeasure(s: Snapshot, c: Cursor, extensions: seq<string>, fault: Fault)
    ensures FlagsGrow(s.pages, Step(s, c, extensions, fault).state.pages)
    ensures
      var t := Step(s, c, extensions, fault);
      t.Continue? ==>
        || UnflaggedCount(t.state.pages) < UnflaggedCount(s.pages)
        || (t.state.pages == s.pages && c.openedMail && !t.cursor.openedMail)
        || (t.state.pages == s.pages && t.cursor == c && fault.StaleBeforeFlag?)
  {
    StepCursor(s, c, extensions, fault);
    if FirstUnflagged(PageAt(s.pages, c.page)).Some? {
      StepSelects(s, c, extensions, fault);
    }
  }

  /** The loop run to its exit, with stale references taken from `faults`. */
  function Run(s: Snapshot, c: Cursor, extensions: seq<string>, faults: seq<Fault>): (Snapshot, Outcome)
    decreases UnflaggedCount(s.pages), if c.openedMail then 1 else 0, |faults|
  {
    var fault := NextFault(faults);
    StepMeasure(s, c, extensions, fault);
    match Step(s, c, extensions, fault)
    case Exit(after, outcome) => (after, outcome)
    case Continue(after, next) => Run(after, next, extensions, LaterFaults(faults))
  }

  /** What one iteration does once the selection's result is known. */
  lemma StepBySelection(s: Snapshot, c: Cursor, extensions: seq<string>, fault: Fault, sel: Selection, selected: Snapshot)
    requires (sel, selected) == SelectEffect(Navigate(s, Addr(Location(c.base, c.page))), fault)
    ensures
      var t := Step(s, c, extensions, fault);
      && (sel.NotFound? && !c.openedMail ==> t == Exit(selected, Done(c.page)))
      && (sel.NotFound? && c.openedMail ==> t == Continue(selected, c.(openedMail := false, page := c.page + 1)))
      && (sel.Stale? ==> t == Continue(selected, c))
      && (sel.RowMissing? ==> t == Exit(selected, RowNotFound(c.page)))
      && (sel.Opened? ==> t == Continue(DownloadEffect(selected, extensions, fault).1, c.(openedMail := true)))
  {
  }

  /** The run is the first step followed by the run from where that step left. */
  lemma RunUnfold(s: Snapshot, c: Cursor, extensions: seq<string>, faults: seq<Fault>)
    ensures
      var t := Step(s, c, extensions, NextFault(faults));
      && (t.Exit? ==> Run(s, c, extensions, faults) == (t.state, t.outcome))
      && (t.Continue? ==> Run(s, c, extensions, faults) == Run(t.state, t.cursor, extensions, LaterFaults(faults)))
  {
  }

  /** `_download_attachments`: open the folder, split its address, run the loop. */
  function Traverse(s: Snapshot, cfg: Config, faults: seq<Fault>): (Snapshot, Outcome) {
    var folderShown := OpenFolderEffect(s, cfg.folderName);
    match SplitUrl(folderShown.url)
    case Err(e) => (folderShown, Malformed(e))
    case Ok(loc) => Run(folderShown, Cursor(loc.base, loc.page, false), cfg.skipExtensions, faults)
  }

  lemma StepKeepsConsistent(s: Snapshot, c: Cursor, extensions: seq<string>, fault: Fault)
    requires Consistent(s, extensions)
    ensures Consistent(Step(s, c, extensions, fault).state, extensions)
  {
    var loaded := Navigate(s, Addr(Location(c.base, c.page)));
    var (sel, selected) := SelectEffect(loaded, fault);
    SelectKeepsConsistent(loaded, fault, extensions);
    DownloadKeepsConsistent(selected, extensions, fault);
    StepBySelection(s, c, extensions, fault, sel, selected);
  }

  /** Over a whole run markers are only ever switched on, no marker is clicked
      twice, and every download click is on a link the filter lets through. */
  lemma {:induction false} RunKeepsConsistent(s: Snapshot, c: Cursor, extensions: seq<string>, faults: seq<Fault>)
    requires Consistent(s, extensions)
    ensures Consistent(Run(s, c, extensions, faults).0, extensions)
    ensures FlagsGrow(s.pages, Run(s, c, extensions, faults).0.pages)
    decreases UnflaggedCount(s.pages), if c.openedMail then 1 else 0, |faults|
  {
    var fault := NextFault(faults);
    StepMeasure(s, c, extensions, fault);
    StepKeepsConsistent(s, c, extensions, fault);
    match Step(s, c, extensions, fault)
    case Exit(after, outcome) =>
    case Continue(after, next) =>
      RunKeepsConsistent(after, next, extensions, LaterFaults(faults));
      FlagsGrowTransitive(s.pages, after.pages, Run(after, next, extensions, LaterFaults(faults)).0.pages);
  }

  lemma {:induction false} RunFlagsGrow(s: Snapshot, c: Cursor, extensions: seq<string>, faults: seq<Fault>)
    ensures FlagsGrow(s.pages, Run(s, c, extensions, faults).0.pages)
    decreases UnflaggedCount(s.pages), if c.openedMail then 1 else 0, |faults|
  {
    var fault := NextFault(faults);
    StepMeasure(s, c, extensions, fault);
    match Step(s, c, extensions, fault)
    case Exit(after, outcome) =>
    case Continue(after, next) =>
      RunFlagsGrow(after, next, extensions, LaterFaults(faults));
      FlagsGrowTransitive(s.pages, after.pages, Run(after, next, extensions, LaterFaults(faults)).0.pages);
  }

  /** The page an iteration leaves the cursor on, and the page it exits on. */
  lemma StepPage(s: Snapshot, c: Cursor, extensions: seq<string>, fault: Fault)
    ensures
      var t := Step(s, c, extensions, fault);
      && (t.Continue? ==>
            || t.cursor.page == c.page
            || (t.cursor.page == c.page + 1 && t.state.pages == s.pages && AllFlagged(PageAt(s.pages, c.page))))
      && (t.Exit? ==> (t.outcome.Done? || t.outcome.RowNotFound?) && t.outcome.page == c.page)
      && (t.Exit? && t.outcome.Done? ==> AllFlagged(PageAt(t.state.pages, c.page)))
  {
    StepCursor(s, c, extensions, fault);
  }

  /** The loop ends on a page no earlier than it started, and when it ends
      normally every page from the first one loaded to the last is fully
      flagged. */
  lemma {:induction false} RunCoversPages(s: Snapshot, c: Cursor, extensions: seq<string>, faults: seq<Fault>)
    ensures Run(s, c, extensions, faults).1.Done? || Run(s, c, extensions, faults).1.RowNotFound?
    ensures c.page <= Run(s, c, extensions, faults).1.page
    ensures Run(s, c, extensions, faults).1.Done? ==>
      PagesFlagged(Run(s, c, extensions, faults).0.pages, c.page, Run(s, c, extensions, faults).1.page)
    decreases UnflaggedCount(s.pages), if c.openedMail then 1 else 0, |faults|
  {
    var fault := NextFault(faults);
    var t := Step(s, c, extensions, fault);
    StepMeasure(s, c, extensions, fault);
    StepPage(s, c, extensions, fault);
    RunUnfold(s, c, extensions, faults);
    if t.Continue? {
      var rest := LaterFaults(faults);
      var final := Run(t.state, t.cursor, extensions, rest);
      assert Run(s, c, extensions, faults) == final;
      RunCoversPages(t.state, t.cursor, extensions, rest);
      if t.cursor.page != c.page && final.1.Done? {
        assert t.cursor.page == c.page + 1 && t.state.pages == s.pages;
        RunFlagsGrow(t.state, t.cursor, extensions, rest);
        AllFlaggedStays(t.state.pages, final.0.pages, c.page);
        PagesFlaggedExtend(final.0.pages, c.page, final.1.page);
      }
    } else {
      assert Run(s, c, extensions, faults) == (t.state, t.outcome);
    }
  }

  /** One pass through the body of the loop on the browser: reload the page,
      select a message and download from it. Returns the outcome when the
      loop is left, and otherwise the cursor of the next pass. */
  method Visit(b: Browser, c: Cursor, extensions: seq<string>, fault: Fault) returns (next: Cursor, exit: Option<Outcome>)
    modifies b
    ensures Step(old(b.State()), c, extensions, fault)
         == if exit.Some? then Exit(b.State(), exit.value) else Continue(b.State(), next)
  {
    ghost var before := b.State();
    b.Get(c.base + "/" + IntToString(c.page));
    var sel := b.SelectEmail(fault);
    StepBySelection(before, c, extensions, fault, sel, b.State());
    next, exit := c, None;
    if sel == NotFound {
      if !c.openedMail {
        exit := Some(Done(c.page));
      } else {
        next := c.(openedMail := false, page := c.page + 1);
      }
    } else if sel == RowMissing {
      exit := Some(RowNotFound(c.page));
    } else if sel == Opened {
      next := c.(openedMail := true);
      var stale := b.DownloadAttachment(extensions, fault);
    }
    // a stale reference is logged and the loop re-entered
  }

  /** `_download_attachments` on the browser: the run `Traverse` describes. */
  method DownloadAttachments(b: Browser, cfg: Config, faults: seq<Fault>) returns (outcome: Outcome)
    modifies b
    ensures (b.State(), outcome) == Traverse(old(b.State()), cfg, faults)
  {
    b.OpenFolder(cfg.folderName);
    var split := SplitUrl(b.url);
    if split.Err? {
      return Malformed(split.error);
    }
    var cursor := Cursor(split.value.base, split.value.page, false);
    var pending := faults;
    ghost var run := Traverse(old(b.State()), cfg, faults);
    while true
      invariant Run(b.State(), cursor, cfg.skipExtensions, pending) == run
      decreases UnflaggedCount(b.pages), if cursor.openedMail then 1 else 0, |pending|
    {
      var fault := NextFault(pending);
      StepMeasure(b.State(), cursor, cfg.skipExtensions, fault);
      RunUnfold(b.State(), cursor, cfg.skipExtensions, pending);
      var next, exit := Visit(b, cursor, cfg.skipExtensions, fault);
      if exit.Some? {
        return exit.value;
      }
      cursor, pending := next, LaterFaults(pending);
    }
  }

  /** `download` once the browser is up: when the username field is still
      there after submitting the credentials, sign-in failed and nothing else
      happens; otherwise the traversal runs. */
  method Download(b: Browser, cfg: Config, usernameFieldRemains: bool, faults: seq<Fault>) returns (outcome: Outcome)
    modifies b
    ensures usernameFieldRemains ==> outcome == SignInFailed && b.State() == old(b.State())
    ensures !usernameFieldRemains ==> (b.State(), outcome) == Traverse(old(b.State()), cfg, faults)
  {
    if usernameFieldRemains {
      return SignInFailed;
    }
    outcome := DownloadAttachments(b, cfg, faults);
  }
}
