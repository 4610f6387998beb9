/** abv-scrapper.py, the earlier downloader: every iteration reopens the folder
    through its row in the folder list and handles one unflagged message of
    the page that shows, so only that one page is ever processed; `download`
    goes straight from submitting the credentials to the traversal. */
module LegacyTraversal {
  import opened Basics
  import opened Text
  import opened Filter
  import opened Mailbox
  import opened Session

  /** How the legacy run ends: the shown page has no unflagged marker left, or
      no row carried the clicked marker's row key (a NoSuchElementException
      that nothing catches). */
  datatype LegacyOutcome = Exhausted | NoMatchingRow

  datatype LegacyTransition = Again(state: Snapshot) | Stop(state: Snapshot, outcome: LegacyOutcome)

  /** One pass through the body of the legacy `while True`. Its link filter is
      the hard-coded ".p7s" test, which `DefaultSkipsSignatures` shows to be
      main.py's filter with its default extensions. */
  function LegacyStep(s: Snapshot, folderName: string, fault: Fault): LegacyTransition {
    var folder := OpenFolderEffect(s, folderName);
    var (sel, after) := SelectEffect(folder, fault);
    match sel
    case NotFound => Stop(after, Exhausted)
    case Stale => Again(after)
    case RowMissing => Stop(after, NoMatchingRow)
    case Opened => Again(DownloadEffect(after, DefaultSkipExtensions, fault).1)
  }

  /** The loop stops normally exactly when the page the folder shows has no
      unflagged marker, and then it has clicked nothing; otherwise the first
      unflagged marker of that page is clicked unless the reference went stale
      first, in which case nothing changes. */
  lemma LegacyStepSelects(s: Snapshot, folderName: string, fault: Fault)
    ensures
      var folder := OpenFolderEffect(s, folderName);
      var t := LegacyStep(s, folderName, fault);
      && (t.Stop? && t.outcome == Exhausted <==> FirstUnflagged(Shown(folder)).None?)
      && (t.Stop? && t.outcome == Exhausted ==> t.state == folder)
      && (FirstUnflagged(Shown(folder)).Some? && fault.StaleBeforeFlag? ==> t == Again(folder))
      && (FirstUnflagged(Shown(folder)).Some? && !fault.StaleBeforeFlag? ==>
            && ShownIndex(folder).Some?
            && t.state.flagClicks == s.flagClicks + [MsgRef(ShownIndex(folder).value, FirstUnflagged(Shown(folder)).value)]
            && UnflaggedCount(t.state.pages) == UnflaggedCount(s.pages) - 1)
  {
    var folder := OpenFolderEffect(s, folderName);
    if FirstUnflagged(Shown(folder)).None? {
      SelectWithoutUnflagged(folder, fault);
    } else {
      SelectFlagsFirstUnflagged(folder, fault);
    }
  }

  /** The legacy loop run to its exit, stale references taken from `faults`. */
  function LegacyRun(s: Snapshot, folderName: string, faults: seq<Fault>): (Snapshot, LegacyOutcome)
    decreases UnflaggedCount(s.pages), |faults|
  {
    var fault := NextFault(faults);
    LegacyStepSelects(s, folderName, fault);
    match LegacyStep(s, folderName, fault)
    case Stop(after, outcome) => (after, outcome)
    case Again(after) => LegacyRun(after, folderName, LaterFaults(faults))
  }

  /** When the legacy run ends normally, the page reopening the folder shows
      has no unflagged marker left: the run ends on a reopened folder, and
      reopening it again changes nothing. */
  lemma {:induction false} LegacyRunExhaustsShownPage(s: Snapshot, folderName: string, faults: seq<Fault>)
    ensures
      var (final, outcome) := LegacyRun(s, folderName, faults);
      outcome == Exhausted ==>
        && OpenFolderEffect(final, folderName) == final
        && AllFlagged(Shown(final))
    decreases UnflaggedCount(s.pages), |faults|
  {
    var fault := NextFault(faults);
    LegacyStepSelects(s, folderName, fault);
    match LegacyStep(s, folderName, fault)
    case Stop(after, outcome) =>
      OpenFolderIdempotent(s, folderName);
    case Again(after) =>
      LegacyRunExhaustsShownPage(after, folderName, LaterFaults(faults));
  }

  lemma LegacyStepKeepsConsistent(s: Snapshot, folderName: string, fault: Fault)
    requires Consistent(s, DefaultSkipExtensions)
    ensures Consistent(LegacyStep(s, folderName, fault).state, DefaultSkipExtensions)
  {
    var folder := OpenFolderEffect(s, folderName);
    var (sel, selected) := SelectEffect(folder, fault);
    SelectKeepsConsistent(folder, fault, DefaultSkipExtensions);
    DownloadKeepsConsistent(selected, DefaultSkipExtensions, fault);
    LegacyStepBySelection(s, folderName, fault, sel, selected);
  }

  /** No legacy run ever clicks a link whose label contains ".p7s" in any
      case, and every clicked marker stays flagged and was clicked once. */
  lemma {:induction false} LegacyRunSkipsSignatures(s: Snapshot, folderName: string, faults: seq<Fault>)
    requires Consistent(s, DefaultSkipExtensions)
    ensures
      var final := LegacyRun(s, folderName, faults).0;
      && Consistent(final, DefaultSkipExtensions)
      && forall k :: 0 <= k < |final.downloads| ==>
           var d := final.downloads[k];
           ValidRef(final.pages, d.msg)
           && d.link < |final.pages[d.msg.page][d.msg.index].attachments|
           && !IsSignatureFile(final.pages[d.msg.page][d.msg.index].attachments[d.link])
    decreases UnflaggedCount(s.pages), |faults|
  {
    var fault := NextFault(faults);
    LegacyStepSelects(s, folderName, fault);
    LegacyStepKeepsConsistent(s, folderName, fault);
    match LegacyStep(s, folderName, fault)
    case Stop(after, outcome) =>
      ConsistentSkipsSignatures(after);
    case Again(after) =>
      LegacyRunSkipsSignatures(after, folderName, LaterFaults(faults));
  }

  lemma ConsistentSkipsSignatures(s: Snapshot)
    requires Consistent(s, DefaultSkipExtensions)
    ensures forall k :: 0 <= k < |s.downloads| ==>
      var d := s.downloads[k];
      ValidRef(s.pages, d.msg)
      && d.link < |s.pages[d.msg.page][d.msg.index].attachments|
      && !IsSignatureFile(s.pages[d.msg.page][d.msg.index].attachments[d.link])
  {
    forall k | 0 <= k < |s.downloads|
      ensures var d := s.downloads[k];
        ValidRef(s.pages, d.msg)
        && d.link < |s.pages[d.msg.page][d.msg.index].attachments|
        && !IsSignatureFile(s.pages[d.msg.page][d.msg.index].attachments[d.link])
    {
      var d := s.downloads[k];
      assert DownloadAllowed(s.pages, d, DefaultSkipExtensions);
      DefaultSkipsSignatures(s.pages[d.msg.page][d.msg.index].attachments[d.link]);
    }
  }

  /** What one legacy iteration does once the selection's result is known. */
  lemma LegacyStepBySelection(s: Snapshot, folderName: string, fault: Fault, sel: Selection, selected: Snapshot)
    requires (sel, selected) == SelectEffect(OpenFolderEffect(s, folderName), fault)
    ensures
      var t := LegacyStep(s, folderName, fault);
      && (sel.NotFound? ==> t == Stop(selected, Exhausted))
      && (sel.Stale? ==> t == Again(selected))
      && (sel.RowMissing? ==> t == Stop(selected, NoMatchingRow))
      && (sel.Opened? ==> t == Again(DownloadEffect(selected, DefaultSkipExtensions, fault).1))
  {
  }

  lemma LegacyRunUnfold(s: Snapshot, folderName: string, faults: seq<Fault>)
    ensures
      var t := LegacyStep(s, folderName, NextFault(faults));
      && (t.Stop? ==> LegacyRun(s, folderName, faults) == (t.state, t.outcome))
      && (t.Again? ==> LegacyRun(s, folderName, faults) == LegacyRun(t.state, folderName, LaterFaults(faults)))
  {
  }

  /** abv-scrapper.py's `_download_attachments` on the browser. */
  method LegacyDownloadAttachments(b: Browser, folderName: string, faults: seq<Fault>) returns (outcome: LegacyOutcome)
    modifies b
    ensures (b.State(), outcome) == LegacyRun(old(b.State()), folderName, faults)
  {
    var pending := faults;
    while true
      invariant LegacyRun(b.State(), folderName, pending) == LegacyRun(old(b.State()), folderName, faults)
      decreases UnflaggedCount(b.pages), |pending|
    {
      var fault := NextFault(pending);
      ghost var before := b.State();
      LegacyStepSelects(before, folderName, fault);
      LegacyRunUnfold(before, folderName, pending);
      b.OpenFolder(folderName);
      var sel := b.SelectEmail(fault);
      LegacyStepBySelection(before, folderName, fault, sel, b.State());
      if sel == NotFound {
        return Exhausted;
      } else if sel == RowMissing {
        return NoMatchingRow;
      } else if sel == Opened {
        var stale := b.DownloadAttachment(DefaultSkipExtensions, fault);
      }
      // a stale reference is logged and the loop re-entered
      pending := LaterFaults(pending);
    }
  }

  /** abv-scrapper.py's `download` once the browser is up: it submits the
      credentials and traverses whatever follows, whether or not the username
      field is still there. */
  method LegacyDownload(b: Browser, folderName: string, usernameFieldRemains: bool, faults: seq<Fault>)
    returns (outcome: LegacyOutcome)
    modifies b
    ensures (b.State(), outcome) == LegacyRun(old(b.State()), folderName, faults)
  {
    outcome := LegacyDownloadAttachments(b, folderName, faults);
  }
}
