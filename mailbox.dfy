/** The mailbox as the downloader sees it through the browser, with the
    Selenium driver replaced by an abstract page state.

    The message list of the target folder is a sequence of pages; the list shown
    at an address whose trailing segment is the integer `p` is page `p` (an
    address outside the folder's pages shows no messages). Each message carries
    its flag marker, the attributes of the row that encloses the marker and the
    labels of its attachment links. The folder list is an ordered sequence of
    rows, each leading to an address. Only the target folder is modelled: any
    address, whichever row led to it, shows that folder's pages.

    Every click of the source is an effect on a `Snapshot` of that state; the
    class `Session.Browser` performs the same effects in place. */
module Mailbox {
  import opened Basics
  import opened Text
  import opened Address
  import opened Filter

  /** The attribute of a message-list row that holds its row key. */
  const RowAttribute: string := "__gwt_row"

  datatype Attribute = Attribute(name: string, nodeValue: string)

  /** One row of the message list: whether its marker is flagged ("icon-flag-on")
      or not ("icon-flag-off"), the attributes of the row element enclosing the
      marker, and the labels of the message's attachment download links. */
  datatype Message = Message(flagged: bool, rowAttributes: seq<Attribute>, attachments: seq<string>)

  /** A row of the folder list ("foldersRow"): its visible text and the address
      clicking it navigates to. */
  datatype FolderRow = FolderRow(text: string, url: string)

  /** A message: its page and its position in that page's list. */
  datatype MsgRef = MsgRef(page: nat, index: nat)

  /** A click on the download link number `link` of message `msg`. */
  datatype Download = Download(msg: MsgRef, link: nat)

  /** Where, if anywhere, an element reference goes stale during one iteration
      of the traversal loop: while reading the row key or clicking the marker
      (before the marker changes), on the row after the marker was clicked, or
      on attachment link number `at`. */
  datatype Fault = NoFault | StaleBeforeFlag | StaleAfterFlag | StaleInDownload(at: nat)

  /** The stale reference, if any, of the next iteration of a loop driven by a
      script of faults: once the script is used up, no reference goes stale. */
  function NextFault(faults: seq<Fault>): Fault {
    if faults == [] then NoFault else faults[0]
  }

  function LaterFaults(faults: seq<Fault>): seq<Fault> {
    if faults == [] then [] else faults[1..]
  }

  /** How `_select_email` ended: no unflagged marker (False), a stale reference,
      no row with the marker's row key (NoSuchElementException), or the message
      opened (True). */
  datatype Selection = NotFound | Stale | RowMissing | Opened

  /** The browser and mailbox state: the current address, the folder list, the
      folder's pages, the message open in the reading pane, and the record of
      marker clicks and download clicks made so far. */
  datatype Snapshot = Snapshot(
    url: string,
    folders: seq<FolderRow>,
    pages: seq<seq<Message>>,
    open: Option<MsgRef>,
    flagClicks: seq<MsgRef>,
    downloads: seq<Download>)

  // ---------------------------------------------------------------------------
  // Lookups
  // ---------------------------------------------------------------------------

  /** `_open_folder`'s search: the first folder row whose text contains the
      folder name, compared case-sensitively. */
  function FolderIndex(rows: seq<FolderRow>, name: string): (r: Option<nat>)
    ensures r.Some? ==> r.value < |rows| && Contains(rows[r.value].text, name)
    ensures r.Some? ==> forall j :: 0 <= j < r.value ==> !Contains(rows[j].text, name)
    ensures r.None? ==> forall j :: 0 <= j < |rows| ==> !Contains(rows[j].text, name)
  {
    FirstMatch(rows, (row: FolderRow) => Contains(row.text, name))
  }

  /** `_get_row_number`: the value of the first attribute named "__gwt_row";
      the loop falls off its end (None) when there is none. */
  function RowNumber(attributes: seq<Attribute>): (r: Option<string>)
    ensures r.None? <==> forall j :: 0 <= j < |attributes| ==> attributes[j].name != RowAttribute
    ensures r.Some? ==> exists i :: (0 <= i < |attributes| && attributes[i].name == RowAttribute
      && r.value == attributes[i].nodeValue
      && forall j :: 0 <= j < i ==> attributes[j].name != RowAttribute)
  {
    match FirstMatch(attributes, (a: Attribute) => a.name == RowAttribute)
    case None => None
    case Some(i) => Some(attributes[i].nodeValue)
  }

  /** The row key as the f-string of the CSS selector renders it: a missing
      row number is written "None". */
  function RowKey(m: Message): string {
    match RowNumber(m.rowAttributes)
    case Some(v) => v
    case None => "None"
  }

  /** `_find_flag`: the first message of the list whose marker is unflagged. */
  function FirstUnflagged(msgs: seq<Message>): (r: Option<nat>)
    ensures r.Some? ==> r.value < |msgs| && !msgs[r.value].flagged
    ensures r.Some? ==> forall j :: 0 <= j < r.value ==> msgs[j].flagged
    ensures r.None? ==> forall j :: 0 <= j < |msgs| ==> msgs[j].flagged
  {
    FirstMatch(msgs, (m: Message) => !m.flagged)
  }

  /** The row `[__gwt_row="key"]` the selector finds: the first message whose
      row number is `key`. */
  function FindRow(msgs: seq<Message>, key: string): (r: Option<nat>)
    ensures r.Some? ==> r.value < |msgs| && RowNumber(msgs[r.value].rowAttributes) == Some(key)
    ensures r.Some? ==> forall j :: 0 <= j < r.value ==> RowNumber(msgs[j].rowAttributes) != Some(key)
    ensures r.None? ==> forall j :: 0 <= j < |msgs| ==> RowNumber(msgs[j].rowAttributes) != Some(key)
  {
    FirstMatch(msgs, (m: Message) => RowNumber(m.rowAttributes) == Some(key))
  }

  /** No two rows of the list carry the same row number (as GWT numbers them). */
  predicate UniqueRowNumbers(msgs: seq<Message>) {
    forall j, k :: 0 <= j < k < |msgs| && RowNumber(msgs[j].rowAttributes).Some? ==>
      RowNumber(msgs[j].rowAttributes) != RowNumber(msgs[k].rowAttributes)
  }

  // ---------------------------------------------------------------------------
  // Markers
  // ---------------------------------------------------------------------------

  predicate ValidRef(pages: seq<seq<Message>>, r: MsgRef) {
    r.page < |pages| && r.index < |pages[r.page]|
  }

  predicate IsFlagged(pages: seq<seq<Message>>, r: MsgRef) {
    ValidRef(pages, r) && pages[r.page][r.index].flagged
  }

  /** `b` is `a` with at most its marker switched from unflagged to flagged. */
  predicate FlagOnlyRises(a: Message, b: Message) {
    b == a.(flagged := b.flagged) && (a.flagged ==> b.flagged)
  }

  /** `later` is `earlier` with some markers switched on and nothing else changed. */
  predicate FlagsGrow(earlier: seq<seq<Message>>, later: seq<seq<Message>>) {
    && |later| == |earlier|
    && (forall p :: 0 <= p < |earlier| ==> |later[p]| == |earlier[p]|)
    && (forall p, i :: 0 <= p < |earlier| && 0 <= i < |earlier[p]| ==> FlagOnlyRises(earlier[p][i], later[p][i]))
  }

  lemma FlagsGrowTransitive(a: seq<seq<Message>>, b: seq<seq<Message>>, c: seq<seq<Message>>)
    requires FlagsGrow(a, b) && FlagsGrow(b, c)
    ensures FlagsGrow(a, c)
  {
  }

  /** Clicking the marker of message `r`. */
  function SetFlag(pages: seq<seq<Message>>, r: MsgRef): (res: seq<seq<Message>>)
    requires ValidRef(pages, r)
    ensures FlagsGrow(pages, res) && IsFlagged(res, r)
    ensures forall p, i :: 0 <= p < |pages| && 0 <= i < |pages[p]| && (p != r.page || i != r.index) ==> res[p][i] == pages[p][i]
  {
    pages[r.page := pages[r.page][r.index := pages[r.page][r.index].(flagged := true)]]
  }

  function CountUnflagged(msgs: seq<Message>): nat {
    if msgs == [] then 0 else (if msgs[0].flagged then 0 else 1) + CountUnflagged(msgs[1..])
  }

  /** The number of unflagged markers in the whole folder. */
  function UnflaggedCount(pages: seq<seq<Message>>): nat {
    if pages == [] then 0 else CountUnflagged(pages[0]) + UnflaggedCount(pages[1..])
  }

  lemma {:induction false} CountAfterFlag(msgs: seq<Message>, i: nat)
    requires i < |msgs| && !msgs[i].flagged
    ensures CountUnflagged(msgs[i := msgs[i].(flagged := true)]) == CountUnflagged(msgs) - 1
  {
    var m := msgs[i].(flagged := true);
    if i == 0 {
      assert msgs[i := m][1..] == msgs[1..];
    } else {
      assert msgs[i := m][1..] == msgs[1..][i - 1 := m];
      CountAfterFlag(msgs[1..], i - 1);
    }
  }

  lemma {:induction false} CountAfterPageUpdate(pages: seq<seq<Message>>, p: nat, msgs: seq<Message>)
    requires p < |pages|
    ensures UnflaggedCount(pages[p := msgs]) + CountUnflagged(pages[p]) == UnflaggedCount(pages) + CountUnflagged(msgs)
  {
    if p == 0 {
      assert pages[p := msgs][1..] == pages[1..];
    } else {
      assert pages[p := msgs][1..] == pages[1..][p - 1 := msgs];
      CountAfterPageUpdate(pages[1..], p - 1, msgs);
    }
  }

  /** Clicking an unflagged marker leaves exactly one unflagged marker fewer. */
  lemma FlagDecrementsCount(pages: seq<seq<Message>>, r: MsgRef)
    requires ValidRef(pages, r) && !pages[r.page][r.index].flagged
    ensures UnflaggedCount(SetFlag(pages, r)) == UnflaggedCount(pages) - 1
  {
    var msgs := pages[r.page];
    CountAfterFlag(msgs, r.index);
    CountAfterPageUpdate(pages, r.page, msgs[r.index := msgs[r.index].(flagged := true)]);
  }

  predicate AllFlagged(msgs: seq<Message>) {
    forall i :: 0 <= i < |msgs| ==> msgs[i].flagged
  }

  /** Every page from `first` to `last` is fully flagged. */
  predicate PagesFlagged(pages: seq<seq<Message>>, first: int, last: int) {
    forall q :: first <= q <= last ==> AllFlagged(PageAt(pages, q))
  }

  lemma PagesFlaggedExtend(pages: seq<seq<Message>>, first: int, last: int)
    requires AllFlagged(PageAt(pages, first)) && PagesFlagged(pages, first + 1, last)
    ensures PagesFlagged(pages, first, last)
  {
  }

  // ---------------------------------------------------------------------------
  // What the browser shows
  // ---------------------------------------------------------------------------

  /** The message list at page `p` of the folder (none outside its pages). */
  function PageAt(pages: seq<seq<Message>>, p: int): seq<Message> {
    if 0 <= p < |pages| then pages[p] else []
  }

  /** Flags set stay set, so a page found fully flagged stays fully flagged. */
  lemma AllFlaggedStays(a: seq<seq<Message>>, b: seq<seq<Message>>, p: int)
    requires FlagsGrow(a, b) && AllFlagged(PageAt(a, p))
    ensures AllFlagged(PageAt(b, p))
  {
    if 0 <= p < |a| {
      forall i | 0 <= i < |b[p]|
        ensures b[p][i].flagged
      {
        assert FlagOnlyRises(a[p][i], b[p][i]);
      }
    }
  }

  /** The page index of the message list shown at the current address. */
  function ShownIndex(s: Snapshot): (r: Option<nat>)
    ensures r.Some? ==> r.value < |s.pages|
  {
    match SplitUrl(s.url)
    case Ok(loc) => if 0 <= loc.page < |s.pages| then Some(loc.page as nat) else None
    case Err(_) => None
  }

  /** The message list shown at the current address. */
  function Shown(s: Snapshot): seq<Message> {
    match ShownIndex(s)
    case Some(p) => s.pages[p]
    case None => []
  }

  /** Loading `base/p` shows page `p` of the folder. */
  lemma LoadShowsPage(s: Snapshot, loc: Location)
    ensures Shown(Navigate(s, Addr(loc))) == PageAt(s.pages, loc.page)
    ensures 0 <= loc.page < |s.pages| ==> ShownIndex(Navigate(s, Addr(loc))) == Some(loc.page as nat)
  {
    SplitAddr(loc);
  }

  // ---------------------------------------------------------------------------
  // Effects of the clicks
  // ---------------------------------------------------------------------------

  /** `browser.get(address)`, or a click that navigates: the address changes and
      any opened message is closed. */
  function Navigate(s: Snapshot, address: string): Snapshot {
    s.(url := address, open := None)
  }

  /** `_open_folder`: click the first matching folder row, if there is one. */
  function OpenFolderEffect(s: Snapshot, name: string): Snapshot {
    match FolderIndex(s.folders, name)
    case Some(i) => Navigate(s, s.folders[i].url)
    case None => s
  }

  /** Reopening the folder a second time changes nothing further. */
  lemma OpenFolderIdempotent(s: Snapshot, name: string)
    ensures OpenFolderEffect(OpenFolderEffect(s, name), name) == OpenFolderEffect(s, name)
  {
  }

  /** `_select_email`: find the first unflagged marker, read its row key, click
      the marker, then open the row carrying that key. */
  function SelectEffect(s: Snapshot, fault: Fault): (Selection, Snapshot) {
    match ShownIndex(s)
    case None => (NotFound, s)
    case Some(p) =>
      match FirstUnflagged(s.pages[p])
      case None => (NotFound, s)
      case Some(i) =>
        if fault.StaleBeforeFlag? then (Stale, s)
        else
          var flag := MsgRef(p, i);
          var key := RowKey(s.pages[p][i]);
          var clicked := s.(pages := SetFlag(s.pages, flag), flagClicks := s.flagClicks + [flag]);
          if fault.StaleAfterFlag? then (Stale, clicked)
          else
            match FindRow(clicked.pages[p], key)
            case None => (RowMissing, clicked)
            case Some(j) => (Opened, clicked.(open := Some(MsgRef(p, j))))
  }

  /** The labels of the download links of the opened message. */
  function OpenLinks(s: Snapshot): seq<string> {
    match s.open
    case Some(r) => if ValidRef(s.pages, r) then s.pages[r.page][r.index].attachments else []
    case None => []
  }

  /** How many links `_download_attachment` gets through before a stale
      reference, if any, interrupts it. */
  function LinksProcessed(links: seq<string>, fault: Fault): nat {
    if fault.StaleInDownload? && fault.at < |links| then fault.at else |links|
  }

  function DownloadsOf(r: MsgRef, links: seq<nat>): seq<Download> {
    seq(|links|, k requires 0 <= k < |links| => Download(r, links[k]))
  }

  lemma DownloadsOfExtend(r: MsgRef, links: seq<nat>, link: nat)
    ensures DownloadsOf(r, links + [link]) == DownloadsOf(r, links) + [Download(r, link)]
  {
    var a, b := DownloadsOf(r, links + [link]), DownloadsOf(r, links) + [Download(r, link)];
    assert |a| == |b|;
    forall k | 0 <= k < |a|
      ensures a[k] == b[k]
    {
      if k < |links| {
        assert (links + [link])[k] == links[k];
      }
    }
  }

  /** `_download_attachment`: click, in order, every link of the opened message
      that the filter does not skip; the result says whether a stale reference
      cut the loop short. */
  function DownloadEffect(s: Snapshot, extensions: seq<string>, fault: Fault): (bool, Snapshot) {
    match s.open
    case None => (false, s)
    case Some(r) =>
      var links := OpenLinks(s);
      var n := LinksProcessed(links, fault);
      (n < |links|, s.(downloads := s.downloads + DownloadsOf(r, Kept(links[..n], extensions))))
  }

  // ---------------------------------------------------------------------------
  // What the effects guarantee
  // ---------------------------------------------------------------------------

  /** A failed selection clicks nothing. */
  lemma SelectWithoutUnflagged(s: Snapshot, fault: Fault)
    requires FirstUnflagged(Shown(s)).None?
    ensures SelectEffect(s, fault) == (NotFound, s)
  {
  }

  /** A selection that finds an unflagged marker clicks exactly that one marker
      (the first unflagged one shown), unless the reference went stale before
      the click; a stale reference after the click leaves the message flagged
      but not opened. */
  lemma SelectFlagsFirstUnflagged(s: Snapshot, fault: Fault)
    requires FirstUnflagged(Shown(s)).Some?
    ensures ShownIndex(s).Some?
    ensures
      var (sel, after) := SelectEffect(s, fault);
      var flag := MsgRef(ShownIndex(s).value, FirstUnflagged(Shown(s)).value);
      && sel != NotFound
      && (fault.StaleBeforeFlag? ==> sel == Stale && after == s)
      && (!fault.StaleBeforeFlag? ==>
            && after.pages == SetFlag(s.pages, flag)
            && after.flagClicks == s.flagClicks + [flag]
            && UnflaggedCount(after.pages) == UnflaggedCount(s.pages) - 1
            && after.url == s.url && after.folders == s.folders && after.downloads == s.downloads)
      && (fault.StaleAfterFlag? ==> sel == Stale && after.open == s.open)
      && (sel == RowMissing ==> after.open == s.open)
      && (sel == Opened ==> !fault.StaleBeforeFlag? && !fault.StaleAfterFlag?)
  {
    var p := ShownIndex(s).value;
    FlagDecrementsCount(s.pages, MsgRef(p, FirstUnflagged(Shown(s)).value));
  }

  /** When the clicked marker's row has a row number, the message opened is
      flagged and sits no later than the clicked marker; when row numbers are
      unique, it is the very message whose marker was clicked. */
  lemma SelectOpensFlaggedRow(s: Snapshot, fault: Fault)
    requires FirstUnflagged(Shown(s)).Some?
    requires RowNumber(Shown(s)[FirstUnflagged(Shown(s)).value].rowAttributes).Some?
    requires !fault.StaleBeforeFlag? && !fault.StaleAfterFlag?
    ensures ShownIndex(s).Some?
    ensures
      var (sel, after) := SelectEffect(s, fault);
      var p, i := ShownIndex(s).value, FirstUnflagged(Shown(s)).value;
      && sel == Opened
      && after.open.Some? && after.open.value.page == p && after.open.value.index <= i
      && IsFlagged(after.pages, after.open.value)
      && (UniqueRowNumbers(Shown(s)) ==> after.open == Some(MsgRef(p, i)))
  {
    var p: nat, i: nat := ShownIndex(s).value, FirstUnflagged(Shown(s)).value;
    var msgs: seq<Message> := s.pages[p];
    var clicked: seq<seq<Message>> := SetFlag(s.pages, MsgRef(p, i));
    var key := RowKey(msgs[i]);
    assert RowNumber(clicked[p][i].rowAttributes) == Some(key);
    var j := FindRow(clicked[p], key).value;
    assert clicked[p][j] == msgs[j] || j == i;
    assert RowNumber(msgs[j].rowAttributes) == Some(key);
  }

  /** The download clicks made on message `r` after getting through the first
      `done` links: one per kept link, in order, each on a link before `done`. */
  lemma KeptDownloads(r: MsgRef, links: seq<string>, extensions: seq<string>, done: nat)
    requires done <= |links|
    ensures
      var added := DownloadsOf(r, Kept(links[..done], extensions));
      && (forall k :: 0 <= k < |added| ==>
            added[k].msg == r && added[k].link < done && !SkipFile(links[added[k].link], extensions))
      && (forall j, k :: 0 <= j < k < |added| ==> added[j].link < added[k].link)
      && (forall i :: 0 <= i < done && !SkipFile(links[i], extensions) ==>
            exists k :: 0 <= k < |added| && added[k].link == i)
  {
    var kept := Kept(links[..done], extensions);
    var added := DownloadsOf(r, kept);
    KeptSpec(links[..done], extensions);
    forall k | 0 <= k < |added|
      ensures added[k].msg == r && added[k].link < done && !SkipFile(links[added[k].link], extensions)
    {
      assert links[..done][kept[k]] == links[kept[k]];
    }
    forall i | 0 <= i < done && !SkipFile(links[i], extensions)
      ensures exists k :: 0 <= k < |added| && added[k].link == i
    {
      assert links[..done][i] == links[i];
      var k :| 0 <= k < |kept| && kept[k] == i;
      assert added[k].link == i;
    }
  }

  /** `_download_attachment` clicks exactly the links whose label is not
      skipped, each once and in document order, until a stale reference (if
      any) interrupts it; nothing but the record of downloads changes. */
  lemma DownloadClicksKeptLinks(s: Snapshot, extensions: seq<string>, fault: Fault)
    requires s.open.Some? && ValidRef(s.pages, s.open.value)
    ensures
      var (stale, after) := DownloadEffect(s, extensions, fault);
      var links := s.pages[s.open.value.page][s.open.value.index].attachments;
      var done := LinksProcessed(links, fault);
      var n := |s.downloads|;
      && after == s.(downloads := after.downloads)
      && n <= |after.downloads|
      && after.downloads[..n] == s.downloads
      && (stale <==> fault.StaleInDownload? && fault.at < |links|)
      && var added := after.downloads[n..];
         && (forall k :: 0 <= k < |added| ==>
               && added[k].msg == s.open.value
               && added[k].link < done
               && !SkipFile(links[added[k].link], extensions))
         && (forall j, k :: 0 <= j < k < |added| ==> added[j].link < added[k].link)
         && (forall i :: 0 <= i < done && !SkipFile(links[i], extensions) ==>
               exists k :: 0 <= k < |added| && added[k].link == i)
  {
    var (stale, after) := DownloadEffect(s, extensions, fault);
    var links := OpenLinks(s);
    var done := LinksProcessed(links, fault);
    var added := DownloadsOf(s.open.value, Kept(links[..done], extensions));
    var n := |s.downloads|;
    assert after.downloads == s.downloads + added;
    assert after.downloads[n..] == added;
    KeptDownloads(s.open.value, links, extensions, done);
  }

  // ---------------------------------------------------------------------------
  // The bookkeeping every run keeps
  // ---------------------------------------------------------------------------

  /** A download that clicked an existing link the filter does not skip. */
  predicate DownloadAllowed(pages: seq<seq<Message>>, d: Download, extensions: seq<string>) {
    && ValidRef(pages, d.msg)
    && d.link < |pages[d.msg.page][d.msg.index].attachments|
    && !SkipFile(pages[d.msg.page][d.msg.index].attachments[d.link], extensions)
  }

  /** Every marker clicked is flagged and was clicked once; every download was
      allowed by the filter; the opened message exists. */
  predicate Consistent(s: Snapshot, extensions: seq<string>) {
    && (forall k :: 0 <= k < |s.flagClicks| ==> IsFlagged(s.pages, s.flagClicks[k]))
    && (forall j, k :: 0 <= j < k < |s.flagClicks| ==> s.flagClicks[j] != s.flagClicks[k])
    && (forall k :: 0 <= k < |s.downloads| ==> DownloadAllowed(s.pages, s.downloads[k], extensions))
    && (s.open.Some? ==> ValidRef(s.pages, s.open.value))
  }

  lemma FlagsGrowKeepsConsistent(s: Snapshot, pages: seq<seq<Message>>, extensions: seq<string>)
    requires Consistent(s, extensions) && FlagsGrow(s.pages, pages)
    ensures Consistent(s.(pages := pages), extensions)
  {
    forall k | 0 <= k < |s.flagClicks|
      ensures IsFlagged(pages, s.flagClicks[k])
    {
      var r := s.flagClicks[k];
      assert FlagOnlyRises(s.pages[r.page][r.index], pages[r.page][r.index]);
    }
    forall k | 0 <= k < |s.downloads|
      ensures DownloadAllowed(pages, s.downloads[k], extensions)
    {
      var d := s.downloads[k];
      assert FlagOnlyRises(s.pages[d.msg.page][d.msg.index], pages[d.msg.page][d.msg.index]);
    }
  }

  /** Clicking an unflagged marker, and logging the click, keeps the
      bookkeeping: the marker cannot have been clicked before. */
  lemma ClickKeepsConsistent(s: Snapshot, flag: MsgRef, extensions: seq<string>)
    requires Consistent(s, extensions)
    requires ValidRef(s.pages, flag) && !s.pages[flag.page][flag.index].flagged
    ensures Consistent(s.(pages := SetFlag(s.pages, flag), flagClicks := s.flagClicks + [flag]), extensions)
  {
    var pages := SetFlag(s.pages, flag);
    FlagsGrowKeepsConsistent(s, pages, extensions);
    forall k | 0 <= k < |s.flagClicks|
      ensures s.flagClicks[k] != flag
    {
      assert IsFlagged(s.pages, s.flagClicks[k]);
    }
  }

  /** Selecting keeps the bookkeeping: the marker it clicks was unflagged, so it
      had not been clicked before. */
  lemma SelectKeepsConsistent(s: Snapshot, fault: Fault, extensions: seq<string>)
    requires Consistent(s, extensions)
    ensures Consistent(SelectEffect(s, fault).1, extensions)
    ensures FlagsGrow(s.pages, SelectEffect(s, fault).1.pages)
  {
    if FirstUnflagged(Shown(s)).Some? && !fault.StaleBeforeFlag? {
      var p := ShownIndex(s).value;
      var i := FirstUnflagged(s.pages[p]).value;
      var flag := MsgRef(p, i);
      ClickKeepsConsistent(s, flag, extensions);
      var clicked := s.(pages := SetFlag(s.pages, flag), flagClicks := s.flagClicks + [flag]);
      var after := SelectEffect(s, fault).1;
      assert after == clicked || after == clicked.(open := after.open);
    }
  }

  lemma DownloadKeepsConsistent(s: Snapshot, extensions: seq<string>, fault: Fault)
    requires Consistent(s, extensions)
    ensures Consistent(DownloadEffect(s, extensions, fault).1, extensions)
    ensures DownloadEffect(s, extensions, fault).1.pages == s.pages
  {
    if s.open.Some? {
      DownloadClicksKeptLinks(s, extensions, fault);
    }
  }
}
