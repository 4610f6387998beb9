/** The browser session the downloader drives: one mutable object whose methods
    are the clicks and navigations of `ABVAttachmentDownloader`. Each method is
    proved to have exactly the effect `Mailbox` defines for it. */
module Session {
  import opened Basics
  import opened Text
  import opened Filter
  import opened Mailbox

  class Browser {
    var url: string
    var folders: seq<FolderRow>
    var pages: seq<seq<Message>>
    var open: Option<MsgRef>
    var flagClicks: seq<MsgRef>
    var downloads: seq<Download>

    /** The whole state as a value. */
    function State(): Snapshot
      reads this
    {
      Snapshot(url, folders, pages, open, flagClicks, downloads)
    }

    /** A signed-in session at `url`, nothing clicked yet. */
    constructor (url: string, folders: seq<FolderRow>, pages: seq<seq<Message>>)
      ensures State() == Snapshot(url, folders, pages, None, [], [])
    {
      this.url := url;
      this.folders := folders;
      this.pages := pages;
      this.open := None;
      this.flagClicks := [];
      this.downloads := [];
    }

    /** `browser.get(address)`. */
    method Get(address: string)
      modifies this
      ensures State() == Navigate(old(State()), address)
    {
      url, open := address, None;
    }

    /** `_open_folder`: walk the folder rows and click the first whose text
        contains `name`; click nothing when none does. */
    method OpenFolder(name: string)
      modifies this
      ensures State() == OpenFolderEffect(old(State()), name)
    {
      var i := 0;
      while i < |folders|
        invariant 0 <= i <= |folders|
        invariant forall j :: 0 <= j < i ==> !Contains(folders[j].text, name)
        invariant State() == old(State())
      {
        if Contains(folders[i].text, name) {
          url, open := folders[i].url, None;
          return;
        }
        i := i + 1;
      }
    }

    /** `_select_email`: find the first unflagged marker shown, read its row
        key, click the marker, then open the row carrying that key. */
    method SelectEmail(fault: Fault) returns (sel: Selection)
      modifies this
      ensures (sel, State()) == SelectEffect(old(State()), fault)
    {
      var shown := ShownIndex(State());
      if shown.None? {
        return NotFound;
      }
      var p := shown.value;
      var flag := FirstUnflagged(pages[p]);
      if flag.None? {
        return NotFound;
      }
      var i := flag.value;
      if fault.StaleBeforeFlag? {
        return Stale;
      }
      var key := RowKey(pages[p][i]);
      pages := SetFlag(pages, MsgRef(p, i));
      flagClicks := flagClicks + [MsgRef(p, i)];
      if fault.StaleAfterFlag? {
        return Stale;
      }
      var row := FindRow(pages[p], key);
      if row.None? {
        return RowMissing;
      }
      open := Some(MsgRef(p, row.value));
      return Opened;
    }

    /** `_download_attachment`: click, in order, each download link of the
        opened message whose label the filter does not skip. Returns whether a
        stale reference interrupted the loop. */
    method DownloadAttachment(extensions: seq<string>, fault: Fault) returns (stale: bool)
      modifies this
      ensures (stale, State()) == DownloadEffect(old(State()), extensions, fault)
    {
      if open.None? {
        return false;
      }
      stale, downloads := ClickLinks(open.value, OpenLinks(State()), extensions, fault, downloads);
    }
  }

  /** The loop of `_download_attachment` over the labels of message `r`'s
      links: each link the filter keeps is clicked, and the click appended to
      `log`, until a stale reference strikes at link `fault.at`. */
  method ClickLinks(r: MsgRef, links: seq<string>, extensions: seq<string>, fault: Fault, log0: seq<Download>)
    returns (stale: bool, log: seq<Download>)
    ensures stale == (LinksProcessed(links, fault) < |links|)
    ensures log == log0 + DownloadsOf(r, Kept(links[..LinksProcessed(links, fault)], extensions))
  {
    log := log0;
    ghost var kept: seq<nat> := [];
    var i := 0;
    while i < |links|
      invariant 0 <= i <= LinksProcessed(links, fault)
      invariant kept == Kept(links[..i], extensions)
      invariant log == log0 + DownloadsOf(r, kept)
    {
      if fault.StaleInDownload? && fault.at == i {
        return true, log;
      }
      KeptExtend(links, extensions, i);
      if !SkipFile(links[i], extensions) {
        DownloadsOfExtend(r, kept, i);
        log := log + [Download(r, i)];
        kept := kept + [i];
      }
      i := i + 1;
    }
    assert links[..i] == links;
    return false, log;
  }
}
