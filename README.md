# ABV.bg attachment downloader: the mailbox traversal

`ABVAttachmentDownloader` signs in to the ABV.bg webmail and opens one folder.
It then repeatedly finds a message whose flag marker is off, clicks the marker
(flagging the message as done), opens that message and clicks every attachment
download link whose label the extension filter does not skip. Two versions
exist:

- `main.py` walks the folder page by page through addresses `base/page`. It
  moves to the next page only after a page shows no unflagged marker and a
  message was opened since the last move. It stops when a page shows no
  unflagged marker and nothing was opened there. A sign-in that leaves the
  username field on screen ends the run before the traversal.
- `abv-scrapper.py` reopens the folder through the folder list on every
  iteration. It never pages, it skips `.p7s` labels with a hard-coded test,
  and it starts the traversal without checking the sign-in.

The model describes the browser and mailbox as a value, `Mailbox.Snapshot`:
- the current address;
- the folder list;
- the folder's pages of messages, each with its flag, its row attributes and
  its attachment labels;
- the message open in the reading pane;
- the log of marker clicks and the log of download clicks.

Each interaction with the page is a function on snapshots: `Navigate`,
`OpenFolderEffect`, `SelectEffect` and `DownloadEffect`.
`Session.Browser` is a class with the same fields. Its methods change the
fields in place and are proved to have exactly those effects.

Each traversal loop is specified twice: once as a step function iterated to
its exit (`Traversal.Run`, `LegacyTraversal.LegacyRun`), and once as a
`while` loop over a `Browser`, proved equal to that run. The lemmas about the
step and the run state what the loop guarantees.

A stale element reference can strike at several points in one iteration.
Where it strikes is given by a script of faults, one entry per iteration:
`Mailbox.Fault`, consumed by `NextFault`/`LaterFaults`. The Python `int` and
`str` used by the paging cursor are written out in `Text`.

Modules:
- `Basics`: Option, Result and first-match search.
- `Text`: ASCII case mapping, substring search, `str`/`int` of integers.
- `Address`: `rsplit("/", 1)` plus `int`, and the page address.
- `Filter`: the attachment filter.
- `Mailbox`: state, lookups and effects.
- `Session`: the browser class.
- `Traversal`: the `main.py` loop and `download`.
- `LegacyTraversal`: the `abv-scrapper.py` loop and `download`.

## Model

| member | source | states |
|---|---|---|
| Text.LowerForgetsCase | main.py:125 | lower-casing is idempotent and forgets any earlier upper-casing, so the filter's comparison ignores case |
| Text.IntToStringRoundTrip | main.py:146-151 | `int(str(p)) == p` for every integer page, so the page written into the address is read back unchanged |
| Text.CanonicalRoundTrip | main.py:146-147 | a segment written the way `str` writes integers parses, and writing the parsed value again gives the same segment |
| Address.SplitLast | main.py:146 | `rsplit("/", 1)` fails exactly when there is no slash; otherwise address = base + "/" + segment, and the segment holds no slash |
| Address.SplitAddr | main.py:146-151 | splitting the reloaded address `f"{folder_url}/{page}"` gives back the same base and page |
| Address.AddrOfSplit | main.py:145-151 | when the folder address ends in a canonically written integer, the first address the loop loads is the folder address itself |
| Address.AddrIsCanonical | main.py:146-151 | every address the loop reloads ends in a canonically written page, so splitting it and reloading gives back the same address |
| Address.SplitRejectsNonInteger | main.py:147 | a trailing segment `int` rejects makes the split fail, reporting that segment |
| Address.SplitRejectsNoSlash | main.py:146 | an address with no slash cannot be unpacked into base and page |
| Address.SplitExamplePage | main.py:146-147 | ".../inbox/7" splits into base ".../inbox" and page 7 |
| Address.SplitExampleMalformed | main.py:146-147 | ".../inbox/x" is rejected, reporting the segment "x" |
| Filter.SkipFile | main.py:120-127 | a label is skipped iff some configured extension, lower-cased, occurs in the lower-cased label; otherwise the falsy `None` |
| Filter.NothingSkippedWithoutExtensions | main.py:124-127 | with an empty extension tuple no label is skipped |
| Filter.SkipFileIgnoresCase | main.py:120-127 | two labels equal once lower-cased, checked against two extension tuples equal entry by entry once lower-cased, are skipped alike |
| Filter.SkipFileIgnoresCaseOf | main.py:125 | upper- or lower-casing the label, or upper-casing an extension, leaves the decision unchanged |
| Filter.DefaultSkipsSignatures | abv-scrapper.py:108 | main.py's filter with its default `(".p7s",)` skips exactly the labels that the legacy test `".p7s" in file_text.lower()` skips |
| Filter.SkipFileExamplesSkipped | main.py:120-127 | with the default extensions "notice.p7s" and "NOTICE.P7S" are both skipped |
| Filter.SkipFileExampleKept | main.py:120-127 | with the default extensions "report.pdf" is not skipped |
| Filter.KeptSpec | main.py:134-139 | the links clicked are exactly the non-skipped ones, each once, in document order |
| Mailbox.FolderIndex | main.py:75-80 | the folder clicked is the first row whose text contains the folder name; none is clicked when no row does |
| Mailbox.RowNumber | main.py:90-101 | the row number is the value of the first `__gwt_row` attribute; there is none exactly when no attribute has that name |
| Mailbox.FirstUnflagged | main.py:82-88 | the marker found is the first unflagged one; none is found exactly when every shown message is flagged |
| Mailbox.FindRow | main.py:114-116 | the row opened is the first one whose row number equals the key; none when no row carries the key |
| Mailbox.SetFlag | main.py:112 | clicking a marker flags that message, clears no flag, and leaves every other message unchanged |
| Mailbox.FlagDecrementsCount | main.py:112 | clicking an unflagged marker lowers the number of unflagged messages in the folder by exactly one |
| Mailbox.LoadShowsPage | main.py:151 | loading `base/p` shows page p of the folder (nothing when p is not a page) |
| Mailbox.OpenFolderIdempotent | abv-scrapper.py:119 | reopening the folder right after opening it changes nothing further |
| Mailbox.SelectWithoutUnflagged | main.py:106-109 | when no unflagged marker is shown, the selection reports False and changes nothing |
| Mailbox.SelectFlagsFirstUnflagged | main.py:103-118 | otherwise exactly the first unflagged marker is clicked and logged, and the unflagged count drops by one; a stale reference before the click changes nothing; one after the click leaves the message flagged but unopened |
| Mailbox.SelectOpensFlaggedRow | main.py:111-116 | when the clicked row has a row number, a message is opened, it is flagged, and it is no later than the clicked one; with unique row numbers it is the clicked message itself |
| Mailbox.DownloadClicksKeptLinks | main.py:129-141 | the download clicks are exactly the non-skipped links of the opened message, in order and each once, up to the link where a stale reference strikes; nothing else changes |
| Mailbox.ClickKeepsConsistent | main.py:111-112 | clicking an unflagged marker and logging the click keeps every clicked marker flagged and clicked once |
| Mailbox.SelectKeepsConsistent | main.py:103-118 | a selection only ever sets flags, never clicks a marker twice and keeps the opened message valid |
| Mailbox.DownloadKeepsConsistent | main.py:129-141 | downloading adds only clicks on links the filter lets through and leaves every flag as it was |
| Session.Browser.Get | main.py:151 | `browser.get` moves to the address and closes the opened message |
| Session.Browser.OpenFolder | main.py:75-80 | the loop over folder rows has exactly the effect of clicking the first matching row |
| Session.Browser.SelectEmail | main.py:103-118 | the in-place selection has exactly the result and new state of `SelectEffect` |
| Session.Browser.DownloadAttachment | main.py:129-141 | clicking the opened message's links has exactly the effect of `DownloadEffect`: the kept links are appended to the download log and nothing else changes |
| Session.ClickLinks | main.py:134-141 | the loop over the link labels appends one click per kept link, in order, up to the link where a stale reference strikes, and reports whether one struck |
| Traversal.StepCursor | main.py:149-158 | the page advances by exactly one, and only when it shows no unflagged marker while a message was opened since the last advance; the advance resets the flag; the loop ends normally exactly when the page has no unflagged marker and nothing was opened |
| Traversal.StepSelects | main.py:149-161 | an iteration on a page with an unflagged marker clicks exactly the first one and lowers the count by one; a stale reference before the click repeats the iteration with nothing changed |
| Traversal.StaleAfterFlagSkipsMessage | main.py:150-161 | a stale reference just after the marker click leaves that message flagged, unopened and without downloads, and no later selection offers it again |
| Traversal.StepMeasure | main.py:149-161 | every iteration that repeats clicks a marker, clears the opened flag, or uses up a stale reference that struck before any click, so the loop ends |
| Traversal.RunKeepsConsistent | main.py:149-161 | across a whole run flags are only set, no marker is clicked twice, and every download click is on a link the filter lets through |
| Traversal.RunFlagsGrow | main.py:149-161 | a run never clears a flag |
| Traversal.RunCoversPages | main.py:148-158 | the run ends on a page no earlier than the first; when it ends normally, every page from the first to the last is fully flagged |
| Traversal.Visit | main.py:150-161 | one pass through the loop body on the browser has exactly the effect, and leaves the loop exactly when, `Step` says |
| Traversal.DownloadAttachments | main.py:143-161 | the in-place loop ends with the state and outcome of `Traverse`: open the folder, split its address (a malformed one ends the run), run the paging loop |
| Traversal.Download | main.py:163-184 | when the username field is still present after the sign-in submit, the run ends as a failed sign-in with nothing changed; otherwise it is the traversal |
| LegacyTraversal.LegacyStepSelects | abv-scrapper.py:117-124 | an iteration ends the loop exactly when the reopened folder page shows no unflagged marker; otherwise it clicks that page's first unflagged marker, unless a stale reference struck before the click |
| LegacyTraversal.LegacyRunExhaustsShownPage | abv-scrapper.py:115-124 | a run that ends normally leaves the page the folder opens on fully flagged; reopening the folder changes nothing |
| LegacyTraversal.LegacyRunSkipsSignatures | abv-scrapper.py:100-124 | no legacy run ever clicks a link whose label contains ".p7s" in any case; flags only rise and each marker is clicked once |
| LegacyTraversal.LegacyDownloadAttachments | abv-scrapper.py:115-124 | the in-place loop ends with the state and outcome of `LegacyRun` |
| LegacyTraversal.LegacyDownload | abv-scrapper.py:126-136 | the traversal runs whatever happened at sign-in: the outcome is the same whether or not the username field remains |

## Left out

- Selenium itself is left out: element lookup, waits and sleeps, headless options, and the Chrome service and its construction. The page is the abstract `Snapshot`, and a click is its effect on it.
- Reading the credentials is left out (environment variables, `input` and `getpass`), and so is typing them in. The sign-in result is the `usernameFieldRemains` parameter of `Download`.
- The cookie-consent click is left out; it changes nothing the traversal reads.
- All logging is left out, including the newline replacement in the logged file name.
- `download`'s handler for `SessionNotCreatedException` and `WebDriverException` is left out, including its `webbrowser.open` of the driver download page.
- `Traversal.Download` ends in `RowNotFound` where main.py's handler catches that `NoSuchElementException` and opens the driver download page.
- Whether a clicked download ever completes is left out; it belongs to the browser's download manager.
- `Traversal.DownloadAttachments`, `Traversal.Run`, `LegacyTraversal.LegacyDownloadAttachments` and `LegacyTraversal.LegacyRun` take stale references from a finite script, one per iteration. The source retries for as long as references keep going stale; a run that never ends that way is not modelled. A stale reference inside `_open_folder` is not modelled either. main.py calls `_open_folder` outside the loop's `try`, so there it would leave `_download_attachments` and end the run through `download`'s handler before any page loads. The model has no fault and no outcome for that step. In abv-scrapper.py the same stale reference is retried inside the loop, which `StaleBeforeFlag` covers.
- Which page an address shows is an abstraction. An address whose last segment parses as an integer p shows page p of the folder; any other address shows no messages.
- The `[class*="GG"]` part of the row selector, and the click on the row's second column, are folded into "open the row with that row number".
- `Text.Lower` maps ASCII letters only. `Text.ParseInt` accepts ASCII digits only. Python's `str.lower()` and `int()` also handle other Unicode letters and digits.
- Stripping whitespace in `Text.ParseInt` covers the ASCII whitespace characters plus U+001C–U+001F, U+0085 and U+00A0. Python's `int()` also strips the other Unicode space separators.
- `Address.AddrOfSplit` covers canonically written page segments only. For a segment such as "007" the loop first loads `base/7`, which is a different address from the folder address.
- `Mailbox.OpenFolderEffect` and `Traversal.Traverse`: the mailbox holds a single folder. Every folder row, and the address reached after sign-in, shows that folder's pages. A folder name that matches no row, so that nothing is clicked, or that first matches the wrong row (say "UBB-old" listed before "UBB"), therefore still leads the traversal through the target folder. main.py would go through whatever the browser is showing.
