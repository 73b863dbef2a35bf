# SBrows core, modelled in Dafny

SBrows is a small tabbed web browser (`browser.py`). This project models the
parts of it that decide things, as opposed to the parts that draw widgets:

- **Request filter** (`AdBlocker.interceptRequest`). A request is blocked when
  its URL contains one of fourteen ad domains. It is also blocked when the URL
  holds one of the words `ad`, `track`, `analytics`, `advertisement` or
  `served` as a whole word, ignoring case. Module `RequestFilter`.
- **Address bar** (`navigate_to_url`). The typed text is stripped of
  whitespace. Text that starts with `http://` or `https://` is used as it is.
  Text that looks like a host name gets `https://` in front. Any other text
  becomes a Google search, with the query UTF-8 and percent encoded the way
  `QUrl.toPercentEncoding` does it. Modules `AddressBar`, `Utf8` and
  `PercentEncoding`.
- **Lock icon** (`update_url_bar`). The icon is locked exactly when the URL's
  scheme, as QUrl parses it, is `https`. Module `UrlScheme`.
- **History** (`update_history` and the history dialog). The list is most
  recent first, with a cap of 50 entries. The dialog can delete one entry or
  clear them all. Module `History`, used by `Session`.
- **Media permissions** (`handle_feature_permission`, `ask_permission`).
  Microphone and camera requests are granted only when the user answers Yes.
  Every other feature is left unanswered. Module `Permissions`.
- **Downloads** (`handle_download` and its `update_progress`). An empty save
  path cancels the download. Otherwise the download is accepted under the
  path's base name. The progress view shows a percentage and kilobytes.
  Module `Downloads`.
- **The window** (`MainWindow`). It holds the ordered tabs, the current index,
  the history and whether the window has been closed. Its handlers
  `add_new_tab`, `close_current_tab`, `navigate_to_url`, `update_history` and
  the two history-dialog actions are methods of the class
  `Session.MainWindow`, and they update these fields in place.

Inputs that the program reads from the user or from files are parameters of
the model:

- the save path from the file dialog;
- the Yes/No reply of a message box (`Dialog.Reply`);
- the entry selected in the history list;
- the history list loaded from `history.json`.

### Where the code does not do what it evidently means

- **History.** The guard `url not in self.history` (browser.py:442) shows that
  a URL already listed was meant to be found and not added again. The cap at
  browser.py:443-445 evidently means to evict the oldest entry. The code does
  neither.
  - `url not in self.history` compares a `QUrl` against a list of `str`. In
    Python such an equality is never true, so the test always passes.
  - The newest entry is at index 0, so at the cap `pop(0)` removes the entry
    that was just inserted.
  - `History.Record` and the class model the code as written. The two
    findings below record both gaps. `History.RecordByText` is the guard
    comparing text. `History.RecordFixed` adds eviction of the oldest entry
    at the cap. Neither moves an entry that is already listed, and neither
    does the code.
  - `History.TextTestIsMembership` also states what the code would do if the
    test compared text.
- **Host-name pattern.** The pattern `^[\w\-]+(\.[\w\-]+)+.*$` is modelled
  exactly, under `re.match`. This includes the rule that `.` does not match a
  line feed, and that `$` may match before one final line feed.

## Model

| member | source | states |
|---|---|---|
| RequestFilter.InterceptRequest | browser.py:18-32 | the request is blocked exactly when a listed ad domain occurs in the URL or the keyword pattern matches somewhere in it |
| RequestFilter.Decide | browser.py:22-32 | for any domain list: Block iff some domain occurs as a substring of the URL, or some position starts a whole-word, case-insensitive keyword match |
| RequestFilter.ContainsFrom | browser.py:30 | the scan is true iff the pattern occurs in the text at some position from the start index on (`domain in url`) |
| RequestFilter.SearchFrom | browser.py:30 | the scan is true iff a keyword match starts at some position from the start index on (`re.search`) |
| RequestFilter.ListedDomainBlocks | browser.py:22-32 | any URL that contains a listed domain is blocked, whatever else it contains |
| RequestFilter.KeywordRuleDecides | browser.py:30-32 | a URL that contains no listed domain is blocked iff the keyword pattern matches it |
| RequestFilter.RedundantDomainsChangeNothing | browser.py:22-28 | dropping the three listed domains that contain a shorter listed domain decides every URL the same way |
| RequestFilter.AdsIsAllowed | browser.py:30 | `ads` is not a whole-word match of `ad`: the URL `ads` is allowed |
| RequestFilter.PageadIsAllowed | browser.py:30 | `ad` inside a longer word is not matched: the URL `pagead2` is allowed |
| RequestFilter.WholeKeywordsAreBlocked | browser.py:30 | `x.io/ad/1` and `TRACK=1` are blocked: case is ignored, and `/` and `=` are word boundaries |
| Utf8.DecodeEncode | browser.py:465 | UTF-8 encoding of any string decodes back to the same string |
| Utf8.EncodeAscii | browser.py:465 | an ASCII character encodes to the one byte of its code point |
| Utf8.Encode | browser.py:465 | one to four bytes per character, and exactly one per character iff every character is ASCII |
| PercentEncoding.EncodeByte | browser.py:465 | an unreserved byte stays as its character; any other becomes `%` and two upper-case hexadecimal digits |
| PercentEncoding.Encode | browser.py:465 | `QUrl.toPercentEncoding`: at least one character per byte, and exactly one per byte iff no byte needs escaping |
| PercentEncoding.DecodeEncode | browser.py:465 | percent-decoding the encoded bytes gives back the bytes |
| PercentEncoding.EncodedIsUrlSafe | browser.py:465 | every character of the encoding is an unreserved character or `%`, so the query needs no further escaping |
| PercentEncoding.EncodeConcat | browser.py:465 | encoding distributes over concatenation |
| PercentEncoding.EncodeUnreserved | browser.py:465 | unreserved bytes pass through the encoding unchanged |
| AddressBar.LeadingSpaces | browser.py:460 | counts the whitespace prefix: all of it is whitespace and the next character is not |
| AddressBar.TrailingSpaces | browser.py:460 | counts the whitespace suffix: all of it is whitespace and the character before it is not |
| AddressBar.Strip | browser.py:460 | the result is a slice of the input with only whitespace outside it and no whitespace at either end |
| AddressBar.StripIdempotent | browser.py:460 | stripping a stripped text changes nothing |
| AddressBar.HostRun | browser.py:462 | the run of `[\w\-]` characters at a position: all host characters, ending at a non-host character or at the end |
| AddressBar.DomainLikeIffPattern | browser.py:462 | the executable test holds iff the regex `^[\w\-]+(\.[\w\-]+)+.*$` matches under `re.match` (both directions) |
| AddressBar.Resolve | browser.py:459-465 | the URL the tab is sent to always starts with `http://` or `https://`, and is either the stripped text or starts with `https://` |
| AddressBar.SearchUrl | browser.py:464-465 | the search URL starts with the Google search prefix, and what follows the prefix is the percent-encoded UTF-8 of the text |
| AddressBar.SearchUrlReadsBack | browser.py:465 | the query after the search prefix is URL-safe and decodes back, through percent and UTF-8 decoding, to the text |
| AddressBar.ResolveForms | browser.py:459-465 | the three outcomes: web URLs unchanged, host names prefixed with `https://`, otherwise `SearchUrl` of the stripped text, whose query is URL-safe and decodes back to the stripped text |
| AddressBar.HostNameExample | browser.py:461-463 | `example.com` becomes `https://example.com` |
| AddressBar.SearchExample | browser.py:464-465 | `boil eggs` becomes the search URL with query `boil%20eggs` |
| AddressBar.AccentExample | browser.py:465 | `é` (U+00E9) is escaped byte by byte in upper-case hex: `%C3%A9` |
| UrlScheme.SchemeColon | browser.py:492 | finds the first `:` before any `/`, `?` or `#`, and nothing when there is none (QUrl stops only at `?` and `#`, but a `/` never belongs to a scheme name, so the scheme found is the same) |
| UrlScheme.Scheme | browser.py:492 | a scheme is reported iff the URL starts with a valid scheme name followed by `:`; it is then that name, lower-cased |
| UrlScheme.HttpsScheme | browser.py:492 | QUrl reports the scheme `https` iff the URL starts with `https:` in any letter case |
| UrlScheme.LockIconFor | browser.py:492-495 | the locked icon is chosen iff the URL starts with `https:` in any letter case; otherwise the unlocked one |
| Permissions.HandleFeaturePermission | browser.py:67-87 | at most one policy is set, for the requested URL and feature, exactly for the media features; it is a grant iff the reply was Yes |
| Permissions.FailClosed | browser.py:82-87 | any reply but Yes to a media request sets the denied policy |
| Downloads.Basename | browser.py:316 | `os.path.basename`: the suffix of the path after its last `/`, containing no `/` |
| Downloads.HandleDownload | browser.py:310-318 | an empty save path cancels; any other is accepted at that path, under the name `Basename` of it, which has no `/` and ends the path |
| Downloads.UpdateProgress | browser.py:327-333 | no update unless the total is positive; otherwise the floor percentage, the received and the total size each in whole kilobytes rounded down, and a percentage within 0..100 while the received bytes do not exceed the total |
| Downloads.ProgressMonotone | browser.py:327-330 | for a fixed total, receiving more never lowers the shown percentage |
| History.QUrlNeverFound | browser.py:442 | a QUrl is never `in` a list of strings, so the guard always passes |
| History.TextTestIsMembership | browser.py:442 | had the test compared the URL's text, it would be plain list membership |
| History.Record | browser.py:440-446 | either the history is unchanged or the URL is put at the front; it changes iff the test misses and the history is below the cap; the cap is kept |
| History.RecordAllKeepsCap | browser.py:443-445 | over any sequence of visits, a history of at most 50 entries stays within 50 |
| History.FullHistoryIsFrozen | browser.py:443-445 | once the history has 50 entries, no visit ever changes it |
| History.VisitsArePrepended | browser.py:442-443 | below the cap, the visits appear at the front, most recent first, duplicates included |
| History.RevisitDuplicates | browser.py:442-443 | visiting the same URL twice from an empty history records it twice |
| History.RecordByText | browser.py:440-446 | with the membership test on text, an absent entry is prepended below the cap, a present one changes nothing, and the history stays free of duplicates |
| History.FirstIndex | browser.py:378 | the index of the first occurrence: the value is there and not before it |
| History.RemoveFirst | browser.py:378 | `list.remove`: nothing iff the value is absent; otherwise the list without its first occurrence, in order, with one fewer copy |
| History.RecordFixed | browser.py:440-446 | the intended update: a URL already listed (as text) leaves the history unchanged; a new one goes to the front, followed by the old entries in order, with one entry more than before, but at most 50, so the oldest are evicted; no duplicates appear |
| History.RecordFixedBelowCap | browser.py:440-446 | below the cap the intended update equals the code's update with the guard comparing text |
| History.RecordFixedAtCap | browser.py:443-445 | at 50 entries a new URL goes to the front and the oldest entry is dropped, where the code as written leaves the history unchanged |
| Session.RemoveAt | browser.py:524 | `removeTab`: one tab fewer, the others in their order |
| Session.CurrentAfterRemoval | browser.py:524 | the current tab stays current; a removed current tab passes to its right neighbour, or to its left one when it was last |
| Session.MainWindow.constructor | browser.py:159-189 | a window with the loaded history and one home-page tab, current, whose URL is then recorded |
| Session.MainWindow.UpdateHistory | browser.py:440-446 | the history becomes `History.Record` of the old one, within the cap |
| Session.MainWindow.AddNewTab | browser.py:406-413 | a new tab at the end, current, on the given URL or the home page, with a fresh id; the URL is recorded (line 429) |
| Session.MainWindow.CloseCurrentTab | browser.py:514-526 | with several tabs, the tab at a valid index is removed and the current index follows Qt's rule; with one tab the window closes; history is untouched |
| Session.MainWindow.NavigateToUrl | browser.py:459-467 | the current tab goes to `AddressBar.Resolve` of the text, which is then recorded; the other tabs are untouched |
| Session.MainWindow.DeleteSelectedHistory | browser.py:368-380 | a confirmed deletion removes the first occurrence, or raises when the entry is absent; otherwise nothing changes |
| Session.MainWindow.ClearAllHistory | browser.py:383-392 | a confirmed clear empties the history; a refusal keeps it |

## Left out

- RequestFilter.WordBoundary: `\w` and `re.IGNORECASE` are modelled over ASCII. Python's are Unicode-aware: non-ASCII letters count as word characters, and a few non-ASCII letters (the Kelvin sign, long s, dotted capital I) fold onto keyword letters.
- AddressBar.IsHostChar: `[\w\-]` is likewise modelled over ASCII letters, digits, `_` and `-`. Python's `\w` is Unicode, so the program sends a host name with non-ASCII letters such as `münchen.de` to `https://münchen.de`. `AddressBar.Resolve` turns that text into a Google search instead.
- Permission prompts: the question texts of `ask_permission` (browser.py:95-100) are message-box UI and are not modelled. Their effect is the reply, a parameter of `Permissions.HandleFeaturePermission`.
- The blocked-request log line (`print`) is output only and is not modelled.
- Downloads.UpdateProgress: the percentage is computed exactly as `received * 100 / total`, rounded down. Python's float expression can be one lower, e.g. 29 of 100 gives 28.
- Downloads.HandleDownload: follows the Qt 5 download API (`setPath`, `downloadProgress`, `finished`). The Qt 6 `QWebEngineDownloadRequest` imported at browser.py:7 has none of these, so as written line 317 would raise `AttributeError` before `accept()` (not executed). The model describes the evident intent: accept the download at the chosen path.
- Downloads.HandleDownload: only the gate and the accepted name and path are modelled. The progress dialog and the `on_finished` and `on_cancel` handlers are left out: they are UI state driven by Qt signals.
- Session.CurrentAfterRemoval: the current index after `removeTab` is chosen by Qt's tab bar (its default select-right rule), not by this program, and is modelled after Qt's documented behaviour.
- Session.MainWindow.CloseCurrentTab: the `stop`, `about:blank` and `deleteLater` clean-up of the removed view is not modelled. After `close()` the window's fields stay as they were, and `closed` records the call.
- Session.MainWindow.NavigateToUrl: the URL is kept as text. QUrl's own normalisation of it (host lower-casing, re-encoding) is not modelled, so a tab's URL and a history entry are the text the address bar produced.
- Saving and loading `history.json` (file I/O and the JSON format) are left out. The constructor takes the loaded list as a parameter, and no model method writes a file.
- `read_text_file_lines`, the completer and `links.txt` are file input for auto-completion only.
- The cookie store setup in `CustomWebEngineProfile` and the Chromium media flag in the environment are Qt configuration with no decision logic.
- `createWindow`, `create_new_tab_from_page` and `open_new_window` create Qt views and windows. Their only effect on modelled state goes through `AddNewTab`.
- Tab titles, icons and loading labels set by signal handlers (`update_tab_title`, `set_tab_icon`) are left out, and so is drag reordering of tabs: they are display state.
- The text of the URL bar in `update_url_bar` is left out. Only the choice of lock icon is modelled (`UrlScheme.LockIconFor`).
- The message boxes and the history list widget are left out. Their answers are parameters, and the list widget mirrors the history.
- Utf8.Encode: Dafny strings cannot hold lone surrogates, so Qt's replacement of them is not modelled.

## Findings

| source | as written | input that shows it | evidently intended | confidence | as-written member | corrected member |
|---|---|---|---|---|---|---|
| browser.py:443-445 | `insert(0, url)` followed by `pop(0)` when the list exceeds 50 removes the URL that was just inserted | a history of 50 entries and any new URL: the history stays exactly as it was, and the visit is lost | drop the oldest entry (the end of the list) and keep the new URL at the front | high, not executed | History.FullHistoryIsFrozen | History.RecordFixed |
| browser.py:442 | `url not in self.history` compares a `QUrl` with `str` entries, which Python never finds equal | visiting `https://a.example` twice from an empty history gives two identical entries | compare the URL's text, so that a revisited URL appears only once | medium, not executed (rests on PyQt's QUrl equality with str) | History.RevisitDuplicates | History.RecordByText |

`Session.MainWindow` keeps the code as written, since it models the window the
program actually runs. `History.RecordFixed` states and proves the intended
update on its own. It combines both corrections: `RecordFixedBelowCap` ties it
to `RecordByText`, and `RecordFixedAtCap` contrasts it with the frozen history.
