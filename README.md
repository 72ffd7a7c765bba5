# page_image_collector in Dafny

A model of the logic of a browser extension that collects the image URLs of a page, shows them
as cards on an output page, filters and selects them, and downloads the selection, either one
file at a time or packed into a ZIP archive it writes itself.

- **ZIP writer** (`zip.js`). The modules are `Crc32`, `DosTime`, `Bytes`, `ByteView`, `Zip`,
  `ZipLayout` and `ZipWriting`.
  - It is a "stored" (uncompressed) ZIP writer, following PKWARE's APPNOTE.TXT: local file
    header (section 4.3.7), central directory header (section 4.3.12), end of central
    directory record (section 4.3.16), CRC-32 with the reflected polynomial 0xEDB88320
    (section 4.4.7), and MS-DOS date and time (section 4.4.6).
  - `ZipWriter` is a class with the source's fields `entries`, `offset` and `parts`.
  - The archive is the concatenation of the parts.
  - The layout lemmas show what a reader finds: every header at the offset the directory
    records, and the end record pointing back at the directory.
- **Naming** (`output.js`), in the modules `Strings` and `Naming`.
  - `fileNameFromUrl` and the extension rule.
  - `parseTemplate`, the fixed chain of `replaceAll` calls over `{HOST}`, `{PTITLE}`, `{N}`,
    `{N0001}` and `{EXT}`.
  - `replaceAll` with a string replacement follows GetSubstitution of ECMA-262: in the inserted
    value `$$` is `$`, `$&` the placeholder, `` $` `` and `$'` the text before and after it (so a
    page title "$$$ Deals" gives "$$ Deals").
  - `trim` removes the WhiteSpace and LineTerminator characters of ECMA-262.
- **Downloads** (`output.js`), in the modules `Dispatcher` and `Pipeline`.
  - `downloadMany` is a FIFO queue, an `active` counter, the shared name counter `idx`,
    retries by recursion, and one randomised pause per URL.
  - `downloadAsZip` handles one URL at a time and falls back to `downloadMany` when saving the
    archive throws.
- **Filters and selection** (`output.js`), in the module `Filters`.
  - The per-card rule of `applyFilters`, with its visible and selected counts.
  - The select-all and invert handlers.
  - The drag-selection box and `overlap`.
- **Collection** (`content.js`, and the same code injected by `background.js`), in the module
  `Collect`.
  - `pickFromImg`'s `srcset` rule.
  - `dedupe`, a `Map` keyed by file name and host that keeps the longest URL.
  - `collectAll`, and the result handling of `collect`.
  - The storage key `images_<tab>`.
- **Transport** (`background.js` and `output.js`), in the module `Transport`.
  - The background proxy turns the fetched bytes into a binary string in chunks of 0x8000 bytes
    and sends it base64-encoded.
  - The output page decodes it back to bytes.

Everything the pages cannot see is a parameter:

- the URL parser;
- `decodeURIComponent`;
- `TextEncoder`;
- `atob` and `btoa`;
- `fetch`;
- whether each `chrome.downloads.download` call resolves;
- `Math.random()`;
- the wall clock;
- `absolutize`.

Where a source function calls another through a value (the namer in the download loops, the
card rule in `applyFilters`), the Dafny method takes that function as a parameter, but its own
contract pins it to the real one. `Dispatcher.NameOf`, `Pipeline.ZipNamer` and
`Filters.CardRule` build those values.

### Quirks of the code the model keeps

- **Unparsable URLs.** `fileNameFromUrl` falls back to `'image'`, so `parseTemplate`'s
  `|| 'jpg'` never applies to an unparsable URL: its extension is `image`
  (`Naming.ExtensionUnparsable`).
- **The pause.** `runOne`'s retry path returns before the pause, so each URL sleeps once,
  after its last try.
- **The name counter.** `idx` counts every try, retries included, so names follow try order.
- **ZIP mode.**
  - `downloadAsZip` fetches each URL once, with no retry.
  - It names URL `k` with number `k`, fetched or not.
  - It uses `pageTitle || 'page'` for `{PTITLE}`.
- **Card extensions.** `render` computes the card's `ext` with `|| ''`, so it has no `jpg`
  fallback (`Filters.CardExtAndExtension`).
- **Empty `src`.** `pickFromImg` passes `currentSrc || src || ''` through `absolutize`. An
  `img` without any source can therefore contribute the page's own URL; `absolutize` is a
  parameter, so the model keeps this.
- **The `catch` in `dedupe`.** The `catch` path files an item under its raw URL and overwrites
  unconditionally. The "longest URL wins" lemmas therefore carry the precondition that the URLs
  of the group parse (`Collect.DedupeCovers`, `Collect.DedupeEarliestLongest`).
- **The fetch proxy.** It answers `ok: true` for any response the `fetch` call returns,
  including HTTP error pages. Only a throw gives `ok: false`.

## Model

| member | source | states |
|---|---|---|
| Crc32.MakeCrcTable | zip.js:5-16 | the table has 256 entries, entry n being eight reflected shift/xor rounds of n with 0xEDB88320 |
| Crc32.Crc32 | zip.js:20-27 | the table-driven loop (initial value and final xor 0xFFFFFFFF, `>>> 0`) computes the CRC-32 of the bytes, below 2^32 |
| Crc32.CrcOfEmpty | zip.js:21-26 | the empty input has checksum 0 |
| Crc32.CrcOfAbc | zip.js:20-27 | the check value of "abc" is 0x352441C2 |
| DosTime.PackTime | zip.js:31 | the packed time fits in 16 bits |
| DosTime.PackDate | zip.js:32 | the packed date fits in 16 bits, with the year masked as a two's-complement pattern |
| DosTime.TimeRoundTrip | zip.js:31 | unpacking recovers hours, minutes and seconds rounded down to even, for fields in range |
| DosTime.DateRoundTrip | zip.js:32 | unpacking recovers year, month and day for fields in range |
| DosTime.TimeIgnoresOddSecond | zip.js:31 | two seconds of one two-second slot pack alike |
| Bytes.LE16RoundTrip | zip.js:63 | the two bytes `setUint16` writes read back as the value mod 2^16 |
| Bytes.LE32RoundTrip | zip.js:62 | the four bytes `setUint32` writes read back as the value mod 2^32 |
| Bytes.ReadLE16At | zip.js:63-72 | a 16-bit field written at an offset reads back there mod 2^16 |
| Bytes.ReadLE32At | zip.js:62-70 | a 32-bit field written at an offset reads back there mod 2^32 |
| Bytes.FlattenAppend | zip.js:129-131 | the blob of two part lists is the blob of the first followed by the blob of the second |
| Bytes.FlattenPart | zip.js:129-131 | part k sits in the blob at the total length of the parts before it |
| ByteView.SetBytes | zip.js:43 | `out.set(a, off)` copies a's bytes at off and leaves the rest of the buffer as it was |
| ByteView.Concat | zip.js:40-45 | `concatUint8` returns an array of the summed length holding the inputs in order |
| Zip.LocalHeader | zip.js:59-73 | the local header is 30 + name length bytes and ends with the name |
| Zip.LocalHeaderFields | zip.js:62-67 | signature 0x04034b50, version 20, flag 0, method 0 (stored), time and date |
| Zip.LocalHeaderSizes | zip.js:68-72 | CRC at byte 14, the size twice (18 and 22), name length at 26, no extra field |
| Zip.CentralRecord | zip.js:86-106 | the central record is 46 + name length bytes and ends with the name |
| Zip.CentralRecordFields | zip.js:89-93 | signature 0x02014b50, versions 20 and 20, flag 0, method 0 |
| Zip.CentralRecordTimes | zip.js:94-95 | the entry's time and date at bytes 12 and 14 |
| Zip.CentralRecordSizes | zip.js:96-99 | CRC, two sizes and name length at 16, 20, 24 and 28 |
| Zip.CentralRecordZeros | zip.js:100-104 | extra, comment, disk and attribute fields are zero |
| Zip.CentralRecordOffset | zip.js:105 | byte 42 holds the recorded local offset mod 2^32 |
| Zip.Eocd | zip.js:115-125 | the end record is 22 bytes |
| Zip.EocdFields | zip.js:118-125 | signature 0x06054b50, the entry count twice mod 2^16, the directory's size and start mod 2^32, no comment |
| Zip.LocalHeaderOf | zip.js:59-79 | the header built from a recorded entry is 30 + name length bytes |
| ZipLayout.MemberFor | zip.js:54-79 | a file is recorded with its name, its CRC, its length, the current offset and the packed clock reading |
| ZipLayout.EntriesOf | zip.js:79 | the entries are the members' records, in order |
| ZipLayout.MembersIndex | zip.js:75-79 | member k is file k recorded at the size of the local part before it |
| ZipLayout.MembersSnoc | zip.js:75-79 | adding a file appends one member recorded at the current size |
| ZipLayout.MembersConsistent | zip.js:75-77 | each recorded offset is where that member's header starts |
| ZipLayout.MemberSnoc | zip.js:76-79 | one more member appends its header and data to the parts and its entry to the entries |
| ZipLayout.ArchiveParts | zip.js:112-131 | the archive is the local parts, the central records and the end record, in push order |
| ZipLayout.ArchiveLength | zip.js:59-131 | the archive is Σ(30 + n + d) + Σ(46 + n) + 22 bytes long |
| ZipLayout.LocalRecordAt | zip.js:75-77 | member k's header and data start at the total size of the members before it |
| ZipLayout.CentralRecordAt | zip.js:107-112 | central record k follows the local part and the records before it |
| ZipLayout.EocdAt | zip.js:126-131 | the end record is the archive's last 22 bytes |
| ZipLayout.CentralOffsetPointsBack | zip.js:105 | central record k has its signature and points (mod 2^32) at member k's local header |
| ZipLayout.LocalSignatureAt | zip.js:62 | member k's local header starts with its signature |
| ZipLayout.EocdPointsBack | zip.js:121-124 | the end record gives the member count, the directory's size and its start |
| ZipLayout.CentralStartPointsBack | zip.js:111-112 | where the end record says the directory starts, a central record starts |
| ZipWriting.AddFileKeeps | zip.js:75-79 | recording a file at the current offset keeps the writer's state consistent |
| ZipWriting.FinalizeKeeps | zip.js:111-126 | pushing the central records and the end record keeps the state consistent; the first time, the parts are the archive of the files added |
| ZipWriting.CentralDirectory | zip.js:83-109 | the loop builds exactly the central records of the entries, in order, and the sum of their sizes |
| ZipWriting.ZipWriter.constructor | zip.js:48-52 | no entries, offset 0, no parts |
| ZipWriting.ZipWriter.AddFile | zip.js:54-80 | appends the entry recorded at the old offset and the header and data parts; the offset grows by 30 + name + data |
| ZipWriting.ZipWriter.FinalizeBlob | zip.js:82-132 | appends the central records and the end record (directory start = old offset); nothing stops a second call, and the first call's blob is the archive of the files added |
| Strings.Split | output.js:13 | `split` gives at least one piece and no piece holds the separator |
| Strings.SplitJoin | output.js:13 | joining the pieces with the separator gives back the string |
| Strings.SplitLast | output.js:13 | `pop()` of a split is the suffix after the last separator |
| Strings.Substitute | output.js:265-270 | GetSubstitution without captures: a replacement without '$' is inserted as it is |
| Strings.ReplaceAll | output.js:265-270 | `replaceAll` leaves a string without the pattern, or without its first character, unchanged; with a '$'-free replacement it is the plain textual replacement |
| Strings.ReplaceAllFirst | output.js:265-270 | the first occurrence after a prefix where none starts becomes the substitution seeing that prefix before and the rest after, and the search goes on after it |
| Strings.ReplaceAllLast | output.js:270 | a final occurrence after text without the pattern's first character becomes its substitution with nothing after it |
| Strings.ReplaceAllWhole | output.js:266-270 | the pattern alone becomes the substitution with nothing before or after |
| Strings.ReplaceAllCharAbsent | output.js:265-270 | a string lacking one of the pattern's characters is left unchanged |
| Strings.LiteralUnchangedAbsent | output.js:265-270 | a string that deleting the pattern leaves unchanged does not contain it |
| Strings.SubstituteDollar | output.js:266-270 | "$$" in the replacement inserts one '$' |
| Strings.SubstituteMatched | output.js:266-270 | "$&" in the replacement inserts the matched text |
| Strings.SubstituteKeep | output.js:266-270 | a character that does not open "$$", "$&", "$`" or "$'" is inserted as it is |
| Strings.DollarCodes | output.js:267 | "$$$" before plain text gives "$$": the pair collapses and the lone '$' stays |
| Strings.Decimal | output.js:263 | `String(n)` is digits without a leading zero |
| Strings.DecimalValue | output.js:263 | the digits of `String(n)` read back as n |
| Strings.DecimalInjective | output.js:263 | different numbers print differently |
| Strings.PadStart | output.js:264 | `padStart(width, ch)` keeps the string at the end, fills the front with ch, and has the larger of the two lengths |
| Strings.Includes | output.js:173 | `includes`: true exactly when `sub` is the slice `s[a..b]` of some positions, so always for the empty string and never for a longer one |
| Strings.ToLower | output.js:262 | `toLowerCase` maps each character (ASCII letters lowered) |
| Strings.ToLowerIdempotent | output.js:262 | lowering twice is lowering once |
| Strings.Trim | content.js:10 | `trim()` is a slice of the string with only white space around it, empty exactly when the string is all white space |
| Strings.TrimEnds | content.js:10 | a non-empty trimmed string starts and ends without white space (every WhiteSpace and LineTerminator of ECMA-262) |
| Naming.FileNameFromUrl | output.js:10-16 | the name is never empty |
| Naming.FileNameUnparsable | output.js:15 | a URL that does not parse is named "image" |
| Naming.FileNameOfSegment | output.js:12-14 | a non-empty last segment that decodes to a non-empty name gives that name |
| Naming.FileNameOfDirectory | output.js:13-14 | a path ending in '/' falls back to "image" before decoding |
| Naming.Extension | output.js:262 | the extension is non-empty and has no '.' |
| Naming.ExtensionAfterLastDot | output.js:262 | the extension is the lowercased text after the last '.', "jpg" only when that is empty |
| Naming.ExtensionNoDot | output.js:262 | a name without '.' is its own extension, lowercased |
| Naming.ExtensionUnparsable | output.js:262 | an unparsable URL has the extension "image" |
| Naming.TitleFor | output.js:267 | `pageTitle || document.title || 'page'` is never empty |
| Naming.IndexFields | output.js:263-264 | {N} reads back as idx + 1; {N0001} is that padded with '0' to at least four digits, same value |
| Naming.ParseTemplate | output.js:260-271 | a template without '{' holds no placeholder and is the name as it stands |
| Naming.ParseTemplateUnchanged | output.js:265-270 | a template without any of the five placeholders comes back unchanged |
| Naming.ParseTemplateNumber | output.js:268 | "{N}" names try idx by the decimal of idx + 1 |
| Naming.ParseTemplateFields | output.js:265-270 | `pre{N0001}mid{EXT}` gives pre, the padded number, mid and the extension's substitution (the extension itself when it has no '$'): the {N} step leaves {N0001} alone |
| Naming.ParseTemplateTitle | output.js:267 | "{PTITLE}" gives the substitution of `pageTitle \|\| document.title \|\| 'page'` |
| Naming.ExampleDollarTitle | output.js:267 | the page title "$$$ Deals" names the file "$$ Deals" |
| Naming.ExampleDollarExtension | output.js:262-270 | an extension "$&" turns "P_{N0001}.{EXT}" into "P_0001.{EXT}" |
| Naming.ExampleName | output.js:260-271 | "P_{N0001}.{EXT}" for the first URL ".../a/img.PNG?q=1" gives "P_0001.png" |
| Dispatcher.ApplyDefaults | output.js:310-317 | without options, or with every property undefined: 4 at a time, 2 retries, pauses of 100 to 400 ms, the default template and the page title |
| Dispatcher.GivenOptionsKept | output.js:310-317 | a property that is not undefined is used as given (0 and "" included) |
| Dispatcher.PacingWait | output.js:328 | for r in [0, 1): with delayMin ≤ delayMax the pause lies in [delayMin, delayMax], with delayMin > delayMax in [delayMax + 1, delayMin] |
| Dispatcher.Tries | output.js:320-327 | a URL gets between 1 and retries + 1 tries |
| Dispatcher.AttemptsFromMeaning | output.js:325 | from try k on, every try but the last fails and the last succeeds or is try `retries` |
| Dispatcher.TriesMeaning | output.js:320-327 | n tries exactly when tries 0..n-2 fail and try n-1 succeeds or is the last allowed |
| Dispatcher.Start | output.js:318-319 | every URL queued in order, nothing in flight, no try, pause or release yet, `idx` 0 |
| Dispatcher.Dispatch | output.js:333-336 | the queue's head leaves the queue and starts try 0 under name number `idx`; `active` and `idx` go up by one; no pause or release is logged; no other URL moves |
| Dispatcher.Progress | output.js:320-336 | only URL t moves: a sleeping URL finishes, `active` goes down and its release is logged at the current `idx`; a finished download pauses iff it succeeded or was try `retries`, with the `PacingWait` of its draw, and else logs try k + 1 under the next name number |
| Dispatcher.StartKeeps | output.js:318-319 | the initial state meets the invariant |
| Dispatcher.DispatchKeeps | output.js:333-336 | starting the queue's head below the limit keeps the invariant and uses up work |
| Dispatcher.DispatchKeepsSlots | output.js:333-336 | after a dispatch: the queue is the rest in order, the slots stay within the limit, the tries are counted |
| Dispatcher.DispatchKeepsLog | output.js:320-336 | after a dispatch: the first try of the URL is logged with the next idx and its name |
| Dispatcher.DispatchKeepsOrder | output.js:335 | after a dispatch: first tries are in submission order, pauses unchanged |
| Dispatcher.ProgressKeeps | output.js:320-330 | a step of a task in flight keeps the invariant and uses up work |
| Dispatcher.RetryKeeps | output.js:325 | a failed try below the limit logs the next try under the next idx |
| Dispatcher.PauseStartKeeps | output.js:328-329 | after the last try the URL's one pause begins, its length from the random draw |
| Dispatcher.FinishKeeps | output.js:336 | the end of the pause frees the slot |
| Dispatcher.DispatchKeepsReleases | output.js:333-336 | after a dispatch: one more URL started, and the download call is made with at most `concurrency` URLs started and not released |
| Dispatcher.ReleasesAfterFinish | output.js:336 | the `finally` releases URL t's slot once, after all its tries and its pause, and the bound at every earlier download call still holds |
| Dispatcher.AllDone | output.js:338-340 | with the queue empty and no slot taken every URL is done, tried `Tries` times, paused once |
| Dispatcher.DownloadMany | output.js:309-341 | `ManyOutcome`: each download call is made with at most `concurrency` URLs started and not yet released; each URL's slot is released once, after its tries and its pause, in log order; URL t is tried exactly `Tries` times; try k's name is `parseTemplate(template, url, k, pageTitle)`; tries are numbered per URL; first tries follow submission order; each URL pauses once, after all its tries, for `PacingWait` of its draw |
| Pipeline.SafeChar | output.js:301 | the replacement character is never one of / \\ : * ? " < > \| and others are kept |
| Pipeline.ZipFileName | output.js:301 | `(title \|\| 'images')` with the unsafe characters replaced, plus ".zip" |
| Pipeline.ZipFileNameSafe | output.js:301 | the name part has no unsafe character |
| Pipeline.ZipFileNameOfSafeTitle | output.js:301 | a title without unsafe characters is kept as it is |
| Pipeline.ZipFileNameUntitled | output.js:301 | no title gives "images.zip" |
| Pipeline.ZipNamesAgree | output.js:295 | the archive names file k as `downloadMany` names try k, except that with no page title {PTITLE} is "page" rather than `document.title` |
| Pipeline.ZipFiles | output.js:294-298 | no more files than URLs |
| Pipeline.FetchedMeaning | output.js:296-297 | the fetched positions are increasing and are exactly those whose fetch gives bytes |
| Pipeline.ZipFilesFetched | output.js:295-297 | file j is the j-th fetched URL named by its own position: failures do not shift the names |
| Pipeline.NothingFetched | output.js:297-299 | no fetch succeeding still gives an archive, the end record alone |
| Pipeline.BuildArchive | output.js:292-299 | the blob is the archive of the files of the fetched URLs, in order, URL k named with number k |
| Pipeline.DownloadAsZip | output.js:290-307 | saved iff saving resolves; then the file name is the title's and the blob is the archive of the fetched files in order; else `ManyOutcome` of the whole list with the same options, as `DownloadMany` ensures |
| Filters.CardExt | output.js:41 | the card's `ext` has no '.' and is already lower case |
| Filters.CardExtAndExtension | output.js:41 | the card's extension is `parseTemplate`'s without the "jpg" fallback |
| Filters.Matches | output.js:167-231 | a card matches iff it passes keyword, format, size (if loaded), quality (if loaded), source and domain |
| Filters.BlankMatchesAll | output.js:167-231 | with every filter blank every card matches |
| Filters.UnloadedIgnoresSize | output.js:183-210 | an unloaded image is judged as if no size or quality were set |
| Filters.QualityBands | output.js:193-206 | a loaded image is in exactly one of high (≥ 1000), medium (500..999) and low (< 500) |
| Filters.CountMatching | output.js:162-236 | at most one count per card |
| Filters.CountBoth | output.js:239-241 | the selected visible cards are at most the shown ones |
| Filters.ShowMatching | output.js:162-236 | each card with an image is shown iff the rule holds, others keep their display; the count is the matching cards |
| Filters.CountMatchingShown | output.js:234-235 | when every card has an image, `visibleCount` is the number of cards shown |
| Filters.CountSelectedVisible | output.js:239-241 | counts the cards both shown and checked |
| Filters.ApplyFilters | output.js:150-243 | shows exactly the matching cards, `visibleCount` is the number matching, `selectedVisible` the shown and checked |
| Filters.SelectAllOf | output.js:477-484 | keeps the number of boxes |
| Filters.SelectAllMeaning | output.js:478-481 | all boxes end checked unless all were, and then all are cleared |
| Filters.SelectAllTwice | output.js:476-487 | pressing twice checks every box iff all were checked before |
| Filters.InvertOf | output.js:490-495 | keeps the number of boxes |
| Filters.InvertTwice | output.js:491-492 | inverting twice restores the selection |
| Filters.InvertCount | output.js:491-492 | inverting turns n checked boxes into length - n |
| Filters.SelectAll | output.js:476-487 | the handler's `allChecked` is `every(checked)` and the boxes become the select-all of the old ones |
| Filters.Invert | output.js:489-498 | the boxes become the inverse of the old ones |
| Filters.DragBox | output.js:533-539 | the box's corners are the sorted drag corners |
| Filters.Overlap | output.js:522 | the boxes overlap exactly when no side separates them (shared edges separate); for boxes of some size, exactly when their intersection has some width and height |
| Filters.OverlapSymmetric | output.js:522 | `overlap` is symmetric |
| Filters.OverlapMeaning | output.js:522 | two boxes of positive size overlap iff some pixel lies in both |
| Filters.PointBoxOverlap | output.js:533-552 | a drag back to its start gives a box of no size, which still ticks a card that strictly contains the point |
| Filters.DragSelect | output.js:541-558 | each shown card is ticked iff it meets the box, hidden cards keep their box |
| Collect.FirstToken | content.js:11 | `split(' ')[0]` is a space-free prefix, non-empty when the text does not start with a space |
| Collect.PickFromImg | content.js:6-14 | the item's source is "img" |
| Collect.LastNonEmpty | content.js:10-11 | the last entry kept by `filter(Boolean)` is the last non-empty one |
| Collect.PickFromSrcset | content.js:9-11 | with a non-blank srcset part, the URL is the first token of the last such part, non-empty (same rule at background.js:22-30) |
| Collect.PickFallback | content.js:8-12 | with every srcset part blank, the URL is `currentSrc \|\| src` made absolute |
| Collect.UrlKey | content.js:28-29 | an unparsable URL has no key; a parsable one's key is the last path segment (no '/') or the whole pathname, then '\|' and the host |
| Collect.DedupeStep | content.js:26-32 | an item without a URL changes nothing; otherwise the item's key is added at the end of the order when new, and the order is unchanged otherwise |
| Collect.DedupeTable | content.js:24-33 | the map holds every key in its order, with no more keys than items |
| Collect.Values | content.js:34 | `map.values()` lists the value of each key in key order |
| Collect.StepCovers | content.js:26-32 | one turn keeps every key, lets no URL shrink except where the `catch` overwrites, and holds the item's key with a URL at least as long |
| Collect.DedupeWellFormed | content.js:24-34 | each key appears once in the order, and every key held is in it |
| Collect.DedupeOrder | content.js:30-34 | the output order is the order in which the keys first occur (same code at background.js:43-47) |
| Collect.DedupeFrom | content.js:26-32 | every value is an input item with a URL, filed under its own key |
| Collect.DedupeCovers | content.js:29-31 | in a group whose URLs parse, every item's key is present with a URL at least as long |
| Collect.DedupeEarliestLongest | content.js:30-31 | in a group whose URLs parse, the kept item is the earliest of the longest (same code at background.js:43-44) |
| Collect.DedupeOutput | content.js:23-35 | no more items than came in, none with an empty URL, each from the input, one per key (same code at background.js:36-48) |
| Collect.Dedupe | content.js:23-35 | the loop builds the map and lists its values in order |
| Collect.MapValues | content.js:34 | `Array.from(map.values())` lists each key's value in the order the keys were first set |
| Collect.Gathered | content.js:38-46 | every gathered item has a URL |
| Collect.ImgItems | content.js:39-42 | the `img` results with a URL, from `img` elements |
| Collect.BgItems | content.js:43-46 | the background results with a URL, all from backgrounds |
| Collect.GatheredOrder | content.js:39-46 | `img` results come before background results |
| Collect.PushImgs | content.js:39-42 | the first loop pushes the picks that have a URL |
| Collect.PushBackgrounds | content.js:43-46 | the second loop appends the background URLs that are not empty |
| Collect.Urls | content.js:47 | `map(item => item.url)` keeps order and length |
| Collect.CollectAll | content.js:37-48 | the URLs of the de-duplicated gathered items, none empty (same code at background.js:49-58) |
| Collect.CollectFromTab | background.js:14-63 | when the injected function's result comes back, the URLs of the de-duplicated gathered items, none empty; [] when `executeScript` throws or gives no result (`Array.isArray` fails) |
| Collect.StorageKey | background.js:66 | the key is "images_" followed by at least one digit and nothing else |
| Collect.OutputReadsWrittenKey | background.js:66 | the output page opened as `#tab=<id>` reads `images_<id>`, the key written (read at output.js:343-344) |
| Collect.StorageKeyInjective | background.js:66 | different tabs use different keys |
| Transport.Latin1 | background.js:100-102 | the binary string has one character per byte, with that code |
| Transport.Codes | output.js:277 | `bytes[i] = charCodeAt(i)` stores each code mod 256 |
| Transport.CodesOfLatin1 | output.js:277 | reading the codes of a binary string gives back its bytes |
| Transport.BinaryString | background.js:98-102 | the chunked loop (step 0x8000) builds exactly the binary string of the bytes |
| Transport.ProxyResponse | background.js:90-110 | an answer exactly for a fetch message with a URL; `Failed` exactly when `fetch` throws; otherwise the base64 of the bytes' binary string |
| Transport.HandleFetch | background.js:90-110 | answers only a fetch message with a URL: `Failed` when `fetch` throws, else the base64 of the binary string |
| Transport.B64ToUint8 | output.js:273-279 | nothing when `atob` throws, else a new array of the decoded codes mod 256 |
| Transport.FetchArrayBuffer | output.js:281-288 | `null` for no response, `ok: false` or a failing decode, else the decoded bytes |
| Transport.Transported | background.js:97-103 | when `atob` undoes `btoa`, the output page receives exactly the bytes fetched, and `null` when the fetch threw |
| Transport.EmptyUrlNotFetched | background.js:91 | an empty URL gets no answer, so the output page gets `null` |

## Left out

- **The DOM and UI.** This covers `render`, the cards and their checkboxes, notifications,
  button state, `updateCardSelection`, drawing the drag rectangle and wiring the events.
  The filter inputs, the card list, the checkboxes and the card boxes are parameters. `clearFilters`
  is `applyFilters` with every filter blank (`Filters.BlankMatchesAll`).
- **The `chrome.*` APIs and `fetch`.** This covers storage, tabs, scripting, downloads and
  messaging. Their outcomes are oracle parameters.
  - `downloads.download` in `downloadMany` is `World.succeeds`, keyed by the URL's position in the list and the try number.
  - Saving the archive is `ZipEnv.zipSaved`.
  - `Pipeline.ZipEnv.fetch` stands for `Transport.Fetcher`.
- **Library code.** `URL` parsing, `decodeURIComponent`, `TextEncoder`, `atob`/`btoa`, `Blob`
  and `URL.createObjectURL` are parameters or left out.
  - `absolutize` is a parameter.
  - `atob` returns only characters below 256, so `charCodeAt` code units are code points here.
- **Time and scheduling.**
  - `Math.random()`, `new Date()` and the 50 ms polling sleep are left out. The random draw and
    the clock are parameters.
  - The interleaving of asynchronous tasks is a nondeterministic choice of the next step. It
    lets a task in flight progress even below the limit, which covers the source's sleeps.
  - Pause lengths are recorded, not waited for.
- `Strings.ToLower`: lowers only A–Z. JavaScript's `toLowerCase` also lowers other letters
  ('Ä' to 'ä') and can change the length ('İ' becomes two characters). For names with such
  letters this changes the keyword and domain tests of `Filters.Matches` and the extension
  that `Naming.Extension` gives.
- `Dispatcher.DownloadMany`: requires `concurrency >= 1` unless the list is empty, because
  with 0 slots the source's loop never ends. The source's options page clamps the value to at
  least 1; options parsing (`getOptions`, `Number`, NaN) is left out.
- `Pipeline.DownloadAsZip`: only the throw from saving the archive leads to the fallback. A
  throw from `addFile` or `finalizeBlob` (memory exhaustion, say) is not modelled.
- **`pickFromBg`.** Its regex match on a computed `background-image` is left out:
  `Collect.CollectAll` takes each element's extracted URL ("" for none).
- **Floating-point page coordinates.** The drag box and card boxes have integer coordinates.
  A checkbox that is missing (`if (chk)`) is not modelled.
- **The DataView cursor.** The cursor writes that build each header are modelled as the
  concatenation of the fields' little-endian bytes, and so are the two copies of the name, in
  the local header (zip.js:73) and in the central record (zip.js:106). `ByteView.SetBytes`
  models the one `set` on a fresh array, `out.set(a, off)` in `concatUint8` (zip.js:43). Blob
  part normalisation is the identity.
- **Hidden cards in `applyFilters`.** A card whose `data-index` names no image keeps its display
  state; what it then was is left to the caller.
- **Status and MIME type.** The proxy's `status` and `mime` fields are left out; nothing reads
  them.
