# Pinterest board downloader: a Dafny model of the collection and download pipeline

The downloader crawls a Pinterest board ("folder") in a browser and turns what the page shows into typed pin records:

- A board is read by scrolling it screen by screen.
- The grid items on each screen are classified, keyed and deduplicated into an insertion-ordered map.
- Every collected record is resolved to a downloadable media URL.
- With recursion on, each sub-board found among the records is crawled once more, on a reduced budget.

A separate pass saves a crawled folder to disk:

- one directory per board;
- one downloader per pin, chosen by the media's extension;
- a collision-free name for remuxed streams;
- a caption side file;
- optional deletion of the pin from the board.

Two small utilities are modelled as well:

- `normalizeUrl` rewrites a board address onto `https://pinterest.com/`.
- `deepVerify` checks a downloaded folder against the crawl logs.

The model is pure and functional. The browser, the network, the file system and `ffmpeg` are parameters or oracles:

- A board page is a title plus a sequence of screens.
- Deleted-pin recovery and the pin-resource request are functions of the URL or id. The request can also be rejected, which fails the crawl.
- The file system is the set of paths that exist.
- Whether a fetch or a remux produces its file is an oracle keyed by the source URL. A remux also needs its output path to reach `ffmpeg` intact.

`saveFolderOnDisk` becomes a plan: the ordered list of actions it performs, together with the fault that ends it early. Each action names the path it touches. Each is tagged with the directory of the folder whose pass issued it.

Modules, in dependency order:

- `Wrappers`: `Option` and `Result`.
- `Strings`: character classes, searching, decimal rendering.
- `OrderedMaps`: a JavaScript `Map` as keys in insertion order plus a map.
- `Pins`: the `PinData` and `FolderData` records, `getPinExtension` and `getPinType`.
- `Classify`: one screen's grid items into records and keyed maps.
- `Crawl`: `getFolderItems`, covering the scroll loop, resolution and the subfolder budget.
- `FolderNames`: `sanitizeFolderName`.
- `FileNames`: the file stem regular expressions and the `(n)` name search of `downloadM3U8Video`.
- `Plan`: `saveFolderOnDisk`.
- `Verification`: `deepVerify`.
- `Urls`: `normalizeUrl`.

Notable behaviours of the code, which the model keeps:

- **Video grid items.** A grid item with a video element is not dropped. It becomes a plain pin without a `src`, and resolution asks the pin resource for it (`Classify.GridSrc`, `Crawl.ResolveSpec`).
- **The limit is not a cap.** The scroll loop merges a whole screen before it compares against the limit. The first screen alone can exceed the limit (`Crawl.CrawledOvershoots`).
- **Folder records stay in the output pins.** With recursion on, folder records remain in the crawled folder's `pins`. Only the download pass skips them (`Plan.FolderRecordsSkipped`).
- **An unrecovered deleted pin stays in the output.** It keeps its DELETED_PIN kind and has no `media`. Saving the folder then faults on it (`Plan.Fault.MissingMedia`).
- **Carousel file names.** A carousel part is saved under the `originals` stem of its own URL. The synthetic `<id>-<k>` name is only the fallback. The index `k` counts only the non-empty story items.
- **Repeated records in `deepVerify`.** The identity filter compares parsed objects by reference, so it removes nothing. A record logged twice is checked, and printed, twice. Only the expected count is deduplicated, by `media.src`.
- **`normalizeUrl` keeps the path's leading slash.** A full board address therefore normalizes to `https://pinterest.com//user/board/` (`Urls.BoardAddressExample`).
- **A rejected pin-resource request fails the crawl.** The cookie reads, the request and the reading of its body sit outside the `try` of `getPinResource`. A missing session cookie or a failed request therefore rejects `getFolderItems`. Only a response that is not ok, or a body that does not parse, drops the pin (`Crawl.ResolveSpec`, `Crawl.ResolveAllFails`).
- **The caption of a failed fetch lands in the working directory.** A failed `downloadImage` or `downloadMP4Video` reports the path `""`. A pin with text then gets its side file at `.log`, relative to the process's working directory (`Plan.StraySidecar`). Every other path the plan touches lies inside the output path (`Plan.SaveFolder`).
- **A board name with no ASCII word character is saved in the parent directory.** `\w` is ASCII-only, so a name such as `猫` sanitizes to the empty string. Its directory is then `<path>/`, the parent itself (`Plan.UnsluggedNameSavesInParent`).

## Model

| member | source | states |
|---|---|---|
| Classify.GetPinId | modules/download.ts:170-174 | a pin id is the non-empty text between the last `/pin/` that has a slash after it and the final slash; otherwise the screen fails with `PinIdNotFound(href)` |
| Classify.PinIdComplete | modules/download.ts:170-174 | any framing `…/pin/<id>/<slash-free tail>` with no later marker inside `id` is the one `getPinId` returns, so the id is unique |
| Classify.PinIdOfPinUrl | modules/download.ts:170-174 | the canonical pin URL `…/pin/<id>/` yields exactly `<id>` |
| Classify.GridSrc | modules/download.ts:158-169 | no media URL for a video or a non-GIF badge or a missing srcset match; otherwise the `originals` URL, or the `3x` URL when the originals one names a HEIC file |
| Classify.Upgraded | modules/download.ts:190 | each carousel thumbnail URL, one for one and in order, with its first `236` replaced by `736` |
| Classify.ClassifyItem | modules/download.ts:179-215 | an item yields no record exactly when it has no anchor; every record it yields has the media its kind promises |
| Classify.ClassifyItemSpec | modules/download.ts:181-213 | marker precedence carousel, then unavailable, then no `/pin/` means folder; every kind but a folder carries its URL's id and fails exactly when that id cannot be read; the media each kind carries |
| Classify.ClassifyAll | modules/download.ts:175-217 | the records come in grid order, one per item, each the item's own classification |
| Classify.SrcCaptureAt | modules/download.ts:234 | a capture of `\/[\d\w]{2}\/([^\/]+)\.` is a non-empty slash-free run after `/xx/`, followed by a dot, with no later dot in its segment |
| Classify.SrcCaptureOfHashedPath | modules/download.ts:234 | a media path `…/xx/<h>.<ext>` is keyed by `h` |
| Classify.UrlCaptureAt | modules/download.ts:235 | the `pin\/([\d\w]+)` capture exists exactly when `pin/` is followed by a word character, and is the whole word run after it |
| Classify.UrlKeyOfPinPath | modules/download.ts:235 | a URL whose first `pin/` is followed by the word run `id` is keyed by `id` |
| Classify.PinKey | modules/download.ts:232-237 | a plain pin is keyed by the id in its media URL when there is one, else by the id after `pin/` in its URL, else the screen fails |
| Classify.FolderKey | modules/download.ts:227-229 | a folder is keyed by the last slash-free path segment of its URL, with an optional final slash |
| Classify.FolderKeyOfPath | modules/download.ts:227 | every URL ending in `/<k>` or `/<k>/`, with `k` slash-free and non-empty, is keyed by `k` |
| Classify.File | modules/download.ts:219-240 | filing a record keeps the pin map to non-folder records and the folder map to folders |
| Classify.FileSpec | modules/download.ts:220-239 | deleted and carousel pins are set in the pin map by id; a folder by its key, or dropped when it has none; a plain pin by `PinKey`, failing exactly when that fails |
| Classify.FileAll | modules/download.ts:219-240 | the keying loop over a screen's records leaves both maps well filed |
| Classify.ExtractScreenAsWritten | modules/download.ts:175-240 | the screen as the code runs it, with the `null` of an anchor-less item reaching the keying loop |
| Classify.AsWrittenRejectsAnchorless | modules/download.ts:183-220 | as written, a screen yields maps only when every grid item has an anchor |
| Classify.AnchorlessItemExample | modules/download.ts:183-220 | one anchor-less item makes the code as written fail, while the corrected extraction yields empty maps |
| Classify.ExtractScreen | modules/download.ts:175-240 | the screen as intended: the resulting maps are well filed |
| Classify.AnchorlessItemsDropped | modules/download.ts:183 | as intended, anchor-less grid items are left out and change nothing |
| Classify.AsWrittenAgreesWhenAnchored | modules/download.ts:175-240 | on screens whose every item has an anchor, the code as written and as intended agree |
| Classify.FileAllAgree | modules/download.ts:216-240 | on `null`-free record lists, the keying loop as written equals the loop over the present records |
| OrderedMaps.PutAllKeys | modules/download.ts:53-55 | setting a run of entries leaves the keys in first-seen order: a re-set key keeps its first position |
| OrderedMaps.PutAllPrefix | modules/download.ts:53-55 | keys already in the map keep their positions |
| OrderedMaps.PutAllLastWins | modules/download.ts:53-55 | the value kept for a key is the one its last entry carries |
| OrderedMaps.PutAllUntouched | modules/download.ts:53-55 | a key no entry mentions keeps its old value, or stays absent |
| OrderedMaps.SetAllSpec | modules/download.ts:53-55 | merging one map into another: its keys win, old keys keep their positions, new keys are appended in its order |
| Crawl.FolderName | modules/download.ts:147-151 | the folder name is the heading text, and an empty or missing heading is `TitleNotFound(url)` |
| Crawl.MergeSpec | modules/download.ts:52-56 | the merged map holds exactly the collected keys, the screen's pins and (only when recursing) its folders; folders win over pins, pins over older records |
| Crawl.MergeKeepsPositions | modules/download.ts:53-55 | merging a screen keeps every collected key in its position |
| Crawl.MergeNoFolders | modules/download.ts:54 | without recursion merging adds no folder record |
| Crawl.MergesSpec | modules/download.ts:52-56 | the merge step keeps positions and adds every pin; without recursion it keeps folders out |
| Crawl.CollectGrows | modules/download.ts:49-61 | below the limit the loop reads at least one more screen, and the keys collected so far keep their positions |
| Crawl.CollectStops | modules/download.ts:49-61 | the loop ends only at or above the limit, or right after a screen whose bottom check succeeded |
| Crawl.CollectNoEarlierBottom | modules/download.ts:59-60 | no screen before the last one read passed the bottom check |
| Crawl.CollectOvershoots | modules/download.ts:49-56 | a first screen holding more pins than the limit is merged whole, so the collection exceeds the limit |
| Crawl.CrawledStopsAtLimit | modules/download.ts:49 | on a board, stopping for the limit means the map has reached it |
| Crawl.CrawledStopsAtBottom | modules/download.ts:58-60 | on a board, stopping early means the last screen read passed the bottom check |
| Crawl.CrawledNoEarlierBottom | modules/download.ts:49-61 | on a board, no earlier screen passed the bottom check |
| Crawl.CrawledNoFolders | modules/download.ts:54 | without recursion the crawl collects no folder record |
| Crawl.CrawledOvershoots | modules/download.ts:49-56 | the limit does not cap the crawl: a first screen with more pins than the limit is collected whole |
| Crawl.ResolveSpec | modules/download.ts:64-90 | a recovered deleted pin becomes a plain pin with the recovered `src`; an unrecovered one, a folder and a carousel pass unchanged; a pin without `src` takes the resource's stream URL and story images, is dropped exactly when the response is not ok or does not parse, and fails the crawl exactly when the request is rejected; every resulting plain pin is typed by its URL |
| Crawl.ResolveAllFails | modules/download.ts:64-92 | the resolution loop fails exactly when the resource request of one of the records is rejected |
| Crawl.ResolvedEach | modules/download.ts:79-82 | after a successful resolution loop no record's request was rejected |
| Crawl.RejectedSome | modules/download.ts:79-82 | a failed resolution loop met a rejected request |
| Crawl.ResolveAllKept | modules/download.ts:64-92 | a successful resolution loop sets exactly the surviving records under `id ?? key`, in collection order, so the output keys are those keys in first-seen order |
| Crawl.KeptHolds | modules/download.ts:64-91 | every record that survives resolution is among those set in the output |
| Crawl.ResolveAllNoFolders | modules/download.ts:64-92 | resolution never makes a folder record |
| Crawl.FolderRecords | modules/download.ts:93 | the folder list holds exactly the output records of kind FOLDER, in order |
| Crawl.DrainSpec | modules/download.ts:95-100 | one subfolder per folder record, in order, the `i`-th crawled under the budget `limit - (collected - (pending - 1 - i))`; the loop fails exactly when one of those crawls fails |
| Crawl.GetFolderItemsSpec | modules/download.ts:37-48 | the name comes from the heading and its absence fails the crawl; a limit of zero or less yields the name with no pins and no subfolders |
| Crawl.RecursiveSubfolders | modules/download.ts:93-100 | with recursion, every folder record among the output pins yields one subfolder, in order, crawled without recursion on the budget formula |
| Crawl.NonRecursiveHasNoSubfolders | modules/download.ts:54-100 | without recursion no folder record reaches the output, so the subfolder loop runs zero times |
| Pins.TrailingWordRun | modules/download.ts:325 | the count of word characters the URL ends with, bounded by a non-word character or the start |
| Pins.PinExtension | modules/download.ts:324-328 | the extension is a non-empty word run that ends the URL right after a dot; there is none exactly when no dot is followed by only word characters to the end |
| Pins.DotBeforeWordRun | modules/download.ts:325 | a dot followed by nothing but word characters starts the trailing word run |
| Pins.RunStartAfter | modules/download.ts:325 | the word run ending at `j` starts right after the last non-word character before it |
| Pins.PinTypeOf | modules/download.ts:319-322 | an extension is typed IMAGE exactly when it is png, jpeg, jpg or gif, and VIDEO otherwise |
| Pins.Typed | modules/download.ts:86-89 | resolution's typing keeps `src` and the story images, and leaves extension and media type consistent with the URL |
| Pins.TypedImageExample | modules/download.ts:86-89 | a URL ending in `.JPG` is typed IMAGE, since the extension is lower-cased before typing |
| FolderNames.Keep | modules/download.ts:553-554 | a filter stage keeps only characters that pass its test, and never lengthens the name |
| FolderNames.Dashes | modules/download.ts:555 | white space becomes a hyphen, one for one; every other character stays |
| FolderNames.Collapse | modules/download.ts:556 | after collapsing no two hyphens are adjacent, no character is new, and the last character is kept |
| FolderNames.Sanitize | modules/download.ts:551-558 | a sanitized name holds only `[0-9a-z_-]` and never two hyphens in a row |
| FolderNames.SanitizeSlug | modules/download.ts:551-558 | a name already in that form is its own sanitization |
| FolderNames.SanitizeIdempotent | modules/download.ts:551-558 | sanitizing twice is sanitizing once |
| FolderNames.KeepKeep | modules/download.ts:553-554 | the two filter stages in a row are one filter by both tests |
| FolderNames.SanitizeKeepsWords | modules/download.ts:551-558 | hyphens aside, the sanitized name is exactly the lower-cased word characters of the unmarked name, in order |
| FolderNames.SanitizeExample | modules/download.ts:551-558 | `A  b` sanitizes to `a-b` |
| FileNames.LastStemIs | modules/download.ts:409 | the greedy capture settles on the last slash whose segment has a stem |
| FileNames.MarkedStem | modules/download.ts:409 | a capture exists only after the marker and is a non-empty slash-free stem |
| FileNames.MarkedStemOfPath | modules/download.ts:464 | a URL `<pre><marker><mid>/<name>.<ext>` saves under `name` |
| FileNames.ProbedInjective | modules/download.ts:416-418 | distinct indices probe distinct paths |
| FileNames.TakenBound | modules/download.ts:415-420 | the search cannot probe more taken paths than exist, so it ends |
| FileNames.FreeIndex | modules/download.ts:413-420 | the search settles on an index whose path is free, with every earlier candidate taken |
| FileNames.FreeNameSpec | modules/download.ts:413-423 | the name keeps `base` when `base.mp4` is free and otherwise is `base (n)` for the least free `n`; its path never exists yet |
| FileNames.SecondCopyNamedZero | modules/download.ts:413-423 | a second stream with the same stem, once `base.mp4` exists, is named `base (0).mp4` |
| Plan.StrategyOf | modules/download.ts:367-380 | `m3u8` is remuxed, `mp4` is fetched as a video, and everything else is fetched as an image |
| Plan.BelowJoin | modules/download.ts:335 | `<dir>/<name>` with a non-empty name lies strictly below `dir` |
| Plan.BelowExtend | modules/download.ts:385 | appending to a path below `dir`, as the side-file suffix does, stays below `dir` |
| Plan.WithinWithin | modules/download.ts:398-403 | a path within a directory within `path` is within `path` |
| Plan.NestedWithin | modules/download.ts:398-403 | a path within a directory nested in `path` is nested in `path` |
| Plan.StrayOutside | modules/download.ts:385 | the side file `.log` of a download without a path lies below no directory |
| Plan.FetchAs | modules/download.ts:461-483 | one fetch action into `<dir>/<stem>.<extension>`, strictly below the folder, named by the marker's capture or else the pin id plus the extension as written; a failed fetch reports no path and changes no file |
| Plan.RemuxTarget | modules/download.ts:406-423 | the output path is the first free `.mp4` name for the stream's stem, strictly below the folder, and did not exist before |
| Plan.RemuxAs | modules/download.ts:406-435 | with the output path quoted: one remux into the first free `.mp4` name; the reported path is that name whether or not `ffmpeg` produced the file, and the file is produced exactly when the stream remuxes, renamed or not |
| Plan.RemuxAsWritten | modules/download.ts:406-435 | as written: the file is produced exactly when the stream remuxes and the unquoted output path passes through the shell as one word |
| Plan.RenamedRemuxNeverSaves | modules/download.ts:413-425 | as written, once `<stem>.mp4` exists the renamed copy `<stem> (<n>).mp4` is never saved, while the quoted command saves it whenever the stream remuxes |
| Plan.QuotingAgrees | modules/download.ts:424 | when the output path needs no quoting, the quoted and unquoted commands agree |
| Plan.SavePartFetches | modules/download.ts:350-361 | saving a carousel part is one fetch of its fake IMAGE pin into a path below the folder |
| Plan.SavePartsNumbered | modules/download.ts:345-364 | the `k`-th action fetches the `k`-th non-empty story item as pin `<id>-<index + k>` |
| Plan.SavePartsBelow | modules/download.ts:345-364 | every action of the carousel loop is a fetch into a path below the folder |
| Plan.SavePartsOutcome | modules/download.ts:345-364 | without a fault every non-empty item was saved; the loop faults for want of a result exactly when it met no non-empty item |
| Plan.SavePartsAbort | modules/download.ts:362 | a failed part is the last action, and every part before it was saved |
| Plan.SavePartsPath | modules/download.ts:357-363 | a carousel without a fault reports the path of its last part, below the folder |
| Plan.Attempt | modules/download.ts:344-381 | every action of one pin's download is a fetch or a remux of a path below the folder; without a fault the reported path is below the folder, and is empty exactly after a single failed fetch |
| Plan.CarouselParts | modules/download.ts:344-364 | a pin with a non-empty story list is saved part by part, in order, the `k`-th part as `<id>-k` |
| Plan.CarouselOutcome | modules/download.ts:344-364 | a carousel without a fault saved every non-empty item; a failed part is its last action; it faults for having no part exactly when every story item is empty |
| Plan.DispatchByExtension | modules/download.ts:366-381 | without a story list, a pin with `src` takes exactly one download: remux into a free name for `m3u8`, the `videos` stem for `mp4`, the `originals` stem otherwise |
| Plan.SavePin | modules/download.ts:339-396 | every path one pin's pass touches lies strictly below the folder's directory, except a stray `.log` side file; the delete request touches no path |
| Plan.StraySidecar | modules/download.ts:383-386 | the side file escapes the folder, as `.log` in the working directory, exactly when the pin has text and its download was one failed fetch |
| Plan.DeleteOnlyWhenSaved | modules/download.ts:383-396 | a pin is deleted exactly when its download ended without fault, saved its file and deletion was asked for; the delete is its last action |
| Plan.SavePins | modules/download.ts:338-397 | every path the pin loop touches lies strictly below the folder's directory, stray side files apart |
| Plan.NonFolders | modules/download.ts:341 | the records kept hold no folder record |
| Plan.FolderRecordsSkipped | modules/download.ts:341 | the pin loop does exactly what it does on the folder's other records alone |
| Plan.FolderPath | modules/download.ts:335 | a folder's directory starts with `<path>/`, and lies strictly below `path` exactly when its sanitized name is not empty |
| Plan.UnsluggedNameSavesInParent | modules/download.ts:335 | a board named `猫` sanitizes to the empty string and is saved in `<path>/`, the parent directory itself |
| Plan.SaveFolder | modules/download.ts:334-403 | every path saving a folder tree touches is `path` or lies below it, stray side files apart; every step is issued by a folder nested in `path` |
| Plan.OwnSteps | modules/download.ts:335-397 | directory creation and the pin loop touch only the folder's own directory and paths below it, stray side files apart |
| Plan.SaveSubfolders | modules/download.ts:398-403 | the subfolder loop touches only the folder's directory and paths below it, stray side files apart, and its steps are issued by nested folders |
| Plan.PinsBeforeSubfolders | modules/download.ts:338-403 | every step issued for the folder's own directory comes before every step issued for a subfolder |
| Verification.Relevant | modules/file.ts:10 | exactly the log files whose name contains the folder string |
| Verification.Flatten | modules/file.ts:14-16 | a record is checked exactly when some log file holds it |
| Verification.LogPinsFromMatchingFiles | modules/file.ts:10-16 | only matching log files contribute, and every record of each of them does |
| Verification.TallyKeys | modules/file.ts:19-24 | the tally's keys are exactly the non-empty sources of the records |
| Verification.TallySize | modules/file.ts:19-24 | the expected count is the number of distinct non-empty sources |
| Verification.FileStem | modules/file.ts:33-35 | a stem is non-empty and slash-free |
| Verification.FileStemOfPath | modules/file.ts:33 | a source `<dir>/<name>.<ext>` has the stem `name` |
| Verification.FileStemNeedsSlash | modules/file.ts:33-34 | a source without a slash has no stem |
| Verification.CheckPinsFinished | modules/file.ts:31-38 | the check reaches its success line exactly when no source lacks a stem |
| Verification.CheckPinsMissing | modules/file.ts:31-37 | the pins printed are exactly the records, up to the first one without a stem, whose stem the joined listing lacks |
| Verification.ReachedShift | modules/file.ts:31-34 | reaching a tail record is reaching it in the whole list once the first record does not stop the check |
| Verification.DeepVerify | modules/file.ts:6-39 | it throws exactly without a folder name; a report needs the output directory, the logs and media on every record, counts the listed files and is short exactly when fewer than expected |
| Verification.DeepVerifyReport | modules/file.ts:19-38 | the expected count is the number of distinct sources; short exactly when fewer files were found; finished exactly when every source has a stem; the printed pins exactly the missing ones reached |
| Verification.ListedStemFound | modules/file.ts:18-36 | a stem inside one listed file name is found in the `", "`-joined listing, so that pin is never printed |
| Urls.RemoveNothing | modules/url.ts:5-7 | a global replace where no match starts leaves the string unchanged |
| Urls.RemoveFront | modules/url.ts:5-7 | a match at the front is deleted and the scan resumes after it |
| Urls.Scheme | modules/url.ts:5 | `http(s)?` matches only where `http` starts |
| Urls.Separator | modules/url.ts:6 | `://` matches exactly where it occurs |
| Urls.Host | modules/url.ts:7 | `\w+\.pinterest.com` matches only where `.pinterest` occurs |
| Urls.NormalizeUrl | modules/url.ts:1-9 | it throws exactly on an empty address; otherwise the result is the prefix followed by what the three removals leave, never longer than the address |
| Urls.PlainPathKept | modules/url.ts:4-8 | an address with no `http`, `://` or `.pinterest` is kept whole after the prefix |
| Urls.SubdomainAddress | modules/url.ts:4-8 | `http(s)://<sub>.pinterest.com<path>` on a word sub-domain without `h` normalizes to the prefix followed by `path` |
| Urls.PlainPathExample | modules/url.ts:1-9 | `user/board/` becomes `https://pinterest.com/user/board/` |
| Urls.BoardAddressExample | modules/url.ts:1-9 | `https://br.pinterest.com/user/board/` becomes `https://pinterest.com//user/board/` |
| Strings.DecimalRoundTrip | modules/download.ts:351 | the decimal rendering of an index reads back as that index |

## Left out

- The browser and page navigation are left out. Scrolling, the one-second and half-second delays, the cookie store, and closing the browser are inputs or absent.
- A page is a finite list of screens. Past the last listed screen, the page shows nothing more and the bottom check succeeds. A board that never reports its bottom is not modelled.
- The `howMany` option passed to the screen extraction is unused by the code, so the model has no counterpart.
- `getDeletedPinData` and `getPinResource` are oracles. The first gives the recovered URL, `None` when the recovery throws. The second ends in the resource, in nothing (a response that is not ok, or a body that does not parse), or in a rejection (a missing session cookie, or a failed request or body read). The request, its JSON parsing and its stream regular expression are not modelled.
- The srcset regular expression of `getPinSrcUrl` is not modelled: its two captures are an input (`Classify.GridItem.srcset`). Its greedy `.*` makes the second capture start at the last `https` on the line, after ` 3x`, whose run of non-space characters contains `originals` with at least one more character after it.
- The Unicode NFD decomposition at the start of `sanitizeFolderName` is taken as already done. It is the identity on ASCII and on decomposed text.
- Lower-casing (`sanitizeFolderName`, `getPinExtension`) and `Strings.Upper` (the GIF badge test of `getPinSrcUrl`) cover ASCII letters only. JavaScript's `toLowerCase` and `toUpperCase` map every Unicode letter.
- `mkdir`, `writeFile` and the delete request are actions in the plan. They always succeed. `mkdir`'s creation of missing parents is not modelled.
- Fetch and `ffmpeg` results are oracles keyed by the source URL. For the unquoted `ffmpeg` output path, only the shell's special characters are modelled (`Plan.ShellSafe`); glob and brace expansion are not.
- The quoting of the stream URL in the `ffmpeg` command line is not modelled: a `"`, `$` or backquote in it is taken to pass through.
- The downloaders' `Media.src is null` throw is the `MissingSrc` fault.
- `saveFolderLog`, `deletePinFromFolder`'s request body, `toBuffer` and `cmd` are I/O and are not part of this model.
- The console output of `deepVerify` is the `Verdict` value. `JSON.parse` failures of a log file are not modelled.
- The unused `testRegex` of `normalizeUrl` has no effect and is not modelled.
- JavaScript regular expression `.` does not match line terminators. `Urls.Host` models this. `Classify.GetPinId`, `Verification.FileStem` and `FileNames.MarkedStem` treat `.` as any character, which differs only on URLs that contain a line terminator.
- The CLI commands, login and the cookie file are outside the pipeline.
- Classify.ClassifyItem: states the anchor case and the record shape; the per-kind contents are in `Classify.ClassifyItemSpec`.
- Plan.CarouselParts: bounds the number of actions by the non-empty story items; the exact count without a fault is in `Plan.CarouselOutcome`.

## Findings

The rest of the model uses the corrected member of each row.

| source | as written | input that shows it | evidently intended | confidence | as-written member | corrected member |
|---|---|---|---|---|---|---|
| modules/download.ts:183-220 | an anchor-less grid item resolves its promise to `null`; `.filter(pin => pin != null)` runs over the promises, not their values, so the `null` survives and the keying loop reads `pin.type` of `null` and throws | a screen whose only grid item has no anchor | anchor-less grid items are skipped | not executed | Classify.AsWrittenRejectsAnchorless | Classify.AnchorlessItemsDropped |
| modules/download.ts:413-425 | when `<stem>.mp4` exists the name search picks `<stem> (<n>)`, and the output path is spliced into the `ffmpeg` command line unquoted; `/bin/sh` stops with a syntax error at `(`, `cmd` still resolves, and the check reports the file as not downloaded | an `m3u8` pin whose stream stem already has `<stem>.mp4` in the folder | the renamed copy is saved: the output path is quoted | not executed | Plan.RenamedRemuxNeverSaves | Plan.RemuxAs |
