# zfk-website core, modelled in Dafny

This project models the parts of the zfk-website that do real work on
data. The site is a SvelteKit front end over a Kirby CMS and a small SQLite
catalogue of audio recordings. The modelled parts are:

- **The range-aware stream endpoint** (`GET /api/stream`). It resolves the
  requested file against the backend directory and refuses paths that
  leave it. When the file is missing, it falls back to a file of the same
  base name in `content/2_recordings`. It answers 200 with the whole
  file, or 206/416 for a `Range: bytes=a-b` header. A range whose start
  lies after its end makes `createReadStream` throw, and the framework
  answers that with its own 500 `Internal Error`. Modules: `Stream`,
  `Paths`, `Decimal`, `JsStrings`.
- **The reconciliation script** (`db/populateDatabase.ts`). It scans
  `db/audio` for files named `YYMMDD --- Title.mp3`. It adds a catalogue
  row for each new one and deletes rows (and unlinks their files) whose
  path the scan did not produce. Modules: `Reconcile`, `Dates`.
- **The catalogue's data-access functions** (`db/entries.ts`). These cover
  create, retitle, delete by id, and the listings by year and by sort
  date. They are modelled as a `Catalogue.Table` class whose `rows`, `disk`
  and `nextId` fields the methods update. Modules: `Catalogue`, `Ordering`.
- **The admin page's server actions** (upload, edit, delete): module
  `Admin`.
  The admin page carries its own `getDisplayDate` and `getSortDate`
  (`src/routes/admin/+page.server.ts`, lines 181-198). They are the same as
  the script's, so both are the one definition in `Dates`.
- **The home page's loaders**: track filtering and stream-path rewriting,
  thumbnail selection, URL fixing for dev and production, merging and
  sorting local and external recordings, and dynamic sections. The same
  rewriting appears in `/api/audioTracks`. Modules: `Kirby`, `PageLoad`,
  `ServerLoad`.

JavaScript's own library behaviour is written out where the code depends
on it, in `JsStrings`, `Decimal` and `Paths`:

- `indexOf` finds the first occurrence.
- `substring` clamps and swaps its bounds.
- `split` cuts at non-overlapping occurrences.
- `replace` with a string pattern replaces only the first occurrence.
- `parseInt` skips leading white space and accepts an optional sign and a
  digit prefix.
- Truthiness of an optional string means present and non-empty.
- `path.resolve`, `path.join`, `basename` and `extname` are modelled over
  path segments.

The directory listing, file sizes, the CMS results and URL parsing are
parameters of the model.

Where the documented behaviour and the code differ, the model follows the
code:

- Reconciliation keeps the row of a scanned file whose name does not split
  into a date and a title, because every scanned path is marked processed
  before the split. It deletes the rows, and unlinks the files, of paths
  the scan does not produce. That includes files in `db/audio` that are
  not `.mp3` or whose names lack the six leading digits
  (`Reconcile.ReconciledPaths`).
- The `replace("./db/audio", "../../db/audio")` in the scan never fires. Paths
  are `db/audio/<name>` (`Reconcile.ScanPathOfName`).
- The extension test lower-cases first, so `.MP3` files count.
- The title split is applied to the whole stem. A title that itself holds
  `" --- "` gives no row.
- The containment test on the stream endpoint is a string prefix test.
  The backend directory itself passes it, and so does a sibling directory
  whose name extends the backend's (see Findings).
- A month outside 1–12 yields the text `undefined` in the display date.
  It is not treated as an error.
- A fallback file requested with a `Range` header is answered with 206,
  like the primary file.
- The server-side loaders cut at the first `media/`, not at `/media/`
  (`PageLoad.StreamPathTakesFirstMedia`).
- `deleteEntry` reports success even when there was no such row.
- The admin upload takes the year from the stem's first two characters
  with no digit check.

## Model

| member | source | states |
|---|---|---|
| JsStrings.IndexOf | src/routes/+page.ts:23 | the result is the first position where the pattern occurs; none means it occurs nowhere |
| JsStrings.Substring | db/populateDatabase.ts:23 | in-range bounds give exactly that slice; the result is never longer than the string |
| JsStrings.Split | db/populateDatabase.ts:58 | there is at least one piece; joining the pieces with the separator gives back the string; no piece contains the separator; one piece exactly when the separator does not occur; otherwise the first cut is at the first occurrence |
| JsStrings.SplitAtFirst | db/populateDatabase.ts:58-59 | when the separator does not start inside `a` and does not occur in `b`, splitting `a + sep + b` gives exactly `[a, b]` |
| JsStrings.SplitCons | db/populateDatabase.ts:58 | when the separator does not start inside `a`, splitting `a + sep + b` gives `a` followed by the pieces of `b` |
| Decimal.NatToString | src/routes/api/stream/+server.ts:101 | the decimal text of n is non-empty digits that read back as n, with no leading zero unless n is 0 |
| Decimal.ParseIntToString | src/routes/api/stream/+server.ts:67-68 | `parseInt` of an integer's decimal text gives that integer back |
| Decimal.ParseNumeral | src/routes/api/stream/+server.ts:67 | `parseInt` reads a natural number's decimal text back as that number |
| Decimal.DigitPrefixOfDigits | src/routes/api/stream/+server.ts:66 | the digit prefix of a digit string followed by a non-digit is exactly that digit string |
| Decimal.ParseNumeralPrefix | src/routes/api/stream/+server.ts:66-67 | a numeral followed by any non-digit text contributes exactly itself as the digit prefix |
| Paths.Resolve | src/routes/api/stream/+server.ts:17 | resolving against the backend directory yields only plain names, with no `.`, `..`, empty or slash-holding segment |
| Paths.NormalizeNames | src/routes/api/stream/+server.ts:17 | normalising plain names onto a stack only appends them |
| Paths.JoinName | src/routes/api/stream/+server.ts:39 | joining a single name appends it; joining the empty name leaves the directory unchanged |
| Paths.RenderExtends | src/routes/api/stream/+server.ts:26 | the text of a path extended by more segments starts with the text of the original path |
| Paths.LastIndexOf | db/populateDatabase.ts:17 | the result is the last position of the character; none means it does not occur |
| Paths.Extname | db/populateDatabase.ts:17 | the extension is empty or a dot followed by no further dot, and is a tail of the name; it is non-empty exactly when the name is not `..` and has a dot after its first character |
| Paths.StemExt | db/populateDatabase.ts:57 | the stem followed by the extension is the base name again |
| Ordering.PrecedesStrictOrder | db/entries.ts:64-71 | the sort-date ordering in either direction is irreflexive, asymmetric and transitive |
| Ordering.BelowTotal | db/entries.ts:64-71 | any two different sort dates are ordered one way or the other |
| Ordering.InsertSorted | src/routes/+page.ts:203-205 | inserting into a sorted sequence keeps it sorted |
| Ordering.SortBy | src/routes/+page.ts:203-205 | the result is sorted by the key in the requested direction and is a permutation of the input |
| Ordering.SortedMeansOrdered | db/entries.ts:69-72 | in a sorted sequence any earlier element's key is equal to or before any later one's |
| Dates.ParseTwoDigits | db/populateDatabase.ts:94 | `parseInt` of two digit characters is their two-digit value |
| Dates.DisplayDateOfDigits | db/populateDatabase.ts:93-101 | for six digits the display date is the month name (or `undefined` outside 1–12), a space and the day digits |
| Dates.DisplayDateNamesMonth | db/populateDatabase.ts:93-101 | for a month m in 1–12 the display date is the m-th abbreviation, a space and the two day digits |
| Dates.SortDateShape | db/populateDatabase.ts:104-110 | the sort date has ten characters: `20`, year digits, `-`, month digits, `-`, day digits |
| Dates.SortDateOrder | db/populateDatabase.ts:104-110 | sort dates compare, and are equal, exactly as the six-digit raw dates do |
| Catalogue.SameIdSameRow | db/schema.ts:8-11 | in a table with unique ids, two rows with the same id are the same row |
| Catalogue.Lookup | db/entries.ts:26-32 | a found row is in the table with that id; none means no row has that id |
| Catalogue.WithoutIds | db/entries.ts:37-38 | deleting by ids never lengthens the table |
| Catalogue.WithoutIdsMembers | db/entries.ts:37-38 | after deleting by ids a row remains exactly when it was there and its id was not deleted |
| Catalogue.WithoutIdsUnique | db/entries.ts:37-38 | deleting rows keeps ids unique |
| Catalogue.Retitled | db/entries.ts:14-21 | retitling keeps the length and every id, and rows with other ids are unchanged |
| Catalogue.RetitledChangesOnlyTitle | db/entries.ts:14-21 | each row with the id gets the new title and nothing else changes; every other row stays as it was |
| Catalogue.RetitledUnknownId | db/entries.ts:14-21 | retitling an id no row has leaves the table unchanged |
| Catalogue.OfYear | db/entries.ts:52-60 | the result holds exactly the rows of that year, never more rows than the table |
| Catalogue.OfYearCounts | db/entries.ts:52-60 | each row of that year occurs as often as in the table, and rows of other years not at all |
| Catalogue.Table.constructor | db/schema.ts:7-19 | a new catalogue is empty, holds the given files and starts numbering at 0 |
| Catalogue.Table.Create | db/entries.ts:9-11 | a row with a fresh id and the given fields is appended; files untouched; the counter advances by one |
| Catalogue.Table.EditTitle | db/entries.ts:14-21 | the rows become the retitled rows; files and counter unchanged |
| Catalogue.Table.DeleteById | db/entries.ts:24-49 | an unknown id answers not-found and changes nothing; a known id loses its row and its file, and the answer is a failure when the file was already gone |
| Catalogue.Table.ByYear | db/entries.ts:52-60 | returns exactly the rows of that year, each as often as stored, and changes nothing |
| Catalogue.Table.All | db/entries.ts:63-66 | returns a permutation of all rows sorted ascending by sort date |
| Catalogue.Table.AllDescending | db/entries.ts:69-72 | returns a permutation of all rows sorted descending by sort date |
| Reconcile.ScanAll | db/populateDatabase.ts:8-36 | the scan yields at most one record per directory entry |
| Reconcile.ScannedExactly | db/populateDatabase.ts:12-33 | a record is scanned exactly when some file entry with a six-digit `.mp3` name produces it |
| Reconcile.CandidateScanned | db/populateDatabase.ts:12-27 | every candidate entry's record is among the scanned ones |
| Reconcile.ScannedFromCandidate | db/populateDatabase.ts:12-27 | every scanned record is the record of some candidate entry |
| Reconcile.ScanPathOfName | db/populateDatabase.ts:13-25 | a scanned file's path is `db/audio/<name>`, because the replace finds nothing to replace |
| Reconcile.BaseOfAudioPath | db/populateDatabase.ts:57 | the base name of `db/audio/<name>` is the name again |
| Reconcile.ScanEntry | db/populateDatabase.ts:13-31 | one step of the scan yields the entry's record exactly when it is a file ending in `.mp3` in any case whose name starts with six digits |
| Reconcile.GetAudioFiles | db/populateDatabase.ts:8-36 | the loop returns exactly the scan of the listing, in order |
| Reconcile.Insertions | db/populateDatabase.ts:47-73 | there are never more insertions than scanned files |
| Reconcile.CollectHas | db/populateDatabase.ts:47-73 | whatever one scanned file contributes is among the collected insertions |
| Reconcile.CollectFrom | db/populateDatabase.ts:47-73 | every collected insertion was contributed by some scanned file |
| Reconcile.InsertionsExactly | db/populateDatabase.ts:51-70 | a new file with a date and a title yields its insertion; every insertion comes from such a file not yet in the table |
| Reconcile.Numbered | db/schema.ts:8-11 | numbering keeps one row per insertion |
| Reconcile.NumberedAt | db/schema.ts:8-11 | the k-th new row gets id start + k and carries the k-th insertion's fields |
| Reconcile.KeepProcessed | db/populateDatabase.ts:77-86 | a row survives exactly when its path was processed |
| Reconcile.AppendFresh | db/schema.ts:8-11 | appending rows numbered from a counter above every id keeps ids unique |
| Reconcile.InsertIfNew | db/populateDatabase.ts:51-73 | one loop step appends the file's row when it is new and splits in two; otherwise the table is unchanged |
| Reconcile.InsertScanned | db/populateDatabase.ts:47-74 | the insert loop reports every scanned path as processed and appends the numbered insertions |
| Reconcile.DeleteOne | db/populateDatabase.ts:78-85 | one deletion step removes the row and unlinks its file |
| Reconcile.DeleteIfUnprocessed | db/populateDatabase.ts:78-85 | one iteration of the delete loop extends the deleted rows and unlinked files by the entry exactly when its path was not processed; the counter is unchanged |
| Reconcile.DeleteUnprocessed | db/populateDatabase.ts:77-86 | the delete loop removes every unprocessed existing row and unlinks exactly their files |
| Reconcile.Populate | db/populateDatabase.ts:39-90 | an unreadable folder changes nothing; otherwise the table becomes the reconciled rows and the unlinked files leave the disk |
| Reconcile.ReconciledPaths | db/populateDatabase.ts:39-90 | after a pass, a path is in the table exactly when it was scanned and either was already there or splits into a date and a title |
| Reconcile.ReconcileIdempotent | db/populateDatabase.ts:39-90 | a second pass over the same folder inserts nothing, deletes nothing and leaves the table as it is |
| Reconcile.RecordingScanned | db/populateDatabase.ts:12-33 | a file `YYMMDD --- Title.mp3`, for any title that is a file name, is a candidate, scanned at `db/audio/<name>` with year `20YY` |
| Reconcile.RecordingInsertion | db/populateDatabase.ts:57-70 | such a file yields the insertion with year `20YY`, its sort and display dates, the title and the path, unless the title itself holds `" --- "`, in which case it yields none |
| Reconcile.SingleScanned | db/populateDatabase.ts:39-90 | reconciling an empty table with one insertable file gives the one row numbered from the counter, and unlinks nothing |
| Reconcile.NothingScanned | db/populateDatabase.ts:56-73 | reconciling an empty table with one file whose stem does not split in two leaves it empty and unlinks nothing |
| Reconcile.RecordingScenario | db/populateDatabase.ts:39-90 | reconciling an empty table with one recording file gives exactly its row (none when the title holds `" --- "`), and unlinks nothing |
| Reconcile.OpeningSetSortDate | db/populateDatabase.ts:104-110 | the raw date `250101` gives year `2025` and sort date `2025-01-01` |
| Admin.UploadInsertion | src/routes/admin/+page.server.ts:154-170 | a row created by an upload carries the stored path `db/audio/<name>` |
| Admin.UploadFile | src/routes/admin/+page.server.ts:120-177 | no name gives 400 and changes nothing; a failed write gives 500 and changes nothing; otherwise the file is stored and a row is appended exactly when the stem splits in two |
| Admin.StemKeepsDigits | src/routes/admin/+page.server.ts:154-156 | a name starting with six digits keeps them in its stem |
| Admin.UploadMatchesScan | src/routes/admin/+page.server.ts:142-170 | uploading a file the reconciliation would pick up creates the same row the reconciliation would insert |
| Admin.EditEntry | src/routes/admin/+page.server.ts:38-60 | reports success, and the table becomes the retitled rows with files and counter unchanged |
| Admin.DeleteEntry | src/routes/admin/+page.server.ts:63-84 | reports success in every case; a known id loses its row and its file, an unknown id changes nothing |
| Kirby.Listed | src/routes/+page.server.ts:101 | keeps exactly the tracks with a title and a display date, never more |
| Kirby.ListedAppend | src/routes/api/audioTracks/+server.ts:23 | filtering distributes over concatenation |
| Kirby.ListedIdempotent | src/routes/api/audioTracks/+server.ts:23 | filtering twice is filtering once |
| Kirby.MediaAfterSlash | src/routes/+page.server.ts:103-104 | when `/media/` occurs, `media/` occurs too, no later than one past it |
| Kirby.StreamPath | src/routes/+page.server.ts:103-106 | the rewritten path is present exactly when the original is |
| Kirby.StreamPathShape | src/routes/+page.server.ts:103-106 | a path without `/media/` is untouched; one with it becomes `/api/stream?file=` and the text from the first `media/`, which lies no later than one past the first `/media/` |
| Kirby.RewriteForStream | src/routes/+page.server.ts:102-107 | each track in the array gets its path rewritten in place, and nothing else changes |
| Kirby.StreamListed | src/routes/api/audioTracks/+server.ts:22-32 | the result is the listed tracks, in order, with rewritten paths |
| Kirby.StreamListedStaysListed | src/routes/api/audioTracks/+server.ts:23-32 | rewriting keeps every track listed, so filtering again changes nothing |
| Kirby.MatchesIsInclusion | src/routes/+page.server.ts:82-84 | an image matches a block's file id exactly when the id contains its uuid |
| Kirby.FindImage | src/routes/+page.server.ts:82-84 | the result is the first matching image; none means no image matches |
| Kirby.SelectThumbnail | src/routes/+page.server.ts:76-89 | the loop selects the thumbnail: the first matching image's URL, else the first image's |
| Kirby.ThumbnailIsFirstMatch | src/routes/+page.server.ts:78-87 | when the first block has a file id and image k is the first match, the thumbnail is image k's URL |
| Kirby.ThumbnailWithoutMatch | src/routes/+page.server.ts:76 | without a matching image the thumbnail is the first image's URL |
| Kirby.ThumbnailFromImages | src/routes/+page.server.ts:76-89 | any thumbnail is the URL of one of the event's images |
| Kirby.VideoUrl | src/routes/+page.server.ts:94 | a video URL is reported exactly when the first video has a non-empty URL, and it is that URL's path |
| Kirby.VideoMime | src/routes/+page.server.ts:95 | the MIME type reported is the first video's whenever there is a first video, and nothing otherwise |
| PageLoad.MediaSuffix | src/routes/+page.ts:23 | the suffix is the tail of the URL from its first `/media/` |
| PageLoad.FixKirbyUrl | src/routes/+page.ts:21-28 | a URL with `/media/` becomes `/backend` plus its tail from the first `/media/`; any other URL is returned as it is |
| PageLoad.RelativeMediaPath | src/routes/+page.ts:31-36 | a URL with `/media/` yields its tail from the first `/media/`; any other yields the URL or the empty text |
| PageLoad.FixKirbyUrlIdempotent | src/routes/+page.ts:21-28 | fixing a fixed URL changes nothing |
| PageLoad.RelativeMediaPathIdempotent | src/routes/+page.ts:31-36 | extracting the media path twice is extracting it once |
| PageLoad.FixKirbyUrlIsBackendRelative | src/routes/+page.ts:178-185 | for media URLs the production path is `/backend` plus the media path and the dev path is the stream prefix plus it |
| PageLoad.StreamPathAgreesWithDev | src/routes/+page.server.ts:103-106 | when no `media/` precedes the first `/media/`, the server rewrite and the client's dev path agree |
| PageLoad.StreamPathTakesFirstMedia | src/routes/+page.server.ts:104 | for `xmedia/media/a` the server and client cuts differ: the server cuts at the earlier `media/` |
| PageLoad.LocalPath | src/routes/+page.ts:178-185 | a media URL becomes the stream prefix (dev) or `/backend` (production) plus its tail from the first `/media/`; any other path is kept, behind the stream prefix in dev |
| PageLoad.MapInPlace | src/routes/+page.ts:175-188 | each array element is replaced in place by its rewrite, and the returned tracks are the rewritten ones marked not external |
| PageLoad.PrepareLocal | src/routes/+page.ts:175-188 | each track in the array gets its dev or production path in place, and the returned local tracks are the prepared tracks marked not external |
| PageLoad.ExternalTrack | src/routes/+page.ts:191-200 | an external link becomes a track marked external, with its URL as id and external URL, an empty path and its sort date |
| PageLoad.LoadAudio | src/routes/+page.ts:175-205 | the recordings are a permutation of the listed local tracks and the external links, sorted by descending sort date; each is a listed local track or an external one |
| PageLoad.PageEvents | src/routes/+page.ts:137-166 | one event per input, with fixed thumbnail and text and the first video's path and type |
| PageLoad.SectionOf | src/routes/+page.ts:208-229 | keeps the page's id, title and slug; a page with children becomes a header section holding them with rewritten texts; any other a main section holding its rewritten text |
| PageLoad.Sections | src/routes/+page.ts:208-229 | no section is the events or recordings page, and there are never more sections than pages |
| PageLoad.SectionsMembers | src/routes/+page.ts:208-229 | a section appears exactly for each dynamic page |
| PageLoad.SectionsAppend | src/routes/+page.ts:208-229 | sections of concatenated page lists are the concatenated sections |
| PageLoad.DynamicSections | src/routes/+page.ts:208-229 | a failed query gives no sections; no section is the events or recordings page |
| ServerLoad.ServerThumbnail | src/routes/+page.server.ts:76-93 | a thumbnail is reported exactly when one was selected, as its URL's path |
| ServerLoad.ServerEvents | src/routes/+page.server.ts:75-97 | one event per input with its thumbnail path, video path and video type set |
| ServerLoad.Load | src/routes/+page.server.ts:75-115 | null results count as empty; each event is its input with the thumbnail path, video path and video type set; audio files are the listed tracks rewritten for streaming; info pages pass through |
| ServerLoad.AudioTracks | src/routes/api/audioTracks/+server.ts:4-39 | a thrown fetch answers 500; otherwise the listed tracks in order, rewritten, every one still listed |
| Stream.NumeralThen | src/routes/api/stream/+server.ts:66 | a result is the text's leading digit run, non-empty, followed by the character and the rest; no result, for a non-digit character, means no digit run is followed by it |
| Stream.MatchAt | src/routes/api/stream/+server.ts:66 | a match is the header's own text `bytes=`, start digits, `-` and optional end digits, not followed by a digit; no match means no `bytes=` digits are followed by `-` |
| Stream.FirstMatchFrom | src/routes/api/stream/+server.ts:66 | the result is the first position from k where the pattern matches; none means none from k |
| Stream.MatchRange | src/routes/api/stream/+server.ts:66 | a match is the one at the leftmost position where the pattern matches; none means no position matches |
| Stream.ParseSatisfied | src/routes/api/stream/+server.ts:88 | the `bytes a-b/n` header reads back as the same three numbers |
| Stream.ParseUnsatisfied | src/routes/api/stream/+server.ts:74 | the `bytes */n` header reads back as the same size |
| Stream.ContentRangeRoundTrip | src/routes/api/stream/+server.ts:74-88 | every Content-Range value the endpoint writes reads back as what it describes |
| Stream.ServeFile | src/routes/api/stream/+server.ts:58-105 | status is 200 exactly without a range; a non-empty header that matches nowhere gets 416 with no body; 416 always answers with no body; a start after the end gets the framework's 500; 206 serves the bytes start to end, both inside the file |
| Stream.MatchAtStart | src/routes/api/stream/+server.ts:66 | a header that matches at its start matches there first |
| Stream.MatchWellFormed | src/routes/api/stream/+server.ts:66-68 | a well-formed `bytes=a-b` header matches with exactly a and b |
| Stream.WholeFileWithoutRange | src/routes/api/stream/+server.ts:94-104 | without a Range header the whole file is served with 200 and its length |
| Stream.ServeMatched | src/routes/api/stream/+server.ts:65-91 | unfolds the decision for a matched header: 416 when start or end reaches past the size, 500 when the start lies after the end, otherwise 206 with that slice |
| Stream.ServeUnsatisfiedRange | src/routes/api/stream/+server.ts:70-78 | a range past the end answers 416 with no body and a Content-Range reading back the size |
| Stream.WellFormedServes | src/routes/api/stream/+server.ts:65-91 | a well-formed range inside the file, start not after end, is served 206 with those bytes; a start after the end gets 500; one beyond the file gets 416 |
| Stream.StartAfterEndFails | src/routes/api/stream/+server.ts:65-91 | `bytes=a-b` with b before a, inside the file, ends in the framework's 500 |
| Stream.PartialReadsBack | src/routes/api/stream/+server.ts:80-91 | a partial answer's length header reads back as the slice length and its Content-Range as the slice and size |
| Stream.OpenRangeFromZero | src/routes/api/stream/+server.ts:67-69 | `bytes=0-` on a non-empty file serves the whole file as a 206 slice |
| Stream.EndPastSizeRefused | src/routes/api/stream/+server.ts:70 | an end at or past the size is refused with 416 |
| Stream.NoMatchAnywhereWithoutB | src/routes/api/stream/+server.ts:66 | a header without the letter b matches nowhere |
| Stream.SuffixRangeRefused | src/routes/api/stream/+server.ts:66-78 | a suffix range `bytes=-n` is answered 416 |
| Stream.ContentDir | src/routes/api/stream/+server.ts:38 | the fallback directory is plain names |
| Stream.ContentDirUnderRoot | src/routes/api/stream/+server.ts:38 | the fallback directory is the backend directory plus `content/2_recordings` |
| Stream.FallbackPath | src/routes/api/stream/+server.ts:36-39 | the fallback path is plain names |
| Stream.FallbackUnderContentDir | src/routes/api/stream/+server.ts:36-39 | the fallback is the content directory plus at most the base name, and its text starts with the backend's |
| Stream.ServeExisting | src/routes/api/stream/+server.ts:31-55 | serves the primary path when it exists, else the fallback when it exists, and answers 404 exactly when neither does |
| Stream.Get | src/routes/api/stream/+server.ts:5-56 | 400 exactly without a file; 403 exactly when the resolved text does not start with the backend's; otherwise the existing primary file is served, else the existing fallback, and 404 exactly when neither exists |
| Stream.SiblingResolves | src/routes/api/stream/+server.ts:17 | `../sibling/f` resolves into the sibling directory |
| Stream.SiblingPassesStringTest | src/routes/api/stream/+server.ts:26 | a path in a sibling whose name extends the backend's passes the prefix test |
| Stream.SiblingNotConfined | src/routes/api/stream/+server.ts:17-26 | a path in a sibling whose name extends the backend's is not inside the backend directory segment by segment |
| Stream.SiblingDirectoryServed | src/routes/api/stream/+server.ts:15-55 | such a sibling's existing file is served, although it lies outside the backend directory |
| Stream.ConfinedIsStringContained | src/routes/api/stream/+server.ts:26 | segment containment implies the prefix test |
| Stream.FallbackConfined | src/routes/api/stream/+server.ts:36-39 | the fallback path lies inside the backend directory |
| Stream.GetConfined | src/routes/api/stream/+server.ts:5-56 | as Get, but 403 exactly when the path is not inside the backend directory segment by segment; otherwise the primary, else the fallback, 404 exactly when neither exists |
| Stream.GetConfinedNarrowsGet | src/routes/api/stream/+server.ts:26-29 | the corrected endpoint refuses every escape and otherwise answers exactly as the original |

## Findings

| source | as written | input that shows it | evidently intended | confidence | as-written member | corrected member |
|---|---|---|---|---|---|---|
| src/routes/api/stream/+server.ts:26 | containment is a string prefix test of the resolved path against the backend directory | backend `/srv/zfk-backend`, `file=../zfk-backend-old/a.mp3` resolves to `/srv/zfk-backend-old/a.mp3`, which starts with `/srv/zfk-backend` and is served | the file must lie inside the backend directory, segment by segment | not executed | Stream.SiblingDirectoryServed | Stream.GetConfined |

## Left out

- Byte streaming, `statSync` and `createReadStream` are left out. A file is a path and a size, and a body is the slice it names.
- The framework's error page is left out. An exception the handler does not catch, such as `createReadStream` refusing a start after the end, is the fixed answer `Stream.InternalError`: status 500 with the message `Internal Error`.
- `existsSync` on a directory is left out. The model's files are a map of regular files.
- Symbolic links are left out. Resolution is lexical, as in the code.
- JavaScript numbers are unbounded here. Sizes and offsets above 2^53 lose precision in the code and do not here.
- `toLowerCase` is modelled on ASCII letters only.
- The trailing-slash cases of `path.join` and `path.basename` are left out. Names never end in `/` in this model.
- The backend directory comes from `process.cwd()` in the code. It is a parameter here.
- `readdirSync` failing is modelled as an absent listing. The script logs it and changes nothing.
- `mkdir` of the upload directory is left out. The directory holds nothing the model tracks.
- A catalogue insert that fails is left out, both inside the reconciliation's `try` and in the upload action's `try`. There the error is logged and the upload still reports success, with the file stored and no row. Inserts are modelled as always succeeding.
- Row ids are modelled as a counter. The `crypto.randomUUID()` ids and the timestamp default are replaced by `nextId`; only uniqueness is used.
- The reconciliation calls `createNewEntry` without `await`. `createNewEntry` is synchronous, so the row exists before the loop goes on, as in the model.
- Admin.UploadFile: a form with no `fileToUpload` field at all makes `.name` throw a TypeError, which the framework answers with 500. The model's absent name stands for a file whose name is empty or `undefined`, which gets 400.
- `editEntry` and `deleteEntry` catching a thrown database error are left out, because the model's table never throws.
- Authentication (the login action, cookies, JWT) is left out, because it does not touch the modelled data.
- The CMS query facade (`kql`) is left out. Its results are inputs, and a failed query is an absent result.
- `replaceUrlWithTitle` is a parameter of the client loader. Its regular expression is not modelled.
- `new URL(...).pathname` is a parameter of the server loaders. A relative URL, which makes it throw, is not modelled.
- `undefined` and `null` are both the absent value here.
- The page loaders' `clubPage` is passed through unexamined, and the `eventsTitle` and `recordingsTitle` lookups are left out.
- The fields of the CMS records that the code passes through untouched are left out.
- The server loader mutates the CMS's track objects in place. `Kirby.RewriteForStream` models that on an array; the other loaders build new sequences, so sharing between the two is not modelled.
- PageLoad.LoadAudio: orders recordings by comparing `sortDate` texts, not by `new Date(...).getTime()`. The two agree for the `YYYY-MM-DD` dates the CMS supplies, but the stability of equal dates is not stated.
- Catalogue.Table.All: the order of rows with equal sort dates, which SQLite leaves unspecified, is not stated.
- Dates.DisplayDateNamesMonth: states the display date for any six-digit date with a month in 1–12, not for a particular literal date.
