# Smoke launcher — a Dafny model of its name matching and acquisition pipeline

Smoke is an Electron game launcher. Its store page lists catalogue games served by a small
Cloudflare worker. A download button fetches a game's `.rar` archive into `~/.smoke/downloads`
and extracts it with a bundled 7-Zip into `~/.smoke/apps`. The library page lists the
extracted games, finds each one's cover, and launches its executable.

This project models the decision logic of that system and proves properties about it:

- **Title matching.** Two different normalisers decide whether a game counts as installed,
  which cards a search shows, which catalogue cover belongs to an installed directory, and
  which card opens automatically:
  - the library's `normalize`/`normalizeKey`, a chain of regular-expression replacements;
  - the store's `normalizeKey`, which lower-cases and deletes `-`, `_` and whitespace.
- **The pages.** The library's card loop with cover lookup and auto-selection. The store's
  not-installed filter. Both search boxes. The archive file name. The store's progress line:
  percentage, size unit, and the button and text changes on each event.
- **The main process.** The pre-order search for a cover image over a directory tree. The
  filter that turns the apps directory into the installed list. The `run-game` path rule. The
  7-Zip command line, the reading of its stdout chunks, and the mapping of its exit code. The
  `download-game` handler as a sequence of observable actions.
- **The API worker.** The routing of a pathname to the list route, the get-by-id route or a 404.

Layout, one module per file:

- `common`: Option and Result.
- `text`: character classes, ASCII lower-casing, whitespace runs, trimming, `includes`, decimals.
- `library_names`: the library normaliser as one scanner per regular expression.
- `library_examples`: worked titles.
- `catalog`: catalogue and installed-game records.
- `cards`: a card whose display the search toggles.
- `library`: the library page.
- `store`: the store page.
- `events`: IPC messages and observable actions.
- `paths`: Node's POSIX `join`, `basename` and `extname`.
- `cover_search`: `findCoverRecursive`.
- `installed`: `list-installed-games` and `run-game`.
- `extractor`: `installArchive`.
- `acquisition`: `download-game`.
- `worker`: the API.

Each regular-expression pass is a left-to-right scanner. At each position it either matches
(emitting one space) or copies one character. `\b` is a change between word and non-word
character, judged on the string the pass reads. Greedy matching is resolved with its
backtracking written out.

Three points where the code behaves otherwise than one might expect are modelled as written:

- One might expect normalisation to be idempotent. The library's `normalize` is not: `"v\t1"`
  becomes `"v 1"`, and normalising that again gives `""`. The `[ _-]*` of the version pattern
  does not match a tab, and whitespace is only collapsed afterwards.
- One might expect the installed-games scan to sort its list, report only directories holding an
  executable, and pick and mark an executable. The code does none of this: the list keeps
  directory order and is filtered by name only.
- One might expect unreadable directories to be skipped. In the code, `readdirSync` throws, so
  the whole installed-list request fails. This is modelled as an error result carrying the path.

## Model

| member | source | states |
|---|---|---|
| Text.Lower | frontend/library.js:29 | lower-casing keeps the length, maps each character by ASCII `toLowerCase` and leaves no upper-case letter |
| Text.ReplaceSpaceRunsShape | frontend/library.js:44 | after `/\s+/g` → c, every whitespace is c, no two whitespace characters are adjacent, the rest comes from the input |
| Text.ReplaceSpaceRunsKeepsText | frontend/store.js:58 | replacing whitespace runs keeps every other character, in order |
| Text.ReplaceSpaceRunOnce | frontend/store.js:58 | a whole whitespace run of any length, followed by a non-space or the end, becomes exactly one c |
| Text.TrimSlice | frontend/library.js:44 | `trim()` returns the slice between the first and last non-whitespace characters, with only whitespace outside it |
| Text.Includes | frontend/library.js:105 | `includes` holds exactly when the needle occurs at some index |
| Text.DecimalRoundTrip | frontend/main.js:73 | the decimal rendering of a number reads back as that number |
| LibraryNames.CloseFrom | frontend/library.js:32 | `[^)]*\)` ends at the first ')' from the given position, or there is none |
| LibraryNames.NumberEnd | frontend/library.js:41 | a match of `\d+(?:\.\d+)*\b` ends after a digit at a word boundary, and with a required dotted group the matched text contains a '.' |
| LibraryNames.NumberEndLongest | frontend/library.js:38-41 | the number part of both patterns matches as a backtracking engine does: the end found is a number (digits, each '.' between two digits, at least one '.' for the `+` form) followed by a word boundary, and no longer such number starts there; there is no match exactly when no number starting there ends at a boundary |
| LibraryNames.NumberWithinRun | frontend/library.js:38-41 | a number never extends past the greedy run of digits and groups; inside the run, a boundary follows it exactly where a '.' does |
| LibraryNames.VersionAlternative | frontend/library.js:38 | a match of `v`/`ver`/`version` plus separators and a number starts with a 'v' of either case and ends at a word boundary |
| LibraryNames.VersionAlternativeLongest | frontend/library.js:38 | one alternative followed by `[ _-]*\d+(?:\.\d+)*\b` matches as the engine does: the end found is the word in any case, separators and a number, followed by a boundary, and no longer such match exists; no match exactly when none ends at a boundary |
| LibraryNames.SeparatorsThenDigit | frontend/library.js:38 | a digit after `[ _-]*` can only sit where the greedy separator run stops |
| LibraryNames.ReplaceChars | frontend/library.js:32-41 | each pass only emits spaces and characters of its input |
| LibraryNames.CopyPlain | frontend/library.js:32-41 | a stretch where no match can start is copied unchanged |
| LibraryNames.Unchanged | frontend/library.js:32-41 | a pass whose pattern needs a character the string lacks leaves the string as it is |
| LibraryNames.GroupPassLeavesNoGroup | frontend/library.js:32 | after the group pass no ')' follows any '(' |
| LibraryNames.SeparatorPassRemovesSeparators | frontend/library.js:35 | after the separator pass no '-' or '_' is left |
| LibraryNames.StrippedChars | frontend/library.js:29-41 | after lower-casing and the four passes there is no '-', '_' or upper-case letter |
| LibraryNames.NormalizeUnfolds | frontend/library.js:27-47 | a non-empty title normalises to the trimmed, whitespace-collapsed result of the four passes over its lower-cased form |
| LibraryNames.CollapseShape | frontend/library.js:44 | collapsing whitespace keeps the stripped shape and leaves single plain spaces |
| LibraryNames.TrimCollapsed | frontend/library.js:44 | trimming the collapsed text keeps it single-spaced, without separators, upper case or groups |
| LibraryNames.NormalizeShape | frontend/library.js:27-47 | the empty title gives ""; the output has no '-', '_' or upper case, is trimmed, single-spaced and holds no closed parenthetical group |
| LibraryNames.NormalizeKeyShape | frontend/library.js:50 | the search key of "" is ""; a key holds no whitespace, '-', '_' or upper-case letter |
| LibraryExamples.LeftForDead | frontend/library.js:31-32 | "Left 4 Dead (v1.2)" normalises to "left 4 dead" |
| LibraryExamples.HalfLife | frontend/library.js:34-35 | "Half-Life_2" normalises to "half life 2" |
| LibraryExamples.GameV2 | frontend/library.js:37-38 | the `v2` token of "Game v2" is removed |
| LibraryExamples.GameVersion | frontend/library.js:37-38 | the `version1.2.3` token of "Game version1.2.3" is removed |
| LibraryExamples.LoneInteger | frontend/library.js:40-41 | a lone "4" survives, since the dotted pattern needs a '.' |
| LibraryExamples.MyGameKeys | frontend/library.js:49-50 | "My Game", "my_game" and "MY-GAME" share the key "mygame" |
| LibraryExamples.TabSeparatedVersion | frontend/library.js:38 | "v\t1" normalises to "v 1", since `[ _-]*` does not match a tab |
| LibraryExamples.SpaceSeparatedVersion | frontend/library.js:38 | "v 1" normalises to "" |
| LibraryExamples.NormalizeNotIdempotent | frontend/library.js:27-47 | normalising twice can differ from normalising once |
| Library.FindApiGameFirst | frontend/library.js:60 | the catalogue game found is the first with an equal normalised name; none is found only when no name matches |
| Library.CoverImageOfFirstMatch | frontend/library.js:60-62 | the card image is the first match's `cover_url`, or the placeholder when that cover is missing or empty |
| Library.CoverImageWithoutMatch | frontend/library.js:60-62 | without a matching catalogue game the image is "placeholder.jpg" |
| Library.CoverImageSource | frontend/library.js:60-62 | the image is never empty, and is either the placeholder or the cover of a game with the same normalised name |
| Library.AutoSelectFirst | frontend/library.js:86-91 | at most the first installed game whose normalised name equals that of a non-empty `selected` is opened; none without `selected` or a match |
| Library.LoadLibrary | frontend/library.js:12-114 | an empty installed list shows "No games installed." before the catalogue is fetched; a failed request shows the load error; otherwise one fresh card per installed game and the auto-selected index |
| Library.MakeCard | frontend/library.js:59-63 | a new card carries the game's name and its cover image |
| Library.MaybeSelect | frontend/library.js:86-91 | the `autoSelected` flag is set at the first match and the choice so far stays that of the first match |
| Library.BuildCards | frontend/library.js:55-92 | one fresh, shown card per installed game in list order with its cover image, and the auto-selected index is the first match |
| Library.EmptyQueryShowsAll | frontend/library.js:101-106 | a query whose key is empty shows every card |
| Library.Search | frontend/library.js:101-107 | each card is shown exactly when its key contains the query's key |
| Store.StoreKeyShape | frontend/store.js:27-30 | the key of "" is ""; a key holds no upper-case letter, '-', '_' or whitespace |
| Store.StoreKeyByCharacter | frontend/store.js:29 | the key of a concatenation is the concatenation of keys; a separator contributes nothing and any other character its lower-case form |
| Store.StoreKeyIdempotent | frontend/store.js:29 | taking the key twice changes nothing |
| Store.StoreKeyIgnoresSeparator | frontend/store.js:29 | inserting a '-', '_' or whitespace character anywhere leaves the key unchanged |
| Store.StoreKeyIgnoresCase | frontend/store.js:29 | changing the case of a letter leaves the key unchanged |
| Store.MyGameSpaceKey | frontend/store.js:29 | "My Game" has the key "mygame" |
| Store.MyGameUnderscoreKey | frontend/store.js:29 | "my_game" has the key "mygame" |
| Store.MyGameDashKey | frontend/store.js:29 | "MY-GAME" has the key "mygame" |
| Store.NotInstalledMembers | frontend/store.js:33-36 | a catalogue game gets a card exactly when no installed game has an equal key |
| Store.NotInstalledConcat | frontend/store.js:33-36 | the filter works piecewise, so cards keep catalogue order |
| Store.CatalogCards | frontend/store.js:32-66 | one fresh, shown card per not-installed game in catalogue order, with its name and cover |
| Store.EmptyQueryShowsAll | frontend/store.js:82-86 | an empty query shows every card |
| Store.Search | frontend/store.js:81-88 | each card is shown exactly when its key contains the query's key |
| Store.DownloadFilename | frontend/store.js:58 | the archive name has no whitespace and ends in ".rar" |
| Store.DownloadFilenameKeepsName | frontend/store.js:58 | the archive name, with whitespace and '_' removed, is the name with whitespace and '_' removed followed by ".rar": every other character is kept, in order |
| Store.DownloadFilenameOfPlainName | frontend/store.js:58 | a name without whitespace is saved as the name plus ".rar" |
| Store.DownloadFilenameJoinsRun | frontend/store.js:58 | each whole whitespace run of the name, of any length, becomes exactly one '_' between the converted text before it and the archive name of the text after it |
| Store.DownloadPercent | frontend/store.js:94 | 0 without a total, otherwise the integer nearest to 100·received/total, halves rounded up |
| Store.PercentBounded | frontend/store.js:94 | the percentage is at most 100 while received ≤ total, and exactly 100 when all bytes arrived |
| Store.PercentMonotone | frontend/store.js:94 | more bytes never lower the percentage |
| Store.UnitScale | frontend/store.js:106-118 | MB below 1024³ bytes, GB up to 1024⁴, TB above; the total shows as under 1024 units except in TB and at least 1 except in MB |
| Store.ProgressPanel.OpenCard | frontend/store.js:47-61 | opening a card clears the line, shows the download button, hides install and library, and binds the download button to that card's game |
| Store.ProgressPanel.ClickDownload | frontend/store.js:57-61 | the download asks for the URL of the game whose card was opened last, under its derived file name, and says "Starting download…"; before any card was opened the click does nothing |
| Store.ProgressPanel.OnDownloadProgress | frontend/store.js:93-121 | the line shows the percentage, the unit and the byte counts |
| Store.ProgressPanel.OnDownloadComplete | frontend/store.js:122-126 | the install button replaces the download button |
| Store.ProgressPanel.ClickInstall | frontend/store.js:127-130 | the line says "Installing…" |
| Store.ProgressPanel.OnInstallProgress | frontend/store.js:131-137 | a percentage or a non-empty message is shown; an empty message leaves the line unchanged |
| Store.ProgressPanel.OnInstallComplete | frontend/store.js:138-143 | play and library buttons appear, the install button goes |
| Store.ProgressPanel.OnInstallError | frontend/store.js:144-146 | the line reports the failure text |
| Paths.LastDot | frontend/main.js:155 | the index of the last '.', with no '.' after it |
| Paths.BasenameShape | frontend/main.js:71 | a base name holds no '/', and a name without '/' is its own base name |
| Paths.BasenameOfJoin | frontend/main.js:82 | the base name of `dir/name` is `name` |
| Paths.ExtNameShape | frontend/main.js:155 | an extension starts at the base name's last '.', not its first character, and stripping it leaves the rest of the base name |
| Paths.ExtNameOfArchive | frontend/main.js:155 | "game.rar" has extension ".rar" and strips to "game" |
| Paths.ExtNameOfDotfile | frontend/main.js:155 | ".rar" has no extension and strips to itself |
| CoverSearch.ImageNameExamples | frontend/main.js:84 | `.png`/`.jpg`/`.jpeg` match in any case and only at the end of the name |
| CoverSearch.FindCover | frontend/main.js:78-93 | the recursive loop returns the first stop of the pre-order walk: an image path, an error for an unreadable directory, or nothing |
| CoverSearch.StopsEmpty | frontend/main.js:78-93 | the walk stops nowhere exactly when there is no image anywhere and every directory is readable |
| CoverSearch.StopsAreImages | frontend/main.js:84-85 | every image the walk can stop at has an image name |
| CoverSearch.ReadableNeverBlocks | frontend/main.js:79 | in a readable tree the walk only stops at images |
| CoverSearch.FindCoverOutcome | frontend/main.js:78-93 | in a readable tree the search succeeds and is null exactly when there is no image; a found path names an image file |
| InstalledGames.GameDirsMembers | frontend/main.js:99-101 | an entry is listed exactly when it is a directory whose name starts with a word character other than '_' |
| InstalledGames.GameDirsShape | frontend/main.js:100 | the filter only keeps such directories |
| InstalledGames.FilterGameDirs | frontend/main.js:99-101 | the filter loop keeps exactly the game directories, in listing order |
| InstalledGames.ListInstalled | frontend/main.js:96-108 | the handler's list equals the specification: [] without the directory, an error if unreadable, else one entry per kept directory |
| InstalledGames.ListedNames | frontend/main.js:103-107 | a successful list names the kept directories one for one, in order and unsorted, each with its walk's cover |
| InstalledGames.ListedFails | frontend/main.js:103-107 | the list fails exactly when the walk of some kept directory fails |
| InstalledGames.InstalledListCases | frontend/main.js:97-107 | a missing apps directory lists nothing; an unreadable one fails; otherwise names match the kept directories |
| InstalledGames.RunGameLooksAtOnePath | frontend/main.js:111-120 | only `<apps>/<name>/<name>.exe` matters: absent gives "Game executable not found", present launches it via wine on Linux and directly elsewhere |
| Extractor.PercentAtMeans | frontend/main.js:57 | greedy matching of `(\d+)%` at an index succeeds exactly when some digit run there is followed by '%' |
| Extractor.FindPercentFromFirst | frontend/main.js:57 | the scan returns the leftmost index where `(\d+)%` matches, or none exists |
| Extractor.ClassifyPercentIff | frontend/main.js:57-62 | a chunk gives a percentage exactly when some '%' follows a digit, and otherwise the trimmed chunk as message |
| Extractor.ClassifyLeftmostRun | frontend/main.js:57-59 | the percentage comes from a whole digit run, the leftmost one followed by '%' |
| Extractor.PercentChunkExample | frontend/main.js:57-59 | " 45% 3 - game.exe" reports 45 |
| Extractor.MessageChunkExample | frontend/main.js:60-61 | "Everything is Ok\n" reports the message "Everything is Ok" |
| Extractor.ExitEventCases | frontend/main.js:69-75 | only code 0 completes, with the archive's base name; any other code, or null, is an error whose text reads the code back |
| Extractor.ExtractArgsCarry | frontend/main.js:41-50 | the binary is 7z.exe on win32 and 7z elsewhere; the arguments are x, -y, the archive, -o plus the destination, -bsp1 |
| Extractor.ProgressMessagesAt | frontend/main.js:54-63 | one progress message per stdout chunk, in order |
| Extractor.InstallRunShape | frontend/main.js:37-76 | a run spawns 7-Zip first, reports each chunk and ends with exactly one completion or error |
| Acquisition.DownloadGame | frontend/main.js:123-166 | the handler's loop produces exactly the specified trace and creates the archive file on a fresh download |
| Acquisition.ProgressEventsAt | frontend/main.js:138-146 | the k-th progress message carries the bytes of the first k+1 chunks and the announced total |
| Acquisition.ProgressNeverDecreases | frontend/main.js:141-146 | progress messages carry the total, never decrease, and the last one reports every byte |
| Acquisition.CachedArchive | frontend/main.js:124-135 | an existing archive is not fetched: completion first, then extraction into the apps directory itself |
| Acquisition.FailedRequest | frontend/main.js:162-165 | a failed request reports the file name and installs nothing |
| Acquisition.BrokenDownload | frontend/main.js:137-165 | a connection that breaks off after some chunks reports their cumulative progress, then `download-error` with the file name, and nothing completes or installs |
| Acquisition.InstallSteps | frontend/main.js:128-133 | an installation consists of installation steps only, spawning 7-Zip on the archive and destination first |
| Acquisition.CompletionBeforeSteps | frontend/main.js:150-160 | when no installation step precedes the steps, every completion report comes before every installation step |
| Acquisition.StagesSplitTrace | frontend/main.js:123-166 | every trace is a prefix without installation steps followed by installation steps; a download error occurs only for a fresh request that fails or breaks off, and then no completion precedes it |
| Acquisition.CompletionPrecedesInstall | frontend/main.js:123-166 | `download-complete` always precedes every installation step; `download-error` occurs only for a fresh request that fails or breaks off, and then nothing completes or installs |
| Acquisition.FreshDownload | frontend/main.js:137-161 | fetch first, cumulative progress with the content length or 0, completion, then extraction into `<apps>/<filename minus extension>` |
| Acquisition.UnfinishedDownload | frontend/main.js:143-150 | a body that neither finishes nor breaks off leaves only the fetch and the progress messages |
| Acquisition.RetryAfterFailure | frontend/main.js:125-137 | the archive file exists once a fresh download starts, so a retry after a failure takes the cached path without fetching |
| Acquisition.CompletionNamesArchive | frontend/main.js:71 | a successful extraction reports the archive's file name with its extension |
| Acquisition.GameDirOfDownload | frontend/main.js:155 | a store game extracts into its name with whitespace runs as '_'; an empty name gives ".rar" |
| Worker.ListRouteIff | backend/worker.js:5 | the list route is chosen exactly for "/api/games" |
| Worker.GetRouteIff | backend/worker.js:18-20 | the get route is chosen exactly for "/api/games/" plus one or more digits, with their decimal value as id |
| Worker.GetRouteRoundTrip | backend/worker.js:18-20 | every id's decimal path routes back to that id |
| Worker.LeadingZerosRoute | backend/worker.js:18-20 | "/api/games/007" is game 7 |
| Worker.NotFoundRoutes | backend/worker.js:37 | "/api/games/", "/api/games/1a", "/api/games/-1" and "/api/games/7/" are not found |
| Worker.RowsWithIdMembers | backend/worker.js:21-23 | the id query returns exactly the rows with that id |
| Worker.RowsWithIdFirst | backend/worker.js:21-29 | the first row the id query returns is the earliest table row with that id; no earlier row has it |
| Worker.HandleAnswers | backend/worker.js:5-37 | every answer is a header-less 404 "not found" or a 200 with JSON type and open CORS; a get answer is a row with that id and no earlier row of the table has that id; it is missing only when there is none |

## Left out

- Electron window lifecycle and startup directory creation (frontend/main.js:16-34, 169-177): glue with no decisions.
- Real file-system, HTTPS, streaming and process calls are abstract inputs:
  - the directory tree is a datatype;
  - the existing files are a set;
  - a response is a failure before any response, or its content length and chunk lengths followed by the file stream finishing, by nothing (a stalled connection), or by the request's `error` event (a broken connection);
  - a 7-Zip run is its stdout chunks and exit code, or a failure before it starts.
- 7-Zip's stderr is only logged, and is not modelled. A socket error after the response started reaches the request's `error` handler and is modelled. An `error` event on the response stream itself or on the archive's file stream, and a spawn failure reported through an `error` event, have no handler in the code and are not modelled.
- Paths.Join: Node's `path.join` also normalises repeated '/', '.' and '..' segments. The model concatenates with one '/'. So `BinPath` keeps its `../resources/7z` segment, and a game name with '/' or '..' is not resolved.
- Store.UnitScale: the `toFixed(3)` rendering of the byte counts in the chosen unit is floating point, and is not modelled. The status keeps the raw counts and the unit.
- Store.DownloadPercent: computed in exact arithmetic, halves rounded up. In JavaScript the floating-point product `received / total * 100` can fall just below an exact half. Then `Math.round` rounds down where the model rounds up: 23 of 40 bytes gives 57.49999999999999, shown as 57, where the model gives 58; 29 of 200 bytes shows 14 where the model gives 15. Floating point is not modelled.
- The catalogue's `localeCompare` sort on the store page (frontend/store.js:17) is locale-dependent collation. The catalogue is taken in the order given.
- The `ORDER BY name COLLATE NOCASE` and `WHERE id = ?` SQL of the worker. The list query's result is an input, and the id query is a filter over a table.
- Worker.HandleAnswers: the 404 answer's headers are the ones the worker sets, namely none. The default `text/plain` content type added by the `Response` constructor is not modelled.
- Worker.RouteOf: `Number` of a very long digit string loses precision in JavaScript. The model reads the digits exactly.
- Extractor.ClassifyChunk: `parseInt` of a very long digit run loses precision in the same way. Chunks are strings; the byte decoding of `toString()` is not modelled.
- `JSON.stringify`/`res.json()` encoding, the HTTP status line and the request URL parsing are not modelled. The worker takes the pathname.
- Text.Lower: lower-casing is ASCII-only. Non-ASCII letters keep their case, unlike JavaScript's full Unicode `toLowerCase`.
- DOM wiring is not modelled: overlays, images, `setTimeout(card.click)` and the click listeners. The auto-selected card is the index of the card that would be clicked, and a card's display is a `shown` flag.
- frontend/notif.js, frontend/renderer.js and frontend/preload.js are presentation and IPC plumbing, and are not part of this model.
