# organizer — a verified model of the comic library core

The organizer keeps a library of comics (zip archives, rar archives and plain
image directories) and videos, indexes them in a database and serves them to a
web front end. This Dafny project models the core of that system:

- **Comic files** (`ComicFile`, be/comicfile.py). It covers `create`, which picks
  a reader by path kind and suffix. It covers the page list of an archive: its
  image entries, sorted by name, or by number when every stem passes
  `str.isdigit()`, in any script. A digit stem that `int()` cannot read, such as
  a superscript, makes `open` raise. It also covers the two reader classes,
  their `open`/`read`/`close` and their bounds behaviour.
- **Entities** (`Entities`, be/model.py). It covers the file, comic and video
  records with their defaults, `from_path` for each of them, and the recursive
  directory size.
- **The loader** (`Loader`, be/loader.py). It covers `scan` over an `os.walk`
  snapshot, the id counter, and `_to_entity`. It covers cover generation,
  including the skip of encrypted archives. It also covers `work`, which computes
  the new paths, converts them, logs skips, aborts on the first exception and
  otherwise commits, and the single-path `load`.
- **The web handlers** (`Server`, be/main.py). These are the view-history job
  that folds the nginx access log into view-history rows, the comic listing,
  page serving, comic deletion, orphan cleanup and the image listing. The
  database is a `Backend` object whose tables are sequence fields.
- **Maintenance commands** (`Maintenance`, be/cli.py). It covers
  `update_durations`, `remove_invalid_entities`, `remove_invalid_covers` and
  `remove_conflict_names`.
- **File-name tokens** (`FilenameTokens`, fe/src/lib/utility.ts). It covers the
  bracket-aware tokenizer used for search and `includeAllKeywords`.

Shared modules hold the Python and JavaScript behaviour the core relies on:

- `PyText`: `str.lower`, `os.path.splitext`, `pathlib` suffix and name,
  `os.path.join`, `str.split`, `int()` and string ordering.
- `Lists`: filter, map, de-duplication and a stable sort standing in for
  `sorted`.
- `FileTree`: a file-system snapshot and `os.walk` over it.

The file system, archives, the database and external programs are parameters or
fields:

- a `FileTree.Node` snapshot;
- an `Archive` value listing members and their bytes;
- `Backend` sequences for tables;
- functions such as `probe` (ffprobe) and `convert` (the per-path conversion).

Python exceptions are modelled as `Exc` values returned on an error path, never
as preconditions.

## Model

| member | source | states |
|---|---|---|
| ComicFile.CreateDispatch | be/comicfile.py:54-65 | each an if-and-only-if: a directory gives the directory reader; a regular file whose suffix lower-cases to `.zip` or `.rar` gives the zip or rar reader; a missing path or any other suffix gives None |
| ComicFile.CreateZip | be/comicfile_test.py:10-11 | an existing `test.zip` gives the zip reader, and so does `Test.ZIP` (suffix compared after lower-casing) |
| ComicFile.CreateRar | be/comicfile_test.py:12 | an existing `test.rar` gives the rar reader |
| ComicFile.CreateOther | be/comicfile_test.py:13-14 | a directory `test` gives the directory reader, `test.jpg` gives None, and a `test.zip` that does not exist gives None because existence is checked first (be/comicfile.py:56-57) |
| ComicFile.PageOrderMembers | be/comicfile.py:114-122 | the page list is a permutation of the archive's entries whose lower-cased extension is in `allowImgs`; a name is a page exactly when it is such an entry |
| ComicFile.PageOrderLexicographic | be/comicfile.py:115-122 | when some image stem fails `str.isdigit()`, the pages are in Python string order and `open` does not raise |
| ComicFile.PageOrderNumeric | be/comicfile.py:123-132 | when every image stem is decimal digits of any script, the pages are ordered by the stem's integer value, with equal values kept in string order (the sort is stable), and `open` does not raise |
| ComicFile.PageOrderRaises | be/comicfile.py:123-132 | when every image stem passes `isdigit` but one is not decimal, `open` raises the ValueError of `int()` on the first such stem in string order, and the list it leaves is in string order |
| ComicFile.FirstNonInt | be/comicfile.py:131 | the index found is the first name whose stem `int()` cannot read, every name before it being readable, or the length when all are |
| ComicFile.FirstKeyError | be/comicfile.py:131 | the key computation raises exactly when some stem is not decimal, with the ValueError of the first one |
| ComicFile.FullWidthStems | be/comicfile.py:124-131 | full-width digit stems are numeric: full-width 2 and 10 have values 2 and 10, so they sort by value although 10 comes first as a string |
| ComicFile.SuperscriptStem | be/comicfile.py:124-131 | a superscript-two stem passes `isdigit` but not `int()`, whose ValueError message quotes the stem |
| ComicFile.TestNamesOrder | be/comicfile_test.py:19-20 | the test's entry names `0.jpg` and `1.jpg` order without error |
| ComicFile.ArchiveReader.constructor | be/comicfile.py:82-87 | a new reader has no archive handle, no name list, no page count and is not opened |
| ComicFile.ArchiveReader.Open | be/comicfile.py:110-145 | an unreadable archive raises and changes nothing; otherwise the handle is set; the page list is computed only on a first open when the cached list or count is empty, and kept otherwise; when ordering raises, the string-ordered list is stored, the count is kept and the ValueError is returned |
| ComicFile.ArchiveReader.Fetch | be/comicfile.py:99 | a page that is read holds exactly the bytes of the named archive member |
| ComicFile.ArchiveReader.Read | be/comicfile.py:96-99 | before open it raises; `i >= page` gives (False, None); `0 <= i < page` reads entry i; a negative i reads entry `len(list) + i` (Python negative indexing, as only the upper bound is checked), or raises IndexError below minus the list length |
| ComicFile.ArchiveReader.Close | be/comicfile.py:101-104 | the reader is no longer opened and the handle is closed; closing a reader that never opened raises AttributeError |
| ComicFile.ZipRoundTrip | be/comicfile_test.py:16-27 | an archive of n image entries fails to open exactly when ordering its pages raises; otherwise it opens with n pages, and reading page 0 succeeds with the bytes written |
| ComicFile.EntryPath | be/comicfile.py:185 | the path a directory page should be read from: an absolute entry name is kept, and a relative one is the directory followed by the name |
| ComicFile.ReadPathAbsolute | be/comicfile.py:185 | for an absolute comic directory the path as written (the directory joined with the entry's full path) is the intended one |
| ComicFile.ReadPathRelative | be/comicfile.py:185 | for a relative comic directory the path as written repeats the directory, so it differs from the intended one and is longer by at least the directory's length |
| ComicFile.DirectoryReader.constructor | be/comicfile.py:149-154 | a new directory reader has no name list, no page count and is not opened |
| ComicFile.DirectoryReader.Open | be/comicfile.py:156-166 | a second open changes nothing; a first open marks the reader opened and then either raises for a missing directory or keeps the regular files with an image extension (case-sensitive), in listing order, as pages |
| ComicFile.DirectoryReader.Read | be/comicfile.py:182-186 | the same bounds behaviour as the archive reader; an in-range page is the bytes of the file at EntryPath, or FileNotFoundError if there is none |
| ComicFile.DirectoryReader.Close | be/comicfile.py:168-169 | the reader is no longer opened and keeps its page list |
| ComicFile.DirectoryRoundTrip | be/comicfile_test.py:42-52 | a directory of n image files opens with n pages, and page 0 reads the first file's bytes |
| Entities.DirSize | be/model.py:6-13 | the loop returns the total size of all files below the directory |
| Entities.EntryWithinDir | be/model.py:6-13 | no entry of a directory is larger than the directory itself |
| Entities.NewFileEntity | be/model.py:15-26 | a new record has the given id, size, name, path and update time; it is not archived or favourited; it has no last-view time, position 0, cover position 0 and the load-time timestamp |
| Entities.FileFromPath | be/model.py:28-37 | a missing path raises FileNotFoundError; otherwise id 0, the path, its last component as name, the file's size or the directory's recursive size, and its modification time |
| Entities.ComicFromPath | be/model.py:43-47 | fails exactly when FileFromPath fails; otherwise the same record with the given id and page 0 |
| Entities.VideoFromPath | be/model.py:53-57 | fails exactly when FileFromPath fails; otherwise the same record with the given id and duration 0 |
| Entities.ImageFromPath | be/model.py:60-65 | builds a video record, exactly as VideoFromPath does |
| Loader.StepEmitsExactly | be/loader.py:92-102 | a walk step yields its directory exactly when directories are scanned, it has no sub-directory and it holds an image; it yields `root/file` exactly for the files whose extension is scanned |
| Loader.FileHitsExactly | be/loader.py:99-102 | a joined path is yielded exactly for a listed file whose extension is scanned |
| Loader.EmitStep | be/loader.py:93-102 | the loop over one walk step yields what StepEmits specifies |
| Loader.EmitWalk | be/loader.py:92-102 | the loop over a walk yields the steps' outputs in walk order |
| Loader.Scan | be/loader.py:88-104 | the result is the de-duplicated list of everything every scanned path yields |
| Loader.ScanNoDuplicates | be/loader.py:104 | the scan result has no duplicates |
| Loader.ScanExactly | be/loader.py:88-104 | a path is in the scan result exactly when some walk step of some scanned root yields it |
| Loader.ScanTree | be/loader.py:91-92 | with `os.walk` taken on a directory tree, a path is in the scan result exactly when it comes from some directory at or below an existing scanned path: every such directory is visited, and nothing else |
| Loader.CoverNameShape | be/loader.py:160 | a cover name is the decimal id followed by `_0.jpg` |
| Loader.CoverKept | be/loader.py:162 | without overwrite an existing cover is kept: nothing is read or saved and the result is False |
| Loader.CoverMadeExactly | be/loader.py:162-174 | a cover is made exactly when one is attempted, the page read succeeds and the save succeeds |
| Loader.CoverRaisesExactly | be/loader.py:175-181 | cover generation raises exactly when a RuntimeError without the password phrase occurred, and it re-raises that error; every other failure gives False |
| Loader.EncryptedZipSkipped | be/loader.py:175-177 | a password-protected archive is skipped without error |
| Loader.MaxIdIsMax | be/loader.py:113-116 | the starting id is at least every recorded id and equals one of them when the table is not empty |
| Loader.IdsIncrease | be/loader.py:30-33 | issued ids are strictly increasing and above the starting id |
| Loader.ToEntityMade | be/loader.py:141-153 | a path becomes an entity exactly when it exists, the comic opens and the cover step does not raise; the entity is the comic record with the given id and the page count |
| Loader.ToEntityFailed | be/loader.py:141-153 | the conversion fails (propagates) exactly when the path is missing |
| Loader.NoReaderSkipped | be/loader.py:145-151 | an existing regular file whose suffix is neither `.zip` nor `.rar` (such as a file without extension, which the scan lists because `""` is a comic extension) gets no reader from `create`; entering `with None` raises a TypeError and the comic is skipped with that message |
| Loader.OpenArchive | be/loader.py:145-146 | opening an unreadable archive fails, and so does one whose page ordering raises (the comic is then skipped); otherwise the page count is the length of the page list, and the first read is the first page or "no page" |
| Loader.NewPathsExactly | be/loader.py:40-46 | a path is new exactly when it was scanned and is not recorded; new paths have no duplicates |
| Loader.ConverterKeepsIds | be/loader.py:141-153 | a made entity always carries the id it was given |
| Loader.FirstFailureExactly | be/loader.py:59 | no conversion failed exactly when there is no first failure; a first failure is one of the failures |
| Loader.MadeIdsFresh | be/loader.py:55-60 | the made entities have strictly increasing ids in the range issued for this batch |
| Loader.AppendFresh | be/loader.py:62-77 | appending entities with fresh increasing ids to the table keeps ids unique |
| Loader.ComicLoader.constructor | be/loader.py:110-116 | the counter starts at the largest recorded id, or 0 for an empty table |
| Loader.ComicLoader.GetId | be/loader.py:30-33 | returns the counter plus one, advances the counter, and the id is above every recorded id |
| Loader.ComicLoader.ConvertNext | be/loader.py:141-153 | converts one path with the next id and appends the skip message, if any, to the error log |
| Loader.ComicLoader.ConvertEach | be/loader.py:55-59 | converts the paths in order with consecutive ids and logs every skip |
| Loader.ComicLoader.ConvertAndCommit | be/loader.py:55-77 | the first conversion exception aborts and the table is unchanged; otherwise the made entities are appended, and the counter and log advance either way |
| Loader.ComicLoader.Work | be/loader.py:39-62 | returns early if the scan finds nothing or nothing new; otherwise it does what ConvertAndCommit states on the new paths |
| Loader.ComicLoader.Load | be/loader.py:118-127 | a recorded path raises "already exists in db." and changes nothing; otherwise it converts with the next id, and the result is appended, logged as a skip, or its exception is raised |
| Server.LastVisit | be/main.py:449-461 | there is no visit for an id exactly when no parsed line of that resource names it |
| Server.VisitsLast | be/main.py:449-461 | an id is in the aggregated dict exactly when the log has a line for it, and its value comes from the last such line |
| Server.VisitsOnlyResource | be/main.py:458-461 | lines of other resources do not change a resource's dict |
| Server.AggregateLog | be/main.py:442-461 | the loop builds the comic dict (time and page) and the video dict (time) |
| Server.RowIndex | be/main.py:466-470 | finds the first view-history row with this type and id, or -1 when there is none |
| Server.Upsert | be/main.py:466-476 | adds a row only when none exists for the key, and leaves the rows of other keys untouched |
| Server.UpsertRow | be/main.py:466-476 | after an upsert the key's row carries the new time (and position), and every other key's row is unchanged |
| Server.UpsertUnique | be/main.py:466-470 | an upsert keeps at most one row per (type, id), which `one_or_none` relies on |
| Server.UpsertAllRow | be/main.py:462-491 | upserting a whole dict sets each listed key's row from the dict and leaves others unchanged |
| Server.UpsertAllUnique | be/main.py:462-491 | upserting a whole dict keeps keys unique |
| Server.AfterJobRow | be/main.py:462-491 | after the job, a comic row holds the last logged time and page, a video row the last logged time; keys absent from the log are unchanged |
| Server.AfterJobUnique | be/main.py:462-491 | the job keeps view-history keys unique |
| Server.Backend.UpsertEach | be/main.py:464-476 | the loop upserts every key of the dict in order |
| Server.Backend.RecordVisits | be/main.py:462-491 | the history becomes the after-job rows and keys stay unique |
| Server.Backend.ProcessViewHistory | be/main.py:435-493 | a missing or empty log changes nothing and is not truncated; otherwise the history is updated from the log and the log is emptied |
| Server.LikedIds | be/main.py:123-126 | an id is liked exactly when a like of this type names it |
| Server.LastRow | be/main.py:131-133 | the row the id-to-history loop keeps belongs to the id |
| Server.ByIdLast | be/main.py:131-133 | the loop's dict has an id exactly when a row names it, and keeps the last such row |
| Server.LastRowUnique | be/main.py:131-133 | with unique keys the last row is the only row |
| Server.KeywordClash | be/main.py:138-143 | building a response raises TypeError exactly when an explicit keyword is also a field of the comic's dict, and names that keyword |
| Server.ResponseAsWritten | be/main.py:139-143 | the response as written passes `lastViewedTime` twice, so it raises TypeError |
| Server.Backend.GetComics | be/main.py:112-148 | one response per comic, in table order: the comic itself, liked exactly when a comic like names it, and position and time from its last history row (0 and None when it has none) |
| Server.OrphansExactly | be/main.py:91-109 | a comic is an orphan exactly when its path is missing and it is not liked |
| Server.Backend.CleanComicEntity | be/main.py:91-109 | returns the orphans in table order |
| Server.Stats | be/main.py:424-427 | a successful stat of n names gives n images |
| Server.StatsFail | be/main.py:424-427 | stating succeeds exactly when every joined path exists |
| Server.StatsEach | be/main.py:425-427 | image i has name i, the joined path and that file's modification time |
| Server.Backend.StatImages | be/main.py:423-427 | the loop fails with FileNotFoundError exactly when some stat fails, and otherwise returns the stats |
| Server.PathDescendingTotalPreorder | be/main.py:428 | sorting by path in reverse is a total preorder |
| Server.Numbered | be/main.py:429-432 | numbering keeps the images in order and gives entry i the id i and size 0 |
| Server.Backend.GetImages | be/main.py:417-432 | fails exactly when a top-level file cannot be stated; otherwise it returns a permutation of those files, in descending path order, each numbered by its position with size 0 |
| Server.ComicIndex | be/main.py:249-252 | finds a comic with the requested id, or -1 exactly when there is none |
| Server.Backend.GetComicPage | be/main.py:280-325 | an unknown id gives 404 and leaves the cache alone; otherwise the reader is cached; page p in 1..n serves entry p-1; p > n gives 404; page 0 serves the last entry of the list (or raises for an empty list) |
| Server.Backend.GetComicPageFrom1 | be/main.py:280-325 | as GetComicPage, but page 0 gives 404 |
| Server.Backend.GetDirComicPage | be/main.py:280-325 | for a directory comic: an unknown id gives 404; otherwise the reader is cached; page p in 1..n serves the file of entry p-1, page 0 that of the last entry, a missing file raises FileNotFoundError (500); p > n gives 404 |
| Server.DirPageReply | be/comicfile.py:182-186 | a directory page is served exactly when its file exists, with that file's bytes; otherwise the reply is FileNotFoundError |
| Server.Backend.RemoveIfExists | be/main.py:264-272 | removing a directory raises IsADirectoryError and keeps the files; otherwise the path is no longer among the files |
| Server.ArchivedKeepsIds | be/model.py:16 | archiving a comic keeps comic ids unique |
| Server.RemovedKeepsIds | be/model.py:16 | deleting a comic keeps comic ids unique |
| Server.ArchiveNotAField | be/main.py:263 | `archive` is not a comic field while `archived` is (be/model.py:21) |
| Server.Backend.DeleteComic | be/main.py:246-277 | an unknown id gives 404 and changes nothing; otherwise the reader is evicted from the cache; without `permenant` the comic is archived, and with it the comic row is deleted after its cover file is removed; then the comic file is removed, with a failure reported as a JSON error and nothing committed |
| Server.Backend.DeleteComicAsWritten | be/main.py:260-263 | with the default `permenant`, setting `archive` raises, so nothing is archived and no file is removed |
| Maintenance.UpdateDurations | be/cli.py:18-41 | every video whose duration is 0 gets the probed duration, or 0 when probing fails, in query order; each record updated is one from the table whose duration was 0 |
| Maintenance.ZipUnlessMap | be/cli.py:92-93 | keeping the items whose flag is false is the filter on the negated predicate |
| Maintenance.SelectionAsWritten | be/cli.py:82 | the query as written selects no comic, while a query on `archived` being false selects every non-archived comic |
| Maintenance.RemoveInvalidEntities | be/cli.py:79-107 | the listed comics are exactly those whose path is missing; with confirmation exactly the others remain, and without it the table is unchanged |
| Maintenance.CoverOfId | be/cli.py:121-127 | a cover name made of an id and a `_` suffix is kept exactly when the id is recorded |
| Maintenance.LoaderCoverKept | be/cli.py:121-127 | a cover named by the loader is kept exactly when its comic's id is recorded (be/loader.py:160) |
| Maintenance.StaleCovers | be/cli.py:110-130 | a cover is listed for removal exactly when its prefix before `_` parses as an integer that is not a recorded id; a name that does not parse is kept |
| Maintenance.ConflictNames | be/cli.py:141-155 | a name is reported exactly when two or more comics have it |
| FilenameTokens.CloserNotOpener | fe/src/lib/utility.ts:1-8 | every closing bracket differs from its opener and is not an opener itself |
| FilenameTokens.TrimIdempotent | fe/src/lib/utility.ts:19 | a trimmed string has no JavaScript white space at either end, and trimming it again changes nothing |
| FilenameTokens.SeparateFilenameImpl | fe/src/lib/utility.ts:13-37 | the loop returns the tokens of the name |
| FilenameTokens.TokensTrimmed | fe/src/lib/utility.ts:19-36 | every token is non-empty and trimmed |
| FilenameTokens.NoBrackets | fe/src/lib/utility.ts:16-36 | a name without an opening bracket gives its trimmed self as the only token, or none if it is blank |
| FilenameTokens.UnclosedBracket | fe/src/lib/utility.ts:22-26 | an opening bracket never closed after it gives no tokens at all |
| FilenameTokens.FirstGroup | fe/src/lib/utility.ts:17-28 | the first bracket group ends at the first matching closer; the text before it and the group's text are tokens, followed by the tokens of the rest |
| FilenameTokens.SeparateFilenameParts | fe/src/lib/utility.ts:9-12 | a token of the name is exactly a token of one of its backslash-separated parts |
| FilenameTokens.OnePart | fe/src/lib/utility.ts:9-12 | a name without a backslash has the tokens of its single part |
| FilenameTokens.LeadingGroup | fe/src/lib/utility.ts:9-36 | a name without a backslash that opens with a bracket group whose text is already trimmed gives that text as its first token, followed by the tokens after the group |
| FilenameTokens.ExampleSimple | fe/src/index.test.ts:6 | `[a]b(c)` gives `a`, `b`, `c` |
| FilenameTokens.ExampleSpace | fe/src/index.test.ts:7 | `[a] b(c)` gives `a`, `b`, `c` |
| FilenameTokens.ExampleTrailingSpace | fe/src/index.test.ts:8 | `[a]b(c )` gives `a`, `b`, `c` |
| FilenameTokens.ExampleNested | fe/src/index.test.ts:11 | `[a(b)]c` gives `a(b)` and `c`: an inner bracket stays inside the group |
| FilenameTokens.IncludeAllKeywordsExactly | fe/src/lib/utility.ts:38-40 | true exactly when every keyword occurs in the source |
| PyText.Lower | be/comicfile.py:61 | lower-casing keeps the length and lower-cases each character |
| PyText.StemExt | be/comicfile.py:127 | stem and extension put back together give the path, and the extension is empty or starts with a dot |
| PyText.SplitExtPlain | be/loader.py:93 | a plain name `stem.ext` splits into that stem and extension |
| PyText.SuffixPlain | be/comicfile.py:61 | a plain name `stem.ext` has that name and suffix |
| PyText.SplitJoin | be/cli.py:124 | joining the pieces of a split with the separator gives back the string |
| PyText.ParseIntToString | be/cli.py:124 | `int()` of a decimal rendering of an id gives the id back |
| PyText.DecimalDigit | be/comicfile.py:131 | every decimal digit, whatever its script, has a value below ten |
| PyText.LexLeTotal | be/comicfile.py:116 | any two strings are ordered one way or the other |
| PyText.LexLeTrans | be/comicfile.py:116 | string order is transitive |
| PyText.LexLeAntisym | be/comicfile.py:116 | strings ordered both ways are equal |
| Lists.Dedup | be/loader.py:104 | the result has no duplicates and holds exactly the input's elements |
| Lists.InsertionSort | be/comicfile.py:116 | sorting is a permutation of its input |
| Lists.SortSorted | be/comicfile.py:116 | the result is sorted by any total preorder |
| Lists.SortStable | be/comicfile.py:130-132 | elements that compare equal keep their previous order |
| FileTree.WalkStartsAtTop | be/main.py:421-422 | the first step of a walk lists the top directory's own sub-directories and files |
| FileTree.WalkVisitsEachDir | be/loader.py:92 | a walk has exactly one step per directory of the tree |
| FileTree.WalkReachesEachDir | be/loader.py:92 | every directory reachable from the top through subdirectory entries is walked, with its own subdirectory and file names |
| FileTree.WalkStepsAreDirs | be/loader.py:92 | every step of a walk is the listing of a directory reachable from the top |

## Left out

- The thread pools (`ThreadPool.map` in be/loader.py:59 and be/cli.py:35, 92, 129) run sequentially in the model. The results keep input order, as `map` promises; concurrency and the lock around the id counter are not modelled.
- `list(set(...))` in be/loader.py:46 and 104 has no defined order in Python. The model uses first-occurrence order, so only membership and the absence of duplicates are meant.
- Loader.ComicLoader.Work: converting the new paths in the order of that list means which path receives which id is one choice among those Python may make.
- The TTL cache `create_open` (be/comicfile.py:68-78) is not modelled. The handlers' reader cache is a set of comic ids, and closing an evicted reader is not modelled.
- Server.Backend.GetComicPage: the reader is passed in already opened or not. Creating and opening it on a cache miss, and the HTTP response headers, are not modelled.
- Server.Backend.GetDirComicPage: the reader is passed in the same way. It reads the corrected path, `ComicFile.EntryPath`. As written, the handler reads the doubled path of the first row under "## Findings". For a comic under a relative scan root, that path names another file (`ComicFile.ReadPathRelative`), so a page whose doubled path does not exist raises FileNotFoundError, a 500.
- Log parsing with a regular expression and `strptime` (be/main.py:448-457) is a parameter: each line arrives already parsed or as None. Times are integers. A line that matches the expression but whose time `strptime` rejects raises inside the job before any row is upserted, and the log is then not truncated. The model has no such outcome.
- The timer that reschedules the view-history job every 300 seconds (be/main.py:436-438) is not modelled.
- Server.Backend.ProcessViewHistory: `one_or_none` raising on duplicate rows is excluded by the invariant that view-history keys are unique, which the job is proved to keep.
- The definitions of ViewHistoryEntity, LikeEntity and ComicResponse are not part of this model. Their fields are taken from how be/main.py uses them.
- Image decoding, thumbnailing and JPEG saving with PIL (be/loader.py:170-173) are not modelled. Reading the page and saving the cover are parameters, and their errors are modelled.
- ffprobe (`VideoLoader.get_video_length`) is the `probe` parameter of Maintenance.UpdateDurations. The VideoLoader class and the other loaders are outside this model.
- Maintenance.StaleCovers: the loop that removes each stale cover with `os.remove` after confirmation (be/cli.py:133-137) is not modelled. The model returns the list of covers to remove.
- Printing, rich progress bars, the console and click prompts are left out. The confirmation is a boolean parameter.
- Server.Backend.CleanComicEntity returns the comics it would delete. The source's session is never committed (be/main.py:108-109), so the table is unchanged.
- PyText.ParseInt accepts decimal digits of any script, surrounding white space and a sign. It does not accept the `_` digit grouping that Python's `int()` also accepts.
- PyText.IsDigits and PyText.IsDecimals follow the digit tables of Unicode 15.0, the version Python 3.12 carries. Another Python version may classify a few newer characters differently.
- ComicFile.ReadMember: a closed rar handle still reads, because the rarfile library keeps nothing open between reads. That behaviour, and the exact messages of both libraries, are taken from zipfile and rarfile, which are not part of this model.
- PyText.Lower lower-cases ASCII letters only.
- Entities.FileFromPath: `os.stat(...).st_mtime` is a float of seconds in Python. The model keeps the modification time as the tree's integer, so sub-second parts are not modelled.
- Loader.NoReaderSkipped: the message is the one Python 3.11 and later give for `with None`. Earlier versions raise AttributeError `__enter__` instead; the comic is skipped either way.
- `str(pathlib.Path(p))` is taken to be `p`. Path normalisation is not modelled.
- The `entityUpdateTime` default, `datetime.now()` evaluated once at import (be/model.py:26), is the `loadedAt` parameter.
- The database session's transaction behaviour beyond commit or no commit is not modelled.
- The rest of be/main.py, be/loader.py and be/cli.py is not part of this model: the other handlers, likes, videos and tags; `gen_covers` and `override_cover` in be/cli.py; and the CLI `load` command in be/cli.py, a wrapper around `ComicLoader.load`.

## Findings

| source | as written | input that shows it | evidently intended | confidence | as-written member | corrected member |
|---|---|---|---|---|---|---|
| be/comicfile.py:185 | joins the comic directory with the `DirEntry`, whose path already starts with that directory | comic directory `comics/x` with entry `1.jpg`: the file opened is `comics/x/comics/x/1.jpg` | open `comics/x/1.jpg` | medium (not executed) | ComicFile.ReadPathRelative | ComicFile.DirectoryReader.Read |
| be/main.py:316 | reads page `page - 1` with no lower bound | GET page 0 of a comic with 3 pages reads index -1 and serves the last page | page 0 is 404, like a page past the end | high (not executed) | Server.Backend.GetComicPage | Server.Backend.GetComicPageFrom1 |
| be/main.py:263 | sets `comic.archive`, which is not a field | DELETE without `permenant` on an existing comic | set `archived` | medium (not executed) | Server.Backend.DeleteComicAsWritten | Server.Backend.DeleteComic |
| be/main.py:139-143 | passes `lastViewedTime` both in `comic.dict()` and as a keyword | GET /api/comics with one comic in the table | give the keyword's value precedence | medium (not executed) | Server.ResponseAsWritten | Server.Backend.GetComics |
| be/cli.py:82 | filters on `not ComicEntity.archived`, a Python boolean that is False | any table with a non-archived comic whose file is missing: it is never listed | select comics with `archived` false | medium (not executed) | Maintenance.SelectionAsWritten | Maintenance.RemoveInvalidEntities |
