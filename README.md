# ponysticker-server, modelled in Dafny

ponysticker-server mirrors LINE sticker packages and serves them over HTTP.
Its commands are:

- `update` walks a range of package ids. For each id that is not stored yet, it downloads the package archive, unpacks it into a directory per package and inserts the package into a SQLite database. Images are converted from PNG to JPEG, and the metadata is reshaped.
- `create` turns a directory of hand-made images into a custom package. It renumbers the images to descending sticker ids, makes the two tab images, writes the metadata file and inserts the package.
- `insert` indexes a package that is already on disk.
- `run` serves four endpoints: `/meta`, `/sticker`, `/pkg-count` and `/pkg-list`.

The database has three partitions, `official`, `creator` and `custom`, chosen by the package id. Each partition is a catalog table (id, raw metadata text, insertion date) beside a full-text table. The full-text table holds the package id beside the title and author normalised by the query tokenizer (letters stemmed and cut into trigrams, CJK characters and digits kept verbatim); a MATCH searches all three columns. A summary table keeps one row count per partition.

The model has these modules, each following one source file:

- `Tokenizer`: `transform_query.go`.
- `Catalog`: the store as a class, for `insert.go` and `update_count.go`.
- `Ingest`: `update.go`.
- `Metadata`: the metadata records and `changeMeta`.
- `Query`: the handlers of `run.go`.
- `Authoring`: `create.go`.
- `FileSystem`: the sticker directory as a class `Disk`.

`Text` and `Sorting` model the pieces of Go's standard library the code relies on: `strings.Join`, `strings.Replace`, the word scanner, `filepath.Ext`, `fmt.Sprint`, `strconv.Atoi` and string order. `Library` gathers the libraries the model does not open into one record of functions, `Externals`, passed as a parameter. These are the PNG codec, JSON, the Porter stemmer, base64, FTS matching and Go's map iteration order.

The loops of the source are methods with loop invariants, proved against specification functions. The properties the code promises are lemmas about those functions. Examples are the all-or-nothing insert, the partition router with its hole at 999999, the retry budget of the download, and lanes that keep digits and CJK characters in input order. Further examples are pages that tile the ordered result, and a created package whose every sticker id names its own image.

## Model

| member | source | states |
|---|---|---|
| Tokenizer.IsCJK | transform_query.go:58-98 | a CJK, kana or Hangul code point is never an ASCII letter, a digit or a space, so the classes are disjoint |
| Tokenizer.Trigrams | transform_query.go:46-49 | a text of length n >= 3 has n-2 windows, the k-th being text[k..k+3]; shorter texts have none |
| Tokenizer.ToTrigram | transform_query.go:41-51 | the loop returns the shingling of its input |
| Tokenizer.ShinglePieces | transform_query.go:42-50 | a word shorter than 4 is returned unchanged; a longer word of length n becomes n-2 space-separated pieces, piece k being text[k..k+3], neighbours overlapping by two characters |
| Tokenizer.FillLanes | transform_query.go:15-27 | the first loop produces exactly the letter, digit and ideograph lanes of the query |
| Tokenizer.LanesPartitionInput | transform_query.go:15-27 | each lane has one slot per code point; slot i holds the character in the first class it belongs to (letter, then digit, then CJK), and a space in the other lanes |
| Tokenizer.StemWords | transform_query.go:29-35 | the second loop stems each scanned word and shingles it, in order |
| Tokenizer.TransformQueryText | transform_query.go:11-39 | the function returns the join with " " of the shingled words, every ideograph slot and the digit lane |
| Tokenizer.AlphaLaneRuns | transform_query.go:15-35 | the letter lane has as many runs of non-spaces as the input has maximal runs of ASCII letters |
| Tokenizer.StemmerInput | transform_query.go:29-35 | exactly one word reaches the stemmer per maximal run of ASCII letters, and each word is made of ASCII letters only |
| Tokenizer.TokenCount | transform_query.go:31-38 | the output has one part per stemmed word, one per code point of the input, and one for the digit lane |
| Tokenizer.NormalizeEndsWithDigitLane | transform_query.go:37-38 | the output ends with the whole digit lane, spaces included, so separate digit runs stay separate |
| Tokenizer.DigitLaneKeepsDigits | transform_query.go:19-26 | without its spaces, the digit lane is the input's digits in input order |
| Tokenizer.IdeographLaneKeepsIdeographs | transform_query.go:19-26 | the filled ideograph slots are the input's CJK characters, one token each, in input order |
| TokenizerExamples.RunningPonies | transform_query.go:11-39 | with a stemmer mapping "Running" to "run" and "ponies" to "poni", "Running ponies" begins "run pon oni " |
| TokenizerExamples.KanjiAndDigit | transform_query.go:11-39 | "魔法1" normalises to "魔 法     1": ideographs verbatim, then the blank ideograph slot, then the digit lane |
| Text.ScanWords | transform_query.go:29-35 | the word-scanner loop yields the space-free non-empty pieces of its input |
| Text.WordsSnoc | transform_query.go:29-35 | one more character adds a word exactly when it is no space and starts the text or follows a space |
| Text.WordsCountRuns | transform_query.go:29-35 | the scanner yields one word per maximal run of non-space characters |
| Text.SplitJoin | transform_query.go:38 | splitting a join on its separator gives back the parts when no part holds the separator |
| Text.ReplaceAllKeepsOthers | run.go:90 | deleting every occurrence of a pattern never removes a character outside the pattern |
| Text.ReplaceAllAfterChar | update.go:154 | a name containing ".png" contains ".jpg" once every "png" is replaced by "jpg" |
| Text.ContainsIff | update.go:138 | the unanchored pattern matches exactly when the text occurs at some position |
| Text.ExtSnoc | create.go:49 | appending a character to a path: '/' clears the extension, '.' starts a new one, any other character extends an existing one |
| Text.ExtOfSuffix | create.go:49 | a name ending in an extension (a '.' with no later '.' or '/') has exactly that extension |
| Text.ParseInt | run.go:49-53 | what Atoi accepts is a sign or digit first and a value within 64 bits |
| Text.ParseIntCharacters | run.go:83 | Atoi accepts only ASCII digits and signs |
| Text.ParseIntOfIntToString | run.go:49 | Atoi reads back every 64-bit integer that Sprint prints |
| Text.IntToStringInjective | create.go:74 | no two integers are printed the same way |
| Text.IntToStringSign | create.go:74 | a printed integer starts with '-' exactly when it is negative |
| Text.LexLessTotal | create.go:41 | two different names are ordered one way or the other by Go's string order |
| Sorting.SortSet | run.go:222 | the elements of a set, each once, in increasing order of a strict total order |
| Sorting.SortedUnique | run.go:222 | two sorted listings of the same elements under a strict total order are equal |
| Metadata.FlattenStickers | update.go:193-196 | the loop yields one id per sticker object, the i-th being its "id" value, or 0 when absent |
| Metadata.ChangeMeta | update.go:176-202 | fails exactly when the input does not decode; otherwise returns the encoding of the reshaped record |
| Metadata.ReshapedEmbedded | update.go:189-196 | reshaping undoes wrapping each id in an {"id": ...} object, so a stored record survives the round trip |
| Metadata.ReshapedDependsOnIdsOnly | update.go:189-196 | id, title and author are copied; of the sticker objects only their ids matter |
| Metadata.ConcatValues | insert.go:42-61 | the buffer loop writes the map's values in the iteration order given |
| Metadata.ConcatenationOfSingleEntry | insert.go:42-61 | a one-entry map's buffer holds exactly that entry's value, whatever the iteration order |
| Metadata.ConcatenationHoldsValue | insert.go:42-61 | every value of the map appears in the buffer, after the values of the keys before it |
| FileSystem.Disk.ReadFile | insert.go:20-32 | a file is read exactly when its directory and the file exist, giving its contents |
| FileSystem.Disk.MkdirAll | update.go:132-136 | the package directory exists afterwards and keeps the files it had |
| FileSystem.Disk.WriteFile | update.go:163-171 | a write succeeds exactly when the directory exists and the name holds no '/'; it then replaces the named file and changes nothing else, and on failure nothing changes |
| FileSystem.Disk.Rename | create.go:54 | a rename fails exactly when the source is missing; it replaces the target |
| FileSystem.Disk.Remove | create.go:109 | removal fails exactly when the file is missing; it deletes only that file |
| FileSystem.Disk.ReadDir | create.go:41-45 | the listing is None exactly for a missing directory; otherwise every file once, in increasing name order |
| FileSystem.Renamed | create.go:54 | after a rename the target holds the source's contents, the source is gone, and every other file is unchanged |
| FileSystem.ListingUnique | create.go:64 | a directory has one listing, so ReadDir is deterministic |
| FileSystem.ListingExists | create.go:41 | every directory has a listing |
| Catalog.CheckRepo | insert.go:102-112 | custom exactly for ids below 0, official for 0 to 999998, creator from 1000000, and no partition exactly for 999999 |
| Catalog.ParseRepo | run.go:55-59 | the repo parameter is accepted exactly when it is one of the three table names, as that partition |
| Catalog.ParseRepoOfTableName | run.go:138-142 | every partition name passes the allow-list |
| Catalog.ParseOrder | run.go:193-197 | the order parameter is accepted exactly when it is "packageId" or "date" |
| Catalog.AddedKeepsConsistent | insert.go:79-84 | adding a new id with its own full-text row keeps exactly one full-text row per catalog row |
| Catalog.InsertSucceedsIff | insert.go:19-99 | insert stores a row exactly when the file reads and decodes, BEGIN succeeds, the id has a partition and is new there, and the statements and the commit succeed |
| Catalog.InsertAllOrNothing | insert.go:79-99 | a failed insert leaves every table as it was; a successful one adds the id to its own partition only, with the raw file text, the date and its full-text row |
| Catalog.InsertNeverOverwrites | insert.go:79-83 | no insert changes a row already stored, in any partition (packageId is the primary key) |
| Catalog.NoInsertFor999999 | insert.go:72-76 | for id 999999, insert reports the first failing step and changes no table |
| Catalog.InsertKeepsConsistent | insert.go:79-99 | consistent partitions stay consistent across any insert |
| Catalog.IndexEntryOfSingleEntries | insert.go:42-64 | with single-entry title and author maps, the full-text row holds the normalisation of those two values |
| Catalog.RefreshedCounts | update_count.go:3-23 | after a refresh, each partition whose count and update succeeded holds its row count; every other entry keeps its old value, and the UPDATE adds no entry |
| Catalog.RowBeforeIsStrictTotalOrder | run.go:222 | ORDER BY the sort key, ties broken by packageId, is a strict total order on the ids |
| Catalog.MatchedIdsInCatalog | run.go:151-155 | on a consistent partition every full-text match has a catalog row, so the count never exceeds the catalog |
| Catalog.StickerStore.constructor | main.go:80-116 | a new database has three empty partitions and a zero count for each |
| Catalog.StickerStore.Insert | insert.go:19-99 | the method's effect on the tables is the insert effect of the package's metadata file; the summary is untouched and consistency is kept |
| Catalog.StickerStore.Lookup | update.go:64-69 | a row is found exactly when the query runs and the partition holds the id; no rows exactly when it does not; the found row's meta is the stored text |
| Catalog.StickerStore.UpdateRepoCount | update_count.go:9-23 | the partition's summary entry becomes its row count when both statements succeed and the entry exists; the UPDATE adds no entry, nothing else changes, and nothing at all on failure |
| Catalog.StickerStore.UpdateAllCount | update_count.go:3-7 | official, creator and custom are refreshed in that order; the tables are only read |
| Catalog.StickerStore.OrderedIds | run.go:220-224 | the ids, each once, in ORDER BY order |
| Ingest.FirstReplyIsEarliest | update.go:83-98 | a download fails exactly when all six attempts fail; otherwise it returns the earliest reply |
| Ingest.SixthAttemptSucceeds | update.go:84-97 | five transport errors followed by a reply is a successful download of that reply |
| Ingest.Download | update.go:83-98 | between 1 and 6 attempts; it stops at the first reply, every earlier attempt failed, and a failure means all six failed |
| Ingest.ConvertedImageName | update.go:152-154 | an entry whose name contains ".png" is stored under a name containing ".jpg" |
| Ingest.WritableIff | update.go:150-166 | an entry is written exactly when its name holds no '/' and its contents decode: as a PNG image when the name contains ".png", as metadata otherwise |
| Ingest.UnpackedOkIff | update.go:143-172 | unpacking succeeds exactly when every entry converts and its target name holds no '/' |
| Ingest.UnpackedWrites | update.go:143-172 | unpacking only adds or replaces files; files no entry targets keep their contents; on success every entry's target is present |
| Ingest.Unzip | update.go:114-174 | an unreadable archive changes nothing; otherwise the directory is created and holds the entries unpacked in archive order, stopping at the first entry that does not convert or whose name reaches into a sub-directory |
| Ingest.UnzippedOkIff | update.go:114-174 | unzip succeeds exactly when the archive opens and every entry can be written, whatever the disk holds |
| Ingest.IngestedDirsElsewhere | update.go:204-224 | downlodAndInsert changes no directory but the package's own, and that one only when a reply below 400 came with an archive |
| Ingest.DownloadAndInsert | update.go:204-224 | the first reply decides the stage: none is DownloadFailed, a status of 400 or more is NotFound, otherwise unzip runs and its success decides between UnzipFailed and Stored; the directories change only by unzip's effect; insert runs only after a successful unzip, with the insert effect on the tables |
| Ingest.Worker | update.go:59-81 | an existing row means skip, no row means download and insert with the stage and directories of downlodAndInsert, and a failed lookup is only logged and changes nothing; the report ties UnzipFailed and Stored to the archive; no stored row changes, and a partition gains a package only as the worker's own id, exactly when it reports the package inserted there |
| Ingest.InsertEffectExtends | insert.go:79-99 | every stored row survives any insert, unchanged; the only row an insert adds is its own id's, in the partition its outcome names |
| Ingest.InsertsOfStep | update.go:52-55 | after one more worker, the partitions still gain exactly the packages the log reports inserted, and no earlier worker stored the next id |
| Ingest.UnzipsElsewhere | update.go:41-57 | a directory that no worker unzipped into is left as it was by the whole run |
| Ingest.UnzipsAt | update.go:41-57 | after the run, the directory of each id whose worker got a reply below 400 is what unzipping that reply into the original directory gives, untouched by the other workers |
| Ingest.InsertOutcomeDependsOnIdOnly | insert.go:79-99 | insert's outcome depends on the tables only through whether they already hold the id |
| Ingest.UnzippedDependsOnOwnDir | update.go:132-172 | the files unzip leaves in a package directory depend only on what that directory held |
| Ingest.UnzipsBeforeNext | update.go:52-55 | no earlier worker touched the directory of the id handed out next |
| Ingest.Update | update.go:41-57 | every id of [begin, end) is processed once, in increasing order; an id is skipped exactly when it was stored before the run and its lookup succeeds, its lookup fails exactly when the query fails or no partition covers it (always for 999999), and otherwise it is downloaded, with the stage its first reply and its archive decide; a Stored id carries the outcome of inserting the metadata file its unzip leaves into the tables as they were before the run; no stored row is changed, the partitions gain exactly the packages the log reports inserted, and the disk is what the logged unzips leave |
| Query.MetaHandler | run.go:46-77 | 400 exactly for a non-integer pkg or an unknown repo; 200 with the stored text exactly when the row exists; 404 exactly when it does not; 500 otherwise |
| Query.MetaServesInserted | run.go:46-77 | a package just inserted is served back by /meta under its printed id and partition name, with the file's exact text |
| Query.StickerHandler | run.go:79-134 | 400 exactly for a non-integer pkg or an invalid sticker name; 404 exactly when <pkg>/<sticker>.jpg is missing; 200 with the image, or its base64 form when base64=1; a failed copy panics |
| Query.DeletedThenParsed | run.go:88-94 | a sticker name valid once "_key" is deleted has no character besides digits, signs and the pattern's own |
| Query.StickerPathConfined | run.go:82-98 | an accepted pkg and sticker hold no '/' or '.', so the served file is a .jpg directly inside the package directory |
| Query.StickerIdIsValidName | run.go:88-94 | every printed 64-bit sticker id is an accepted sticker name |
| Query.Selected | run.go:147-156 | an empty q selects the whole partition; otherwise a subset of the catalog, matched on the whole full-text row including the package id |
| Query.SelectedMatches | run.go:151-155 | on a consistent partition a non-empty q selects exactly the full-text matches of transformQueryText(q) |
| Query.PkgCountHandler | run.go:136-170 | 400 exactly for an unknown repo; 200 exactly when the query runs, with the number of selected packages |
| Query.CountAgreesWithSummary | run.go:147-148 | without q, /pkg-count reports the count that updateRepoCount stores |
| Query.ParseListRequest | run.go:175-197 | page, size, repo and order are checked in that order, and the first failure's message is reported; otherwise the request carries the parsed values and q |
| Query.Wrap64 | run.go:224 | Go's int arithmetic wraps into the signed 64-bit range, agreeing modulo 2^64 and leaving in-range values alone |
| Query.OffsetOfPage | run.go:224 | when (page-1)*size fits in 64 bits, the offset is that product and is never negative |
| Query.OffsetWrapsAround | run.go:224 | page 2^62+1 with size 4 wraps the offset to 0 |
| Query.Window | run.go:222-224 | LIMIT and OFFSET select min(limit, rows past the offset) consecutive rows from the offset; a negative limit means all, a negative offset means 0 |
| Query.WindowSlice | run.go:255-257 | with non-negative limit and offset the window is the slice from the offset, clipped to the end |
| Query.PrefixThenWindow | run.go:255-257 | the rows before an offset followed by the LIMIT window there are the rows before the window's end |
| Query.PagesTile | run.go:255-257 | pages 1..n read in turn give the first n*size rows, each once and in order |
| Query.RowOnItsPage | run.go:255-257 | row i is served by the page whose range holds it, at its place within the page |
| Query.JsonArray | run.go:243 | the body is bracketed; no metas give "[]" and one meta gives "[meta]" |
| Query.OrderedUnique | run.go:222 | ORDER BY with the packageId tie-break leaves exactly one ordering |
| Query.ScanMetas | run.go:263-270 | the scan loop collects each row's meta text in row order |
| Query.RespondWithPage | run.go:230-246 | the response is the JSON array of the window of the ordered selection, 500 on a failed commit, a panic on a size that is negative or above the largest slice capacity make accepts |
| Query.ListPackage | run.go:249-279 | the listing of the whole partition, as described by the listing relation |
| Query.QueryPackage | run.go:213-247 | the listing of the packages matching transformQueryText(q), as described by the listing relation |
| Query.PkgHandler | run.go:172-211 | a rejected request is a 400 with the first failure's message; an accepted one is listed or searched, panicking on a size make cannot allocate |
| Query.NegativeSizeAborts | run.go:230 | size=-1 passes every check and the handler panics instead of answering |
| Query.OversizedSizeAborts | run.go:230 | any int64 size above 2^44 passes every check and the handler panics instead of answering |
| Query.PkgHandlerCheckingSize | run.go:181-185 | the corrected handler always answers: a negative size or one above 2^44 is a 400, and otherwise it behaves as pkgHandler |
| Query.CountMatchesFirstPage | run.go:255-257 | when the count is n, the first page of any size from n up to the largest capacity make accepts lists exactly those n packages in order |
| Authoring.ImageNameShape | create.go:53 | a sticker file name has the extension ".jpg" and starts with a digit or '-' |
| Authoring.ImageNameFlat | create.go:53 | a sticker file name holds no '/', so writing it stays in the package directory |
| Authoring.ImageNameInjective | create.go:74 | different sticker ids have different file names |
| Authoring.ScratchRenumber | create.go:47-61 | the first loop as written: each .jpg in listing order is renamed to k.jpg on the live directory, stopping at a missing source |
| Authoring.FinalRenumber | create.go:63-116 | the second loop as written: each .jpg or .png in listing order becomes (begin-k).jpg, a .png converted and removed |
| Authoring.ScratchPassOverwrites | create.go:47-61 | on 0.jpg, 1.jpg, 10.jpg, 2.jpg the first loop renames 10.jpg onto 2.jpg before 2.jpg is moved, and one image is lost |
| Authoring.FinalPassOverwrites | create.go:63-116 | with begin=1, on 0.jpg and 1.jpg the second loop renames 0.jpg onto 1.jpg, and one image is lost |
| Authoring.Images | create.go:69-81 | the renumbered files are exactly the .jpg and .png files of the listing, in listing order |
| Authoring.ImagesSorted | create.go:64 | the images of a sorted listing are sorted |
| Authoring.ListedImages | create.go:64-69 | each listed image is a file of the directory, listed once |
| Authoring.ConvertAll | create.go:81-94 | conversion succeeds exactly when every PNG decodes, giving each image's JPEG in order |
| Authoring.TargetsDistinct | create.go:74-83 | stickers of one package have distinct file names |
| Authoring.PlacedHolds | create.go:74-83 | each sticker file holds its own image; no later write lands on an earlier sticker's name |
| Authoring.PlacedElsewhere | create.go:74-83 | a name that is no sticker's keeps its contents |
| Authoring.PlacedOnly | create.go:74-83 | placement adds only sticker files |
| Authoring.StagedKeepsEveryImage | create.go:63-116 | after renumbering, the k-th image is under sticker begin-k, every non-image is untouched, and nothing else is present |
| Authoring.BeginImageIffImages | create.go:118-123 | the first sticker's file exists exactly when there was an image, holding the first image |
| Authoring.ConvertImages | create.go:81-94 | every image is read and converted before anything is written |
| Authoring.RemoveImages | create.go:109 | every image is removed and nothing else |
| Authoring.PlaceImages | create.go:74-83 | the k-th converted image is written under the name of sticker begin-k |
| Authoring.Renumber | create.go:63-116 | the corrected renumbering: it succeeds exactly when every PNG decodes, leaves the directory untouched otherwise, and on success leaves it staged |
| Authoring.StickerIds | create.go:177-180 | the list has count ids (none when count <= 0), the k-th being begin-k |
| Authoring.AuthoredMetaOfIds | create.go:177-180 | the ids the loop lists are those of the authored metadata |
| Authoring.FixedNamesAreNotStickers | create.go:131-190 | neither tab image nor the metadata file has a sticker's name |
| Authoring.FinishedKeepsOthers | create.go:131-202 | writing the tab images and the metadata file changes no other file |
| Authoring.AuthoredStickerNames | create.go:177-180 | the k-th sticker id of the metadata names the k-th renumbered image |
| Authoring.StickerFileWritten | create.go:63-202 | the k-th converted image ends up under the name of sticker begin-k, untouched by the tab images and the metadata file |
| Authoring.CreatedPackageComplete | create.go:63-202 | every sticker id of the metadata names a file holding the image renumbered to it, and the metadata file holds the metadata's text |
| Authoring.CreateKeepsOtherFiles | create.go:47-202 | every file that is not an image, a tab image or the metadata file survives create unchanged |
| Authoring.CreatedEffect | create.go:19-204 | a create that reaches insert read two lines, found the directory, converted every image, had a first image that decodes, and leaves the finished directory and the insert effect |
| Authoring.PublishOutcomes | create.go:118-204 | the second half ends without a begin image exactly when there was no image, and changes the catalog only by inserting |
| Authoring.CreateFailsCleanly | create.go:21-45 | in the corrected create, missing input lines, a missing directory or an undecodable PNG leave the directory as it was; the catalog changes only on insert |
| Authoring.Create | create.go:19-205 | the corrected create: the outcome, directory and tables are the create effect on the old state, with every image converted before any file is renamed |
| Authoring.Stage | create.go:47-116 | the corrected renumbering: once the directory is listed, the outcome and new state are the create effect |
| Authoring.Publish | create.go:118-204 | the tab images, the metadata file and the insert, with the publish effect on the directory and the tables |

## Left out

- The worker pool, the job channel, the wait group and the database lock (update.go:36-57). `Ingest.Update` is one sequential loop over the ids.
- The network, the clock and standard input are parameters:
  - an oracle `fetch` gives the k-th `http.Get`'s result;
  - `now` is the insertion date;
  - `create`'s two lines arrive as a sequence of strings.
- The one-second pause between download retries is not modelled.
- PNG decoding, the compositing on a white background and JPEG encoding (update.go:226-262) are one function `pngToJpeg`, without the floating-point pixel arithmetic.
- The tab images of `create` are a single function: decode, resize to 66x55, encode in colour and in grey.
- JSON encoding and decoding, base64 and the Porter stemmer are functions of `Externals` and are not constrained. The properties proved hold whatever they compute.
- FTS4 `MATCH` is a relation `matches` between the expression and a whole full-text row: package id, title text and author text.
- Go's map iteration order is a function `keyOrder` that yields some enumeration of the keys.
- SQL text, transactions other than insert's, and row scanning errors are not modelled. The begin, query and commit of the listing handlers fail through explicit fault flags.
- `ORDER BY date` leaves ties in an order SQLite chooses. For `official` the index on (date, packageId) (main.go:84) makes that order by packageId. main.go:94 and main.go:104 create the `creator` and `custom` date indexes on the `official` table, so those two partitions have no such index. The model breaks ties by packageId in all three partitions; for `creator` and `custom` this is the model's choice, not a guarantee of the source. An index changes only speed and the order of ties, so the misplaced indexes are not modelled further.
- A negative LIMIT or OFFSET follows SQLite: a negative limit means no limit, a negative offset means 0.
- Failures of the operating system are not modelled. A file operation fails only on a missing file or directory, or on a file name with a '/', which reaches into a sub-directory that package directories never have; creating, copying and writing otherwise succeed.
- `path.Join` cleaning of `..` is not modelled. `Query.StickerPathConfined` proves that accepted parameters hold no '/' or '.'.
- Ingest.Unzip: does not clean entry names as `path.Join` does, and fails on every name holding a '/'. In the source `path.Join` first drops `.` and `..` elements and extra slashes, so "./1.png", "a/../1.png" and "/1.png" are written into the package directory, and "../5/productInfo.meta" is written into package 5's directory when that exists.
- Ingest.UnpackedOkIff: inherits the treatment of '/' of `Ingest.Unzip`; an entry whose cleaned name lies in the package directory does not fail in the source.
- Ingest.WritableIff: inherits the treatment of '/' of `Ingest.Unzip`.
- Ingest.Update: inherits the treatment of '/' of `Ingest.Unzip`; an entry name that `path.Join` cleans into another package's directory changes that directory in the source.
- Response headers, the log output, `testHandler`, `Run`, `main` and the command-line parsing are not modelled. `setupTable` is modelled only on a new database: its statements change nothing on an existing one.
- `Insert`'s own `setupTable` call before `insert` (insert.go:13-17) is not modelled separately, for the same reason.
- `insert` returns for id 999999 with its transaction neither committed nor rolled back (insert.go:72-76). The model records the outcome and no change to the tables.
- Tokenizer.IsDigit: `unicode.IsDigit` is restricted to the ASCII digits. Other Unicode digits fall in no lane.
- Tokenizer.ToTrigram: counts characters, where Go counts bytes. The two agree on ASCII words, which are all that reach it when the stemmer returns ASCII.
- Text.IntToString: sticker ids and `begin-count` are unbounded integers; the int64 wrap-around of `begin-k` for ids near -2^63 is not modelled. `Query.Wrap64` models the wrap of the listing offset.
- Text.ScanWords: scans words of any length. `bufio.Scanner` stops with `ErrTooLong` at a word that does not fit its 64 KiB buffer (`bufio.MaxScanTokenSize`), and transformQueryText never checks `scanner.Err()`, so that word and every later one are dropped.
- Tokenizer.StemmerInput: inherits the unlimited word length of `Text.ScanWords`; a query with a word over 64 KiB stems fewer words in the source.
- Tokenizer.TransformQueryText: inherits the unlimited word length of `Text.ScanWords`; in the source the expression then lacks the words from the over-long one on.
- Authoring.Create: is the corrected create. It converts every image before it renames any file, so an undecodable PNG leaves the directory as it was. The source converts during its second pass: with a.jpg and an undecodable b.png and begin 5 it stops after renaming a.jpg to 0.jpg and then to 5.jpg, leaving 5.jpg and b.png. The as-written passes are `Authoring.ScratchPass` and `Authoring.FinalPass`.
- Authoring.Create: takes the author and title lines whole. `bufio.Reader.ReadLine` returns at most 4096 bytes at a time and create ignores its `isPrefix` result, so in the source an author line longer than 4096 bytes is cut, and its remainder becomes the title.
- Authoring.Stage: is the corrected renumbering, atomic on a failed conversion for the reason given under `Authoring.Create`.
- Authoring.CreateFailsCleanly: holds for the corrected create only; in the source an undecodable PNG leaves the directory partly renumbered, as described under `Authoring.Create`.
- Query.RespondWithPage: a size up to 2^44 is taken as allocatable. A slice that large does not fit in memory, and Go then ends the process with a fatal out-of-memory error, which the model does not represent.
- Authoring.Renumber: assigns sticker ids in the order of the original listing. The source's second pass lists the directory after the first pass's renames, which places JPEGs by their scratch numbers among the PNG names.

## Findings

| source | as written | input that shows it | evidently intended | confidence | as-written member | corrected member |
|---|---|---|---|---|---|---|
| create.go:47-61 | the first pass renames the k-th .jpg of the sorted listing to k.jpg on the live directory, so a target can be a file the loop has not moved yet | files 0.jpg, 1.jpg, 10.jpg, 2.jpg: 10.jpg is renamed to 2.jpg, overwriting the original 2.jpg, which is then renamed to 3.jpg; four images become three | every image is renumbered and none is lost | high, not executed | Authoring.ScratchPassOverwrites | Authoring.StagedKeepsEveryImage |
| create.go:63-116 | the second pass renames the k-th image to (begin-k).jpg in place, so with begin >= 0 a target can be an image still waiting to be moved | begin=1, files 0.jpg and 1.jpg: 0.jpg is renamed onto 1.jpg, then that file is renamed back to 0.jpg; two images become one | each image ends under its own sticker id | high, not executed | Authoring.FinalPassOverwrites | Authoring.Renumber |
| run.go:181-185, run.go:230, run.go:262 | size is only checked to be an integer, and `make([]string, 0, size)` panics for a negative size and for a size above 2^44 | /pkg-list?page=1&size=-1&repo=official&order=date, or size=17592186044417 | a size make cannot allocate is refused with 400 like the other malformed parameters | high, not executed | Query.NegativeSizeAborts, Query.OversizedSizeAborts | Query.PkgHandlerCheckingSize |
