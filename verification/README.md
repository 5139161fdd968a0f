# markup_tool, modelled in Dafny

markup_tool is a small annotation service. Users upload or scan images and
videos. Each record then gets an emotion tag (one of seven) and two numbers,
valence and arousal, in [-1.0, 1.0]. The project models four parts:

- **The `markup_results` store** (`backend/database.py`), as an in-memory
  table. It maps SERIAL ids to records. A record's status is derived:
  "completed" only when emotion, valence and arousal are all set. The valence
  and arousal columns are `DECIMAL(3,2)`, kept as exact hundredths.
- **The Flask routes of `backend/app.py`** that decide something:
  - the annotation validator and its dispatch to `update_emotion` or `update_vad`;
  - the upload and folder-scan rules (allowed extensions, media type, dedup by filename);
  - the `current_id` handling of `/api/next` and `/api/prev`;
  - the reset response;
  - the CSV export with its own "annotated" count.
- **The second schema of `backend/models.py`**: categories, media, annotations
  and an annotation history log, with their foreign keys and `ON DELETE
  CASCADE` rules.
- **The pure helpers of `frontend/src/utils/helpers.js`**: `getFileType` and
  `formatProgress`.

Everything is immutable data and pure functions. A JSON request body is a
`map<string, JsonValue>`. Python's `float()` on a string, Werkzeug's
`secure_filename`, PostgreSQL's `numeric` input of a string and its `jsonb`
input of JSON text are parameters, because their grammar and output belong
to software outside the model. Values sent to the database follow psycopg2's
adaptation: a JSON integer or float stands for the decimal text the driver sends, and
a `jsonb` parameter accepts only what the driver can send into it. Timestamps are left out, and every `ORDER BY`
over a timestamp becomes an order over ids.

The files:

| file | module | what it holds |
|---|---|---|
| common.dfy | Common | `Option`, `Result`, media types, decoded JSON values and Python truthiness |
| text.dfy | Text | ASCII lower-casing, the text after the last dot, the `splitext` root, decimal rendering and parsing |
| tables.dfy | Tables | searches, listings and counts over an id-keyed table |
| markup_store.dfy | MarkupStore | `MarkupResult` of `backend/database.py` |
| uploads.dfy | Uploads | `allowed_file`, media type, `upload_media`, `scan_upload_folder` |
| annotate.dfy | Annotate | `submit_annotation` |
| routes.dfy | Routes | `/api/next`, `/api/prev`, `/api/reset`, `/api/scan`, `/api/export` |
| history_store.dfy | HistoryStore | `backend/models.py` |
| frontend_helpers.dfy | FrontendHelpers | `getFileType`, `formatProgress` |

## Model

| member | source | states |
|---|---|---|
| MarkupStore.EmotionFromName | backend/app.py:34 | a tag names an emotion exactly when it equals one of the seven EMOTIONS names, and then names only that one |
| MarkupStore.ToDecimal | backend/database.py:58-59 | the stored value is the nearest hundredth, with halves rounded away from zero |
| MarkupStore.DecimalExact | backend/database.py:58-59 | a value that already has two decimals is stored unchanged |
| MarkupStore.GetById | backend/database.py:108-125 | a record comes back exactly when the id names one, and it is that record |
| MarkupStore.GetByFilename | backend/database.py:127-139 | None exactly when no stored record has that filename; otherwise a stored record with that filename |
| MarkupStore.Create | backend/database.py:141-154 | adds one pending record under an id above every stored one, titled with the filename when no title is given, and changes no other record |
| MarkupStore.UpdateEmotion | backend/database.py:156-183 | sets the emotion; each of valence and arousal is overwritten when given and kept when None; an unknown id gives None and changes nothing; other records and media columns are unchanged |
| MarkupStore.UpdateVad | backend/database.py:185-199 | overwrites valence and arousal, with None writing NULL; keeps the emotion and every other record; an unknown id gives None and changes nothing |
| MarkupStore.EmotionOnlyKeepsVad | backend/database.py:160-171 | setting the VAD values and then sending only an emotion leaves the record completed with those values |
| MarkupStore.NextUnannotated | backend/database.py:201-226 | the pending record with the smallest id above `current`; None exactly when every record above `current` is completed |
| MarkupStore.NextSkipsCompleted | backend/database.py:205-223 | on a concrete table, the search skips a completed record and starts at the beginning for `current` 0 |
| MarkupStore.NextAdvancesAfterCompleting | backend/database.py:201-226 | completing the record the search returned makes the same search return a later record or none |
| MarkupStore.Previous | backend/database.py:228-242 | the record with the largest id below `current`, whatever its status; None exactly when no id below `current` is stored |
| MarkupStore.PreviousIgnoresAnnotations | backend/database.py:229-242 | two tables with the same ids give the same previous record |
| MarkupStore.GetAll | backend/database.py:88-106 | every stored record exactly once, newest first |
| MarkupStore.PendingRows | backend/database.py:336-340 | exactly the pending records, in id order |
| MarkupStore.GetUnannotated | backend/database.py:332-346 | a prefix of the pending records in id order, of the limit's length, or all of them when the limit is None or 0 |
| MarkupStore.GetAnnotated | backend/database.py:348-360 | exactly the completed records |
| MarkupStore.AnnotatedCount | backend/database.py:252-260 | the annotated count is the number of completed records, and it plus the pending count is the total |
| MarkupStore.EmotionSummary | backend/database.py:262-275 | one entry per emotion that some record carries, counting every record with that emotion |
| MarkupStore.TypeSummary | backend/database.py:277-287 | one entry per media type that some record has, whose count is the number of records of that type; the image and video counts add up to the total |
| MarkupStore.CompletionRate | backend/database.py:307 | 0 for an empty table; otherwise the rate times the total is 100 times the annotated count, so it lies in [0, 100], is 100 exactly when all records are annotated and 0 exactly when none is |
| MarkupStore.ShareFacts | backend/database.py:307 | used by CompletionRate: the share `a / t * 100` of a positive total times the total gives back `100 * a`, lies in [0, 100], and is 100 or 0 exactly at the ends |
| MarkupStore.ShareBounds | backend/database.py:307 | the division-free step behind ShareFacts and so CompletionRate: any number that is 100 times `a` once multiplied by a positive `t` at least `a` lies in [0, 100], and is 100 or 0 exactly when `a` is `t` or 0 |
| MarkupStore.GetStats | backend/database.py:244-311 | total, annotated no larger than total, pending = total - annotated, a rate that is annotated as a percentage of total with its bounds, the per-emotion counts, and the per-type counts |
| MarkupStore.ResetAnnotations | backend/database.py:320-330 | every record loses its three annotation fields and keeps its media columns; no id is added or removed; the row count returned is the record count |
| MarkupStore.ResetClearsStats | backend/database.py:321-330 | after a reset, nothing is annotated, every record is pending, the emotion summary is empty and the rate is 0 |
| MarkupStore.ResetIdempotent | backend/database.py:321-330 | resetting twice gives the same table as resetting once |
| MarkupStore.EmotionSummaryCountsPending | backend/database.py:262-275 | a record with an emotion but no valence is pending, yet it is counted in the emotion summary |
| MarkupStore.AnnotatedWithinEmotions | backend/database.py:252-275 | the annotated count never exceeds the number of records with an emotion |
| Uploads.AllowedFile | backend/app.py:29-30 | allowed exactly when the name has a '.' and the lower-cased text after its last '.' is in ALLOWED_EXTENSIONS; such an extension has at least three characters |
| Uploads.AllowedFileAtDot | backend/app.py:29-30 | for any '.' with no '.' after it, the name is allowed exactly when the lower-cased text after that '.' is in ALLOWED_EXTENSIONS |
| Uploads.NoDotNotAllowed | backend/app.py:29-30 | a name without a '.' is never allowed |
| Uploads.MediaTypeFor | backend/app.py:132-133 | video exactly when the lower-cased text after the last '.' is mp4, avi or mov |
| Uploads.UpperCaseVideo | backend/app.py:132-133 | the extension is compared in lower case: "clip.MOV" is a video |
| Uploads.OnlyLastExtensionCounts | backend/app.py:132-133 | only the text after the last '.' counts: "mov.png" is an image |
| Uploads.UploadMedia | backend/app.py:114-143 | each rejection with its reason and nothing stored; otherwise one new pending record under the secured name, with its upload path, its media type, and the `splitext` root as title (the name itself when that root is empty) |
| Uploads.UploadMatchesScan | backend/app.py:127-141 | for a name that `secure_filename` keeps and that does not start with '.', the upload stores the same record a scan of that name stores |
| Uploads.ScanEntry | backend/app.py:223-244 | one loop turn records a file exactly when it is scannable and its name is not yet stored, and then the stored names grow by that name |
| Uploads.Scan | backend/app.py:218-244 | the sequence advances once per new record, and no earlier record changes |
| Uploads.ScanRecordsEveryFile | backend/app.py:223-244 | afterwards the stored names are the old ones plus every scannable name |
| Uploads.ScanCountsNewNames | backend/app.py:228-244 | the number of new records is the number of scannable names not already stored |
| Uploads.ScanFilesAreNew | backend/app.py:230-244 | each reported record is stored under a fresh id, pending, made from a scannable name that was not stored before, with that name's path, media type and title root |
| Uploads.DottedRootNonEmpty | backend/app.py:224-241 | a scannable name always has a non-empty title root |
| Uploads.ScanKeepsFilenamesUnique | backend/app.py:230-232 | when no filename was stored twice before a scan, none is after it |
| Uploads.ScanTwiceFindsNothing | backend/app.py:223-244 | scanning the same listing a second time records nothing |
| Uploads.ScanUnchangedWhenNothingFound | backend/app.py:223-244 | a scan that reports no file leaves the table as it was |
| Annotate.Get | backend/app.py:155-157 | None exactly when the key is absent or holds JSON null |
| Annotate.ToFloat | backend/app.py:170 | a JSON float reads as itself; a JSON integer reads as itself unless its magnitude reaches 2^1024 - 2^970, where `float()` raises OverflowError; a string reads as `float()` parses it; null, arrays and objects raise TypeError |
| Annotate.TagEmotion | backend/app.py:164 | a tag names an emotion exactly when it is a string equal to an emotion's name |
| Annotate.CheckVad | backend/app.py:168-182 | a value passes exactly when it is absent or reads as a number in [-1.0, 1.0]; an OverflowError escapes the handler exactly when `float()` raises it; "not a number" exactly when `float()` raises ValueError or TypeError, and "out of range" for every other failure |
| Annotate.Validate | backend/app.py:149-193 | accepted exactly when the route's checks pass; "missing fields" exactly when the body or mediaId is missing; `update_emotion` exactly for a truthy tag, with the tag's emotion and the VAD values as sent; the uncaught OverflowError exactly when the presence and emotion checks pass and the valence, or else the accepted valence's arousal, is a huge integer |
| Annotate.ValidateReasons | backend/app.py:151-182 | which check a rejected request failed first, in the route's order: "no tag or VAD" exactly when the presence check fails; "invalid emotion" exactly when a truthy tag names no emotion; a valence reason only after both earlier checks passed; an arousal reason only after those checks and the valence check passed |
| Annotate.ParseInt4 | backend/database.py:177 | a parsed id is a 32-bit integer |
| Annotate.ParseInt4RoundTrip | backend/database.py:177 | every 32-bit integer written in decimal parses back to itself |
| Annotate.RowKey | backend/database.py:175-180 | a JSON integer matches that id, an integral JSON float matches that id and a fractional one matches nothing; booleans, arrays and objects make the statement fail |
| Annotate.RoundHundredths | backend/database.py:58-59 | the nearest hundredth, halves rounded away from zero |
| Annotate.ColumnReading | backend/database.py:58-59 | a number is stored when it rounds into [-1.00, 1.00], as that rounded value; it breaks the CHECK when it rounds to less than 10.00 in size; otherwise the column refuses it; every number in [-1, 1] is stored |
| Annotate.ColumnValue | backend/database.py:172-199 | a JSON integer or float is read as itself, a string as PostgreSQL's `numeric` input reads its text, and a string that input refuses or any other value is refused |
| Annotate.Apply | backend/app.py:184-199 | a server error exactly when the id cannot be sent, a VAD value is one the `DECIMAL(3,2)` column refuses outright, or the id names a record and a VAD value breaks the CHECK; saved exactly when the id names a record and both values fit; the per-field effect of each update, storing what the column reads; and the returned stats are those of the new table |
| Annotate.SubmitAnnotation | backend/app.py:146-208 | 400 exactly when the request is not acceptable and `float()` does not overflow, with the first failing reason; an overflow gives a server error with nothing changed; nothing changes unless saved |
| Annotate.HugeIntegerValenceRaises | backend/app.py:168-174 | a valence sent as the integer 2^1024 - 2^970 makes `float()` overflow and the route answer 500, while the same magnitude sent as a float is a 400 "out of range", and one less converts |
| Annotate.FullBodyValidates | backend/app.py:151-187 | a body with an id, an emotion name and two in-range numbers becomes an `update_emotion` with both values |
| Annotate.FullAnnotationCompletes | backend/app.py:185-208 | such a body leaves the record completed, with the numbers rounded to hundredths |
| Annotate.StringVadUsesDatabaseReading | backend/app.py:187-193 | a VAD sent as the string "0.145" is stored as 0.15, the database's reading, while `float("0.145")` would round to 0.14 |
| Annotate.StringRefusedByDatabaseFails | backend/app.py:168-193 | a VAD string that `float()` accepts but the `numeric` input refuses gives a server error and changes nothing |
| Annotate.EmptyTagClearsVad | backend/app.py:160-193 | as written: an empty-string tag without VAD values is accepted, sent to `update_vad` with None values, and erases the stored valence and arousal |
| Annotate.ValidateStrict | backend/app.py:160-161 | corrected check: a falsy tag counts as no tag, so such a request needs both VAD values |
| Annotate.StrictVadUpdateHasBothValues | backend/app.py:191-193 | under the corrected check, a VAD-only update always carries both values |
| Annotate.StrictDiffersOnlyOnFalsyTags | backend/app.py:160-164 | the corrected check differs from the original only by rejecting a present but falsy tag |
| Annotate.SubmitAnnotationStrict | backend/app.py:146-208 | the route with the corrected check: 400 exactly when that check fails for a reason other than an overflow, a server error with nothing changed on an overflow, and nothing changes unless saved |
| Annotate.StrictSubmitKeepsCompleted | backend/app.py:184-193 | under the corrected check, no request turns a completed record pending |
| Routes.CurrentId | backend/app.py:272 | an integer argument is used as given; a missing or non-integer one becomes 0 |
| Routes.GetNextMedia | backend/app.py:269-279 | the stored pending record with the smallest id after `current_id`, every record between being completed; "no more" exactly when every later record is completed |
| Routes.NextDefaultsToStart | backend/app.py:272-274 | without a usable argument, or with one at most 0, the route returns the first pending record, and finds one exactly when some record is pending |
| Routes.NoWrapAround | backend/database.py:205-223 | past the last pending record the route answers "no more" even though an earlier record is pending; the search does not wrap around |
| Routes.GetPrevMedia | backend/app.py:282-295 | 400 exactly when `current_id` is missing or 0; otherwise the nearest lower record, or "no previous" exactly when there is none |
| Routes.ResetData | backend/app.py:255-266 | the table is the reset table, and the response's total and 0 annotated are the reset table's statistics, with every record pending |
| Routes.ScanUploadFolder | backend/app.py:218-252 | the table and file list are those of the scan; "Found N new files" with N the number of new records, which is the number of new scannable names; a total that has grown by N |
| Routes.ScanGrowsByFiles | backend/app.py:246-251 | the table grows by exactly the number of reported records |
| Routes.ScanRouteTwice | backend/app.py:218-252 | scanning the same listing again reports "Found 0 new files", no files, the same table and the same total |
| Routes.ExportResults | backend/app.py:298-315 | all records, the record count, a CSV that starts with the header, and an "annotated" count equal to the number of records with an emotion |
| Routes.CountWithEmotionIsSetSize | backend/app.py:313 | the comprehension's length is the number of distinct ids with an emotion |
| Routes.ExportCountsEmotions | backend/app.py:313 | over the full listing, that count is `COUNT(*) WHERE emotion IS NOT NULL` |
| Routes.ExportAnnotatedAtLeastStats | backend/app.py:313 | the export's "annotated" is never below the statistics' one |
| Routes.ExportAnnotatedDiffersFromStats | backend/app.py:313 | a record with an emotion but without valence makes the two "annotated" counts differ |
| Routes.ExportLineCount | backend/app.py:304-306 | when no field holds a line break, the CSV has one line per record plus the header |
| Routes.HeaderIsOneLine | backend/app.py:304 | the header is a single line |
| Routes.CsvLinesCount | backend/app.py:305-306 | each single-line record adds exactly one newline |
| Routes.SingleLineRecord | backend/app.py:306 | a record line built from single-line fields holds no line break |
| HistoryStore.EmptyValid | backend/models.py:8-53 | the freshly created schema satisfies the id, uniqueness and foreign-key invariants |
| HistoryStore.InsertIfAbsent | backend/models.py:64-69 | an insert with `ON CONFLICT DO NOTHING` adds the category exactly when its name is free, leaves the name stored either way, and always advances the sequence; the other tables and sequences are unchanged |
| HistoryStore.InsertAll | backend/models.py:64-69 | the loop keeps every existing category and advances the sequence once per listed category |
| HistoryStore.InsertAllStoresNames | backend/models.py:64-69 | after the loop, every listed name and every name stored before is stored |
| HistoryStore.InsertAllKnownNames | backend/models.py:64-69 | when every listed name is already stored, the loop adds no category |
| HistoryStore.InitDefaultsIdempotent | backend/models.py:55-69 | running the default inserts twice adds no category the second time, though it uses five more ids |
| HistoryStore.InitDefaultsStoresEachOnce | backend/models.py:55-69 | afterwards each default name is stored, and names stay unique |
| HistoryStore.CategoryCreate | backend/models.py:80-88 | a unique violation exactly when the name is taken, which still uses up an id; otherwise one new row under the next id |
| HistoryStore.CategoryUpdate | backend/models.py:90-99 | an unknown id gives None; a name held by another category is a unique violation; otherwise only that row changes |
| HistoryStore.CategoryDelete | backend/models.py:101-104 | the category goes, with every annotation filed under it and every history entry of those annotations; every surviving row keeps its contents, and the media table and all four sequences are unchanged |
| HistoryStore.CategoryDeleteUnknownChangesNothing | backend/models.py:101-104 | deleting a category id that names no row changes nothing, since no annotation can be filed under it |
| HistoryStore.CategoryDeleteIdempotent | backend/models.py:101-104 | deleting the same category twice leaves the tables as deleting it once |
| HistoryStore.MediaCreate | backend/models.py:120-128 | one new unprocessed media row under a fresh id, and nothing else changes |
| HistoryStore.MediaGetById | backend/models.py:130-134 | the row exactly when the id names one |
| HistoryStore.CountAnnotations | backend/models.py:111-115 | the count is the number of annotations whose media_id is that media |
| HistoryStore.MediaGetAll | backend/models.py:107-118 | every media row exactly once, newest first, each with its annotation count |
| HistoryStore.Adapt | backend/models.py:152-156 | how a decoded JSON value is sent into a `jsonb` parameter: null as NULL, a string as JSON text the column parses, the empty list as the empty object; an object, a non-empty list, a number or a bool is refused |
| HistoryStore.ResendOnlyFromText | backend/models.py:163-179 | a stored object, number or bool read back cannot be sent again; a value that goes back in unchanged is a string holding its own JSON text |
| HistoryStore.AnnotationCreate | backend/models.py:149-157 | succeeds exactly when the payload is storable and the given media and category ids name rows; a payload that cannot be sent fails with nothing used; a NULL payload or a missing key fails after using up an id; a success takes the next id; user_id defaults to 'default_user'; only the annotations table and its sequence change |
| HistoryStore.AnnotationUpdate | backend/models.py:159-181 | an unknown id fails; succeeds exactly when the id is known, the new payload storable and the old payload sendable; a failure changes nothing; a success replaces the payload and appends one 'update' entry, under the next history id, with the old payload as sent back and the new one; nothing else changes |
| HistoryStore.StructuredPayloadBlocksChanges | backend/models.py:160-197 | as written: an annotation whose stored payload is an object, a number or a bool can be neither updated nor deleted, and nothing changes |
| HistoryStore.CreatedObjectCannotChange | backend/models.py:149-197 | as written: an annotation created from the JSON text of an object stores that object, and every later update or delete of it fails |
| HistoryStore.AnnotationUpdateWrapped | backend/models.py:159-181 | corrected update: succeeds exactly when the id is known and the new payload storable; a failure changes nothing; a success logs under the next history id and changes only the annotations and the history |
| HistoryStore.WrappedUpdateLogsPrevious | backend/models.py:176-179 | the corrected update logs the old payload exactly, and stores the same annotations as the as-written update whenever that one succeeds |
| HistoryStore.CascadeDelete | backend/models.py:46 | removing an annotation removes exactly the history entries that refer to it |
| HistoryStore.AnnotationDelete | backend/models.py:183-197 | an unknown id fails; succeeds exactly when the id is known and its payload can be sent back; a failure changes nothing; a success removes the annotation and uses one history id, the next one; categories, media and the other sequences are unchanged |
| HistoryStore.DeleteLeavesNoTrace | backend/models.py:183-197 | as written: the delete goes through exactly when the old payload can be sent back, and then the 'delete' entry is gone again and no entry of the deleted annotation remains |
| HistoryStore.UnlinkHistory | backend/models.py:46 | with ON DELETE SET NULL, every entry stays and only links to the deleted annotation are cleared |
| HistoryStore.AnnotationDeleteKeepingHistory | backend/models.py:183-197 | corrected delete: fails exactly when the id is unknown, and then changes nothing; otherwise the annotation is removed, the entry takes the next history id, and categories, media and the other sequences are unchanged |
| HistoryStore.DeleteKeepingHistoryLogsDelete | backend/models.py:183-197 | the corrected delete leaves exactly one new entry, the 'delete' record of the old payload, and keeps every earlier entry's content |
| HistoryStore.HistoryIds | backend/models.py:199-211 | at most 50 joined entries of the media, newest first; any joined entry left out is older than all of them, and then the list is full |
| HistoryStore.GetHistory | backend/models.py:199-211 | at most 50 rows, newest first, each a joined entry of the media with its category's name |
| HistoryStore.HistoryOmitsOnlyOlder | backend/models.py:208-209 | an entry of the media missing from the history is older than every listed one, and then 50 are listed |
| HistoryStore.UpdateShowsInHistory | backend/models.py:176-179 | an update of an annotation with media and category goes through exactly when both payloads can be sent, and then its 'update' entry heads that media's history |
| FrontendHelpers.GetFileType | frontend/src/utils/helpers.js:10-24 | null for a missing or empty URL; image exactly when the lower-cased text after the last '.' is an image extension; video exactly when it is a video extension |
| FrontendHelpers.NoDotJudgesWholeUrl | frontend/src/utils/helpers.js:13 | a URL without a '.' is judged by its whole text |
| FrontendHelpers.FrontendAgreesWithBackend | frontend/src/utils/helpers.js:10-24 | every name the backend accepts gets the same media type in the frontend as in the backend |
| FrontendHelpers.FrontendTypesMoreThanBackendAccepts | frontend/src/utils/helpers.js:15 | the frontend types "clip.webm" as video although the backend refuses it |
| FrontendHelpers.RoundPercent | frontend/src/utils/helpers.js:28 | the rounded percentage lies within half a unit of the exact one, with halves going up |
| FrontendHelpers.FormatProgress | frontend/src/utils/helpers.js:26-29 | "No items" exactly when the total is 0; otherwise the "c / t (p%)" label |
| FrontendHelpers.LabelShowsCount | frontend/src/utils/helpers.js:28 | the label starts with the count, which reads back as itself, followed by " / " |
| FrontendHelpers.LabelEndsWithPercent | frontend/src/utils/helpers.js:28 | the label ends with "%)" |
| FrontendHelpers.PercentBounds | frontend/src/utils/helpers.js:28 | counts within their total give 0 to 100; none done gives 0 and all done gives 100 |
| FrontendHelpers.PercentMonotonic | frontend/src/utils/helpers.js:28 | doing more never lowers the percentage |
| FrontendHelpers.PercentHalfRoundsUp | frontend/src/utils/helpers.js:28 | exact halves round up: 1/8 shows 13 and -1/8 shows -12 |
| Text.AfterLastDot | backend/app.py:30 | the extension is the longest dot-free suffix: a suffix without a '.', preceded by a '.' unless it is the whole name, and the whole name exactly when the name has no '.' |
| Text.SplitextRoot | backend/app.py:140 | the title root is the text before the last '.', or the whole name when it has no '.'; it is the whole name exactly when only dots precede the last one |
| Text.SplitextRejoins | backend/app.py:140 | when the name is split, root, '.' and extension give the name back |
| Text.NatToStringRoundTrip | backend/app.py:248 | the decimal count in the scan message reads back as the count |

## Left out

- File I/O and Flask plumbing are not modelled: saving uploads, `os.listdir` (the listing is a parameter), `send_file`/`send_from_directory`, JSON encoding, HTTP status plumbing, and the demo-file generation under `__main__` (PIL).
- Werkzeug's `secure_filename` is a parameter of `UploadMedia`, because its character rules belong to that library.
- The routes that only read and return are not modelled separately: `get_all_media`, `get_media`, `get_media_file`, `health_check`, `serve_frontend` and `/api/stats`. The last returns `get_stats` unchanged.
- `Category.get_all` is not modelled: `ORDER BY name` depends on the database's collation.
- `Annotation.get_by_media` is not modelled: it orders by `created_at`, a clock value.
- `created_at`, `updated_at`, `upload_date` and `changed_at` are not modelled. They come from the database clock, so the CSV export takes the two timestamp texts as a parameter.
- `vad_summary` of `get_stats` is not modelled: it is a floating-point AVG/STDDEV with SQL rounding.
- Connections, commit and rollback, and concurrency are not modelled. That includes the read-then-write race in `update_emotion`; each call is one atomic step on the table.
- `validateMediaUrl` and `debounce` of the frontend helpers are not modelled. They depend on the browser's `URL` parser and on timers.
- Column length limits (`VARCHAR(255)` and the like) are not modelled: a longer name would make the database raise.
- MarkupStore.GetAll: orders by id instead of `created_at DESC`. The two agree while ids and creation times grow together.
- MarkupStore.GetAnnotated: lists in id order instead of `updated_at DESC`, which is a clock order.
- MarkupStore.GetByFilename: the query has no ORDER BY, so which of several same-named rows it returns is unspecified. The model returns the one with the smallest id.
- MarkupStore.EmotionSummary: a map, so the `ORDER BY count DESC` of the dictionary's insertion order is not represented.
- MarkupStore.GetStats: the `vad_summary` field is omitted, as above.
- MarkupStore.GetUnannotated: the limit is an `Option<nat>`, so a negative limit is not represented. The source treats it as truthy and sends it to `LIMIT %s`, which PostgreSQL refuses; no route calls this query.
- MarkupStore.CompletionRate: an exact real instead of a Python float, so the rounding of `annotated / total * 100` is not modelled; and for an empty table the source returns the int 0, which the model writes as the real 0.
- HistoryStore.Adapt: the grammar of `jsonb` input is the `jsonbIn` parameter; the model states only what the driver sends and that the column parses a string's text.
- HistoryStore.AnnotationCreate: the payload is a value a JSON decoder can produce. Python values no decoder produces (tuples, sets, `Json` wrappers) are not represented.
- Annotate.ColumnValue: the grammar of PostgreSQL's `numeric` input is the `numeric` parameter. A JSON number is read as the exact decimal psycopg2 sends for it.
- HistoryStore.MediaGetAll: orders by id instead of `upload_date DESC`.
- HistoryStore.GetHistory: orders by history id instead of `changed_at DESC`. Entries written in one transaction share a `changed_at`, so the database's order among them is unspecified.
- HistoryStore.AnnotationCreate: an explicit `user_id=None` is not represented. None in the model stands for the omitted argument.
- Annotate.ToFloat: Python's `float()` on a string is the `parse` parameter. JSON floats are exact finite reals, not IEEE doubles: the decoder's `NaN` and `Infinity` tokens, and float literals beyond the double range that it reads as infinity, are not represented; each of them fails the range check with a 400 either way.
- Annotate.Validate: a JSON body that is not an object (an array, string or number) is not modelled. The route would test `"mediaId" in data` on it with Python's semantics for that type.
- Annotate.ParseInt4: PostgreSQL's leading and trailing whitespace in an integer literal is not accepted by the model. Nor are the forms PostgreSQL 16 and later also accept: `0x`, `0o` and `0b` prefixes and underscores between digits (`'0x10'` reads as 16 there). No server version is fixed by the repository, so the model keeps to plain decimal.
- FrontendHelpers.RoundPercent: computes on exact rationals instead of IEEE doubles, so the double rounding of `(current / total) * 100` is not modelled.
- Text.ToLower: folds ASCII letters only. Python's `lower()` and JavaScript's `toLowerCase()` also fold other scripts, but every extension in both lists is ASCII.

## Findings

| source | as written | input that shows it | evidently intended | confidence | as-written member | corrected member |
|---|---|---|---|---|---|---|
| backend/app.py:160-193 | the "no tag and no VAD" check tests `emotion is None`, while dispatch tests truthiness, so an empty-string tag passes both checks and reaches `update_vad(media_id, None, None)` | body `{"mediaId": 1, "tag": ""}` against a completed record 1: the response is a success, and valence and arousal become NULL, so the record turns pending | a request without a usable emotion must carry both VAD values, so an annotation is never erased by an empty tag | not executed | Annotate.EmptyTagClearsVad | Annotate.ValidateStrict, Annotate.StrictSubmitKeepsCompleted |
| backend/models.py:46, 183-197 | `Annotation.delete` inserts a 'delete' history entry and then deletes the annotation; `annotation_id ... ON DELETE CASCADE` deletes that entry, and every earlier entry of the annotation, in the same transaction | delete an existing annotation whose payload the driver can send back (a JSON string whose text parses, JSON null, or an empty array): the delete goes through, and afterwards the history has no entry for it and the 'delete' entry's id is unused | the 'delete' entry and the earlier entries survive, unlinked from the deleted row (ON DELETE SET NULL) | not executed | HistoryStore.DeleteLeavesNoTrace | HistoryStore.AnnotationDeleteKeepingHistory, HistoryStore.DeleteKeepingHistoryLogsDelete |
| backend/models.py:163-197 | `update` and `delete` read the stored `jsonb` payload back as a decoded Python value and pass it, unwrapped, as a parameter of the history INSERT | create an annotation from the text '{"x": 1}'; the column stores an object, which reads back as a dict; a later update or delete raises "can't adapt type 'dict'" and rolls back, so the annotation can never change | the old payload is sent wrapped as JSON (psycopg2's `Json`), so any stored payload is logged exactly | not executed | HistoryStore.CreatedObjectCannotChange, HistoryStore.StructuredPayloadBlocksChanges | HistoryStore.AnnotationUpdateWrapped, HistoryStore.WrappedUpdateLogsPrevious, HistoryStore.AnnotationDeleteKeepingHistory |
