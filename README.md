# doc2text_extractor: a verified model of the job lifecycle

This project is a Dafny model of the core of doc2text_extractor. That service accepts uploaded documents and extracts their text, metadata and images in the background. It serves each extraction job's status and results over HTTP.

The model covers:

- **The job store** (`Database`). The `jobs` table is a `map` from job id to a `Job` record, held by the `JobTable` class. The model includes the status enumeration, `to_dict` and the all-or-nothing, insert-if-absent import `migrate_from_json` of the legacy JSON file.
- **The job manager** (`Jobs`). `JobManager` creates jobs under a fresh id and reads them back. It lists them newest first up to a limit. It runs `process_job` step by step: PROCESSING, resolve an extractor, run it, then COMPLETED or FAILED with the extraction log, then delete the upload. It also runs the expiry sweep `cleanup_old_jobs`. The extractor run, the clock and the failing file-system calls are inputs of the step (`ProcessEnv`).
- **The extractor registry** (`Extractors`). The ordered name-to-extractor table and `register`. First-match `create_extractor` over `can_extract`, the union of supported extensions and the default registration order (pdf, docx, xlsx, markdown). `DocumentMetadata` defaults and its `to_text` rendering.
- **The markdown helpers** (`Markdown`). `extract_front_matter` for YAML and TOML blocks, the heading outline of `extract_headers`, and the front-matter fields and keyword rules of `extract`.
- **The file manager** (`Files`). `sanitize_filename`, the timestamped unique name, type validation and `save_upload_file` with its size limit and error paths. Also `create_result_zip`, `job_output_exists` and `cleanup_uploads_dir`. The upload and output directories are the `Disk` class: a map of stored uploads and a map from job id to its output tree.
- **The routes** (`ApiModels`, `ExtractionRoutes`, `JobRoutes`). The submission route, the download guard chain, the status and result routes and the job listing. Each is written as a function of the job record and a few facts about the file system, with the reply modelled as a body or an HTTP error.

Times are integers (seconds). A `uuid4` id is any string not yet in the table. `mimetypes.guess_type`, `magic`, `yaml.safe_load`, `tomli.loads`, `datetime.isoformat`, `datetime.fromisoformat` and the Unicode class `\w` are function parameters.

Where the code behaves in ways one might not expect, the model follows the code:

- `process_job` sets PROCESSING whatever the job's status was, so statuses are not monotonic. Reprocessing a COMPLETED job can end FAILED and keep its old output path (`Jobs.ReprocessingKeepsStaleOutput`).
- A failed extraction result stores its `error`, which may be None, so a FAILED job can carry no error message.
- The archive holds the job directory's files except the archive itself.
- A job whose output directory cannot be removed stays in the table.
- An upload refused for its content length (413) leaves the empty file that was opened for writing in the upload directory; every other refusal removes it.
- A record imported from JSON whose `created_at` is falsy gets the column default, the import time.

## Model

| member | source | states |
|---|---|---|
| Common.Get | api/routes/jobs.py:81-84 | `dict.get`, on a JSON object or the extractor table, finds a value exactly when the key is present, and the value is one stored under that key |
| Common.FindFrom | core/extractors/markdown_extractor.py:27 | `str.find` from a start index: -1 or the first occurrence at or after the start, with no occurrence before it |
| Common.LastIndexOf | core/file_manager.py:86 | the last position of a character, with none after it; -1 when absent |
| Common.SplitJoin | core/extractors/markdown_extractor.py:54 | joining the parts of `split(sep)` with `sep` gives back the text |
| Common.SplitPartsFree | core/extractors/markdown_extractor.py:82 | no part of `split(sep)` contains the separator |
| Common.Strip | core/extractors/markdown_extractor.py:55-56 | `strip()` gives the slice of the text with only whitespace before and after it, and neither end of a non-empty result is whitespace: exactly the leading and trailing whitespace runs are removed |
| Common.Lower | core/extractors/base.py:114 | `lower()` restricted to ASCII: each upper-case ASCII letter becomes its lower-case letter, every other character is kept, and the length is unchanged |
| Common.NatToString | core/file_manager.py:85 | `str(int(...))` of a timestamp is a non-empty run of digits with no leading zero (unless it is "0") whose decimal value is the timestamp |
| Database.StatusFromValue | core/database.py:35-41 | `JobStatus(value)` succeeds only on a status's own value |
| Database.StatusValuesExact | core/database.py:35-41 | exactly the four values "pending", "processing", "completed", "failed" name a status, each names one status, and the value of a status converts back to it |
| Database.NewJob | core/database.py:49-64 | a new row is PENDING with the given filename, size, type and creation time, and every nullable column unset |
| Database.IsoOrNone | core/database.py:74-76 | an unset timestamp renders as None; a set one as its ISO text |
| Database.ToDict | core/database.py:66-83 | `to_dict` renders the status as its value and unset timestamps as None, and copies every other column |
| Database.LegacyJob | core/database.py:138-161 | a legacy record builds a row only when its status string names a status; the row is keyed by its id; an absent or null error message or output path, and an absent or falsy timestamp, become None; the metrics are always None |
| Database.LegacyJobWellFormed | core/database.py:138-161 | a legacy record builds a row exactly when it is an object whose status names a status, whose filename and file type are text and file size an integer, whose created_at is present and falsy or ISO text, whose other timestamps are absent, falsy or ISO text, and whose error message and output path are absent, null or text |
| Database.LegacyJobFields | core/database.py:138-161 | the row built from a record holds the record's filename, size and type, its text error message and output path, its truthy timestamps parsed from their ISO text, and the import time for a falsy created_at |
| Database.ImportFromAdds | core/database.py:129-166 | an import session adds rows keyed by their own ids under exactly the document's ids not in the table, and never touches an existing id |
| Database.ImportFromKeys | core/database.py:131-163 | the ids a session ends with are the ids it began with plus the document's new ids |
| Database.ImportFromKeeps | core/database.py:131-163 | every added row is keyed by its own id, and rows added earlier in the session are kept |
| Database.ImportNeverOverwrites | core/database.py:131-135 | after an import every existing row is unchanged and still present |
| Database.ImportAddsNewIds | core/database.py:129-166 | a successful import adds rows under exactly the ids not previously present |
| Database.ImportFromKnownIds | core/database.py:131-135 | a document whose ids are all in the table adds nothing |
| Database.ImportCoversIds | core/database.py:131-165 | after a successful import every id of the document is in the table |
| Database.LegacyJobFailureIgnoresClock | core/database.py:144-148 | whether a record fails does not depend on the import time |
| Database.ImportFailureIgnoresClock | core/database.py:125-169 | whether an import fails depends only on the document and the table, not on the clock |
| Database.ImportIdempotent | core/database.py:131-135 | importing the same file a second time leaves the table unchanged |
| Database.JobTable.constructor | core/database.py:86-88 | a fresh table is empty |
| Database.JobTable.MigrateFromJson | core/database.py:117-169 | the table gains exactly the rows of a fully successful import, or stays as it was when the file is missing, undecodable, not an object or any record fails; the count is the number of rows added |
| Extractors.NewDocumentMetadata | core/extractors/base.py:35-41 | omitted keywords become [], omitted document properties {}, and an omitted extraction timestamp the current time |
| Extractors.GroupDigitsGroups | core/extractors/base.py:69 | the `:,` grouping splits the digits into a leading group of one to three and groups of exactly three, and removing the commas gives the digits back |
| Extractors.PropertyLines | core/extractors/base.py:87-88 | one "key: value" line per property, in order |
| Extractors.ToTextFields | core/extractors/base.py:69-78 | the file size carries thousands separators; keywords are joined with ", " or read N/A when empty; a falsy page count (None or 0) reads N/A |
| Extractors.ToTextDates | core/extractors/base.py:72 | a missing creation date reads N/A; a present one is written in ISO form |
| Extractors.ToTextNames | core/extractors/base.py:74-76 | a missing or empty author, title or subject reads N/A; a non-empty author is written as is |
| Extractors.FieldLinesFirst | core/extractors/base.py:64-89 | `to_text` starts with the seventeen field lines |
| Extractors.ToTextProperties | core/extractors/base.py:84-89 | the "Document Properties:" section appears exactly when there are properties, with one "key: value" line per entry in order and a closing blank line |
| Extractors.PathName | core/extractors/base.py:114 | a path's name holds no separator |
| Extractors.PathNameIsLastComponent | core/extractors/base.py:114 | a path's name is the text after its last '/': a suffix of the path, preceded by '/' unless it is the whole path |
| Extractors.Suffix | core/extractors/base.py:114 | `Path.suffix` is empty or a dot followed by text without a dot |
| Extractors.SuffixAtDot | core/extractors/base.py:114 | the suffix starts at the last dot, unless that dot is leading or trailing |
| Extractors.SuffixNoDot | core/extractors/base.py:114 | a name without a dot has no suffix |
| Extractors.RegisterBinds | core/extractors/base.py:133-134 | `register` binds the name to the class; a new name is appended, an existing one keeps its position; every other binding is unchanged |
| Extractors.LookupDistinct | core/extractors/base.py:133-134 | in a table with distinct names, each entry is what its name looks up |
| Extractors.FirstMatch | core/extractors/base.py:136-141 | `create_extractor` returns the first extractor in registration order that can extract the file, and None exactly when none can |
| Extractors.ResolvesIffSupported | core/extractors/base.py:113-117 | a file resolves exactly when its lower-cased suffix is a supported extension or its guessed MIME type is a supported MIME type |
| Extractors.ResolveByExtension | core/extractors/base.py:136-141 | a file whose suffix belongs to an extractor resolves to it, unless an earlier extractor claims its MIME type |
| Extractors.ResolvesPdf | core/extractors/__init__.py:13 | a ".pdf" file resolves to the PDF extractor, whatever its MIME guess |
| Extractors.TxtResolvesToNothing | core/extractors/base.py:136-141 | a ".txt" file guessed as text/plain resolves to no extractor |
| Extractors.LegacyOfficeSuffixes | core/extractors/base.py:113-117 | ".doc" is accepted by the DOCX extractor and ".xls" by the XLSX extractor; neither accepts a ".pdf" file whose MIME guess is application/pdf or none |
| Extractors.DefaultExtensionsDisjoint | core/extractors/__init__.py:13-16 | the four registered extractors' extension lists are pairwise disjoint |
| Extractors.DefaultSupportedExtensions | core/extractors/__init__.py:13-16 | the supported extensions are exactly .pdf, .docx, .doc, .xlsx, .xls, .md, .markdown, .mdown and .mkd |
| Extractors.ExtractorFactory.constructor | core/extractors/base.py:130-131 | a new factory has no extractors |
| Extractors.ExtractorFactory.Register | core/extractors/base.py:133-134 | the table after `register` is the registration of the name into the old table |
| Extractors.ExtractorFactory.GetSupportedExtensions | core/extractors/base.py:143-148 | the result holds exactly the extensions of some registered extractor |
| Extractors.DefaultRegistrations | core/extractors/__init__.py:13-16 | registering pdf, docx, xlsx and markdown one after the other into an empty table yields exactly those four entries in that order |
| Extractors.NewDefaultFactory | core/extractors/__init__.py:13-16 | the global factory holds pdf, docx, xlsx and markdown, in that order |
| Markdown.OrEmpty | core/extractors/markdown_extractor.py:30 | `load(...) or {}` keeps a truthy document and turns a falsy one into {} |
| Markdown.ExtractFrontMatter | core/extractors/markdown_extractor.py:21-50 | the body returned is always a suffix of the content, and a body equal to the content comes with empty front matter |
| Markdown.NoFrontMatter | core/extractors/markdown_extractor.py:21-25 | content starting with neither "---\n" nor "+++\n" gives {} and the content unchanged |
| Markdown.YamlFrontMatter | core/extractors/markdown_extractor.py:25-33 | the YAML block is `content[4:k]` for the first "\n---\n" at or after 4, and the body follows it; no closing delimiter or a parse error leaves {} and the content unchanged |
| Markdown.TomlFrontMatter | core/extractors/markdown_extractor.py:35-48 | the TOML block is `content[4:k]`; without tomli the front matter stays {} but the block is still removed; a decode error leaves the content unchanged |
| Markdown.YamlRoundTrip | core/extractors/markdown_extractor.py:25-31 | a YAML block with no inner delimiter, framed by the delimiters, comes back with the body that follows |
| Markdown.EmptyYamlBlockNotRecognised | core/extractors/markdown_extractor.py:27 | "---\n---\n" is not recognised as an empty block, because the search for the closing delimiter starts at index 4 |
| Markdown.HeadingMatches | core/extractors/markdown_extractor.py:55-57 | an outline entry is produced only for a stripped line matching `^#+\s+.+` |
| Markdown.MatchGivesHeading | core/extractors/markdown_extractor.py:55-60 | every stripped line matching `^#+\s+.+` yields the title after the whitespace run, indented by its level |
| Markdown.HeadingLine | core/extractors/markdown_extractor.py:56-60 | `level` hashes, a space and a title give two spaces per level below the first, then the title |
| Markdown.Or | core/extractors/markdown_extractor.py:75 | `a or b` keeps a truthy `a` and otherwise gives `b` |
| Markdown.StrippedParts | core/extractors/markdown_extractor.py:82 | one stripped text per comma-separated part, in order |
| Markdown.KeywordRules | core/extractors/markdown_extractor.py:77-82 | `keywords` takes precedence over `tags`; a list is used as is; a text is split on "," with each part stripped; anything else leaves the default |
| Markdown.ApplyFrontMatter | core/extractors/markdown_extractor.py:72-89 | a truthy mapping sets title, author, subject (or else description) and the keywords; a falsy front matter records that there is none; a truthy value that is not a mapping fails at its first `get` |
| Markdown.ExtractHeaders | core/extractors/markdown_extractor.py:52-61 | the headers are the outline of the content's lines, in document order |
| Markdown.CollectHeaders | core/extractors/markdown_extractor.py:53-61 | the loop appends each line's entry, building exactly the outline of the lines |
| Files.Disk.constructor | core/file_manager.py:21-23 | the upload and output directories start empty |
| Files.CollapseRules | core/file_manager.py:37 | collapsing underscore runs leaves no two consecutive underscores, keeps the first character and every other character, and changes nothing when there is no run |
| Files.Sanitize | core/file_manager.py:32-43 | the sanitised name is never empty and never starts with '.' |
| Files.SanitizeRules | core/file_manager.py:32-43 | a sanitised name holds only word characters, '-', '_' and '.', never two consecutive underscores, is never empty, never starts with '.', and holds no path separator |
| Files.SanitizeKeepsSafe | core/file_manager.py:32-43 | a name that is already safe is left unchanged |
| Files.SanitizeIdempotent | core/file_manager.py:32-43 | sanitising twice gives the same name as sanitising once |
| Files.UniqueNameIsPlain | core/file_manager.py:85-87 | the unique name holds no separator and does not start with '.' when the safe name does not |
| Files.StampHasNoSeparator | core/file_manager.py:85 | the timestamp text holds neither '.' nor '/' |
| Files.UniqueNameKeepsSuffix | core/file_manager.py:85-87 | the unique name keeps the safe name's suffix |
| Files.UniqueNoDot | core/file_manager.py:86-87 | a name without '.' becomes name_ts, with no suffix |
| Files.UniqueAtDot | core/file_manager.py:86-87 | a name split at its last '.' becomes name_ts.ext, with the same suffix |
| Files.SuffixOfParts | core/file_manager.py:87 | the suffix of `name.ext` is ".ext" when ext has no dot |
| Files.ValidateFileType | core/file_manager.py:45-66 | a file is accepted exactly when its lower-cased suffix is supported, the MIME sniff succeeds and some extractor takes it, and then it carries the sniffed type; an unsupported suffix is refused naming the suffix |
| Files.ValidationNeedsOnlyExtension | core/file_manager.py:45-66 | against the factory's own extensions a stored file validates exactly when its suffix is supported and the MIME sniff succeeds, and then it carries the sniffed type |
| Files.SaveUpload | core/file_manager.py:68-127 | a stored upload is the only change to the upload directory, recorded under the returned name with its content length; a refusal is a 400, 413 or 500, and only a 413 can leave a new file |
| Files.SaveSizeLimit | core/file_manager.py:72-101 | an upload is refused with 413 exactly when its declared size or its content exceeds the limit; a size equal to the limit is accepted |
| Files.SaveStores | core/file_manager.py:68-113 | an upload is stored exactly when it has a name, is within the limit, is written and validates; it is stored under the sanitised unique name with its content length |
| Files.SaveRefusalCleansUp | core/file_manager.py:68-127 | a refusal other than 413 leaves no new file in the upload directory |
| Files.SaveTooLargeDeclared | core/file_manager.py:72-77 | a 413 raised for the declared size, before anything is written, leaves the upload directory unchanged |
| Files.ArchiveIgnoresItself | core/file_manager.py:138-146 | the archive members do not depend on an earlier archive in the directory |
| Files.ArchiveOfDirectoriesIsEmpty | core/file_manager.py:142-146 | only regular files become archive members |
| Files.FileManager.constructor | core/file_manager.py:16-26 | the manager's supported extensions are the factory's |
| Files.FileManager.SaveUploadFile | core/file_manager.py:68-127 | the outcome and the upload directory are those of the save rules; the output directories are untouched |
| Files.FileManager.CreateResultZip | core/file_manager.py:129-153 | an archive of the job directory's regular files other than itself is written into the directory exactly when the directory exists and the write succeeds; otherwise nothing changes |
| Files.FileManager.JobOutputExists | core/file_manager.py:168-170 | true exactly when the job's output directory exists and holds an entry |
| Files.FileManager.CleanupUploadsDir | core/file_manager.py:179-201 | every stale stored file whose unlink succeeds is removed, nothing else; the count is the number removed |
| Files.CleanupRemovesOnlyStale | core/file_manager.py:183-195 | a file is removed exactly when it is a regular file older than the cutoff and its unlink succeeds; the files kept are unchanged |
| Files.CleanupIdempotent | core/file_manager.py:183-195 | sweeping the uploads a second time removes nothing more |
| Jobs.ApiStatusFromValue | api/models.py:7-11 | the API status enumeration has exactly the four values |
| Jobs.ToApiStatus | core/job_manager.py:24-27 | the API status carries the same value as the table status |
| Jobs.ApiStatusBijective | core/job_manager.py:24-27 | the status conversion maps the four statuses one to one |
| Jobs.FreshIdExists | core/job_manager.py:68 | a fresh id, not in the table, always exists |
| Jobs.NewestFirstStep | core/job_manager.py:96 | appending a newest remaining row keeps the listing ordered by creation time, descending |
| Jobs.Infos | core/job_manager.py:97 | one `JobInfo` per listed id, in order |
| Jobs.LimitCount | core/job_manager.py:96 | `LIMIT` returns at most the rows there are and at most a non-negative limit; a negative limit returns every row |
| Jobs.RunExtraction | core/job_manager.py:114-176 | the extraction steps end in the processed row and output tree |
| Jobs.SweepIsWithout | core/job_manager.py:197-220 | removing the expired rows whose removal succeeds one by one gives the swept table and output directories |
| Jobs.JobManager.constructor | core/job_manager.py:54-62 | the manager keeps the table, the disk, the registry, the output directory and the retention window |
| Jobs.JobManager.CreateJob | core/job_manager.py:66-83 | exactly one row is added, under a fresh id, PENDING with the given fields and creation time; no other row changes |
| Jobs.JobManager.GetJob | core/job_manager.py:85-91 | a job is found exactly when its id is in the table, and its info carries every column with the status converted |
| Jobs.JobManager.Newest | core/job_manager.py:96 | picks a job with the latest creation time among the remaining ones |
| Jobs.JobManager.ListJobs | core/job_manager.py:93-97 | the listing is `LimitCount` rows, newest first |
| Jobs.JobManager.Begin | core/job_manager.py:104-117 | the row is set to PROCESSING with its start time and the job directory exists |
| Jobs.JobManager.Commit | core/job_manager.py:131-184 | the final row and output tree are stored and the upload is deleted |
| Jobs.JobManager.ProcessJob | core/job_manager.py:99-189 | an unknown id returns false and changes nothing, not even the upload; otherwise the row ends processed, the output tree holds what was written, the upload is deleted, and the result is true exactly when the job is COMPLETED |
| Jobs.JobManager.Remove | core/job_manager.py:209-214 | a job's output directory and row are removed together |
| Jobs.JobManager.CleanupOldJobs | core/job_manager.py:191-220 | the table and output directories become the swept ones; a removal can fail only for a job whose output directory exists, so an expired job without one is always deleted; the uploads are untouched |
| Jobs.ProcessingEnds | core/job_manager.py:110-176 | processing sets the start and completion times and ends COMPLETED or FAILED, with identity, name, size, type and creation time unchanged |
| Jobs.ProcessingSucceeds | core/job_manager.py:134-154 | a job completes exactly when an extractor is found, returns a successful result and the log is written; then it records the output path, text length, image count and extractor name, and the log holds the same values |
| Jobs.ProcessingFails | core/job_manager.py:120-176 | a failure leaves output path and metrics as they were; its message is "No extractor found for file type: " and the suffix, the exception text, the result's error or the log write error |
| Jobs.FreshJobOutcome | core/job_manager.py:134-176 | a job processed from PENDING ends COMPLETED with its output path, or FAILED with no output path and no metrics |
| Jobs.ReprocessingKeepsStaleOutput | core/job_manager.py:104-122 | reprocessing a COMPLETED job with no extractor ends FAILED but keeps the old output path |
| Jobs.ProcessingRemovesUpload | core/job_manager.py:178-184 | the upload is deleted unless its unlink fails; no other stored file changes |
| Jobs.Expired | core/job_manager.py:199-202 | only COMPLETED and PENDING jobs expire: a COMPLETED one only with a completion time before the cutoff, a PENDING one only when created before it |
| Jobs.SweepRemovesExactlyExpired | core/job_manager.py:197-220 | the sweep removes exactly the expired jobs whose directory removal succeeds; FAILED and PROCESSING jobs, PENDING jobs created at or after the cutoff and COMPLETED jobs with no completion time or one at or after the cutoff are never removed; kept rows are unchanged |
| Jobs.SweepIdempotent | core/job_manager.py:197-220 | sweeping again with the same cutoff changes nothing |
| ExtractionRoutes.SubmittedSizeWithinLimit | api/routes/extraction.py:38 | the recorded size of a submitted job never exceeds the upload limit; an absent or zero declared size falls back to the stored size |
| ExtractionRoutes.SubmittedTypeSupported | api/routes/extraction.py:39 | the recorded file type is a supported extension |
| ExtractionRoutes.ExtractDocument | api/routes/extraction.py:31-58 | a refused upload's HTTP error passes through unchanged; a failure creating the job becomes 500; otherwise one PENDING job is added under a fresh id with the uploaded name, the submitted size and the lower-cased suffix |
| ExtractionRoutes.Download | api/routes/extraction.py:76-101 | 404 for an unknown job, 400 naming the current status for a job not COMPLETED, 404 for missing output, 500 when no archive is made, and otherwise the archive named after the file and the job |
| ExtractionRoutes.CompletedJobDownloadable | api/routes/extraction.py:76-90 | a job that processing left COMPLETED has an output directory holding an entry and passes every guard of the download |
| ExtractionRoutes.DownloadResults | api/routes/extraction.py:76-101 | the reply follows the guard chain, and the archive is written only after every guard passes |
| JobRoutes.GetJobStatus | api/routes/jobs.py:35-49 | an unknown id gives 404 "Job not found"; a known one its status and fields |
| JobRoutes.StatusHidesOutputPath | api/routes/jobs.py:39-49 | the status response does not depend on the output path |
| JobRoutes.GetJobResult | api/routes/jobs.py:64-92 | summary and download URL are attached only to a COMPLETED job with an output path; a summary always comes with the URL and has_metadata; the URL is attached exactly when there is no log or the log gives a summary |
| JobRoutes.Summarize | api/routes/jobs.py:80-85 | a summary comes only from an object log, carries has_metadata and the log's text length and image count; a log missing all three fields gives 0, 0 and "unknown" |
| JobRoutes.Attachments | api/routes/jobs.py:72-90 | a summary comes only from a parsed log and always with the download URL; the URL is missing exactly when reading the log raised or the log gives no summary |
| JobRoutes.LogSummary | api/routes/jobs.py:80-85 | the summary of an extraction log gives back its text length, image count and extractor |
| JobRoutes.LogExtractor | api/routes/jobs.py:84 | the log's extractor_used field is found |
| JobRoutes.LogTextLength | api/routes/jobs.py:81 | the log's text_length field is found |
| JobRoutes.LogImagesCount | api/routes/jobs.py:82 | the log's images_count field is found |
| JobRoutes.ProcessedSummaryMatchesJob | core/job_manager.py:134-154 | the result summary of a completed job agrees with the metrics recorded on its row |
| JobRoutes.NegativeLimitExceedsCap | api/routes/jobs.py:97 | as written, the limit check accepts -1, which returns 201 of 201 jobs, more than the cap of 200 |
| JobRoutes.AcceptedLimitCaps | api/routes/jobs.py:97 | with the lower bound in place an accepted limit returns at most 200 jobs |
| JobRoutes.BoundedListReply | api/routes/jobs.py:97 | with `ge=0` added a negative limit is refused with 422 as well, and otherwise the reply is the route's own |
| JobRoutes.BoundedListJobsRoute | api/routes/jobs.py:95-134 | with `ge=0` added every listing holds at most `limit` jobs, and so at most 200 |
| JobRoutes.FilterStatus | api/routes/jobs.py:111-112 | the filter keeps exactly the jobs with the requested status, in the order listed; no filter keeps all |
| JobRoutes.StatusResponses | api/routes/jobs.py:114-128 | one status response per job, in order |
| JobRoutes.ListReply | api/routes/jobs.py:97-130 | as written, 422 exactly for a limit above 200 (a negative limit is accepted); otherwise the reply holds exactly the listed jobs with the requested status, in the order listed (all of them without a status filter), and the total is the number returned |
| JobRoutes.ListJobsRoute | api/routes/jobs.py:95-134 | as written: 422 exactly for a limit above 200; otherwise the filter applied to the newest `limit` jobs, so a non-negative limit bounds the total, while a negative limit lists the whole table newest first |
| JobRoutes.LimitThenFilterMissesOlder | api/routes/jobs.py:108-112 | because the limit is applied before the filter, an older matching job can be missed |

## Left out

- Concurrency: the thread pool, `run_in_executor`, the asyncio cleanup worker and its 3600 s / 300 s sleeps, `start_cleanup_task`, `shutdown`, and the background tasks that `extract_document` schedules. Processing and the sweep are sequential steps.
- SQLAlchemy engine and session mechanics. The table is a map; a session is all-or-nothing; a storage fault is not modelled.
- `processing_time`: it is a float duration, and no property depends on it.
- The format extractors' bodies (pdfplumber, PyMuPDF, python-docx, openpyxl) and the markdown2/BeautifulSoup text assembly in `MarkdownExtractor.extract`. An extractor run is the input `ExtractorRun`.
- `DocumentMetadata.to_dict`, `get_file_metadata` and `save_metadata`: they are glue over the file system and `stat`.
- `cleanup_file`, `get_job_output_dir` and `get_job_files`: no route or core step in the model depends on them.
- The content of written files: content.txt and meta.txt are not modelled, and archive compression is abstract. The archive records only its member names.
- An archive or log left half-written by a failing write; a partial `rmtree`; a failing `mkdir`; the files an extractor wrote into the output directory before it raised (the model keeps the directory as it was).
- Python's integer-like coercions in pydantic (a bool, text or float field accepted as an int): a log field of another type gives no summary.
- Duplicate keys in a JSON object: lookup takes the first, while `json.load` keeps the last.
- Database.LegacyJob: a record field of the wrong JSON type (a text `file_size`, a numeric `filename` or `file_type`, a numeric or boolean `error_message` or `output_path`) makes the record, and so the import, fail, while SQLAlchemy hands the value to SQLite, whose column affinity stores it and lets the commit succeed. JSON floats are not representable in the model's values. A document naming one id twice fails the import (the `id in pending` branch of `Database.ImportFrom`), while `json.load` keeps the last record for that id and imports it.
- Common.Lower: case mapping is ASCII-only. Python's `str.lower()` also maps non-ASCII letters, some to ASCII (U+212A KELVIN SIGN to 'k', so `notes.mKd` is a markdown file in the source but refused by the model) and some to longer text (U+0130 becomes two characters); none of these mappings is modelled.
- The 500 reply of `list_jobs` on a database error, and a stored upload whose name is a directory.
- File modification times are integers, not floats.
- Files.FileManager.CleanupUploadsDir: entries that are not regular files are never removed, and an error listing the directory is not modelled.
- Jobs.JobManager.ProcessJob: the final re-read of the row is taken to find it; a concurrent deletion between the steps is not modelled.
- Extractors.Suffix: `Path.suffix` is modelled on a plain file name without a trailing separator.

## Findings

| source | as written | input that shows it | evidently intended | confidence | as-written member | corrected member |
|---|---|---|---|---|---|---|
| api/routes/jobs.py:97 | `Query(default=50, le=200)` bounds the limit only from above; `list_jobs` passes it to SQL `LIMIT`, where a negative value means no limit (core/job_manager.py:96) | `limit=-1` with 201 jobs in the table returns all 201 | at most 200 jobs per listing (`ge=0` as well) | not executed | JobRoutes.ListJobsRoute, JobRoutes.NegativeLimitExceedsCap | JobRoutes.BoundedListJobsRoute, JobRoutes.AcceptedLimitCaps |
