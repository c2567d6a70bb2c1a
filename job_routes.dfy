/** The routes of api/routes/jobs.py: a job's status, the summary of its results,
    and the listing of recent jobs (limit first, then the optional status filter). */
module JobRoutes {
  import opened Common
  import opened Database
  import opened Extractors
  import opened Files
  import opened Jobs
  import opened ApiModels

  // ---------------------------------------------------------------------------
  // GET /jobs/{job_id}

  /** `get_job_status(job_id)` given what `get_job` returned. */
  function GetJobStatus(info: Option<JobInfo>): (r: Reply<JobStatusResponse>)
    ensures r.Ok? <==> info.Some?
    ensures r.HttpError? ==> r == HttpError(404, "Job not found")
    ensures r.Ok? ==> r.body.jobId == info.value.jobId && r.body.status == info.value.status
                      && r.body.errorMessage == info.value.errorMessage
  {
    if info.None? then HttpError(404, "Job not found") else Ok(StatusResponse(info.value))
  }

  /** The status response never exposes the output path: two jobs that differ only
      there give the same response. */
  lemma StatusHidesOutputPath(info: JobInfo, outputPath: Option<string>)
    ensures GetJobStatus(Some(info)) == GetJobStatus(Some(info.(outputPath := outputPath)))
  {
  }

  // ---------------------------------------------------------------------------
  // GET /jobs/{job_id}/result

  /** The extraction log of a job as `get_job_result` finds it: absent (no job
      directory, or no log in it), unreadable (a directory, or a file that is not
      JSON), or a decoded JSON document. */
  datatype LogFile = NoLog | Unreadable | Parsed(doc: Value)

  function ReadLog(outputs: map<string, Tree>, jobId: string): LogFile {
    if jobId !in outputs || LogName !in outputs[jobId] then NoLog
    else match outputs[jobId][LogName]
      case RegularFile(Json(doc)) => Parsed(doc)
      case _ => Unreadable
  }

  /** `log_data.get(key, 0)` validated as an `int` field: the default when the key
      is absent, None (a validation error) when the value is not an integer. */
  function IntField(entries: seq<(string, Value)>, key: string): Option<int> {
    match Get<Value>(entries, key)
    case None => Some(0)
    case Some(Num(n)) => Some(n)
    case Some(_) => None
  }

  /** `log_data.get(key, default)` validated as a `str` field. */
  function StrField(entries: seq<(string, Value)>, key: string, fallback: string): Option<string> {
    match Get<Value>(entries, key)
    case None => Some(fallback)
    case Some(Str(s)) => Some(s)
    case Some(_) => None
  }

  /** The `ExtractionResultSummary` built from a decoded log, None where building it
      raises: the log is not an object or a field has the wrong type. */
  function Summarize(doc: Value): (r: Option<ExtractionResultSummary>)
    ensures r.Some? ==> doc.Dict? && r.value.hasMetadata
    ensures r.Some? ==> IntField(doc.entries, "text_length") == Some(r.value.textLength)
                        && IntField(doc.entries, "images_count") == Some(r.value.imagesCount)
    ensures doc.Dict? && Get(doc.entries, "text_length") == None && Get(doc.entries, "images_count") == None
            && Get(doc.entries, "extractor_used") == None
            ==> r == Some(ExtractionResultSummary(0, 0, true, "unknown"))
  {
    if !doc.Dict? then None
    else
      var text := IntField(doc.entries, "text_length");
      var images := IntField(doc.entries, "images_count");
      var extractor := StrField(doc.entries, "extractor_used", "unknown");
      if text.None? || images.None? || extractor.None? then None
      else Some(ExtractionResultSummary(text.value, images.value, true, extractor.value))
  }

  function DownloadUrl(jobId: string): string {
    "/api/extract/" + jobId + "/download"
  }

  /** What the `try` block attaches to the response: the summary when the log exists
      and yields one, and the download URL unless reading the log raised. */
  function Attachments(jobId: string, log: LogFile): (r: (Option<ExtractionResultSummary>, Option<string>))
    ensures r.0.Some? ==> log.Parsed? && r.0 == Summarize(log.doc)
    ensures r.1.Some? ==> r.1.value == DownloadUrl(jobId)
    ensures r.1.None? <==> log.Unreadable? || (log.Parsed? && Summarize(log.doc).None?)
    ensures r.0.Some? ==> r.1.Some?
  {
    match log
    case NoLog => (None, Some(DownloadUrl(jobId)))
    case Unreadable => (None, None)
    case Parsed(doc) =>
      var summary := Summarize(doc);
      if summary.None? then (None, None) else (summary, Some(DownloadUrl(jobId)))
  }

  /** `get_job_result(job_id)` given what `get_job` returned and the job's log. */
  function GetJobResult(jobId: string, info: Option<JobInfo>, log: LogFile): (r: Reply<JobResultResponse>)
    ensures r.Ok? <==> info.Some?
    ensures r.HttpError? ==> r == HttpError(404, "Job not found")
    ensures r.Ok? ==> r.body.jobId == info.value.jobId && r.body.status == info.value.status
                      && r.body.filename == info.value.filename
    ensures r.Ok? && (r.body.resultSummary.Some? || r.body.downloadUrl.Some?) ==>
              info.value.status == ApiCompleted && info.value.outputPath.Some? && info.value.outputPath.value != ""
    ensures r.Ok? && r.body.resultSummary.Some? ==>
              r.body.downloadUrl == Some(DownloadUrl(jobId)) && r.body.resultSummary.value.hasMetadata
    ensures r.Ok? && info.value.status == ApiCompleted && info.value.outputPath.Some?
            && info.value.outputPath.value != "" ==>
              (r.body.downloadUrl.Some? <==> log.NoLog? || (log.Parsed? && Summarize(log.doc).Some?))
  {
    if info.None? then HttpError(404, "Job not found")
    else
      var i := info.value;
      var (summary, url) :=
        if i.status == ApiCompleted && i.outputPath.Some? && i.outputPath.value != "" then Attachments(jobId, log)
        else (None, None);
      Ok(JobResultResponse(i.jobId, i.status, i.filename, summary, url))
  }

  /** The log `process_job` writes yields the summary of the counts and the class
      it records. */
  lemma LogSummary(jobId: string, filename: string, className: string, timestamp: string,
                   textLength: int, imagesCount: int)
    ensures Summarize(ExtractionLog(jobId, filename, className, timestamp, textLength, imagesCount))
            == Some(ExtractionResultSummary(textLength, imagesCount, true, className))
  {
    var entries := ExtractionLog(jobId, filename, className, timestamp, textLength, imagesCount).entries;
    LogExtractor(entries, jobId, filename, className, timestamp, textLength, imagesCount);
    LogTextLength(entries, jobId, filename, className, timestamp, textLength, imagesCount);
    LogImagesCount(entries, jobId, filename, className, timestamp, textLength, imagesCount);
  }

  // The three fields the summary reads, each found after keys different from it.

  lemma LogExtractor(entries: seq<(string, Value)>, jobId: string, filename: string, className: string,
                     timestamp: string, textLength: int, imagesCount: int)
    requires entries == ExtractionLog(jobId, filename, className, timestamp, textLength, imagesCount).entries
    ensures StrField(entries, "extractor_used", "unknown") == Some(className)
  {
    GetFirst(entries, "extractor_used", 2);
  }

  lemma LogTextLength(entries: seq<(string, Value)>, jobId: string, filename: string, className: string,
                      timestamp: string, textLength: int, imagesCount: int)
    requires entries == ExtractionLog(jobId, filename, className, timestamp, textLength, imagesCount).entries
    ensures IntField(entries, "text_length") == Some(textLength)
  {
    GetFirst(entries, "text_length", 4);
  }

  lemma LogImagesCount(entries: seq<(string, Value)>, jobId: string, filename: string, className: string,
                       timestamp: string, textLength: int, imagesCount: int)
    requires entries == ExtractionLog(jobId, filename, className, timestamp, textLength, imagesCount).entries
    ensures IntField(entries, "images_count") == Some(imagesCount)
  {
    GetFirst(entries, "images_count", 5);
  }

  /** The summary of a job that processing left COMPLETED repeats what the job
      recorded: its text length, its image count and its extractor class. */
  lemma ProcessedSummaryMatchesJob(j: Job, cls: Option<Extractor>, suffix: string, outputPath: string,
                                   outputs: map<string, Tree>, env: ProcessEnv)
    requires ProcessedJob(j, cls, suffix, outputPath, env).status == Completed
    ensures var p := ProcessedJob(j, cls, suffix, outputPath, env);
            var after := outputs[j.jobId := ProcessedTree(MadeDir(outputs, j.jobId), j, cls, env)];
            && ReadLog(after, j.jobId).Parsed?
            && Summarize(ReadLog(after, j.jobId).doc)
               == Some(ExtractionResultSummary(p.textLength.value, p.imagesCount.value, true, p.extractorUsed.value))
  {
    var p := ProcessedJob(j, cls, suffix, outputPath, env);
    var dir := MadeDir(outputs, j.jobId);
    ProcessingSucceeds(j, cls, suffix, outputPath, dir, env);
    var log := ExtractionLog(j.jobId, j.filename, p.extractorUsed.value, env.iso(env.clock.logged),
                             p.textLength.value, p.imagesCount.value);
    var after := outputs[j.jobId := ProcessedTree(dir, j, cls, env)];
    assert ReadLog(after, j.jobId) == Parsed(log);
    LogSummary(j.jobId, j.filename, p.extractorUsed.value, env.iso(env.clock.logged),
               p.textLength.value, p.imagesCount.value);
  }

  // ---------------------------------------------------------------------------
  // GET /jobs

  /** The largest `limit` the query parameter declares. */
  const MaxListLimit := 200

  /** The `limit` the route accepts as written: `le=200` with no lower bound. */
  predicate LimitAcceptedAsWritten(limit: int) {
    limit <= MaxListLimit
  }

  /** A negative limit passes the check as written and lists the whole table, since
      SQLite reads a negative LIMIT as no limit: 201 jobs come back under a cap of 200. */
  lemma NegativeLimitExceedsCap()
    ensures LimitAcceptedAsWritten(-1) && LimitCount(-1, 201) == 201 > MaxListLimit
  {
  }

  /** The `limit` the route accepts with the lower bound `ge=0` added. */
  predicate LimitAccepted(limit: int) {
    0 <= limit <= MaxListLimit
  }

  /** With the lower bound, no accepted listing holds more than 200 jobs. */
  lemma AcceptedLimitCaps(limit: int, n: nat)
    requires LimitAccepted(limit)
    ensures LimitCount(limit, n) <= MaxListLimit
    ensures LimitCount(limit, n) == if limit < n then limit else n
  {
  }

  /** `[job for job in jobs if job.status == status]` when a status is given. */
  function FilterStatus(infos: seq<JobInfo>, status: Option<ApiStatus>): (r: seq<JobInfo>)
    ensures |r| <= |infos|
    ensures forall x :: x in r <==> x in infos && (status.None? || x.status == status.value)
    ensures status.None? ==> r == infos
    ensures InOrder(r, infos)
  {
    if |infos| == 0 then []
    else
      var rest := FilterStatus(infos[1..], status);
      assert forall x :: x in infos <==> x == infos[0] || x in infos[1..];
      InOrderTail(rest, infos);
      if status.None? || infos[0].status == status.value then
        InOrderCons(rest, infos);
        [infos[0]] + rest
      else rest
  }

  /** Every two entries of `r` appear in `s` in the same order: `r` keeps the order
      of the listing it was taken from. */
  predicate InOrder<T(==)>(r: seq<T>, s: seq<T>) {
    forall a, b :: 0 <= a < b < |r| ==> OrderedIn(r[a], r[b], s)
  }

  /** `x` occurs in `s` before an occurrence of `y`. */
  predicate OrderedIn<T(==)>(x: T, y: T, s: seq<T>) {
    exists i, k :: 0 <= i < k < |s| && x == s[i] && y == s[k]
  }

  lemma InOrderTail<T>(r: seq<T>, s: seq<T>)
    requires |s| > 0 && InOrder(r, s[1..])
    ensures InOrder(r, s)
  {
    forall a, b | 0 <= a < b < |r|
      ensures OrderedIn(r[a], r[b], s)
    {
      assert OrderedIn(r[a], r[b], s[1..]);
      var i, k :| 0 <= i < k < |s[1..]| && r[a] == s[1..][i] && r[b] == s[1..][k];
      assert r[a] == s[i + 1] && r[b] == s[k + 1];
    }
  }

  lemma InOrderCons<T>(r: seq<T>, s: seq<T>)
    requires |s| > 0 && InOrder(r, s)
    requires forall x :: x in r ==> x in s[1..]
    ensures InOrder([s[0]] + r, s)
  {
    var t := [s[0]] + r;
    forall a, b | 0 <= a < b < |t|
      ensures OrderedIn(t[a], t[b], s)
    {
      if a == 0 {
        assert t[b] == r[b - 1] && r[b - 1] in s[1..];
        var k :| 0 <= k < |s[1..]| && s[1..][k] == r[b - 1];
        assert t[a] == s[0] && t[b] == s[k + 1];
      } else {
        assert t[a] == r[a - 1] && t[b] == r[b - 1];
        assert OrderedIn(r[a - 1], r[b - 1], s);
      }
    }
  }

  function StatusResponses(infos: seq<JobInfo>): (r: seq<JobStatusResponse>)
    ensures |r| == |infos|
    ensures forall k :: 0 <= k < |infos| ==> r[k] == StatusResponse(infos[k])
  {
    seq(|infos|, k requires 0 <= k < |infos| => StatusResponse(infos[k]))
  }

  /** The listing route as written, given the rows the manager listed: a limit above
      200 is refused with 422 (the validation error of the query parameter); any other
      limit, a negative one included, lists what the manager returned. */
  function ListReply(limit: int, status: Option<ApiStatus>, listed: seq<JobInfo>): (r: Reply<JobListResponse>)
    ensures r.HttpError? <==> !LimitAcceptedAsWritten(limit)
    ensures r.HttpError? ==> r.code == 422
    ensures r.Ok? ==> r.body.total == |r.body.jobs| <= |listed|
    ensures r.Ok? ==> forall k :: 0 <= k < |r.body.jobs| ==>
                        exists x :: x in listed && r.body.jobs[k] == StatusResponse(x)
                                    && (status.None? || x.status == status.value)
    ensures r.Ok? ==> forall x :: x in listed && (status.None? || x.status == status.value) ==>
                        StatusResponse(x) in r.body.jobs
    ensures r.Ok? ==> InOrder(r.body.jobs, StatusResponses(listed))
    ensures r.Ok? && status.None? ==> r.body.jobs == StatusResponses(listed)
  {
    if !LimitAcceptedAsWritten(limit) then HttpError(422, "limit: Input should be less than or equal to 200")
    else
      var kept := FilterStatus(listed, status);
      var jobs := StatusResponses(kept);
      assert forall k :: 0 <= k < |jobs| ==> kept[k] in kept;
      ResponsesCover(kept);
      ResponsesInOrder(kept, listed);
      Ok(JobListResponse(jobs, |jobs|))
  }

  lemma ResponsesCover(kept: seq<JobInfo>)
    ensures forall x :: x in kept ==> StatusResponse(x) in StatusResponses(kept)
  {
    var jobs := StatusResponses(kept);
    forall x | x in kept
      ensures StatusResponse(x) in jobs
    {
      var k :| 0 <= k < |kept| && kept[k] == x;
      assert jobs[k] == StatusResponse(x);
    }
  }

  lemma ResponsesInOrder(kept: seq<JobInfo>, listed: seq<JobInfo>)
    requires InOrder(kept, listed)
    ensures InOrder(StatusResponses(kept), StatusResponses(listed))
  {
    var jobs, all := StatusResponses(kept), StatusResponses(listed);
    forall a, b | 0 <= a < b < |jobs|
      ensures OrderedIn(jobs[a], jobs[b], all)
    {
      assert OrderedIn(kept[a], kept[b], listed);
      var i, k :| 0 <= i < k < |listed| && kept[a] == listed[i] && kept[b] == listed[k];
      assert jobs[a] == all[i] && jobs[b] == all[k];
    }
  }

  /** `list_jobs(limit, status)` as written: the newest `limit` jobs, then only those
      with the status; `total` counts what is returned, not the table. A negative
      limit passes the `le=200` check and, as SQLite reads a negative LIMIT as no
      limit, lists the whole table newest first. */
  method ListJobsRoute(jm: JobManager, limit: int, status: Option<ApiStatus>) returns (r: Reply<JobListResponse>)
    ensures r.HttpError? <==> limit > MaxListLimit
    ensures r.Ok? ==> exists ids :: && NewestFirst(jm.db.jobs, ids)
                                    && |ids| == LimitCount(limit, |jm.db.jobs|)
                                    && r == ListReply(limit, status, Infos(jm.db.jobs, ids))
    ensures r.Ok? && limit >= 0 ==> r.body.total <= limit
    ensures r.Ok? && limit < 0 ==> exists ids :: && NewestFirst(jm.db.jobs, ids)
                                               && |ids| == |jm.db.jobs|
                                               && r == ListReply(limit, status, Infos(jm.db.jobs, ids))
  {
    if !LimitAcceptedAsWritten(limit) {
      return ListReply(limit, status, []);
    }
    var listed := jm.ListJobs(limit);
    r := ListReply(limit, status, listed);
  }

  /** The listing route with the lower bound `ge=0` added: a negative limit is refused
      with 422 as well, and otherwise the reply is the one written above. */
  function BoundedListReply(limit: int, status: Option<ApiStatus>, listed: seq<JobInfo>): (r: Reply<JobListResponse>)
    ensures r.HttpError? <==> !LimitAccepted(limit)
    ensures r.HttpError? ==> r.code == 422
    ensures r.Ok? ==> r == ListReply(limit, status, listed)
  {
    if limit < 0 then HttpError(422, "limit: Input should be greater than or equal to 0")
    else ListReply(limit, status, listed)
  }

  /** `list_jobs` with `ge=0`: every reply lists at most 200 jobs. */
  method BoundedListJobsRoute(jm: JobManager, limit: int, status: Option<ApiStatus>) returns (r: Reply<JobListResponse>)
    ensures r.HttpError? <==> !LimitAccepted(limit)
    ensures r.Ok? ==> exists ids :: && NewestFirst(jm.db.jobs, ids)
                                    && |ids| == LimitCount(limit, |jm.db.jobs|)
                                    && r == BoundedListReply(limit, status, Infos(jm.db.jobs, ids))
    ensures r.Ok? ==> r.body.total <= limit <= MaxListLimit
  {
    if !LimitAccepted(limit) {
      return BoundedListReply(limit, status, []);
    }
    var listed := jm.ListJobs(limit);
    r := BoundedListReply(limit, status, listed);
  }

  /** Filtering after the limit can miss a job with the status: with a COMPLETED job
      newer than a FAILED one, listing one FAILED job returns none. */
  lemma LimitThenFilterMissesOlder()
    ensures var older := NewJob("a", "a.pdf", 1, ".pdf", 1).(status := Failed);
            var newer := NewJob("b", "b.pdf", 1, ".pdf", 2).(status := Completed);
            var jobs := map["a" := older, "b" := newer];
            && NewestFirst(jobs, ["b"]) && |["b"]| == LimitCount(1, |jobs|)
            && ListReply(1, Some(ApiFailed), Infos(jobs, ["b"])) == Ok(JobListResponse([], 0))
            && jobs["a"].status == Failed
  {
    var older := NewJob("a", "a.pdf", 1, ".pdf", 1).(status := Failed);
    var newer := NewJob("b", "b.pdf", 1, ".pdf", 2).(status := Completed);
    var jobs := map["a" := older, "b" := newer];
    assert |jobs| == 2 by {
      assert jobs.Keys == {"a", "b"};
    }
    ApiStatusBijective();
    var infos := Infos(jobs, ["b"]);
    assert infos == [ToJobInfo(newer)];
    assert FilterStatus(infos, Some(ApiFailed)) == [] by {
      assert FilterStatus(infos[1..], Some(ApiFailed)) == [];
    }
  }
}
