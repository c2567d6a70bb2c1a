/** The job lifecycle engine of core/job_manager.py: creating a PENDING job under a
    fresh id, reading and listing jobs, processing a job (PROCESSING, extractor
    resolution, extraction, then COMPLETED or FAILED, then removal of the upload),
    and the expiry sweep. The job table is a Database.JobTable and the directories
    are the Files.Disk shared with the file manager. Clocks, the uuid generator and
    the extractor run are parameters. */
module Jobs {
  import opened Common
  import opened Database
  import opened Extractors
  import opened Files

  // ---------------------------------------------------------------------------
  // JobInfo and the API status

  /** The status enumeration of the HTTP API (api/models.py). */
  datatype ApiStatus = ApiPending | ApiProcessing | ApiCompleted | ApiFailed

  function ApiStatusValue(s: ApiStatus): string {
    match s
    case ApiPending => "pending"
    case ApiProcessing => "processing"
    case ApiCompleted => "completed"
    case ApiFailed => "failed"
  }

  /** `APIJobStatus(v)`: lookup by value, None where the source raises ValueError. */
  function ApiStatusFromValue(v: string): (r: Option<ApiStatus>)
    ensures r.Some? <==> v in {"pending", "processing", "completed", "failed"}
    ensures r.Some? ==> ApiStatusValue(r.value) == v
  {
    if v == "pending" then Some(ApiPending)
    else if v == "processing" then Some(ApiProcessing)
    else if v == "completed" then Some(ApiCompleted)
    else if v == "failed" then Some(ApiFailed)
    else None
  }

  /** The record `JobInfo(job)` builds: the job's columns with the status converted
      to the API enumeration. */
  datatype JobInfo = JobInfo(
    jobId: string,
    status: ApiStatus,
    filename: string,
    fileSize: int,
    fileType: string,
    createdAt: int,
    startedAt: Option<int>,
    completedAt: Option<int>,
    errorMessage: Option<string>,
    outputPath: Option<string>)

  /** `APIJobStatus(job.status.value.lower())`: the lower-cased value always names an
      API status, the one carrying the same value. */
  function ToApiStatus(s: JobStatus): (a: ApiStatus)
    ensures ApiStatusValue(a) == StatusValue(s)
  {
    var v := StatusValue(s);
    LowerNoUpper(v);
    ApiStatusFromValue(Lower(v)).value
  }

  /** The status conversion is a bijection between the two enumerations. */
  lemma ApiStatusBijective()
    ensures forall s, t: JobStatus :: ToApiStatus(s) == ToApiStatus(t) ==> s == t
    ensures ToApiStatus(Pending) == ApiPending && ToApiStatus(Processing) == ApiProcessing
    ensures ToApiStatus(Completed) == ApiCompleted && ToApiStatus(Failed) == ApiFailed
  {
    StatusValuesExact();
  }

  function ToJobInfo(j: Job): JobInfo {
    JobInfo(j.jobId, ToApiStatus(j.status), j.filename, j.fileSize, j.fileType, j.createdAt,
            j.startedAt, j.completedAt, j.errorMessage, j.outputPath)
  }

  // ---------------------------------------------------------------------------
  // Fresh ids

  /** A string longer than every string of a finite set. */
  ghost function LongerThanAll(s: set<string>): (w: string)
    ensures forall x :: x in s ==> |x| < |w|
    decreases |s|
  {
    if s == {} then ""
    else
      var x :| x in s;
      var w := LongerThanAll(s - {x});
      x + w + "a"
  }

  /** Whatever the table holds, some id is still unused: `uuid4()` is modelled as
      the choice of any such id. */
  lemma FreshIdExists(jobs: map<string, Job>)
    ensures exists id :: id !in jobs
  {
    var w := LongerThanAll(jobs.Keys);
    assert w !in jobs;
  }

  // ---------------------------------------------------------------------------
  // Newest-first listing

  /** `ids` lists distinct jobs of the table, newest first, and every job left out
      is no newer than the last one listed. */
  predicate NewestFirst(jobs: map<string, Job>, ids: seq<string>) {
    && (forall i :: 0 <= i < |ids| ==> ids[i] in jobs)
    && (forall i, k :: 0 <= i < k < |ids| ==> ids[i] != ids[k])
    && (forall i, k :: 0 <= i < k < |ids| ==> jobs[ids[i]].createdAt >= jobs[ids[k]].createdAt)
    && (forall id :: id in jobs && id !in ids && |ids| > 0 ==> jobs[id].createdAt <= jobs[ids[|ids| - 1]].createdAt)
  }

  /** Storing a row under its own id keeps the table consistent. */
  lemma KeysMatchUpdate(jobs: map<string, Job>, id: string, j: Job)
    requires KeysMatch(jobs) && j.jobId == id
    ensures KeysMatch(jobs[id := j])
  {
  }

  /** Appending a newest remaining job keeps the listing newest-first. */
  lemma NewestFirstStep(jobs: map<string, Job>, ids: seq<string>, remaining: set<string>, id: string)
    requires NewestFirst(jobs, ids) && remaining <= jobs.Keys
    requires forall x :: x in jobs ==> (x in remaining <==> x !in ids)
    requires forall x :: x in remaining && |ids| > 0 ==> jobs[x].createdAt <= jobs[ids[|ids| - 1]].createdAt
    requires id in remaining && forall x :: x in remaining ==> jobs[x].createdAt <= jobs[id].createdAt
    ensures NewestFirst(jobs, ids + [id])
    ensures forall x :: x in jobs ==> (x in remaining - {id} <==> x !in ids + [id])
  {
    var next := ids + [id];
    assert forall i :: 0 <= i < |ids| ==> next[i] == ids[i];
    assert id !in ids;
    forall i, k | 0 <= i < k < |next|
      ensures next[i] != next[k] && jobs[next[i]].createdAt >= jobs[next[k]].createdAt
    {
      if k == |ids| {
        var last := ids[|ids| - 1];
        assert jobs[id].createdAt <= jobs[last].createdAt;
        assert i == |ids| - 1 || jobs[ids[i]].createdAt >= jobs[last].createdAt;
      }
    }
    assert forall x :: x in jobs && x !in next ==> x in remaining;
  }

  /** The JobInfo of each listed id. */
  function Infos(jobs: map<string, Job>, ids: seq<string>): (r: seq<JobInfo>)
    requires forall i :: 0 <= i < |ids| ==> ids[i] in jobs
    ensures |r| == |ids| && forall i :: 0 <= i < |ids| ==> r[i] == ToJobInfo(jobs[ids[i]])
  {
    seq(|ids|, i requires 0 <= i < |ids| => ToJobInfo(jobs[ids[i]]))
  }

  /** The number of rows `LIMIT limit` returns from `n` rows: SQLite reads a negative
      limit as no limit at all. */
  function LimitCount(limit: int, n: nat): (c: nat)
    ensures c <= n
    ensures limit >= 0 ==> c <= limit
    ensures c < n ==> c == limit
  {
    if limit < 0 || limit > n then n else limit
  }

  // ---------------------------------------------------------------------------
  // process_job

  /** What running the chosen extractor gives: the ExtractionResult together with
      the files it wrote into the job's output directory, or the text of the
      exception it raised. */
  datatype ExtractorRun = Returned(result: ExtractionResult, written: Tree) | Raised(message: string)

  /** The clock readings of one `process_job` call: at the PROCESSING update, at the
      extraction log, and at the terminal update. */
  datatype Clock = Clock(started: int, logged: int, finished: int)

  /** The environment of one `process_job` call: the MIME guess the registry uses,
      the extractor run, the clock and isoformat, the error raised while writing the
      extraction log (if any), and whether deleting the upload raises. */
  datatype ProcessEnv = ProcessEnv(
    guess: MimeGuess,
    run: ExtractorRun,
    clock: Clock,
    iso: int -> string,
    logError: Option<string>,
    unlinkFails: bool)

  const LogName := "extraction_log.json"

  /** The extraction log written after a successful extraction. */
  function ExtractionLog(jobId: string, filename: string, className: string, timestamp: string,
                         textLength: int, imagesCount: int): Value {
    Dict([("job_id", Str(jobId)), ("filename", Str(filename)), ("extractor_used", Str(className)),
          ("extraction_timestamp", Str(timestamp)), ("text_length", Num(textLength)),
          ("images_count", Num(imagesCount)), ("success", Bool(true))])
  }

  /** Lines 110-112: PROCESSING and started_at, whatever the status was. */
  function Started(j: Job, at: int): Job {
    j.(status := Processing, startedAt := Some(at))
  }

  /** The exception handler: FAILED with the exception text and completed_at, on the
      record as last committed. */
  function Aborted(j: Job, message: string, at: int): Job {
    j.(status := Failed, errorMessage := Some(message), completedAt := Some(at))
  }

  /** How a processing run ends once the job is PROCESSING. */
  datatype Ending =
    | NoExtractor
    | RunRaised(message: string)
    | ResultFailed(error: Option<string>)
    | LogFailed(message: string)
    | Succeeded(cls: Extractor, result: ExtractionResult)

  /** `cls` is what `create_extractor` returned for the upload. */
  function EndingOf(cls: Option<Extractor>, env: ProcessEnv): Ending {
    match cls
    case None => NoExtractor
    case Some(cls) =>
      match env.run
      case Raised(m) => RunRaised(m)
      case Returned(result, _) =>
        if !result.success then ResultFailed(result.error)
        else if env.logError.Some? then LogFailed(env.logError.value)
        else Succeeded(cls, result)
  }

  /** The job record `process_job` leaves, given the record it found. */
  function ProcessedJob(j: Job, cls: Option<Extractor>, suffix: string, outputPath: string, env: ProcessEnv): Job {
    var s := Started(j, env.clock.started);
    match EndingOf(cls, env)
    case NoExtractor => Aborted(s, "No extractor found for file type: " + suffix, env.clock.finished)
    case RunRaised(m) => Aborted(s, m, env.clock.finished)
    case LogFailed(m) => Aborted(s, m, env.clock.finished)
    case ResultFailed(e) => s.(status := Failed, errorMessage := e, completedAt := Some(env.clock.finished))
    case Succeeded(e, r) =>
      s.(status := Completed, outputPath := Some(outputPath), textLength := Some(|r.text|),
         imagesCount := Some(|r.images|), extractorUsed := Some(e.className),
         completedAt := Some(env.clock.finished))
  }

  /** `output_dir.mkdir(exist_ok=True)`: the job's directory, empty when it is new. */
  function MadeDir(outputs: map<string, Tree>, jobId: string): Tree {
    if jobId in outputs then outputs[jobId] else map[]
  }

  /** The job's output directory after `process_job`: created if missing, holding
      what the extractor wrote and, after a success, the extraction log. */
  function ProcessedTree(dir: Tree, j: Job, cls: Option<Extractor>, env: ProcessEnv): Tree {
    var written := if cls.Some? && env.run.Returned? then dir + env.run.written else dir;
    match EndingOf(cls, env)
    case Succeeded(e, r) =>
      written[LogName := RegularFile(Json(ExtractionLog(j.jobId, j.filename, e.className,
                                                         env.iso(env.clock.logged), |r.text|, |r.images|)))]
    case _ => written
  }

  /** The `finally` clause: the upload is deleted when it is a regular file and the
      deletion does not raise. */
  function UploadsAfterProcessing(uploads: map<string, UploadEntry>, upload: string, unlinkFails: bool)
    : map<string, UploadEntry>
  {
    if upload in uploads && uploads[upload].StoredFile? && !unlinkFails then uploads - {upload} else uploads
  }

  // ---------------------------------------------------------------------------
  // cleanup_old_jobs

  /** The sweep's query: COMPLETED before the cutoff, or still PENDING and created
      before it. A NULL completed_at compares as false. */
  predicate Expired(j: Job, cutoff: int)
    ensures Expired(j, cutoff) ==> j.status in {Completed, Pending}
    ensures Expired(j, cutoff) && j.status == Completed ==> j.completedAt.Some? && j.completedAt.value < cutoff
    ensures Expired(j, cutoff) && j.status == Pending ==> j.createdAt < cutoff
  {
    || (j.status == Completed && j.completedAt.Some? && j.completedAt.value < cutoff)
    || (j.status == Pending && j.createdAt < cutoff)
  }

  /** The rows left by the sweep: an expired job goes unless removing its directory
      raised (`rmtreeFails`). */
  function SweptJobs(jobs: map<string, Job>, cutoff: int, rmtreeFails: set<string>): map<string, Job> {
    map id | id in jobs && !(Expired(jobs[id], cutoff) && id !in rmtreeFails) :: jobs[id]
  }

  /** The output directories left by the sweep. */
  function SweptOutputs(outputs: map<string, Tree>, jobs: map<string, Job>, cutoff: int, rmtreeFails: set<string>)
    : map<string, Tree>
  {
    map id | id in outputs && !(id in jobs && Expired(jobs[id], cutoff) && id !in rmtreeFails) :: outputs[id]
  }

  /** The `try` block of `process_job` once the job is PROCESSING: `job` is the
      committed PROCESSING record of `found`, `dir` the job's output directory. */
  method RunExtraction(found: Job, job: Job, dir0: Tree, cls: Option<Extractor>, suffix: string,
                       outputPath: string, env: ProcessEnv) returns (final: Job, dir: Tree)
    requires job == Started(found, env.clock.started)
    ensures final == ProcessedJob(found, cls, suffix, outputPath, env)
    ensures dir == ProcessedTree(dir0, found, cls, env)
    ensures final.jobId == found.jobId
  {
    dir := dir0;
    if cls.None? {
      final := Aborted(job, "No extractor found for file type: " + suffix, env.clock.finished);
    } else if env.run.Raised? {
      final := Aborted(job, env.run.message, env.clock.finished);
    } else {
      var result := env.run.result;
      dir := dir + env.run.written;
      if !result.success {
        final := job.(status := Failed, errorMessage := result.error, completedAt := Some(env.clock.finished));
      } else if env.logError.Some? {
        // The session holding the COMPLETED columns is rolled back; the handler
        // records the failure on the committed PROCESSING row.
        final := Aborted(job, env.logError.value, env.clock.finished);
      } else {
        final := job.(status := Completed, outputPath := Some(outputPath),
                      textLength := Some(|result.text|), imagesCount := Some(|result.images|),
                      extractorUsed := Some(cls.value.className), completedAt := Some(env.clock.finished));
        var log := ExtractionLog(found.jobId, found.filename, cls.value.className, env.iso(env.clock.logged),
                                 |result.text|, |result.images|);
        dir := dir[LogName := RegularFile(Json(log))];
      }
    }
  }

  /** The map without the keys in `gone`. */
  function Without<V>(m: map<string, V>, gone: set<string>): map<string, V> {
    map k | k in m && k !in gone :: m[k]
  }

  lemma WithoutNothing<V>(m: map<string, V>)
    ensures Without(m, {}) == m
  {
  }

  /** Removing one more key from a map already missing `gone`. */
  lemma WithoutStep<V>(m: map<string, V>, gone: set<string>, k: string)
    ensures Without(m, gone) - {k} == Without(m, gone + {k})
  {
  }

  /** The sweep removes exactly the expired rows whose directory removal succeeds,
      and the directories of the same jobs. */
  lemma SweepIsWithout(jobs: map<string, Job>, outputs: map<string, Tree>, cutoff: int,
                       rmtreeFails: set<string>, expired: set<string>, gone: set<string>)
    requires KeysMatch(jobs)
    requires expired == set id | id in jobs && Expired(jobs[id], cutoff)
    requires gone == expired - rmtreeFails
    ensures Without(jobs, gone) == SweptJobs(jobs, cutoff, rmtreeFails)
    ensures Without(outputs, gone) == SweptOutputs(outputs, jobs, cutoff, rmtreeFails)
    ensures KeysMatch(Without(jobs, gone))
  {
  }

  /** The job manager: the table, the directories, the registry of the global
      extractor factory, the outputs directory's path and the expiry age in hours. */
  class JobManager {
    const db: JobTable
    const disk: Disk
    const extractors: Registry
    const outputsDir: string
    const cleanupHours: int

    constructor (db: JobTable, disk: Disk, factory: ExtractorFactory, outputsDir: string, cleanupHours: int)
      ensures this.db == db && this.disk == disk && extractors == factory.extractors
      ensures this.outputsDir == outputsDir && this.cleanupHours == cleanupHours
    {
      this.db := db;
      this.disk := disk;
      extractors := factory.extractors;
      this.outputsDir := outputsDir;
      this.cleanupHours := cleanupHours;
    }

    /** `create_job(filename, file_size, file_type)` at clock `now`: one new PENDING
        row under an unused id, every other row unchanged. */
    method CreateJob(filename: string, fileSize: int, fileType: string, now: int) returns (jobId: string)
      requires db.Valid()
      modifies db
      ensures db.Valid()
      ensures jobId !in old(db.jobs)
      ensures db.jobs == old(db.jobs)[jobId := NewJob(jobId, filename, fileSize, fileType, now)]
    {
      FreshIdExists(db.jobs);
      var id :| id !in db.jobs;
      db.jobs := db.jobs[id := NewJob(id, filename, fileSize, fileType, now)];
      jobId := id;
    }

    /** `get_job(job_id)`. */
    function GetJob(jobId: string): (r: Option<JobInfo>)
      reads db
      ensures r.Some? <==> jobId in db.jobs
      ensures r.Some? ==> ApiStatusValue(r.value.status) == StatusValue(db.jobs[jobId].status)
      ensures r.Some? ==> var j := db.jobs[jobId];
                          && r.value.jobId == j.jobId && r.value.filename == j.filename
                          && r.value.fileSize == j.fileSize && r.value.fileType == j.fileType
                          && r.value.createdAt == j.createdAt && r.value.startedAt == j.startedAt
                          && r.value.completedAt == j.completedAt && r.value.errorMessage == j.errorMessage
                          && r.value.outputPath == j.outputPath
    {
      if jobId in db.jobs then Some(ToJobInfo(db.jobs[jobId])) else None
    }

    /** The id of a newest job among `ids`. */
    method Newest(ids: set<string>) returns (newest: string)
      requires ids != {} && ids <= db.jobs.Keys
      ensures newest in ids
      ensures forall id :: id in ids ==> db.jobs[id].createdAt <= db.jobs[newest].createdAt
    {
      newest :| newest in ids;
      var todo := ids - {newest};
      while todo != {}
        invariant todo <= ids && newest in ids
        invariant forall id :: id in ids - todo ==> db.jobs[id].createdAt <= db.jobs[newest].createdAt
        decreases |todo|
      {
        var id :| id in todo;
        if db.jobs[id].createdAt > db.jobs[newest].createdAt {
          newest := id;
        }
        todo := todo - {id};
      }
    }

    /** `list_jobs(limit)`: the rows ordered by created_at descending, at most `limit`
        of them (all of them for a negative limit). */
    method ListJobs(limit: int) returns (infos: seq<JobInfo>)
      ensures exists ids :: NewestFirst(db.jobs, ids) && |ids| == LimitCount(limit, |db.jobs|)
                            && infos == Infos(db.jobs, ids)
    {
      var jobs := db.jobs;
      var cap := LimitCount(limit, |jobs|);
      var ids: seq<string> := [];
      var remaining := jobs.Keys;
      while |ids| < cap
        invariant |ids| <= cap
        invariant remaining <= jobs.Keys
        invariant forall id :: id in jobs ==> (id in remaining <==> id !in ids)
        invariant |remaining| + |ids| == |jobs.Keys|
        invariant NewestFirst(jobs, ids)
        invariant forall id :: id in remaining && |ids| > 0 ==> jobs[id].createdAt <= jobs[ids[|ids| - 1]].createdAt
        decreases cap - |ids|
      {
        assert |jobs.Keys| == |jobs|;
        var id := Newest(remaining);
        NewestFirstStep(jobs, ids, remaining, id);
        ids := ids + [id];
        remaining := remaining - {id};
      }
      infos := Infos(jobs, ids);
      assert NewestFirst(db.jobs, ids) && |ids| == LimitCount(limit, |db.jobs|) && infos == Infos(db.jobs, ids);
    }

    /** The path `str(outputs_dir / job_id)` recorded as output_path. */
    function OutputPath(jobId: string): string
      reads this
    {
      outputsDir + "/" + jobId
    }

    /** The start of `process_job`: the row is committed as PROCESSING and the job's
        output directory is created if missing. */
    method Begin(jobId: string, now: int) returns (job: Job, dir: Tree)
      requires db.Valid() && jobId in db.jobs
      modifies db, disk
      ensures db.Valid()
      ensures job == Started(old(db.jobs)[jobId], now)
      ensures dir == MadeDir(old(disk.outputs), jobId)
      ensures db.jobs == old(db.jobs)[jobId := job]
      ensures disk.outputs == old(disk.outputs)[jobId := dir]
      ensures disk.uploads == old(disk.uploads)
    {
      job := Started(db.jobs[jobId], now);
      KeysMatchUpdate(db.jobs, jobId, job);
      db.jobs := db.jobs[jobId := job];
      // output_dir.mkdir(exist_ok=True)
      dir := MadeDir(disk.outputs, jobId);
      disk.outputs := disk.outputs[jobId := dir];
    }

    /** The end of `process_job`: the final row and directory are committed, then the
        `finally` clause deletes the upload when it is a regular file, swallowing a
        failure to delete it. */
    method Commit(jobId: string, final: Job, dir: Tree, upload: string, unlinkFails: bool)
      requires db.Valid() && final.jobId == jobId
      modifies db, disk
      ensures db.Valid()
      ensures db.jobs == old(db.jobs)[jobId := final]
      ensures disk.outputs == old(disk.outputs)[jobId := dir]
      ensures disk.uploads == UploadsAfterProcessing(old(disk.uploads), upload, unlinkFails)
    {
      KeysMatchUpdate(db.jobs, jobId, final);
      db.jobs := db.jobs[jobId := final];
      disk.outputs := disk.outputs[jobId := dir];
      if upload in disk.uploads && disk.uploads[upload].StoredFile? && !unlinkFails {
        disk.uploads := disk.uploads - {upload};
      }
    }

    /** `process_job(job_id, file_path)`, with `upload` the stored file's name. An
        unknown id returns false before the `try`, so nothing changes and the upload
        stays. Otherwise the row, the job's output directory and the uploads
        directory end as the specification functions say, and the result is whether
        the job ended COMPLETED. */
    method ProcessJob(jobId: string, upload: string, env: ProcessEnv) returns (ok: bool)
      requires db.Valid()
      modifies db, disk
      ensures db.Valid()
      ensures jobId !in old(db.jobs) ==> !ok && db.jobs == old(db.jobs) && disk.outputs == old(disk.outputs)
                                         && disk.uploads == old(disk.uploads)
      ensures jobId in old(db.jobs) ==>
                db.jobs == old(db.jobs)[jobId := ProcessedJob(old(db.jobs)[jobId], FirstMatch(extractors, upload, env.guess),
                                                              Suffix(upload), OutputPath(jobId), env)]
      ensures jobId in old(db.jobs) ==>
                disk.outputs == old(disk.outputs)[jobId := ProcessedTree(MadeDir(old(disk.outputs), jobId),
                                                                         old(db.jobs)[jobId], FirstMatch(extractors, upload, env.guess), env)]
      ensures jobId in old(db.jobs) ==> disk.uploads == UploadsAfterProcessing(old(disk.uploads), upload, env.unlinkFails)
      ensures jobId in old(db.jobs) ==> (ok <==> db.jobs[jobId].status == Completed)
    {
      if jobId !in db.jobs {
        return false;
      }
      var found := db.jobs[jobId];
      ghost var jobs0, outputs0 := db.jobs, disk.outputs;
      var job, dir := Begin(jobId, env.clock.started);
      var cls := FirstMatch(extractors, upload, env.guess);
      var final: Job;
      final, dir := RunExtraction(found, job, dir, cls, Suffix(upload), OutputPath(jobId), env);
      Commit(jobId, final, dir, upload, env.unlinkFails);
      UpdateTwice(jobs0, jobId, job, final);
      UpdateTwice(outputs0, jobId, MadeDir(outputs0, jobId), dir);
      ok := db.jobs[jobId].status == Completed;
    }

    /** One job of the sweep: its output directory is removed, then its row. */
    method Remove(id: string)
      modifies db, disk
      ensures db.jobs == old(db.jobs) - {id}
      ensures disk.outputs == old(disk.outputs) - {id}
      ensures disk.uploads == old(disk.uploads)
    {
      disk.outputs := disk.outputs - {id};
      db.jobs := db.jobs - {id};
    }

    /** `cleanup_old_jobs()` at clock `now`: every expired job is removed with its
        output directory, except those whose directory removal raises. `rmtree` is
        only called on a directory that exists, so only those can fail. */
    method CleanupOldJobs(now: int, rmtreeFails: set<string>)
      requires db.Valid()
      modifies db, disk
      ensures db.Valid()
      ensures db.jobs == SweptJobs(old(db.jobs), now - cleanupHours * 3600, rmtreeFails * old(disk.outputs).Keys)
      ensures disk.outputs == SweptOutputs(old(disk.outputs), old(db.jobs), now - cleanupHours * 3600,
                                           rmtreeFails * old(disk.outputs).Keys)
      ensures disk.uploads == old(disk.uploads)
    {
      Sweep(now - cleanupHours * 3600, rmtreeFails * disk.outputs.Keys);
    }

    /** The loop of `cleanup_old_jobs` over the expired jobs; `fails` are the jobs
        whose directory removal raises. */
    method Sweep(cutoff: int, fails: set<string>)
      requires db.Valid()
      modifies db, disk
      ensures db.Valid()
      ensures db.jobs == SweptJobs(old(db.jobs), cutoff, fails)
      ensures disk.outputs == SweptOutputs(old(disk.outputs), old(db.jobs), cutoff, fails)
      ensures disk.uploads == old(disk.uploads)
    {
      var jobs0 := db.jobs;
      var outputs0 := disk.outputs;
      var expired := set id | id in jobs0 && Expired(jobs0[id], cutoff);
      var todo := expired;
      ghost var gone: set<string> := {};
      WithoutNothing(jobs0);
      WithoutNothing(outputs0);
      while todo != {}
        invariant todo <= expired
        invariant gone == (expired - todo) - fails
        invariant db.jobs == Without(jobs0, gone)
        invariant disk.outputs == Without(outputs0, gone)
        invariant disk.uploads == old(disk.uploads)
        decreases |todo|
      {
        var id :| id in todo;
        if id !in fails {
          WithoutStep(outputs0, gone, id);
          WithoutStep(jobs0, gone, id);
          Remove(id);
          gone := gone + {id};
        }
        assert gone == (expired - (todo - {id})) - fails;
        todo := todo - {id};
      }
      assert gone == expired - fails;
      SweepIsWithout(jobs0, outputs0, cutoff, fails, expired, gone);
    }
  }

  // ---------------------------------------------------------------------------
  // Properties of processing

  /** Processing marks the job started at the first clock reading whatever its prior
      status, always ends it COMPLETED or FAILED with completed_at set, and keeps
      its id, file columns and creation time. */
  lemma ProcessingEnds(j: Job, cls: Option<Extractor>, suffix: string, outputPath: string, env: ProcessEnv)
    ensures var p := ProcessedJob(j, cls, suffix, outputPath, env);
            && p.startedAt == Some(env.clock.started)
            && p.completedAt == Some(env.clock.finished)
            && p.status in {Completed, Failed}
            && p.jobId == j.jobId && p.filename == j.filename && p.fileSize == j.fileSize
            && p.fileType == j.fileType && p.createdAt == j.createdAt
  {
  }

  /** A job ends COMPLETED exactly when some registered class takes the upload, its
      run returns a successful result and the log is written; it then records the
      output path, the text length, the image count and the class name, and the
      extraction log in its directory holds the same counts with success true. */
  lemma ProcessingSucceeds(j: Job, cls: Option<Extractor>, suffix: string, outputPath: string, dir: Tree, env: ProcessEnv)
    ensures ProcessedJob(j, cls, suffix, outputPath, env).status == Completed
            <==> cls.Some? && env.run.Returned? && env.run.result.success
                 && env.logError.None?
    ensures var p := ProcessedJob(j, cls, suffix, outputPath, env);
            p.status == Completed ==>
              var r := env.run.result;
              && p.outputPath == Some(outputPath)
              && p.textLength == Some(|r.text|) && p.imagesCount == Some(|r.images|)
              && p.extractorUsed == Some(cls.value.className)
              && p.errorMessage == j.errorMessage
              && var tree := ProcessedTree(dir, j, cls, env);
                 && LogName in tree
                 && tree[LogName] == RegularFile(Json(ExtractionLog(j.jobId, j.filename, p.extractorUsed.value,
                                                                    env.iso(env.clock.logged),
                                                                    p.textLength.value, p.imagesCount.value)))
  {
  }

  /** A job ends FAILED with the reason: the result's error for an unsuccessful
      result, otherwise the text of the exception (for a missing extractor, the
      message naming the suffix as written). The success columns keep the values
      they had, which for a fresh PENDING job means unset. */
  lemma ProcessingFails(j: Job, cls: Option<Extractor>, suffix: string, outputPath: string, env: ProcessEnv)
    ensures var p := ProcessedJob(j, cls, suffix, outputPath, env);
            p.status == Failed ==>
              && p.outputPath == j.outputPath && p.textLength == j.textLength
              && p.imagesCount == j.imagesCount && p.extractorUsed == j.extractorUsed
    ensures cls.None? ==>
              ProcessedJob(j, cls, suffix, outputPath, env).errorMessage
              == Some("No extractor found for file type: " + suffix)
    ensures cls.Some? && env.run.Raised? ==>
              ProcessedJob(j, cls, suffix, outputPath, env).errorMessage == Some(env.run.message)
    ensures cls.Some? && env.run.Returned? && !env.run.result.success ==>
              ProcessedJob(j, cls, suffix, outputPath, env).errorMessage == env.run.result.error
    ensures cls.Some? && env.run.Returned? && env.run.result.success
            && env.logError.Some? ==>
              ProcessedJob(j, cls, suffix, outputPath, env).errorMessage == Some(env.logError.value)
  {
  }

  /** A fresh job, processed once, ends COMPLETED with an output path or FAILED
      without one. */
  lemma FreshJobOutcome(id: string, filename: string, size: int, fileType: string, now: int,
                        cls: Option<Extractor>, suffix: string, outputPath: string, env: ProcessEnv)
    ensures var p := ProcessedJob(NewJob(id, filename, size, fileType, now), cls, suffix, outputPath, env);
            (p.status == Completed && p.outputPath == Some(outputPath))
            || (p.status == Failed && p.outputPath == None && p.textLength == None)
  {
    var j := NewJob(id, filename, size, fileType, now);
    ProcessingFails(j, cls, suffix, outputPath, env);
    ProcessingSucceeds(j, cls, suffix, outputPath, map[], env);
    ProcessingEnds(j, cls, suffix, outputPath, env);
  }

  /** Re-processing a COMPLETED job whose second run fails leaves it FAILED while
      still carrying the first run's output path and counts. */
  lemma ReprocessingKeepsStaleOutput(j: Job, cls: Option<Extractor>, suffix: string, outputPath: string, env: ProcessEnv)
    requires j.status == Completed && j.outputPath.Some?
    requires cls.None?
    ensures ProcessedJob(j, cls, suffix, outputPath, env).status == Failed
    ensures ProcessedJob(j, cls, suffix, outputPath, env).outputPath == j.outputPath
  {
  }

  /** After processing, the upload is gone unless it was not a regular file or its
      deletion raised; no other upload is touched. */
  lemma ProcessingRemovesUpload(uploads: map<string, UploadEntry>, upload: string, unlinkFails: bool)
    ensures var after := UploadsAfterProcessing(uploads, upload, unlinkFails);
            && (upload in uploads && uploads[upload].StoredFile? && !unlinkFails ==> upload !in after)
            && (forall f :: f in uploads && f != upload ==> f in after && after[f] == uploads[f])
            && after.Keys <= uploads.Keys
  {
  }

  // ---------------------------------------------------------------------------
  // Properties of the sweep

  /** The sweep never removes a FAILED or PROCESSING job, nor any job that is not
      expired; it removes every expired job whose directory removal succeeds; and
      the rows it keeps are unchanged. */
  lemma SweepRemovesExactlyExpired(jobs: map<string, Job>, cutoff: int, rmtreeFails: set<string>)
    ensures var after := SweptJobs(jobs, cutoff, rmtreeFails);
            && (forall id :: id in jobs && jobs[id].status in {Failed, Processing} ==> id in after)
            && (forall id :: id in jobs && jobs[id].status == Pending && cutoff <= jobs[id].createdAt ==> id in after)
            && (forall id :: (id in jobs && jobs[id].status == Completed
                                && (jobs[id].completedAt.None? || cutoff <= jobs[id].completedAt.value)) ==> id in after)
            && (forall id :: id in jobs ==> (id !in after <==> Expired(jobs[id], cutoff) && id !in rmtreeFails))
            && (forall id :: id in after ==> id in jobs && after[id] == jobs[id])
  {
  }

  /** A second sweep at the same cutoff with the same failures removes nothing more. */
  lemma SweepIdempotent(jobs: map<string, Job>, outputs: map<string, Tree>, cutoff: int, rmtreeFails: set<string>)
    ensures SweptJobs(SweptJobs(jobs, cutoff, rmtreeFails), cutoff, rmtreeFails) == SweptJobs(jobs, cutoff, rmtreeFails)
    ensures SweptOutputs(SweptOutputs(outputs, jobs, cutoff, rmtreeFails), SweptJobs(jobs, cutoff, rmtreeFails), cutoff, rmtreeFails)
            == SweptOutputs(outputs, jobs, cutoff, rmtreeFails)
  {
  }
}
