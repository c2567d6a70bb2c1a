/** The routes of api/routes/extraction.py: submitting a document (store the upload,
    create a PENDING job) and downloading a completed job's results archive behind
    its chain of guards. Scheduling `process_job` and the cleanup task in the
    background is not part of the model; `Jobs.JobManager.ProcessJob` is the step
    that runs later. */
module ExtractionRoutes {
  import opened Common
  import opened Database
  import opened Extractors
  import opened Files
  import opened Jobs
  import opened ApiModels

  // ---------------------------------------------------------------------------
  // POST /extract

  function SubmittedMessage(filename: string): string {
    "Document '" + filename + "' submitted for extraction. Use the job_id to check status."
  }

  /** `file.size or file_path.stat().st_size`: the declared size unless it is absent
      or zero, then the size of the stored file. */
  function SubmittedSize(declared: Option<int>, onDisk: nat): int {
    if declared.Some? && declared.value != 0 then declared.value else onDisk
  }

  /** The size a submitted job records never exceeds the upload limit: a larger
      declared size or content is refused before the job exists, and a zero
      declared size falls back to the stored content's length. */
  lemma SubmittedSizeWithinLimit(uploads: map<string, UploadEntry>, u: Upload, now: nat, maxFileSize: nat,
                                 supported: set<string>, t: Registry, env: SaveEnv)
    requires SaveUpload(uploads, u, now, maxFileSize, supported, t, env).0.Saved?
    ensures SubmittedSize(u.size, u.contentLength) <= maxFileSize
    ensures u.size.None? || u.size.value == 0 ==> SubmittedSize(u.size, u.contentLength) == u.contentLength
  {
  }

  /** The file type a submitted job records is an extension the file manager
      supports: the stored name passed type validation. */
  lemma SubmittedTypeSupported(uploads: map<string, UploadEntry>, u: Upload, now: nat, maxFileSize: nat,
                               supported: set<string>, t: Registry, env: SaveEnv)
    requires SaveUpload(uploads, u, now, maxFileSize, supported, t, env).0.Saved?
    ensures Lower(Suffix(SaveUpload(uploads, u, now, maxFileSize, supported, t, env).0.name)) in supported
  {
  }

  /** `extract_document(file)`: the upload is saved at clock `savedAt`, then the job
      is created at clock `createdAt` with the uploaded name, the submitted size and
      the lower-cased suffix of the stored name. An `HTTPException` of the save
      passes through unchanged; any other failure (`createError`, raised while
      creating the job) becomes a 500. */
  method ExtractDocument(jm: JobManager, fm: FileManager, u: Upload, savedAt: nat, createdAt: int,
                         env: SaveEnv, createError: Option<string>) returns (r: Reply<JobCreateResponse>)
    requires jm.db.Valid()
    modifies fm.disk, jm.db
    ensures jm.db.Valid()
    ensures fm.disk.outputs == old(fm.disk.outputs)
    ensures var (s, after) := SaveUpload(old(fm.disk.uploads), u, savedAt, fm.maxFileSize, fm.supportedExtensions,
                                         fm.extractors, env);
            && fm.disk.uploads == after
            && (s.Rejected? ==> r == HttpError(s.code, s.detail) && jm.db.jobs == old(jm.db.jobs))
            && (s.Saved? && createError.Some? ==>
                  r == HttpError(500, "Failed to process document: " + createError.value)
                  && jm.db.jobs == old(jm.db.jobs))
            && (s.Saved? && createError.None? ==>
                  && r.Ok? && r.body.jobId !in old(jm.db.jobs)
                  && r.body.status == ApiPending
                  && r.body.message == SubmittedMessage(u.filename.value)
                  && jm.db.jobs == old(jm.db.jobs)[r.body.jobId := NewJob(r.body.jobId, u.filename.value,
                                                     SubmittedSize(u.size, u.contentLength),
                                                     Lower(Suffix(s.name)), createdAt)])
  {
    var s := fm.SaveUploadFile(u, savedAt, env);
    if s.Rejected? {
      return HttpError(s.code, s.detail);
    }
    assert fm.disk.uploads[s.name] == StoredFile(savedAt, u.contentLength);
    var onDisk := fm.disk.uploads[s.name].size;
    if createError.Some? {
      return HttpError(500, "Failed to process document: " + createError.value);
    }
    var filename := u.filename.value;
    var jobId := jm.CreateJob(filename, SubmittedSize(u.size, onDisk), Lower(Suffix(s.name)), createdAt);
    r := Ok(JobCreateResponse(jobId, ApiPending, SubmittedMessage(filename)));
  }

  // ---------------------------------------------------------------------------
  // GET /extract/{job_id}/download

  /** The `FileResponse` of a download: the archive inside the job's directory, its
      media type and the file name offered to the client. */
  datatype FileResponse = FileResponse(jobId: string, archive: string, mediaType: string, filename: string)

  /** The guards of `download_results`, in order: the job must exist, be COMPLETED
      and have a non-empty output directory. */
  function DownloadGuard(info: Option<JobInfo>, outputExists: bool): Option<(nat, string)> {
    if info.None? then Some((404, "Job not found"))
    else if info.value.status != ApiCompleted then
      Some((400, "Job not completed. Current status: " + ApiStatusValue(info.value.status)))
    else if !outputExists then Some((404, "Job results not found"))
    else None
  }

  /** The reply of `download_results`, given the job, whether its output exists and
      what `create_result_zip` returned once the guards passed. */
  function Download(jobId: string, info: Option<JobInfo>, outputExists: bool, zip: Option<string>)
    : (r: Reply<FileResponse>)
    ensures r.Ok? <==> info.Some? && info.value.status == ApiCompleted && outputExists && zip.Some?
    ensures r.Ok? ==> r.body == FileResponse(jobId, zip.value, "application/zip",
                                             info.value.filename + "_" + jobId + "_results.zip")
    ensures r.HttpError? && r.code == 404 <==> info.None? || (info.value.status == ApiCompleted && !outputExists)
    ensures r.HttpError? && r.code == 400 <==> info.Some? && info.value.status != ApiCompleted
    ensures r.HttpError? && r.code == 400 ==>
              r.detail == "Job not completed. Current status: " + ApiStatusValue(info.value.status)
    ensures r.HttpError? && r.code == 500 <==>
              info.Some? && info.value.status == ApiCompleted && outputExists && zip.None?
    ensures r.HttpError? ==> r.code in {400, 404, 500}
  {
    match DownloadGuard(info, outputExists)
    case Some((code, detail)) => HttpError(code, detail)
    case None =>
      if zip.None? then HttpError(500, "Failed to create results archive")
      else Ok(FileResponse(jobId, zip.value, "application/zip", info.value.filename + "_" + jobId + "_results.zip"))
  }

  /** A job that processing left COMPLETED passes every guard of the download: its
      output directory holds at least the extraction log. */
  lemma CompletedJobDownloadable(j: Job, cls: Option<Extractor>, suffix: string, outputPath: string,
                                 outputs: map<string, Tree>, env: ProcessEnv)
    requires ProcessedJob(j, cls, suffix, outputPath, env).status == Completed
    ensures var after := outputs[j.jobId := ProcessedTree(MadeDir(outputs, j.jobId), j, cls, env)];
            && OutputExists(after, j.jobId)
            && DownloadGuard(Some(ToJobInfo(ProcessedJob(j, cls, suffix, outputPath, env))), OutputExists(after, j.jobId)).None?
  {
    var tree := ProcessedTree(MadeDir(outputs, j.jobId), j, cls, env);
    ProcessingSucceeds(j, cls, suffix, outputPath, MadeDir(outputs, j.jobId), env);
    assert LogName in tree;
    ApiStatusBijective();
  }

  /** `download_results(job_id)`: the archive is built only once every guard has
      passed; a refused download leaves the output directories as they were.
      `writeFails` says whether writing the archive raises. */
  method DownloadResults(jm: JobManager, fm: FileManager, jobId: string, writeFails: bool)
    returns (r: Reply<FileResponse>)
    modifies fm.disk
    ensures r == Download(jobId, jm.GetJob(jobId), old(fm.JobOutputExists(jobId)),
                          if writeFails then None else Some(ZipName(jobId)))
    ensures DownloadGuard(jm.GetJob(jobId), old(fm.JobOutputExists(jobId))).Some? || writeFails
            ==> fm.disk.outputs == old(fm.disk.outputs)
    ensures DownloadGuard(jm.GetJob(jobId), old(fm.JobOutputExists(jobId))).None? && !writeFails ==>
              fm.disk.outputs == old(fm.disk.outputs)[jobId := old(fm.disk.outputs)[jobId][ZipName(jobId) :=
                RegularFile(Archive(ArchiveMembers(old(fm.disk.outputs)[jobId], ZipName(jobId))))]]
    ensures fm.disk.uploads == old(fm.disk.uploads)
  {
    var info := jm.GetJob(jobId);
    var guard := DownloadGuard(info, fm.JobOutputExists(jobId));
    if guard.Some? {
      return HttpError(guard.value.0, guard.value.1);
    }
    var zip := fm.CreateResultZip(jobId, writeFails);
    if zip.None? {
      return HttpError(500, "Failed to create results archive");
    }
    r := Ok(FileResponse(jobId, zip.value, "application/zip", info.value.filename + "_" + jobId + "_results.zip"));
  }
}
