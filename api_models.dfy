/** The response shapes of the HTTP API (api/models.py) and the outcome of a route:
    its response body, or the HTTP error it raises. */
module ApiModels {
  import opened Common
  import opened Jobs

  /** What a route gives back: a body, or an `HTTPException` with its status code
      and detail. */
  datatype Reply<T> = Ok(body: T) | HttpError(code: nat, detail: string)

  datatype JobCreateResponse = JobCreateResponse(jobId: string, status: ApiStatus, message: string)

  /** The status view of a job: every column of the job except its output path. */
  datatype JobStatusResponse = JobStatusResponse(
    jobId: string,
    status: ApiStatus,
    filename: string,
    fileSize: int,
    fileType: string,
    createdAt: int,
    startedAt: Option<int>,
    completedAt: Option<int>,
    errorMessage: Option<string>)

  datatype JobListResponse = JobListResponse(jobs: seq<JobStatusResponse>, total: nat)

  datatype ExtractionResultSummary = ExtractionResultSummary(
    textLength: int,
    imagesCount: int,
    hasMetadata: bool,
    extractionMethod: string)

  datatype JobResultResponse = JobResultResponse(
    jobId: string,
    status: ApiStatus,
    filename: string,
    resultSummary: Option<ExtractionResultSummary>,
    downloadUrl: Option<string>)

  /** `JobStatusResponse(...)` filled from a `JobInfo`. */
  function StatusResponse(i: JobInfo): JobStatusResponse {
    JobStatusResponse(i.jobId, i.status, i.filename, i.fileSize, i.fileType, i.createdAt,
                      i.startedAt, i.completedAt, i.errorMessage)
  }
}
