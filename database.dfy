/** The job table of core/database.py: the JobStatus enumeration, the Job record,
    its dictionary rendering, and the one-time import of jobs from the legacy
    JSON file. The SQLite table is a map from job id to Job record, owned by one
    JobTable object; a committed session is an assignment to that map and a
    rolled-back one leaves it alone. */
module Database {
  import opened Common

  datatype JobStatus = Pending | Processing | Completed | Failed

  /** The string value each status carries (`JobStatus.X.value`). */
  function StatusValue(s: JobStatus): string {
    match s
    case Pending => "pending"
    case Processing => "processing"
    case Completed => "completed"
    case Failed => "failed"
  }

  /** `JobStatus(v)`: lookup by value; any other string raises ValueError (None here). */
  function StatusFromValue(v: string): (r: Option<JobStatus>)
    ensures r.Some? ==> StatusValue(r.value) == v
  {
    if v == "pending" then Some(Pending)
    else if v == "processing" then Some(Processing)
    else if v == "completed" then Some(Completed)
    else if v == "failed" then Some(Failed)
    else None
  }

  /** The enumeration has exactly the four values "pending", "processing",
      "completed" and "failed", one per status, and a value converts back to its status. */
  lemma StatusValuesExact()
    ensures forall s: JobStatus :: StatusFromValue(StatusValue(s)) == Some(s)
    ensures forall v :: StatusFromValue(v).Some? <==> v in {"pending", "processing", "completed", "failed"}
    ensures forall s, t: JobStatus :: StatusValue(s) == StatusValue(t) ==> s == t
  {
    forall s: JobStatus ensures StatusFromValue(StatusValue(s)) == Some(s) {
      match s
      case Pending =>
      case Processing =>
      case Completed =>
      case Failed =>
    }
  }

  /** One row of the `jobs` table. The non-nullable columns (status, filename,
      file_size, file_type, created_at) are plain fields; every nullable column is an
      Option. Timestamps are integer seconds; processing_time is not modelled. */
  datatype Job = Job(
    jobId: string,
    status: JobStatus,
    filename: string,
    fileSize: int,
    fileType: string,
    createdAt: int,
    startedAt: Option<int>,
    completedAt: Option<int>,
    errorMessage: Option<string>,
    outputPath: Option<string>,
    textLength: Option<int>,
    imagesCount: Option<int>,
    extractorUsed: Option<string>)

  /** `Job(job_id=..., filename=..., file_size=..., file_type=..., created_at=...)`
      with every other column left to its default. */
  function NewJob(jobId: string, filename: string, fileSize: int, fileType: string, createdAt: int): (j: Job)
    ensures j.jobId == jobId && j.filename == filename && j.fileSize == fileSize
    ensures j.fileType == fileType && j.createdAt == createdAt
    ensures j.status == Pending
    ensures j.startedAt == None && j.completedAt == None
    ensures j.errorMessage == None && j.outputPath == None
    ensures j.textLength == None && j.imagesCount == None && j.extractorUsed == None
  {
    Job(jobId, Pending, filename, fileSize, fileType, createdAt, None, None, None, None, None, None, None)
  }

  /** The dictionary `Job.to_dict()` returns; `None` fields are Python None. */
  datatype JobDict = JobDict(
    jobId: string,
    status: string,
    filename: string,
    fileSize: int,
    fileType: string,
    createdAt: Option<string>,
    startedAt: Option<string>,
    completedAt: Option<string>,
    errorMessage: Option<string>,
    outputPath: Option<string>,
    textLength: Option<int>,
    imagesCount: Option<int>,
    extractorUsed: Option<string>)

  function IsoOrNone(t: Option<int>, iso: int -> string): (r: Option<string>)
    ensures r.None? <==> t.None?
    ensures t.Some? ==> r == Some(iso(t.value))
  {
    match t
    case None => None
    case Some(v) => Some(iso(v))
  }

  /** `Job.to_dict()`: the status as its string value, each timestamp through
      isoformat (here the parameter `iso`), unset timestamps as None. */
  function ToDict(j: Job, iso: int -> string): (d: JobDict)
    ensures d.jobId == j.jobId && d.status == StatusValue(j.status)
    ensures d.createdAt == Some(iso(j.createdAt))
    ensures d.startedAt.None? <==> j.startedAt.None?
    ensures d.completedAt.None? <==> j.completedAt.None?
    ensures j.startedAt.Some? ==> d.startedAt == Some(iso(j.startedAt.value))
    ensures j.completedAt.Some? ==> d.completedAt == Some(iso(j.completedAt.value))
    ensures d.filename == j.filename && d.fileSize == j.fileSize && d.fileType == j.fileType
    ensures d.errorMessage == j.errorMessage && d.outputPath == j.outputPath
    ensures d.textLength == j.textLength && d.imagesCount == j.imagesCount
    ensures d.extractorUsed == j.extractorUsed
  {
    JobDict(j.jobId, StatusValue(j.status), j.filename, j.fileSize, j.fileType,
            Some(iso(j.createdAt)), IsoOrNone(j.startedAt, iso), IsoOrNone(j.completedAt, iso),
            j.errorMessage, j.outputPath, j.textLength, j.imagesCount, j.extractorUsed)
  }

  /** A table is consistent when every row sits under its own primary key. */
  predicate KeysMatch(jobs: map<string, Job>) {
    forall id :: id in jobs ==> jobs[id].jobId == id
  }

  // ---------------------------------------------------------------------------
  // Import from the legacy JSON file

  /** The legacy file as `migrate_from_json` sees it: missing, not decodable as
      JSON (json.load raises), or decoded to a value. */
  datatype LegacyFile = Missing | Undecodable | Decoded(doc: Value)

  /** `JobStatus(job_data["status"])`: the status the record's value names, if any. */
  function StatusField(e: seq<(string, Value)>): Option<JobStatus> {
    match Get<Value>(e, "status")
    case Some(Str(s)) => StatusFromValue(s)
    case _ => None
  }

  /** A required string column: `job_data[key]` raises KeyError when absent and a
      None value violates NOT NULL at commit. */
  function RequiredString(e: seq<(string, Value)>, key: string): Option<string> {
    match Get<Value>(e, key)
    case Some(Str(s)) => Some(s)
    case _ => None
  }

  function RequiredInt(e: seq<(string, Value)>, key: string): Option<int> {
    match Get<Value>(e, key)
    case Some(Num(n)) => Some(n)
    case _ => None
  }

  /** A nullable text column read with `job_data.get(key)`: absent or null gives None. */
  function NullableString(e: seq<(string, Value)>, key: string): Option<Option<string>> {
    match Get<Value>(e, key)
    case None => Some(None)
    case Some(Null) => Some(None)
    case Some(Str(s)) => Some(Some(s))
    case Some(_) => None
  }

  /** A nullable timestamp read as `fromisoformat(v) if job_data.get(key) else None`:
      a falsy or absent value gives None, a truthy one must parse. */
  function NullableTime(e: seq<(string, Value)>, key: string, parseIso: string -> Option<int>): Option<Option<int>> {
    match GetTruthy(e, key)
    case None => Some(None)
    case Some(Str(s)) => if parseIso(s).Some? then Some(Some(parseIso(s).value)) else None
    case Some(_) => None
  }

  /** created_at is read with `job_data["created_at"]` (KeyError when absent). A falsy
      value becomes None, and the ORM leaves a None column out of the INSERT, so the
      column default datetime.now applies (`now`). */
  function CreatedTime(e: seq<(string, Value)>, parseIso: string -> Option<int>, now: int): Option<int> {
    match Get<Value>(e, "created_at")
    case None => None
    case Some(v) =>
      if !Truthy(v) then Some(now)
      else if v.Str? && parseIso(v.s).Some? then Some(parseIso(v.s).value)
      else None
  }

  /** The Job built from one legacy record (database.py lines 138-161), or None when
      building it raises or its commit would violate a NOT NULL column. */
  function LegacyJob(id: string, data: Value, parseIso: string -> Option<int>, now: int): (r: Option<Job>)
    ensures r.Some? ==> r.value.jobId == id
    ensures r.Some? ==> data.Dict? && Get(data.entries, "status").Some?
                        && Get(data.entries, "status").value.Str?
                        && StatusFromValue(Get(data.entries, "status").value.s) == Some(r.value.status)
    ensures r.Some? ==> Get(data.entries, "error_message") in {None, Some(Null)} ==> r.value.errorMessage == None
    ensures r.Some? ==> Get(data.entries, "output_path") in {None, Some(Null)} ==> r.value.outputPath == None
    ensures r.Some? ==> GetTruthy(data.entries, "started_at") == None ==> r.value.startedAt == None
    ensures r.Some? ==> GetTruthy(data.entries, "completed_at") == None ==> r.value.completedAt == None
    ensures r.Some? ==> r.value.textLength == None && r.value.imagesCount == None && r.value.extractorUsed == None
  {
    if !data.Dict? then None
    else
      var e := data.entries;
      var status := StatusField(e);
      var filename := RequiredString(e, "filename");
      var fileSize := RequiredInt(e, "file_size");
      var fileType := RequiredString(e, "file_type");
      var createdAt := CreatedTime(e, parseIso, now);
      var startedAt := NullableTime(e, "started_at", parseIso);
      var completedAt := NullableTime(e, "completed_at", parseIso);
      var errorMessage := NullableString(e, "error_message");
      var outputPath := NullableString(e, "output_path");
      if status.None? || filename.None? || fileSize.None? || fileType.None? || createdAt.None?
         || startedAt.None? || completedAt.None? || errorMessage.None? || outputPath.None?
      then None
      else
        Some(Job(id, status.value, filename.value, fileSize.value, fileType.value, createdAt.value,
                 startedAt.value, completedAt.value, errorMessage.value, outputPath.value, None, None, None))
  }

  /** A legacy record the import accepts, stated key by key: an object whose status
      names a status, with a text filename and file type and an integer file size, a
      created_at that is falsy or ISO text, started_at and completed_at that are
      absent, falsy or ISO text, and an error message and output path that are
      absent, null or text. */
  predicate WellFormedRecord(data: Value, parseIso: string -> Option<int>) {
    && data.Dict?
    && var e := data.entries;
       && HoldsStatus(Get(e, "status"))
       && HoldsStr(Get(e, "filename")) && HoldsNum(Get(e, "file_size")) && HoldsStr(Get(e, "file_type"))
       && Get(e, "created_at").Some? && IsoOrFalsy(Get(e, "created_at").value, parseIso)
       && (Get(e, "started_at").None? || IsoOrFalsy(Get(e, "started_at").value, parseIso))
       && (Get(e, "completed_at").None? || IsoOrFalsy(Get(e, "completed_at").value, parseIso))
       && NullOrStr(Get(e, "error_message")) && NullOrStr(Get(e, "output_path"))
  }

  predicate HoldsStatus(v: Option<Value>) {
    v.Some? && v.value.Str? && StatusFromValue(v.value.s).Some?
  }

  predicate HoldsStr(v: Option<Value>) {
    v.Some? && v.value.Str?
  }

  predicate HoldsNum(v: Option<Value>) {
    v.Some? && v.value.Num?
  }

  predicate IsoOrFalsy(v: Value, parseIso: string -> Option<int>) {
    !Truthy(v) || (v.Str? && parseIso(v.s).Some?)
  }

  predicate NullOrStr(v: Option<Value>) {
    v.None? || v.value.Null? || v.value.Str?
  }

  /** A record builds a row exactly when it is well formed. */
  lemma LegacyJobWellFormed(id: string, data: Value, parseIso: string -> Option<int>, now: int)
    ensures LegacyJob(id, data, parseIso, now).Some? <==> WellFormedRecord(data, parseIso)
  {
    if data.Dict? {
      FieldReaders(data.entries, parseIso, now);
    }
  }

  /** The row built from a record holds the record's own values: the filename, size
      and type as given, a present text error message or output path as given, a
      truthy timestamp parsed from its ISO text and a falsy created_at replaced by the
      import time. */
  lemma LegacyJobFields(id: string, data: Value, parseIso: string -> Option<int>, now: int)
    requires LegacyJob(id, data, parseIso, now).Some?
    ensures var j := LegacyJob(id, data, parseIso, now).value;
            var e := data.entries;
            && Get(e, "filename") == Some(Str(j.filename))
            && Get(e, "file_size") == Some(Num(j.fileSize))
            && Get(e, "file_type") == Some(Str(j.fileType))
            && (Truthy(Get(e, "created_at").value) ==> parseIso(Get(e, "created_at").value.s) == Some(j.createdAt))
            && (!Truthy(Get(e, "created_at").value) ==> j.createdAt == now)
            && (GetTruthy(e, "started_at").Some? ==> parseIso(GetTruthy(e, "started_at").value.s) == j.startedAt)
            && (GetTruthy(e, "completed_at").Some? ==> parseIso(GetTruthy(e, "completed_at").value.s) == j.completedAt)
            && (HoldsStr(Get(e, "error_message")) ==> j.errorMessage == Some(Get(e, "error_message").value.s))
            && (HoldsStr(Get(e, "output_path")) ==> j.outputPath == Some(Get(e, "output_path").value.s))
  {
    FieldReaders(data.entries, parseIso, now);
  }

  /** What each column reader gives, key by key. */
  lemma FieldReaders(e: seq<(string, Value)>, parseIso: string -> Option<int>, now: int)
    ensures StatusField(e).Some? <==> HoldsStatus(Get(e, "status"))
    ensures RequiredStringReads(e, "filename") && RequiredStringReads(e, "file_type")
    ensures RequiredInt(e, "file_size").Some? <==> HoldsNum(Get(e, "file_size"))
    ensures RequiredInt(e, "file_size").Some? ==> Get(e, "file_size") == Some(Num(RequiredInt(e, "file_size").value))
    ensures CreatedTime(e, parseIso, now).Some? <==>
              Get(e, "created_at").Some? && IsoOrFalsy(Get(e, "created_at").value, parseIso)
    ensures CreatedTime(e, parseIso, now).Some? && Truthy(Get(e, "created_at").value) ==>
              parseIso(Get(e, "created_at").value.s) == CreatedTime(e, parseIso, now)
    ensures CreatedTime(e, parseIso, now).Some? && !Truthy(Get(e, "created_at").value) ==>
              CreatedTime(e, parseIso, now) == Some(now)
    ensures NullableTimeReads(e, "started_at", parseIso)
    ensures NullableTimeReads(e, "completed_at", parseIso)
    ensures NullableStringReads(e, "error_message")
    ensures NullableStringReads(e, "output_path")
  {
    RequiredStringRead(e, "filename");
    RequiredStringRead(e, "file_type");
    NullableTimeRead(e, "started_at", parseIso);
    NullableTimeRead(e, "completed_at", parseIso);
    NullableStringRead(e, "error_message");
    NullableStringRead(e, "output_path");
  }

  predicate RequiredStringReads(e: seq<(string, Value)>, key: string) {
    && (RequiredString(e, key).Some? <==> HoldsStr(Get(e, key)))
    && (RequiredString(e, key).Some? ==> Get(e, key) == Some(Str(RequiredString(e, key).value)))
  }

  lemma RequiredStringRead(e: seq<(string, Value)>, key: string)
    ensures RequiredStringReads(e, key)
  {
    var v := Get<Value>(e, key);
    assert RequiredString(e, key) == if v.Some? && v.value.Str? then Some(v.value.s) else None;
  }

  lemma NullableTimeRead(e: seq<(string, Value)>, key: string, parseIso: string -> Option<int>)
    ensures NullableTimeReads(e, key, parseIso)
  {
    var v := Get<Value>(e, key);
    assert GetTruthy(e, key) == if v.Some? && Truthy(v.value) then v else None;
  }

  lemma NullableStringRead(e: seq<(string, Value)>, key: string)
    ensures NullableStringReads(e, key)
  {
    var v := Get<Value>(e, key);
    assert NullableString(e, key) == if v.None? || v.value.Null? then Some(None)
                                     else if v.value.Str? then Some(Some(v.value.s)) else None;
  }

  predicate NullableTimeReads(e: seq<(string, Value)>, key: string, parseIso: string -> Option<int>) {
    && (NullableTime(e, key, parseIso).Some? <==> Get(e, key).None? || IsoOrFalsy(Get(e, key).value, parseIso))
    && (NullableTime(e, key, parseIso).Some? && GetTruthy(e, key).Some? ==>
          parseIso(GetTruthy(e, key).value.s) == NullableTime(e, key, parseIso).value)
  }

  predicate NullableStringReads(e: seq<(string, Value)>, key: string) {
    && (NullableString(e, key).Some? <==> NullOrStr(Get(e, key)))
    && (HoldsStr(Get(e, key)) ==> NullableString(e, key) == Some(Some(Get(e, key).value.s)))
  }

  /** The rows a whole import adds, given the rows added so far in this session
      (`pending`), or None when some record fails: a failure anywhere rolls the
      session back. An id already in the table is skipped; an id added twice in one
      session fails the commit on the primary key. */
  function ImportFrom(store: map<string, Job>, pending: map<string, Job>, entries: seq<(string, Value)>,
                      parseIso: string -> Option<int>, now: int): Option<map<string, Job>>
    decreases |entries|
  {
    if |entries| == 0 then Some(pending)
    else
      var id := entries[0].0;
      if id in store then ImportFrom(store, pending, entries[1..], parseIso, now)
      else
        match LegacyJob(id, entries[0].1, parseIso, now)
        case None => None
        case Some(job) =>
          if id in pending then None
          else ImportFrom(store, pending[id := job], entries[1..], parseIso, now)
  }

  /** The rows `migrate_from_json` adds to `store`, or None when it adds nothing
      because the file is missing, undecodable, not an object, or a record fails. */
  function Import(store: map<string, Job>, file: LegacyFile, parseIso: string -> Option<int>, now: int): Option<map<string, Job>> {
    if file.Decoded? && file.doc.Dict? then ImportFrom(store, map[], file.doc.entries, parseIso, now)
    else None
  }

  /** The table after the import: extended by the added rows, or exactly as before. */
  function AfterImport(store: map<string, Job>, file: LegacyFile, parseIso: string -> Option<int>, now: int): map<string, Job> {
    match Import(store, file, parseIso, now)
    case Some(added) => store + added
    case None => store
  }

  /** The ids of a decoded document that are not yet in the table. */
  function NewIds(store: map<string, Job>, entries: seq<(string, Value)>): set<string> {
    set i | 0 <= i < |entries| && entries[i].0 !in store :: entries[i].0
  }

  lemma NewIdsCons(store: map<string, Job>, entries: seq<(string, Value)>)
    requires |entries| > 0
    ensures NewIds(store, entries)
            == (if entries[0].0 in store then {} else {entries[0].0}) + NewIds(store, entries[1..])
  {
    var id := entries[0].0;
    forall x | x in NewIds(store, entries)
      ensures x in (if id in store then {} else {id}) + NewIds(store, entries[1..])
    {
      var i :| 0 <= i < |entries| && entries[i].0 !in store && entries[i].0 == x;
      if i > 0 { assert entries[1..][i - 1] == entries[i]; }
    }
    forall x | x in NewIds(store, entries[1..]) ensures x in NewIds(store, entries) {
      var i :| 0 <= i < |entries[1..]| && entries[1..][i].0 !in store && entries[1..][i].0 == x;
      assert entries[i + 1] == entries[1..][i];
    }
  }

  /** What an import session adds: rows keyed by their own ids, under exactly the
      ids of the document not already in the table, and never an existing id. */
  lemma ImportFromAdds(store: map<string, Job>, pending: map<string, Job>,
                       entries: seq<(string, Value)>, parseIso: string -> Option<int>, now: int)
    requires KeysMatch(pending) && pending.Keys !! store.Keys
    ensures var r := ImportFrom(store, pending, entries, parseIso, now);
            r.Some? ==> KeysMatch(r.value) && r.value.Keys !! store.Keys
                        && r.value.Keys == pending.Keys + NewIds(store, entries)
                        && forall id :: id in pending ==> id in r.value && r.value[id] == pending[id]
  {
    ImportFromKeys(store, pending, entries, parseIso, now);
    ImportFromKeeps(store, pending, entries, parseIso, now);
  }

  /** The ids an import session ends with: those it began with and the new ids of
      the document. */
  lemma {:induction false} ImportFromKeys(store: map<string, Job>, pending: map<string, Job>,
                                          entries: seq<(string, Value)>, parseIso: string -> Option<int>, now: int)
    ensures var r := ImportFrom(store, pending, entries, parseIso, now);
            r.Some? ==> r.value.Keys == pending.Keys + NewIds(store, entries)
    decreases |entries|
  {
    if |entries| > 0 {
      var id := entries[0].0;
      var rest := entries[1..];
      NewIdsCons(store, entries);
      if id in store {
        assert ImportFrom(store, pending, entries, parseIso, now) == ImportFrom(store, pending, rest, parseIso, now);
        ImportFromKeys(store, pending, rest, parseIso, now);
      } else {
        match LegacyJob(id, entries[0].1, parseIso, now)
        case None =>
        case Some(job) =>
          if id !in pending {
            var next := pending[id := job];
            assert ImportFrom(store, pending, entries, parseIso, now) == ImportFrom(store, next, rest, parseIso, now);
            assert next.Keys == pending.Keys + {id};
            ImportFromKeys(store, next, rest, parseIso, now);
          }
      }
    }
  }

  /** An import session keys every row by its own id and never replaces a row it
      added earlier. */
  lemma {:induction false} ImportFromKeeps(store: map<string, Job>, pending: map<string, Job>,
                                           entries: seq<(string, Value)>, parseIso: string -> Option<int>, now: int)
    requires KeysMatch(pending)
    ensures var r := ImportFrom(store, pending, entries, parseIso, now);
            r.Some? ==> KeysMatch(r.value) && forall id :: id in pending ==> id in r.value && r.value[id] == pending[id]
    decreases |entries|
  {
    if |entries| > 0 {
      var id := entries[0].0;
      var rest := entries[1..];
      if id in store {
        assert ImportFrom(store, pending, entries, parseIso, now) == ImportFrom(store, pending, rest, parseIso, now);
        ImportFromKeeps(store, pending, rest, parseIso, now);
      } else {
        match LegacyJob(id, entries[0].1, parseIso, now)
        case None =>
        case Some(job) =>
          if id !in pending {
            var next := pending[id := job];
            assert ImportFrom(store, pending, entries, parseIso, now) == ImportFrom(store, next, rest, parseIso, now);
            ImportFromKeeps(store, next, rest, parseIso, now);
          }
      }
    }
  }

  /** The import never overwrites: a successful import adds rows only under ids
      absent from the table, and the rows already there are unchanged. */
  lemma ImportNeverOverwrites(store: map<string, Job>, file: LegacyFile, parseIso: string -> Option<int>, now: int)
    requires KeysMatch(store)
    ensures var after := AfterImport(store, file, parseIso, now);
            KeysMatch(after) && store.Keys <= after.Keys
            && forall id :: id in store ==> after[id] == store[id]
  {
    if Import(store, file, parseIso, now).Some? {
      ImportFromAdds(store, map[], file.doc.entries, parseIso, now);
    }
  }

  /** The migrated count: a successful import adds exactly the document's ids that
      were not already in the table. */
  lemma ImportAddsNewIds(store: map<string, Job>, file: LegacyFile, parseIso: string -> Option<int>, now: int)
    requires Import(store, file, parseIso, now).Some?
    ensures file.Decoded? && file.doc.Dict?
    ensures Import(store, file, parseIso, now).value.Keys == NewIds(store, file.doc.entries)
  {
    ImportFromAdds(store, map[], file.doc.entries, parseIso, now);
  }

  /** A session in which every id is already in the table adds nothing. */
  lemma {:induction false} ImportFromKnownIds(store: map<string, Job>, pending: map<string, Job>,
                                              entries: seq<(string, Value)>, parseIso: string -> Option<int>, now: int)
    requires forall i :: 0 <= i < |entries| ==> entries[i].0 in store
    ensures ImportFrom(store, pending, entries, parseIso, now) == Some(pending)
    decreases |entries|
  {
    if |entries| > 0 {
      ImportFromKnownIds(store, pending, entries[1..], parseIso, now);
    }
  }

  /** After a successful import every id of the document is in the table. */
  lemma ImportCoversIds(store: map<string, Job>, entries: seq<(string, Value)>, parseIso: string -> Option<int>, now: int)
    requires ImportFrom(store, map[], entries, parseIso, now).Some?
    ensures var once := store + ImportFrom(store, map[], entries, parseIso, now).value;
            forall i :: 0 <= i < |entries| ==> entries[i].0 in once
  {
    ImportFromAdds(store, map[], entries, parseIso, now);
    var added := ImportFrom(store, map[], entries, parseIso, now).value;
    forall i | 0 <= i < |entries| ensures entries[i].0 in store + added {
      if entries[i].0 !in store {
        assert entries[i].0 in NewIds(store, entries);
      }
    }
  }

  lemma LegacyJobFailureIgnoresClock(id: string, data: Value, parseIso: string -> Option<int>, now: int, later: int)
    ensures LegacyJob(id, data, parseIso, now).None? == LegacyJob(id, data, parseIso, later).None?
  {
    if data.Dict? {
      assert CreatedTime(data.entries, parseIso, now).None? == CreatedTime(data.entries, parseIso, later).None?;
    }
  }

  /** Whether a session fails does not depend on the clock that fills created_at. */
  lemma {:induction false} ImportFailureIgnoresClock(store: map<string, Job>, p1: map<string, Job>, p2: map<string, Job>,
                                                     entries: seq<(string, Value)>, parseIso: string -> Option<int>, now: int, later: int)
    requires p1.Keys == p2.Keys
    ensures ImportFrom(store, p1, entries, parseIso, now).None? == ImportFrom(store, p2, entries, parseIso, later).None?
    decreases |entries|
  {
    if |entries| > 0 {
      var id := entries[0].0;
      if id in store {
        ImportFailureIgnoresClock(store, p1, p2, entries[1..], parseIso, now, later);
      } else {
        LegacyJobFailureIgnoresClock(id, entries[0].1, parseIso, now, later);
        var j1 := LegacyJob(id, entries[0].1, parseIso, now);
        var j2 := LegacyJob(id, entries[0].1, parseIso, later);
        if j1.Some? && id !in p1 {
          ImportFailureIgnoresClock(store, p1[id := j1.value], p2[id := j2.value], entries[1..], parseIso, now, later);
        }
      }
    }
  }

  /** Importing the same file twice adds nothing the second time, whatever the
      clock reads at the second run. */
  lemma ImportIdempotent(store: map<string, Job>, file: LegacyFile, parseIso: string -> Option<int>, now: int, later: int)
    requires KeysMatch(store)
    ensures var once := AfterImport(store, file, parseIso, now);
            AfterImport(once, file, parseIso, later) == once
  {
    if file.Decoded? && file.doc.Dict? {
      var entries := file.doc.entries;
      var first := ImportFrom(store, map[], entries, parseIso, now);
      if first.Some? {
        var once := store + first.value;
        ImportCoversIds(store, entries, parseIso, now);
        ImportFromKnownIds(once, map[], entries, parseIso, later);
        assert AfterImport(store, file, parseIso, now) == once;
        assert Import(once, file, parseIso, later) == Some(map[]);
        assert once + map[] == once;
      } else {
        ImportFailureIgnoresClock(store, map[], map[], entries, parseIso, now, later);
      }
    }
  }

  /** The `jobs` table. */
  class JobTable {
    var jobs: map<string, Job>

    ghost predicate Valid()
      reads this
    {
      KeysMatch(jobs)
    }

    constructor ()
      ensures Valid() && jobs == map[]
    {
      jobs := map[];
    }

    /** `migrate_from_json(json_file_path)`: imports the legacy records in one session.
        `parseIso` stands for datetime.fromisoformat and `now` for the column default.
        The source logs the migrated count; the model returns it. */
    method MigrateFromJson(file: LegacyFile, parseIso: string -> Option<int>, now: int) returns (migrated: nat)
      requires Valid()
      modifies this
      ensures Valid()
      ensures jobs == AfterImport(old(jobs), file, parseIso, now)
      ensures migrated == match Import(old(jobs), file, parseIso, now)
                          case Some(added) => |added|
                          case None => 0
    {
      migrated := 0;
      if !file.Decoded? || !file.doc.Dict? {
        // Missing file: logged and returned. Undecodable or not an object: the
        // exception is caught and logged.
        ImportNeverOverwrites(jobs, file, parseIso, now);
        return;
      }
      var entries := file.doc.entries;
      var pending: map<string, Job> := map[];
      var count := 0;
      var i := 0;
      var failed := false;
      while i < |entries|
        invariant 0 <= i <= |entries|
        invariant count == |pending|
        invariant ImportFrom(jobs, pending, entries[i..], parseIso, now) == ImportFrom(jobs, map[], entries, parseIso, now)
      {
        var id := entries[i].0;
        assert entries[i..][1..] == entries[i + 1..];
        if id in jobs {
          i := i + 1;
          continue;
        }
        var job := LegacyJob(id, entries[i].1, parseIso, now);
        if job.None? || id in pending {
          // A raised exception, or the primary-key violation at commit.
          failed := true;
          break;
        }
        pending := pending[id := job.value];
        count := count + 1;
        i := i + 1;
      }
      ImportNeverOverwrites(jobs, file, parseIso, now);
      if !failed {
        assert entries[i..] == [];
        assert Import(jobs, file, parseIso, now) == Some(pending);
        jobs := jobs + pending;
        migrated := count;
      } else {
        assert Import(jobs, file, parseIso, now) == None;
      }
    }
  }
}
