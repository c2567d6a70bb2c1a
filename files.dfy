/** The upload and output rules of FileManager: sanitising an uploaded file name,
    the timestamped unique name, the size limit and type validation of an upload,
    the results archive of a job, the "output exists" test and the expiry sweep of
    the uploads directory. The two directories the service writes to are one shared
    `Disk` object, which the job manager changes as well. */
module Files {
  import opened Common
  import opened Extractors

  // ---------------------------------------------------------------------------
  // The directories

  /** An entry of the uploads directory: a regular file with its modification time
      and size, or anything else (a subdirectory), which the sweep skips. */
  datatype UploadEntry = StoredFile(mtime: int, size: nat) | Subdirectory

  /** What a file under a job's output directory holds: plain extracted data, a JSON
      document (the extraction log), or a zip archive listing its member paths. */
  datatype FileContent = Data(size: nat) | Json(doc: Value) | Archive(members: set<string>)

  datatype Node = Directory | RegularFile(content: FileContent)

  /** Everything below one job's output directory, keyed by the path relative to
      that directory (what `rglob("*")` walks). */
  type Tree = map<string, Node>

  /** The uploads directory (file name to entry) and the outputs directory (job id
      to that job's tree; a job id is a key exactly when its directory exists). */
  class Disk {
    var uploads: map<string, UploadEntry>
    var outputs: map<string, Tree>

    constructor ()
      ensures uploads == map[] && outputs == map[]
    {
      uploads := map[];
      outputs := map[];
    }
  }

  // ---------------------------------------------------------------------------
  // sanitize_filename

  /** The characters `[\w\-_\.]` keeps; `isWord` is the regular-expression class \w. */
  predicate Allowed(c: char, isWord: char -> bool) {
    isWord(c) || c == '-' || c == '_' || c == '.'
  }

  /** What is known of \w: ASCII letters, digits and '_' are word characters, and
      '/', '.' and '-' are not. */
  predicate WordClass(isWord: char -> bool) {
    && (forall c: char :: ('a' <= c <= 'z' || 'A' <= c <= 'Z' || '0' <= c <= '9' || c == '_') ==> isWord(c))
    && !isWord('/') && !isWord('.') && !isWord('-')
  }

  /** `re.sub(r"[^\w\-_\.]", "_", s)`. */
  function ReplaceUnsafe(s: string, isWord: char -> bool): string {
    seq(|s|, i requires 0 <= i < |s| => if Allowed(s[i], isWord) then s[i] else '_')
  }

  /** `re.sub(r"_+", "_", s)`: an underscore directly after an underscore is dropped. */
  function Collapse(s: string): string {
    if |s| <= 1 then s
    else if s[0] == '_' && s[1] == '_' then Collapse(s[1..])
    else [s[0]] + Collapse(s[1..])
  }

  predicate NoDoubleUnderscore(s: string) {
    forall i :: 0 <= i < |s| - 1 ==> !(s[i] == '_' && s[i + 1] == '_')
  }

  /** The text with every underscore removed. */
  function NonUnderscores(s: string): string {
    if |s| == 0 then "" else (if s[0] == '_' then "" else [s[0]]) + NonUnderscores(s[1..])
  }

  /** Collapsing keeps the first character and every character that is not an
      underscore, in order, introduces no character, leaves no two underscores
      adjacent, and changes nothing in a text that had none adjacent. */
  lemma {:induction false} CollapseRules(s: string)
    ensures NoDoubleUnderscore(Collapse(s))
    ensures |s| > 0 ==> |Collapse(s)| > 0 && Collapse(s)[0] == s[0]
    ensures forall c :: c in Collapse(s) ==> c in s
    ensures NonUnderscores(Collapse(s)) == NonUnderscores(s)
    ensures NoDoubleUnderscore(s) ==> Collapse(s) == s
  {
    if |s| > 1 {
      var t := s[1..];
      CollapseRules(t);
      if s[0] == '_' && s[1] == '_' {
        assert NonUnderscores(s) == NonUnderscores(t);
      } else {
        var r := [s[0]] + Collapse(t);
        assert r[1..] == Collapse(t);
        assert NonUnderscores(r) == (if s[0] == '_' then "" else [s[0]]) + NonUnderscores(Collapse(t));
        forall i | 0 <= i < |r| - 1
          ensures !(r[i] == '_' && r[i + 1] == '_')
        {
          if i > 0 {
            assert r[i] == Collapse(t)[i - 1] && r[i + 1] == Collapse(t)[i];
          }
        }
        forall c | c in r
          ensures c in s
        {
          if c != s[0] {
            assert c in Collapse(t);
          }
        }
        if NoDoubleUnderscore(s) {
          assert NoDoubleUnderscore(t) by {
            forall i | 0 <= i < |t| - 1
              ensures !(t[i] == '_' && t[i + 1] == '_')
            {
              assert t[i] == s[i + 1] && t[i + 1] == s[i + 2];
            }
          }
          assert s == [s[0]] + t;
        }
      }
    }
  }

  /** `sanitize_filename(name)`. */
  function Sanitize(name: string, isWord: char -> bool): (r: string)
    ensures r != "" && r[0] != '.'
  {
    var c := Collapse(ReplaceUnsafe(name, isWord));
    if c == "" || c[0] == '.' then "document" + c else c
  }

  /** A name `sanitize_filename` leaves as it is. */
  predicate SafeName(s: string, isWord: char -> bool) {
    && s != "" && s[0] != '.'
    && (forall i :: 0 <= i < |s| ==> Allowed(s[i], isWord))
    && NoDoubleUnderscore(s)
  }

  /** A sanitised name holds only word characters, '-', '_' and '.', never two
      underscores in a row, is never empty, never starts with '.', and so never
      holds a path separator. */
  lemma SanitizeRules(name: string, isWord: char -> bool)
    requires WordClass(isWord)
    ensures SafeName(Sanitize(name, isWord), isWord)
    ensures '/' !in Sanitize(name, isWord)
  {
    var u := ReplaceUnsafe(name, isWord);
    var c := Collapse(u);
    CollapseRules(u);
    assert forall i :: 0 <= i < |c| ==> Allowed(c[i], isWord) by {
      forall i | 0 <= i < |c|
        ensures Allowed(c[i], isWord)
      {
        assert c[i] in c;
      }
    }
    var r := Sanitize(name, isWord);
    if c == "" || c[0] == '.' {
      assert r == "document" + c;
      forall i | 0 <= i < |r|
        ensures Allowed(r[i], isWord)
      {
        if i >= 8 { assert r[i] == c[i - 8]; }
      }
      forall i | 0 <= i < |r| - 1
        ensures !(r[i] == '_' && r[i + 1] == '_')
      {
        if i >= 8 { assert r[i] == c[i - 8] && r[i + 1] == c[i - 7]; }
      }
    }
  }

  /** A name that is already safe is left unchanged. */
  lemma SanitizeKeepsSafe(s: string, isWord: char -> bool)
    requires SafeName(s, isWord)
    ensures Sanitize(s, isWord) == s
  {
    assert ReplaceUnsafe(s, isWord) == s;
    CollapseRules(s);
  }

  /** `sanitize_filename` is idempotent. */
  lemma SanitizeIdempotent(name: string, isWord: char -> bool)
    requires WordClass(isWord)
    ensures Sanitize(Sanitize(name, isWord), isWord) == Sanitize(name, isWord)
  {
    SanitizeRules(name, isWord);
    SanitizeKeepsSafe(Sanitize(name, isWord), isWord);
  }

  // ---------------------------------------------------------------------------
  // The unique name of an upload

  /** `name_<ts>.ext` after splitting the sanitised name at its last '.', or
      `name_<ts>` when it has no '.' or nothing follows its last '.'. */
  function UniqueName(safe: string, ts: nat): string {
    var i := LastIndexOf(safe, '.');
    var stamp := NatToString(ts);
    if i < 0 then safe + "_" + stamp
    else if i == |safe| - 1 then safe[..i] + "_" + stamp
    else safe[..i] + "_" + stamp + "." + safe[i + 1..]
  }

  /** The unique name stays a plain file name inside the uploads directory and does
      not start with '.' when the sanitised name does not. */
  lemma UniqueNameIsPlain(safe: string, ts: nat)
    requires '/' !in safe
    ensures '/' !in UniqueName(safe, ts)
    ensures safe != "" && safe[0] != '.' ==> UniqueName(safe, ts)[0] != '.'
  {
    var stamp := NatToString(ts);
    StampHasNoSeparator(ts);
    var i := LastIndexOf(safe, '.');
    if i >= 0 {
      assert safe == safe[..i] + [safe[i]] + safe[i + 1..];
    }
  }

  /** A decimal timestamp holds neither '.' nor '/'. */
  lemma StampHasNoSeparator(ts: nat)
    ensures '.' !in NatToString(ts) && '/' !in NatToString(ts)
  {
    var stamp := NatToString(ts);
    forall k | 0 <= k < |stamp|
      ensures stamp[k] != '.' && stamp[k] != '/'
    {
      assert IsDigit(stamp[k]);
    }
  }

  /** The unique name has the same suffix as the sanitised name when that name
      starts and ends with something other than '.', so type validation of the
      stored file sees the uploaded file's extension. */
  lemma UniqueNameKeepsSuffix(safe: string, ts: nat)
    requires '/' !in safe && safe != "" && safe[0] != '.' && safe[|safe| - 1] != '.'
    ensures Suffix(UniqueName(safe, ts)) == Suffix(safe)
  {
    UniqueNameIsPlain(safe, ts);
    StampHasNoSeparator(ts);
    var i := LastIndexOf(safe, '.');
    if i < 0 {
      UniqueNoDot(safe, NatToString(ts));
    } else {
      UniqueAtDot(safe, i, NatToString(ts));
    }
  }

  lemma UniqueNoDot(safe: string, stamp: string)
    requires '/' !in safe && '.' !in safe && '/' !in stamp && '.' !in stamp
    ensures Suffix(safe + "_" + stamp) == Suffix(safe) == ""
  {
    var u := safe + "_" + stamp;
    assert '/' !in u && '.' !in u;
    SuffixNoDot(safe);
    SuffixNoDot(u);
  }

  lemma UniqueAtDot(safe: string, i: nat, stamp: string)
    requires '/' !in safe && 0 < i < |safe| - 1 && safe[i] == '.'
    requires forall k :: i < k < |safe| ==> safe[k] != '.'
    requires '/' !in stamp && '.' !in stamp
    ensures Suffix(safe[..i] + "_" + stamp + "." + safe[i + 1..]) == Suffix(safe)
  {
    var b := safe[i + 1..];
    assert '.' !in b by {
      forall k | 0 <= k < |b| ensures b[k] != '.' { assert b[k] == safe[i + 1 + k]; }
    }
    assert safe == safe[..i] + "." + b;
    SuffixOfParts(safe[..i], b);
    SuffixOfParts(safe[..i] + "_" + stamp, b);
  }

  /** A plain name `a.b` whose part after the dot holds no dot has suffix `.b`. */
  lemma SuffixOfParts(a: string, b: string)
    requires |a| > 0 && |b| > 0 && '/' !in a && '/' !in b && '.' !in b
    ensures Suffix(a + "." + b) == "." + b
  {
    var u := a + "." + b;
    forall k | 0 <= k < |u|
      ensures u[k] != '/'
      ensures |a| < k ==> u[k] != '.'
    {
      if k < |a| {
        assert u[k] == a[k];
      } else if k > |a| {
        assert u[k] == b[k - |a| - 1];
      }
    }
    SuffixAtDot(u, |a|);
    assert u[|a|..] == "." + b;
  }

  // ---------------------------------------------------------------------------
  // validate_file_type and save_upload_file

  /** What `magic.Magic(mime=True).from_file` gives: a MIME type or an error text. */
  datatype SniffOutcome = Sniffed(mime: string) | SniffError(message: string)

  datatype Validation = Accepted(mime: string) | Refused(reason: string)

  /** `validate_file_type(path)`: the lower-cased suffix must be supported, the MIME
      sniffing must not fail, and some registered class must take the file. */
  function ValidateFileType(path: string, supported: set<string>, t: Registry, guess: MimeGuess,
                            sniff: string -> SniffOutcome): (r: Validation)
    ensures r.Accepted? <==> Lower(Suffix(path)) in supported && sniff(path).Sniffed?
                             && FirstMatch(t, path, guess).Some?
    ensures r.Accepted? ==> sniff(path) == Sniffed(r.mime)
    ensures Lower(Suffix(path)) !in supported ==> r == Refused("Unsupported file extension: " + Lower(Suffix(path)))
  {
    var ext := Lower(Suffix(path));
    if ext !in supported then Refused("Unsupported file extension: " + ext)
    else match sniff(path)
      case SniffError(e) => Refused("File validation failed: " + e)
      case Sniffed(m) =>
        if FirstMatch(t, path, guess).None? then Refused("No suitable extractor found for file type: " + ext)
        else Accepted(m)
  }

  /** With the supported set taken from the same registry, as FileManager does, a
      file is accepted exactly when its extension is supported and sniffing works:
      the "no suitable extractor" refusal can never happen. */
  lemma ValidationNeedsOnlyExtension(path: string, t: Registry, guess: MimeGuess, sniff: string -> SniffOutcome)
    ensures ValidateFileType(path, SupportedExtensions(t), t, guess, sniff).Accepted?
            <==> Lower(Suffix(path)) in SupportedExtensions(t) && sniff(path).Sniffed?
    ensures ValidateFileType(path, SupportedExtensions(t), t, guess, sniff).Accepted? ==>
              ValidateFileType(path, SupportedExtensions(t), t, guess, sniff).mime == sniff(path).mime
  {
    ResolvesIffSupported(t, path, guess);
  }

  /** The part of an `UploadFile` the service reads: its name, its declared size
      and the length of its content. */
  datatype Upload = Upload(filename: Option<string>, size: Option<int>, contentLength: nat)

  datatype SaveOutcome = Saved(name: string) | Rejected(code: nat, detail: string)

  function TooLargeDetail(maxFileSize: nat): string {
    "File too large. Maximum size is " + NatToString(maxFileSize / (1024 * 1024)) + "MB"
  }

  /** The environment of one upload: \w, the MIME guess of the registry, the MIME
      sniffing, and the error a failing write raises, if any. */
  datatype SaveEnv = SaveEnv(isWord: char -> bool, guess: MimeGuess, sniff: string -> SniffOutcome,
                             writeError: Option<string>)

  /** The decision `save_upload_file` makes and the uploads directory it leaves. The
      stored name is computed from the sanitised name and the clock `now`; the file
      is created empty before the content length is checked and is not removed when
      that check fails; a write failure or a refused validation removes it. */
  function SaveUpload(uploads: map<string, UploadEntry>, u: Upload, now: nat, maxFileSize: nat,
                      supported: set<string>, t: Registry, env: SaveEnv): (r: (SaveOutcome, map<string, UploadEntry>))
    ensures r.0.Saved? ==> r.1 == uploads[r.0.name := StoredFile(now, u.contentLength)]
    ensures r.0.Rejected? ==> r.0.code in {400, 413, 500}
    ensures r.1.Keys <= uploads.Keys || (r.0.Saved? || r.0.code == 413)
  {
    if u.filename.None? || u.filename.value == "" then (Rejected(400, "No filename provided"), uploads)
    else if u.size.Some? && u.size.value != 0 && u.size.value > maxFileSize then
      (Rejected(413, TooLargeDetail(maxFileSize)), uploads)
    else
      var name := UniqueName(Sanitize(u.filename.value, env.isWord), now);
      if u.contentLength > maxFileSize then
        (Rejected(413, TooLargeDetail(maxFileSize)), uploads[name := StoredFile(now, 0)])
      else if env.writeError.Some? then
        (Rejected(500, "Failed to save file: " + env.writeError.value), uploads - {name})
      else match ValidateFileType(name, supported, t, env.guess, env.sniff)
        case Refused(reason) => (Rejected(400, reason), uploads - {name})
        case Accepted(_) => (Saved(name), uploads[name := StoredFile(now, u.contentLength)])
  }

  /** An upload with a name is refused with 413 exactly when its declared size or its
      content length exceeds the maximum; a size equal to the maximum passes. */
  lemma SaveSizeLimit(uploads: map<string, UploadEntry>, u: Upload, now: nat, maxFileSize: nat,
                      supported: set<string>, t: Registry, env: SaveEnv)
    requires u.filename.Some? && u.filename.value != ""
    ensures SaveUpload(uploads, u, now, maxFileSize, supported, t, env).0 == Rejected(413, TooLargeDetail(maxFileSize))
            <==> (u.size.Some? && u.size.value > maxFileSize) || u.contentLength > maxFileSize
  {
  }

  /** An upload is stored exactly when it has a name, fits the size limit, is written
      and passes validation; it is then a plain file of the uploads directory, the
      only entry that changed, keeping the uploaded name's suffix. */
  lemma SaveStores(uploads: map<string, UploadEntry>, u: Upload, now: nat, maxFileSize: nat,
                   supported: set<string>, t: Registry, env: SaveEnv)
    requires WordClass(env.isWord)
    ensures var (r, after) := SaveUpload(uploads, u, now, maxFileSize, supported, t, env);
            r.Saved? <==>
              && u.filename.Some? && u.filename.value != ""
              && !(u.size.Some? && u.size.value > maxFileSize) && u.contentLength <= maxFileSize
              && env.writeError.None?
              && ValidateFileType(UniqueName(Sanitize(u.filename.value, env.isWord), now),
                                  supported, t, env.guess, env.sniff).Accepted?
    ensures var (r, after) := SaveUpload(uploads, u, now, maxFileSize, supported, t, env);
            r.Saved? ==>
              && '/' !in r.name
              && r.name == UniqueName(Sanitize(u.filename.value, env.isWord), now)
              && after == uploads[r.name := StoredFile(now, u.contentLength)]
  {
    var (r, after) := SaveUpload(uploads, u, now, maxFileSize, supported, t, env);
    if u.filename.Some? && u.filename.value != "" {
      var safe := Sanitize(u.filename.value, env.isWord);
      var name := UniqueName(safe, now);
      SanitizeRules(u.filename.value, env.isWord);
      UniqueNameIsPlain(safe, now);
      assert '/' !in name;
      assert r.Saved? ==> r.name == name;
    }
  }

  /** Every refusal other than a 413 leaves no file under the stored name that was
      not there before: the early refusal changes nothing, and a write failure or a
      failed validation removes the file. */
  lemma SaveRefusalCleansUp(uploads: map<string, UploadEntry>, u: Upload, now: nat, maxFileSize: nat,
                            supported: set<string>, t: Registry, env: SaveEnv)
    ensures var (r, after) := SaveUpload(uploads, u, now, maxFileSize, supported, t, env);
            r.Rejected? && r.code != 413 ==> after.Keys <= uploads.Keys
  {
  }

  /** A 413 for a declared size leaves the uploads directory as it was; only an
      oversized content leaves an empty file behind. */
  lemma SaveTooLargeDeclared(uploads: map<string, UploadEntry>, u: Upload, now: nat, maxFileSize: nat,
                             supported: set<string>, t: Registry, env: SaveEnv)
    ensures var (r, after) := SaveUpload(uploads, u, now, maxFileSize, supported, t, env);
            r.Rejected? && r.code == 413 && u.contentLength <= maxFileSize ==> after == uploads
  {
  }

  // ---------------------------------------------------------------------------
  // The results archive and the output test

  /** The archive's own name inside the job directory. */
  function ZipName(jobId: string): string {
    jobId + "_results.zip"
  }

  /** The members `create_result_zip` writes: every regular file of the tree whose
      final path component differs from the archive's name. */
  function ArchiveMembers(tree: Tree, zipName: string): set<string> {
    set p | p in tree && InArchive(tree, zipName, p)
  }

  predicate InArchive(tree: Tree, zipName: string, p: string)
    requires p in tree
  {
    tree[p].RegularFile? && PathName(p) != zipName
  }

  /** Building the archive twice gives the same members: the archive written by the
      first build is left out of the second. */
  lemma ArchiveIgnoresItself(tree: Tree, jobId: string, content: FileContent)
    requires '/' !in jobId
    ensures ArchiveMembers(tree[ZipName(jobId) := RegularFile(content)], ZipName(jobId))
            == ArchiveMembers(tree, ZipName(jobId))
  {
    var z := ZipName(jobId);
    assert '/' !in z by {
      forall k | 0 <= k < |z| ensures z[k] != '/' {
        if k < |jobId| { assert z[k] == jobId[k]; }
      }
    }
    assert LastIndexOf(z, '/') == -1;
    assert PathName(z) == z;
  }

  /** An output directory holding only subdirectories passes the "output exists"
      test of a download when it is not empty, and yet gives an archive without
      members. */
  lemma ArchiveOfDirectoriesIsEmpty(tree: Tree, zipName: string)
    requires forall p :: p in tree ==> tree[p] == Directory
    ensures ArchiveMembers(tree, zipName) == {}
  {
    assert forall p :: p in tree ==> !tree[p].RegularFile?;
  }

  /** The service's FileManager: its configuration, and the directories it works on. */
  /** A job's output directory exists and holds at least one entry. */
  predicate OutputExists(outputs: map<string, Tree>, jobId: string) {
    jobId in outputs && outputs[jobId] != map[]
  }

  class FileManager {
    const disk: Disk
    const maxFileSize: nat
    const supportedExtensions: set<string>
    const extractors: Registry

    /** `FileManager(uploads_dir, outputs_dir, max_file_size)`, reading the supported
        extensions from the factory. */
    constructor (disk: Disk, maxFileSize: nat, factory: ExtractorFactory)
      ensures this.disk == disk && this.maxFileSize == maxFileSize
      ensures extractors == factory.extractors
      ensures supportedExtensions == SupportedExtensions(factory.extractors)
    {
      var exts := factory.GetSupportedExtensions();
      this.disk := disk;
      this.maxFileSize := maxFileSize;
      extractors := factory.extractors;
      supportedExtensions := exts;
    }

    /** `save_upload_file(upload)`, at clock `now`. */
    method SaveUploadFile(u: Upload, now: nat, env: SaveEnv) returns (r: SaveOutcome)
      modifies disk
      ensures r == SaveUpload(old(disk.uploads), u, now, maxFileSize, supportedExtensions, extractors, env).0
      ensures disk.uploads == SaveUpload(old(disk.uploads), u, now, maxFileSize, supportedExtensions, extractors, env).1
      ensures disk.outputs == old(disk.outputs)
    {
      if u.filename.None? || u.filename.value == "" {
        return Rejected(400, "No filename provided");
      }
      if u.size.Some? && u.size.value != 0 && u.size.value > maxFileSize {
        return Rejected(413, TooLargeDetail(maxFileSize));
      }
      var safe := Sanitize(u.filename.value, env.isWord);
      var name := UniqueName(safe, now);
      disk.uploads := disk.uploads[name := StoredFile(now, 0)];
      if u.contentLength > maxFileSize {
        return Rejected(413, TooLargeDetail(maxFileSize));
      }
      if env.writeError.Some? {
        RemoveUpdated(old(disk.uploads), name, StoredFile(now, 0));
        disk.uploads := disk.uploads - {name};
        return Rejected(500, "Failed to save file: " + env.writeError.value);
      }
      UpdateTwice(old(disk.uploads), name, StoredFile(now, 0), StoredFile(now, u.contentLength));
      disk.uploads := disk.uploads[name := StoredFile(now, u.contentLength)];
      var v := ValidateFileType(name, supportedExtensions, extractors, env.guess, env.sniff);
      if v.Refused? {
        RemoveUpdated(old(disk.uploads), name, StoredFile(now, u.contentLength));
        disk.uploads := disk.uploads - {name};
        return Rejected(400, v.reason);
      }
      r := Saved(name);
    }

    /** `create_result_zip(job_id)`: None when the job directory is missing or the
        archive cannot be written; otherwise the archive's name, with the archive
        written into the job directory. */
    method CreateResultZip(jobId: string, writeFails: bool) returns (zip: Option<string>)
      modifies disk
      ensures zip.Some? <==> jobId in old(disk.outputs) && !writeFails
      ensures zip.None? ==> disk.outputs == old(disk.outputs)
      ensures zip.Some? ==> zip.value == ZipName(jobId)
      ensures zip.Some? ==> disk.outputs == old(disk.outputs)[jobId := old(disk.outputs)[jobId][ZipName(jobId) :=
                RegularFile(Archive(ArchiveMembers(old(disk.outputs)[jobId], ZipName(jobId))))]]
      ensures disk.uploads == old(disk.uploads)
    {
      if jobId !in disk.outputs {
        return None;
      }
      if writeFails {
        return None;
      }
      var tree := disk.outputs[jobId];
      var z := ZipName(jobId);
      var members: set<string> := {};
      var todo := tree.Keys;
      while todo != {}
        invariant todo <= tree.Keys
        invariant forall q :: q in members <==> q in tree && q !in todo && InArchive(tree, z, q)
        decreases |todo|
      {
        var p :| p in todo;
        if InArchive(tree, z, p) {
          members := members + {p};
        }
        todo := todo - {p};
      }
      assert members == ArchiveMembers(tree, z);
      disk.outputs := disk.outputs[jobId := tree[z := RegularFile(Archive(members))]];
      zip := Some(z);
    }

    /** `job_output_exists(job_id)`: the job directory exists and is not empty. */
    function JobOutputExists(jobId: string): (r: bool)
      reads this, disk
      ensures r <==> OutputExists(disk.outputs, jobId)
      ensures r ==> jobId in disk.outputs && exists name :: name in disk.outputs[jobId]
    {
      OutputExists(disk.outputs, jobId)
    }

    /** `cleanup_uploads_dir(older_than_hours)` at clock `now`; `unlinkFails` are the
        files whose deletion raises. The number of files deleted, which the source
        only logs, is returned. */
    method CleanupUploadsDir(now: int, olderThanHours: int, unlinkFails: set<string>) returns (cleaned: nat)
      modifies disk
      ensures disk.uploads == UploadsAfterCleanup(old(disk.uploads), now - olderThanHours * 3600, unlinkFails)
      ensures cleaned == |old(disk.uploads).Keys - disk.uploads.Keys|
      ensures disk.outputs == old(disk.outputs)
    {
      var cutoff := now - olderThanHours * 3600;
      var before := disk.uploads;
      ghost var removed: set<string> := {};
      cleaned := 0;
      var todo := disk.uploads.Keys;
      while todo != {}
        invariant todo <= before.Keys
        invariant removed == set p | p in before.Keys - todo && Stale(before[p], cutoff) && p !in unlinkFails
        invariant disk.uploads == map p | p in before.Keys - removed :: before[p]
        invariant cleaned == |removed|
        invariant disk.outputs == old(disk.outputs)
        decreases |todo|
      {
        var p :| p in todo;
        if Stale(before[p], cutoff) && p !in unlinkFails {
          assert p !in removed;
          disk.uploads := disk.uploads - {p};
          removed := removed + {p};
          cleaned := cleaned + 1;
        }
        todo := todo - {p};
      }
      assert removed == before.Keys - disk.uploads.Keys;
    }
  }

  /** A regular upload last modified before the cutoff. */
  predicate Stale(e: UploadEntry, cutoff: int) {
    e.StoredFile? && e.mtime < cutoff
  }

  /** The uploads directory after the sweep: stale files are gone unless deleting
      them fails. */
  function UploadsAfterCleanup(u: map<string, UploadEntry>, cutoff: int, unlinkFails: set<string>)
    : map<string, UploadEntry>
  {
    map p | p in u && !(Stale(u[p], cutoff) && p !in unlinkFails) :: u[p]
  }

  /** The sweep deletes only stale regular files, keeps every other entry as it was,
      and leaves a stale file only when its deletion failed. */
  lemma CleanupRemovesOnlyStale(u: map<string, UploadEntry>, cutoff: int, unlinkFails: set<string>)
    ensures forall p :: p in u ==>
              (p !in UploadsAfterCleanup(u, cutoff, unlinkFails) <==> Stale(u[p], cutoff) && p !in unlinkFails)
    ensures forall p :: p in UploadsAfterCleanup(u, cutoff, unlinkFails) ==>
              p in u && UploadsAfterCleanup(u, cutoff, unlinkFails)[p] == u[p]
    ensures forall p :: p in UploadsAfterCleanup(u, cutoff, unlinkFails) && Stale(u[p], cutoff) ==> p in unlinkFails
  {
  }

  /** A second sweep with the same cutoff and the same failing files changes nothing. */
  lemma CleanupIdempotent(u: map<string, UploadEntry>, cutoff: int, unlinkFails: set<string>)
    ensures UploadsAfterCleanup(UploadsAfterCleanup(u, cutoff, unlinkFails), cutoff, unlinkFails)
            == UploadsAfterCleanup(u, cutoff, unlinkFails)
  {
  }
}
