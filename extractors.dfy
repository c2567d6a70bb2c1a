/** The extractor registry of core/extractors/base.py and its configuration in
    core/extractors/__init__.py: the ExtractionResult and DocumentMetadata records,
    the metadata text rendering, `can_extract`, and the ordered name-to-class
    table of ExtractorFactory. An extractor class is represented by what the
    registry looks at: its class name and its extension and MIME lists. Its
    `extract` body is outside the model. */
module Extractors {
  import opened Common

  /** What an extractor's `extract` returns. */
  datatype ExtractionResult = ExtractionResult(
    text: string,
    images: seq<string>,
    metadata: seq<(string, Value)>,
    success: bool,
    error: Option<string>)

  // ---------------------------------------------------------------------------
  // DocumentMetadata

  /** DocumentMetadata after `__post_init__`: keywords, document_properties and the
      extraction timestamp are always present. Property values are kept as the text
      `str(value)` gives; timestamps are integer seconds. */
  datatype DocumentMetadata = DocumentMetadata(
    filename: string,
    fileSize: int,
    fileType: string,
    mimeType: string,
    creationDate: Option<int>,
    modificationDate: Option<int>,
    author: Option<string>,
    title: Option<string>,
    subject: Option<string>,
    keywords: seq<string>,
    pages: Option<int>,
    documentProperties: seq<(string, string)>,
    extractionTimestamp: int,
    extractionMethod: Option<string>)

  /** The dataclass constructor followed by `__post_init__`: an omitted (None)
      keywords list becomes [], omitted document_properties become {}, and an omitted
      extraction timestamp becomes the current time `now`. */
  function NewDocumentMetadata(
    filename: string, fileSize: int, fileType: string, mimeType: string,
    creationDate: Option<int>, modificationDate: Option<int>,
    author: Option<string>, title: Option<string>, subject: Option<string>,
    keywords: Option<seq<string>>, pages: Option<int>,
    documentProperties: Option<seq<(string, string)>>,
    extractionTimestamp: Option<int>, extractionMethod: Option<string>, now: int): (m: DocumentMetadata)
    ensures keywords.None? ==> m.keywords == []
    ensures keywords.Some? ==> m.keywords == keywords.value
    ensures documentProperties.None? ==> m.documentProperties == []
    ensures documentProperties.Some? ==> m.documentProperties == documentProperties.value
    ensures m.extractionTimestamp == if extractionTimestamp.Some? then extractionTimestamp.value else now
    ensures m.filename == filename && m.fileSize == fileSize && m.author == author && m.pages == pages
  {
    DocumentMetadata(
      filename, fileSize, fileType, mimeType, creationDate, modificationDate, author, title, subject,
      match keywords case Some(k) => k case None => [],
      pages,
      match documentProperties case Some(p) => p case None => [],
      match extractionTimestamp case Some(t) => t case None => now,
      extractionMethod)
  }

  /** `value or 'N/A'` for an optional text: None and "" both render as N/A. */
  function OrNA(v: Option<string>): string {
    if v.Some? && v.value != "" then v.value else "N/A"
  }

  function IsoOrNA(t: Option<int>, iso: int -> string): string {
    if t.Some? then iso(t.value) else "N/A"
  }

  /** Inserts a comma before every group of three digits counted from the right. */
  function GroupDigits(ds: string): string
    decreases |ds|
  {
    if |ds| <= 3 then ds else GroupDigits(ds[..|ds| - 3]) + "," + ds[|ds| - 3..]
  }

  /** `f"{n:,}"`: the decimal digits of n with comma thousands separators. */
  function Thousands(n: int): string {
    if n < 0 then "-" + GroupDigits(NatToString(-n)) else GroupDigits(NatToString(n))
  }

  /** Splitting a text that starts with the separator opens an empty first part. */
  lemma SplitAtSeparator(rest: string, c: char)
    ensures Split([c] + rest, c) == [""] + Split(rest, c)
  {
    assert ([c] + rest)[1..] == rest;
  }

  /** Any other first character joins the first part of the rest. */
  lemma SplitAtOther(x: char, rest: string, c: char)
    requires x != c
    ensures Split([x] + rest, c) == [[x] + Split(rest, c)[0]] + Split(rest, c)[1..]
  {
    assert ([x] + rest)[1..] == rest;
  }

  /** `Split(a + [c] + b, c)` splits `a` and `b` separately. */
  lemma {:induction false} SplitAppend(a: string, c: char, b: string)
    ensures Split(a + [c] + b, c) == Split(a, c) + Split(b, c)
    decreases |a|
  {
    if |a| == 0 {
      assert a + [c] + b == [c] + b;
      SplitAtSeparator(b, c);
    } else {
      var x, t := a[0], a[1..];
      assert a + [c] + b == [x] + (t + [c] + b);
      assert a == [x] + t;
      SplitAppend(t, c, b);
      if x == c {
        SplitAppendSeparator(t, c, b);
      } else {
        SplitAppendOther(x, t, c, b);
      }
    }
  }

  lemma SplitAppendSeparator(t: string, c: char, b: string)
    requires Split(t + [c] + b, c) == Split(t, c) + Split(b, c)
    ensures Split([c] + (t + [c] + b), c) == Split([c] + t, c) + Split(b, c)
  {
    SplitAtSeparator(t + [c] + b, c);
    SplitAtSeparator(t, c);
    assert [""] + (Split(t, c) + Split(b, c)) == [""] + Split(t, c) + Split(b, c);
  }

  lemma SplitAppendOther(x: char, t: string, c: char, b: string)
    requires x != c
    requires Split(t + [c] + b, c) == Split(t, c) + Split(b, c)
    ensures Split([x] + (t + [c] + b), c) == Split([x] + t, c) + Split(b, c)
  {
    SplitAtOther(x, t + [c] + b, c);
    SplitAtOther(x, t, c);
    PrependToFirst(x, Split(t, c), Split(b, c));
  }

  /** Prepending to the first part commutes with appending more parts. */
  lemma PrependToFirst(x: char, left: seq<string>, right: seq<string>)
    requires |left| >= 1
    ensures [[x] + (left + right)[0]] + (left + right)[1..] == [[x] + left[0]] + left[1..] + right
  {
    assert (left + right)[1..] == left[1..] + right;
  }

  /** The thousands grouping, read back by splitting on ',': one leading group of one
      to three digits followed by groups of exactly three, which together are `ds`. */
  lemma {:induction false} GroupDigitsGroups(ds: string)
    requires |ds| >= 1 && ',' !in ds
    ensures var groups := Split(GroupDigits(ds), ',');
            && 1 <= |groups[0]| <= 3
            && (forall k :: 1 <= k < |groups| ==> |groups[k]| == 3)
            && Join(groups, "") == ds
    decreases |ds|
  {
    if |ds| <= 3 {
      SplitNoSep(ds, ',');
    } else {
      var head := ds[..|ds| - 3];
      var tail := ds[|ds| - 3..];
      assert ',' !in head && ',' !in tail by {
        forall i | 0 <= i < |head| ensures head[i] != ',' { assert head[i] == ds[i]; }
        forall i | 0 <= i < |tail| ensures tail[i] != ',' { assert tail[i] == ds[|ds| - 3 + i]; }
      }
      GroupDigitsGroups(head);
      SplitAppend(GroupDigits(head), ',', tail);
      SplitNoSep(tail, ',');
      var hg := Split(GroupDigits(head), ',');
      JoinAppendEmpty(hg, tail);
      assert head + tail == ds;
    }
  }

  lemma {:induction false} SplitNoSep(s: string, c: char)
    requires c !in s
    ensures Split(s, c) == [s]
  {
    if |s| > 0 {
      SplitNoSep(s[1..], c);
      assert [s[0]] + s[1..] == s;
    }
  }

  lemma {:induction false} JoinAppendEmpty(parts: seq<string>, last: string)
    requires |parts| >= 1
    ensures Join(parts + [last], "") == Join(parts, "") + last
  {
    if |parts| > 1 {
      JoinAppendEmpty(parts[1..], last);
      assert (parts + [last])[1..] == parts[1..] + [last];
    }
  }

  /** The lines `to_text` joins with newlines. */
  function MetadataLines(m: DocumentMetadata, iso: int -> string): seq<string> {
    FieldLines(m, iso)
    + (if m.documentProperties == [] then []
       else ["Document Properties:", "-------------------"]
            + PropertyLines(m.documentProperties)
            + [""])
  }

  /** The fixed part of `to_text`: the title block and one line per field. */
  function FieldLines(m: DocumentMetadata, iso: int -> string): seq<string> {
    [ "Document Metadata",
      "================",
      "",
      "Filename: " + m.filename,
      "File Size: " + Thousands(m.fileSize) + " bytes",
      "File Type: " + m.fileType,
      "MIME Type: " + m.mimeType,
      "Creation Date: " + IsoOrNA(m.creationDate, iso),
      "Modification Date: " + IsoOrNA(m.modificationDate, iso),
      "Author: " + OrNA(m.author),
      "Title: " + OrNA(m.title),
      "Subject: " + OrNA(m.subject),
      "Keywords: " + (if m.keywords != [] then Join(m.keywords, ", ") else "N/A"),
      "Pages: " + (if m.pages.Some? && m.pages.value != 0 then IntToString(m.pages.value) else "N/A"),
      "Extraction Timestamp: " + iso(m.extractionTimestamp),
      "Extraction Method: " + (if m.extractionMethod.Some? then m.extractionMethod.value else "None"),
      "" ]
  }

  function PropertyLines(props: seq<(string, string)>): (r: seq<string>)
    ensures |r| == |props|
    ensures forall k :: 0 <= k < |props| ==> r[k] == props[k].0 + ": " + props[k].1
  {
    seq(|props|, k requires 0 <= k < |props| => props[k].0 + ": " + props[k].1)
  }

  /** `DocumentMetadata.to_text()`. */
  function ToText(m: DocumentMetadata, iso: int -> string): string {
    Join(MetadataLines(m, iso), "\n")
  }

  /** The field lines of `to_text`: the file size carries thousands separators,
      keywords are joined with ", " or read N/A when empty, and a falsy page count
      (None or 0) reads N/A. */
  lemma ToTextFields(m: DocumentMetadata, iso: int -> string)
    ensures var lines := FieldLines(m, iso);
            && |lines| == 17
            && lines[4] == "File Size: " + Thousands(m.fileSize) + " bytes"
            && (m.keywords == [] ==> lines[12] == "Keywords: N/A")
            && (m.keywords != [] ==> lines[12] == "Keywords: " + Join(m.keywords, ", "))
            && ((m.pages.None? || m.pages == Some(0)) ==> lines[13] == "Pages: N/A")
  {
  }

  /** A missing creation date reads N/A; a present one is written in ISO form. */
  lemma ToTextDates(m: DocumentMetadata, iso: int -> string)
    ensures var lines := FieldLines(m, iso);
            && |lines| == 17
            && (m.creationDate.None? ==> lines[7] == "Creation Date: N/A")
            && (m.creationDate.Some? ==> lines[7] == "Creation Date: " + iso(m.creationDate.value))
  {
  }

  /** A missing or empty author, title or subject reads N/A. */
  lemma ToTextNames(m: DocumentMetadata, iso: int -> string)
    ensures var lines := FieldLines(m, iso);
            && |lines| == 17
            && ((m.author.None? || m.author == Some("")) ==> lines[9] == "Author: N/A")
            && (m.author.Some? && m.author.value != "" ==> lines[9] == "Author: " + m.author.value)
            && ((m.title.None? || m.title == Some("")) ==> lines[10] == "Title: N/A")
            && ((m.subject.None? || m.subject == Some("")) ==> lines[11] == "Subject: N/A")
  {
    var lines := FieldLines(m, iso);
    assert lines[9] == "Author: " + OrNA(m.author);
    assert lines[10] == "Title: " + OrNA(m.title);
    assert lines[11] == "Subject: " + OrNA(m.subject);
  }

  /** `to_text` writes the field lines first, followed by nothing else or by the
      properties section. */
  lemma FieldLinesFirst(m: DocumentMetadata, iso: int -> string)
    ensures |MetadataLines(m, iso)| >= 17
    ensures MetadataLines(m, iso)[..17] == FieldLines(m, iso)
  {
  }

  /** The "Document Properties:" section is present exactly when the properties are
      non-empty, and then holds one "key: value" line per entry, in order. */
  lemma ToTextProperties(m: DocumentMetadata, iso: int -> string)
    ensures var lines := MetadataLines(m, iso);
            && (m.documentProperties == [] <==> |lines| == 17)
            && (m.documentProperties != [] ==>
                  && |lines| == 20 + |m.documentProperties|
                  && lines[17] == "Document Properties:"
                  && lines[18] == "-------------------"
                  && (forall k :: 0 <= k < |m.documentProperties| ==>
                        lines[19 + k] == m.documentProperties[k].0 + ": " + m.documentProperties[k].1)
                  && lines[19 + |m.documentProperties|] == "")
  {
  }

  // ---------------------------------------------------------------------------
  // Paths, can_extract and the registry

  /** The last component of a '/'-separated path (`Path.name`). */
  function PathName(path: string): (r: string)
    ensures '/' !in r
  {
    var i := LastIndexOf(path, '/');
    path[i + 1..]
  }

  /** The name is all of the path after its last '/': a suffix of the path, preceded
      by '/' unless it is the whole path. */
  lemma PathNameIsLastComponent(path: string)
    ensures var r := PathName(path);
            && |r| <= |path| && r == path[|path| - |r|..]
            && (|r| < |path| ==> path[|path| - |r| - 1] == '/')
  {
  }

  /** `Path.suffix`: the final component's text from its last '.', when that dot is
      neither the first nor the last character; otherwise "". */
  function Suffix(path: string): (r: string)
    ensures r == "" || (r[0] == '.' && '.' !in r[1..])
  {
    var name := PathName(path);
    var i := LastIndexOf(name, '.');
    if 0 < i < |name| - 1 then name[i..] else ""
  }

  /** `mimetypes.guess_type(path)[0]`, a parameter of the model. */
  type MimeGuess = string -> Option<string>

  /** An extractor class as the registry sees it. */
  datatype Extractor = Extractor(className: string, extensions: seq<string>, mimeTypes: seq<string>)

  /** `can_extract(path)`: the lower-cased suffix is a supported extension, or the
      guessed MIME type is a supported one (a None guess matches nothing). */
  predicate CanExtract(e: Extractor, path: string, guess: MimeGuess) {
    Lower(Suffix(path)) in e.extensions || (guess(path).Some? && guess(path).value in e.mimeTypes)
  }

  const PdfExtractor := Extractor("PDFExtractor", [".pdf"], ["application/pdf"])
  const DocxExtractor := Extractor("DOCXExtractor", [".docx", ".doc"],
    ["application/vnd.openxmlformats-officedocument.wordprocessingml.document", "application/msword"])
  const XlsxExtractor := Extractor("XLSXExtractor", [".xlsx", ".xls"],
    ["application/vnd.openxmlformats-officedocument.spreadsheetml.sheet", "application/vnd.ms-excel"])
  const MarkdownExtractor := Extractor("MarkdownExtractor", [".md", ".markdown", ".mdown", ".mkd"],
    ["text/markdown", "text/x-markdown"])

  /** The factory's `_extractors` dict: names in insertion order with their classes. */
  type Registry = seq<(string, Extractor)>

  predicate DistinctNames(t: Registry) {
    forall i, j :: 0 <= i < j < |t| ==> t[i].0 != t[j].0
  }

  function IndexOfName(t: Registry, name: string): (r: int)
    ensures -1 <= r < |t|
    ensures r >= 0 ==> t[r].0 == name
    ensures r == -1 ==> forall i :: 0 <= i < |t| ==> t[i].0 != name
  {
    if |t| == 0 then -1
    else if t[|t| - 1].0 == name then |t| - 1
    else IndexOfName(t[..|t| - 1], name)
  }

  /** `_extractors[name] = cls`: a present name keeps its place with the new class, a
      new name goes at the end. */
  function WithRegistration(t: Registry, name: string, cls: Extractor): Registry {
    var i := IndexOfName(t, name);
    if i >= 0 then t[i := (name, cls)] else t + [(name, cls)]
  }

  /** Registering a name the table does not hold appends it. */
  lemma RegisterNew(t: Registry, name: string, cls: Extractor)
    requires forall i :: 0 <= i < |t| ==> t[i].0 != name
    ensures WithRegistration(t, name, cls) == t + [(name, cls)]
  {
  }

  /** `register` binds the name to the class, keeps every other binding and the
      insertion order, and keeps the names distinct. */
  lemma RegisterBinds(t: Registry, name: string, cls: Extractor)
    requires DistinctNames(t)
    ensures var after := WithRegistration(t, name, cls);
            && DistinctNames(after)
            && Get(after, name) == Some(cls)
            && (forall other :: other != name ==> Get(after, other) == Get(t, other))
            && (Get(t, name).Some? ==> |after| == |t| && forall k :: 0 <= k < |t| ==> after[k].0 == t[k].0)
            && (Get(t, name).None? ==> after == t + [(name, cls)])
  {
    var after := WithRegistration(t, name, cls);
    var i := IndexOfName(t, name);
    if i >= 0 {
      assert after[i] == (name, cls);
    } else {
      assert after[|t|] == (name, cls);
    }
    LookupDistinct(after, name, cls);
    forall other | other != name ensures Get(after, other) == Get(t, other) {
      if Get(t, other).Some? {
        var j :| 0 <= j < |t| && t[j] == (other, Get(t, other).value);
        assert after[j] == t[j];
        LookupDistinct(after, other, t[j].1);
      } else {
        forall k | 0 <= k < |after| ensures after[k].0 != other {
          if k < |t| && k != i { assert after[k] == t[k]; }
        }
      }
    }
  }

  /** In a table with distinct names, an entry is what looking up its name returns. */
  lemma LookupDistinct(t: Registry, name: string, cls: Extractor)
    requires DistinctNames(t)
    requires exists i :: 0 <= i < |t| && t[i] == (name, cls)
    ensures Get(t, name) == Some(cls)
  {
    if t[0].0 != name {
      var i :| 0 <= i < |t| && t[i] == (name, cls);
      assert t[1..][i - 1] == t[i];
      LookupDistinct(t[1..], name, cls);
    }
  }

  /** `create_extractor(path)`: the first class, in registration order, whose
      `can_extract` holds, or None when none does. */
  function FirstMatch(t: Registry, path: string, guess: MimeGuess): (r: Option<Extractor>)
    ensures r.None? <==> forall i :: 0 <= i < |t| ==> !CanExtract(t[i].1, path, guess)
    ensures r.Some? ==> exists i :: 0 <= i < |t| && t[i].1 == r.value && CanExtract(r.value, path, guess)
                                    && forall j :: 0 <= j < i ==> !CanExtract(t[j].1, path, guess)
  {
    if |t| == 0 then None
    else if CanExtract(t[0].1, path, guess) then Some(t[0].1)
    else
      var r := FirstMatch(t[1..], path, guess);
      FirstMatchTail(t, path, guess, r);
      r
  }

  /** The first match of a table whose head does not match is the first match of
      its tail. */
  lemma FirstMatchTail(t: Registry, path: string, guess: MimeGuess, r: Option<Extractor>)
    requires |t| > 0 && !CanExtract(t[0].1, path, guess)
    requires r.None? <==> forall i :: 0 <= i < |t[1..]| ==> !CanExtract(t[1..][i].1, path, guess)
    requires r.Some? ==> exists i :: 0 <= i < |t[1..]| && t[1..][i].1 == r.value && CanExtract(r.value, path, guess)
                                     && forall j :: 0 <= j < i ==> !CanExtract(t[1..][j].1, path, guess)
    ensures r.None? <==> forall i :: 0 <= i < |t| ==> !CanExtract(t[i].1, path, guess)
    ensures r.Some? ==> exists i :: 0 <= i < |t| && t[i].1 == r.value && CanExtract(r.value, path, guess)
                                    && forall j :: 0 <= j < i ==> !CanExtract(t[j].1, path, guess)
  {
    NoneShift(t, path, guess);
    if r.Some? {
      var i :| 0 <= i < |t[1..]| && t[1..][i].1 == r.value && CanExtract(r.value, path, guess)
               && forall j :: 0 <= j < i ==> !CanExtract(t[1..][j].1, path, guess);
      SomeShift(t, path, guess, i);
    }
  }

  lemma NoneShift(t: Registry, path: string, guess: MimeGuess)
    requires |t| > 0 && !CanExtract(t[0].1, path, guess)
    ensures (forall i :: 0 <= i < |t[1..]| ==> !CanExtract(t[1..][i].1, path, guess))
            <==> (forall i :: 0 <= i < |t| ==> !CanExtract(t[i].1, path, guess))
  {
    if forall i :: 0 <= i < |t[1..]| ==> !CanExtract(t[1..][i].1, path, guess) {
      forall i | 0 <= i < |t|
        ensures !CanExtract(t[i].1, path, guess)
      {
        if i > 0 { assert t[i] == t[1..][i - 1]; }
      }
    }
  }

  lemma SomeShift(t: Registry, path: string, guess: MimeGuess, i: nat)
    requires |t| > 0 && !CanExtract(t[0].1, path, guess) && i < |t[1..]|
    requires forall j :: 0 <= j < i ==> !CanExtract(t[1..][j].1, path, guess)
    ensures t[i + 1] == t[1..][i]
    ensures forall j :: 0 <= j < i + 1 ==> !CanExtract(t[j].1, path, guess)
  {
    forall j | 0 <= j < i + 1
      ensures !CanExtract(t[j].1, path, guess)
    {
      if j > 0 { assert t[j] == t[1..][j - 1]; }
    }
  }

  /** The table `core/extractors/__init__.py` builds. */
  const DefaultRegistry: Registry :=
    [("pdf", PdfExtractor), ("docx", DocxExtractor), ("xlsx", XlsxExtractor), ("markdown", MarkdownExtractor)]

  /** The union of the registered classes' extension lists. */
  function SupportedExtensions(t: Registry): set<string> {
    set i, x | 0 <= i < |t| && x in t[i].1.extensions :: x
  }

  /** The four extension lists are pairwise disjoint, so resolution by extension
      does not depend on the registration order. */
  lemma DefaultExtensionsDisjoint()
    ensures forall i, j, x :: 0 <= i < j < |DefaultRegistry| && x in DefaultRegistry[i].1.extensions
                              ==> x !in DefaultRegistry[j].1.extensions
  {
  }

  /** The supported extensions are exactly .pdf, .docx, .doc, .xlsx, .xls, .md,
      .markdown, .mdown and .mkd. */
  lemma DefaultSupportedExtensions()
    ensures SupportedExtensions(DefaultRegistry)
            == {".pdf", ".docx", ".doc", ".xlsx", ".xls", ".md", ".markdown", ".mdown", ".mkd"}
  {
    var t := DefaultRegistry;
    assert ".pdf" in t[0].1.extensions;
    assert ".docx" in t[1].1.extensions && ".doc" in t[1].1.extensions;
    assert ".xlsx" in t[2].1.extensions && ".xls" in t[2].1.extensions;
    assert ".md" in t[3].1.extensions && ".markdown" in t[3].1.extensions;
    assert ".mdown" in t[3].1.extensions && ".mkd" in t[3].1.extensions;
  }

  /** A file whose lower-cased suffix belongs to the k-th default class resolves to
      that class unless an earlier class claims its guessed MIME type. */
  lemma ResolveByExtension(path: string, guess: MimeGuess, k: nat)
    requires k < |DefaultRegistry| && Lower(Suffix(path)) in DefaultRegistry[k].1.extensions
    requires forall j :: 0 <= j < k ==> !(guess(path).Some? && guess(path).value in DefaultRegistry[j].1.mimeTypes)
    ensures FirstMatch(DefaultRegistry, path, guess) == Some(DefaultRegistry[k].1)
  {
    DefaultExtensionsDisjoint();
    var r := FirstMatch(DefaultRegistry, path, guess);
    assert CanExtract(DefaultRegistry[k].1, path, guess);
    var i :| 0 <= i < |DefaultRegistry| && DefaultRegistry[i].1 == r.value && CanExtract(r.value, path, guess)
             && forall j :: 0 <= j < i ==> !CanExtract(DefaultRegistry[j].1, path, guess);
    assert i == k;
  }

  /** The suffix of a plain file name is read at its last dot: the text from that
      dot when the dot is neither first nor last, and "" otherwise. */
  lemma SuffixAtDot(path: string, i: nat)
    requires '/' !in path && i < |path| && path[i] == '.'
    requires forall k :: i < k < |path| ==> path[k] != '.'
    ensures Suffix(path) == if 0 < i < |path| - 1 then path[i..] else ""
  {
    assert LastIndexOf(path, '/') == -1;
    assert PathName(path) == path;
    assert LastIndexOf(path, '.') == i;
  }

  /** A plain file name without a dot has no suffix. */
  lemma SuffixNoDot(path: string)
    requires '/' !in path && '.' !in path
    ensures Suffix(path) == ""
  {
    assert LastIndexOf(path, '/') == -1;
    assert PathName(path) == path;
    assert LastIndexOf(path, '.') == -1;
  }

  /** Any file whose suffix is .pdf, in any letter case, resolves to PDFExtractor,
      whatever MIME type is guessed for it. */
  lemma ResolvesPdf(path: string, guess: MimeGuess)
    requires Lower(Suffix(path)) == ".pdf"
    ensures FirstMatch(DefaultRegistry, path, guess) == Some(PdfExtractor)
  {
    ResolveByExtension(path, guess, 0);
  }

  /** Every MIME type one of the registered classes accepts. */
  function SupportedMimeTypes(t: Registry): set<string> {
    set i, x | 0 <= i < |t| && x in t[i].1.mimeTypes :: x
  }

  /** A file resolves to some extractor exactly when its lower-cased suffix is a
      supported extension or its guessed MIME type is a supported one; otherwise
      `create_extractor` returns None. */
  lemma ResolvesIffSupported(t: Registry, path: string, guess: MimeGuess)
    ensures FirstMatch(t, path, guess).Some? <==>
              Lower(Suffix(path)) in SupportedExtensions(t)
              || (guess(path).Some? && guess(path).value in SupportedMimeTypes(t))
  {
    if FirstMatch(t, path, guess).Some? {
      var i :| 0 <= i < |t| && CanExtract(t[i].1, path, guess);
      if Lower(Suffix(path)) in t[i].1.extensions {
        assert Lower(Suffix(path)) in SupportedExtensions(t);
      } else {
        assert guess(path).value in SupportedMimeTypes(t);
      }
    }
  }

  /** A .txt file guessed as text/plain resolves to no extractor. */
  lemma TxtResolvesToNothing(path: string, guess: MimeGuess)
    requires Lower(Suffix(path)) == ".txt" && guess(path) == Some("text/plain")
    ensures FirstMatch(DefaultRegistry, path, guess) == None
  {
    var ext, mime := Lower(Suffix(path)), guess(path).value;
    assert forall i :: 0 <= i < |DefaultRegistry| ==> ext !in DefaultRegistry[i].1.extensions;
    assert forall i :: 0 <= i < |DefaultRegistry| ==> mime !in DefaultRegistry[i].1.mimeTypes;
  }

  /** DOCXExtractor also accepts the legacy .doc suffix and XLSXExtractor .xls, in
      any letter case and whatever the guessed MIME type; neither accepts a .pdf file
      guessed as application/pdf or not guessed at all. */
  lemma LegacyOfficeSuffixes(path: string, guess: MimeGuess)
    ensures Lower(Suffix(path)) == ".doc" ==> CanExtract(DocxExtractor, path, guess)
    ensures Lower(Suffix(path)) == ".xls" ==> CanExtract(XlsxExtractor, path, guess)
    ensures Lower(Suffix(path)) == ".pdf" && (guess(path) == None || guess(path) == Some("application/pdf"))
            ==> !CanExtract(DocxExtractor, path, guess) && !CanExtract(XlsxExtractor, path, guess)
  {
  }

  /** The global `extractor_factory`. */
  class ExtractorFactory {
    var extractors: Registry

    ghost predicate Valid()
      reads this
    {
      DistinctNames(extractors)
    }

    constructor ()
      ensures Valid() && extractors == []
    {
      extractors := [];
    }

    /** `register(name, extractor_class)`. */
    method Register(name: string, cls: Extractor)
      requires Valid()
      modifies this
      ensures Valid()
      ensures extractors == WithRegistration(old(extractors), name, cls)
    {
      RegisterBinds(extractors, name, cls);
      var i := IndexOfName(extractors, name);
      if i >= 0 {
        extractors := extractors[i := (name, cls)];
      } else {
        extractors := extractors + [(name, cls)];
      }
    }

    /** `get_supported_extensions()`: every extension of every registered class,
        each once (the source returns `list(set)`, in no particular order). */
    method GetSupportedExtensions() returns (exts: set<string>)
      ensures forall x :: x in exts <==> exists i :: 0 <= i < |extractors| && x in extractors[i].1.extensions
    {
      exts := {};
      var i := 0;
      while i < |extractors|
        invariant 0 <= i <= |extractors|
        invariant forall x :: x in exts <==> exists k :: 0 <= k < i && x in extractors[k].1.extensions
      {
        exts := exts + set x | x in extractors[i].1.extensions;
        i := i + 1;
      }
    }
  }

  /** The four registrations of the package, one after the other, build the default table. */
  lemma DefaultRegistrations()
    ensures WithRegistration(WithRegistration(WithRegistration(WithRegistration(
              [], "pdf", PdfExtractor), "docx", DocxExtractor), "xlsx", XlsxExtractor), "markdown", MarkdownExtractor)
            == DefaultRegistry
  {
    var t1 := [("pdf", PdfExtractor)];
    RegisterNew([], "pdf", PdfExtractor);
    var t2 := t1 + [("docx", DocxExtractor)];
    RegisterNew(t1, "docx", DocxExtractor);
    var t3 := t2 + [("xlsx", XlsxExtractor)];
    RegisterNew(t2, "xlsx", XlsxExtractor);
    RegisterNew(t3, "markdown", MarkdownExtractor);
  }

  /** Importing core/extractors: the global factory with pdf, docx, xlsx and markdown
      registered in that order. */
  method NewDefaultFactory() returns (f: ExtractorFactory)
    ensures fresh(f) && f.Valid()
    ensures f.extractors == DefaultRegistry
  {
    DefaultRegistrations();
    f := new ExtractorFactory();
    f.Register("pdf", PdfExtractor);
    f.Register("docx", DocxExtractor);
    f.Register("xlsx", XlsxExtractor);
    f.Register("markdown", MarkdownExtractor);
  }
}
