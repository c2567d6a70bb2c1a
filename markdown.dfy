/** The text-processing helpers of core/extractors/markdown_extractor.py: front matter
    detection, the heading outline and the front-matter fields `extract` copies into
    the document metadata. The YAML and TOML parsers are parameters: each returns a
    parsed value or reports the error it raises. */
module Markdown {
  import opened Common

  /** What `yaml.safe_load` does with a block of text. */
  datatype YamlOutcome = YamlValue(v: Value) | YamlError

  /** What `import tomli; tomli.loads(...)` does with a block of text. */
  datatype TomlOutcome = TomlValue(v: Value) | TomlDecodeError | TomlNotInstalled

  type YamlLoad = string -> YamlOutcome
  type TomlLoad = string -> TomlOutcome

  const YamlOpen := "---\n"
  const YamlClose := "\n---\n"
  const TomlOpen := "+++\n"
  const TomlClose := "\n+++\n"

  /** `parsed or {}`. */
  function OrEmpty(v: Value): (r: Value)
    ensures Truthy(v) ==> r == v
    ensures !Truthy(v) ==> r == Dict([])
  {
    if Truthy(v) then v else Dict([])
  }

  /** `extract_front_matter(content)`: the front matter and the body. A block opened by
      "---\n" (YAML) or "+++\n" (TOML) at the very start runs to the first closing
      delimiter found from index 4; the body is what follows that delimiter. */
  function ExtractFrontMatter(content: string, yaml: YamlLoad, toml: TomlLoad): (r: (Value, string))
    ensures |r.1| <= |content| && r.1 == content[|content| - |r.1|..]
    ensures r.1 == content ==> r.0 == Dict([])
  {
    if StartsWith(content, YamlOpen) then
      var k := FindFrom(content, YamlClose, 4);
      if k == -1 then (Dict([]), content)
      else
        match yaml(content[4..k])
        case YamlError => (Dict([]), content)
        case YamlValue(v) => (OrEmpty(v), content[k + 5..])
    else if StartsWith(content, TomlOpen) then
      var k := FindFrom(content, TomlClose, 4);
      if k == -1 then (Dict([]), content)
      else
        match toml(content[4..k])
        case TomlDecodeError => (Dict([]), content)
        case TomlNotInstalled => (Dict([]), content[k + 5..])
        case TomlValue(v) => (OrEmpty(v), content[k + 5..])
    else (Dict([]), content)
  }

  /** Front matter is recognised only at the very start: other content comes back
      unchanged, with empty front matter. */
  lemma NoFrontMatter(content: string, yaml: YamlLoad, toml: TomlLoad)
    requires !StartsWith(content, YamlOpen) && !StartsWith(content, TomlOpen)
    ensures ExtractFrontMatter(content, yaml, toml) == (Dict([]), content)
  {
  }

  /** The YAML case: the parsed block is `content[4:k]` for the first "\n---\n" at an
      index k >= 4, and the content is exactly the opening line, the block, the
      closing delimiter and the body. Without a closing delimiter, or when the block
      does not parse, nothing is split off. */
  lemma YamlFrontMatter(content: string, yaml: YamlLoad, toml: TomlLoad)
    requires StartsWith(content, YamlOpen)
    ensures var (fm, body) := ExtractFrontMatter(content, yaml, toml);
            var k := FindFrom(content, YamlClose, 4);
            && (k == -1 ==> fm == Dict([]) && body == content)
            && (k != -1 ==>
                  && 4 <= k
                  && (forall i :: 4 <= i < k ==> !OccursAt(content, YamlClose, i))
                  && (yaml(content[4..k]).YamlError? ==> fm == Dict([]) && body == content)
                  && (yaml(content[4..k]).YamlValue? ==>
                        && fm == OrEmpty(yaml(content[4..k]).v)
                        && content == YamlOpen + content[4..k] + YamlClose + body))
  {
    var k := FindFrom(content, YamlClose, 4);
    if k != -1 && yaml(content[4..k]).YamlValue? {
      assert content[..4] == YamlOpen;
      assert content[k..k + 5] == YamlClose;
      assert content == content[..4] + content[4..k] + content[k..k + 5] + content[k + 5..];
    }
  }

  /** The TOML case: a decode error leaves the content whole; with tomli not installed
      the front matter stays empty but the block is still removed. */
  lemma TomlFrontMatter(content: string, yaml: YamlLoad, toml: TomlLoad)
    requires StartsWith(content, TomlOpen)
    ensures var (fm, body) := ExtractFrontMatter(content, yaml, toml);
            var k := FindFrom(content, TomlClose, 4);
            && (k == -1 ==> fm == Dict([]) && body == content)
            && (k != -1 ==>
                  && (toml(content[4..k]).TomlDecodeError? ==> fm == Dict([]) && body == content)
                  && (toml(content[4..k]).TomlNotInstalled? ==> fm == Dict([]) && body == content[k + 5..])
                  && (toml(content[4..k]).TomlValue? ==> fm == OrEmpty(toml(content[4..k]).v))
                  && (!toml(content[4..k]).TomlDecodeError? ==> content == TomlOpen + content[4..k] + TomlClose + body))
  {
    assert !StartsWith(content, YamlOpen) by {
      assert content[0] == '+';
    }
    var k := FindFrom(content, TomlClose, 4);
    if k != -1 && !toml(content[4..k]).TomlDecodeError? {
      assert content[..4] == TomlOpen;
      assert content[k..k + 5] == TomlClose;
      assert content == content[..4] + content[4..k] + content[k..k + 5] + content[k + 5..];
    }
  }

  /** Writing front matter and reading it back: a YAML block that holds no closing
      delimiter (not even one reaching into the delimiter that ends it) is parsed, and
      the body comes back intact. */
  lemma {:induction false} YamlRoundTrip(block: string, body: string, yaml: YamlLoad, toml: TomlLoad)
    requires forall i :: 0 <= i < |block| ==> !OccursAt(block + YamlClose, YamlClose, i)
    requires yaml(block).YamlValue?
    ensures ExtractFrontMatter(YamlOpen + block + YamlClose + body, yaml, toml) == (OrEmpty(yaml(block).v), body)
  {
    var content := YamlOpen + block + YamlClose + body;
    assert content[..4] == YamlOpen;
    var tail := block + YamlClose;
    assert content[4..4 + |tail|] == tail;
    forall i | 4 <= i < 4 + |block| ensures !OccursAt(content, YamlClose, i) {
      assert content[i..i + 5] == tail[i - 4..i + 1];
      assert !OccursAt(tail, YamlClose, i - 4);
    }
    assert OccursAt(content, YamlClose, 4 + |block|) by {
      assert content[4 + |block|..4 + |block| + 5] == YamlClose;
    }
    var k := FindFrom(content, YamlClose, 4);
    assert k == 4 + |block|;
    assert content[4..k] == block;
    assert content[k + 5..] == body;
  }

  /** An empty YAML block ("---\n---\n...") is not recognised: the search for the
      closing delimiter starts after the newline that would begin it. */
  lemma EmptyYamlBlockNotRecognised(body: string, yaml: YamlLoad, toml: TomlLoad)
    requires forall i :: 0 <= i < |body| ==> body[i] != '\n'
    ensures ExtractFrontMatter("---\n---\n" + body, yaml, toml) == (Dict([]), "---\n---\n" + body)
  {
    var content := "---\n---\n" + body;
    assert StartsWith(content, YamlOpen) by { assert content[..4] == YamlOpen; }
    forall i | 4 <= i ensures !OccursAt(content, YamlClose, i) {
      if i + 5 <= |content| {
        assert content[i + 4] == body[i - 4];
      }
    }
  }

  // ---------------------------------------------------------------------------
  // Heading outline

  /** Number of leading '#' characters. */
  function HashRun(t: string): (h: nat)
    ensures h <= |t|
    ensures forall i :: 0 <= i < h ==> t[i] == '#'
    ensures h < |t| ==> t[h] != '#'
  {
    if |t| > 0 && t[0] == '#' then 1 + HashRun(t[1..]) else 0
  }

  /** `'  ' * n`. */
  function Indent(n: nat): (r: string)
    ensures |r| == 2 * n
    ensures forall i :: 0 <= i < |r| ==> r[i] == ' '
  {
    if n == 0 then "" else "  " + Indent(n - 1)
  }

  /** A match of `^(#+)\s+(.+)` on a whole text with no newline: `level` hashes, a
      whitespace run of `w` characters and a non-empty rest. */
  predicate MatchesAt(t: string, level: nat, w: nat) {
    && 1 <= level && 1 <= w && level + w < |t|
    && (forall i :: 0 <= i < level ==> t[i] == '#')
    && (forall i :: level <= i < level + w ==> IsSpace(t[i]))
  }

  /** `re.match(r"^(#+)\s+(.+)", t)` on a stripped line `t`, turned into an outline
      entry: two spaces per level below the first, then the title. */
  function Heading(t: string): (r: Option<string>)
  {
    var h := HashRun(t);
    if 1 <= h < |t| && IsSpace(t[h]) then Some(Indent(h - 1) + StripLeft(t[h..])) else None
  }

  /** The outline entry of one line: the heading of its stripped form, if any. */
  function HeaderEntry(line: string): (r: Option<string>)
  {
    Heading(Strip(line))
  }

  /** A text that neither starts nor ends with whitespace, as `strip()` leaves it. */
  predicate Stripped(t: string) {
    |t| > 0 ==> !IsSpace(t[0]) && !IsSpace(t[|t| - 1])
  }

  /** An entry is produced only for a stripped line that matches `^#+\s+.+`. */
  lemma HeadingMatches(t: string)
    requires Stripped(t) && '\n' !in t
    ensures Heading(t).Some? ==> MatchesAt(t, HashRun(t), 1)
  {
    var h := HashRun(t);
    if 1 <= h < |t| && IsSpace(t[h]) {
      assert h != |t| - 1;
    }
  }

  /** Every stripped line that matches `^#+\s+.+` yields an entry: the level is the
      number of leading '#' and the title is the non-empty rest after the whitespace
      run, which the greedy `\s+` takes whole. */
  lemma MatchGivesHeading(t: string, level: nat, w: nat)
    requires Stripped(t) && '\n' !in t
    requires MatchesAt(t, level, w) && !IsSpace(t[level + w])
    ensures Heading(t) == Some(Indent(level - 1) + t[level + w..]) && |t[level + w..]| >= 1
  {
    assert IsSpace(t[level]);
    HashRunExact(t, level);
    StripLeftAfter(t, level, w);
    HeadingAt(t, level);
  }

  /** The whitespace run of `w` characters after position `h` is what `lstrip` drops. */
  lemma StripLeftAfter(t: string, h: nat, w: nat)
    requires h + w < |t| && !IsSpace(t[h + w])
    requires forall i :: h <= i < h + w ==> IsSpace(t[i])
    ensures StripLeft(t[h..]) == t[h + w..]
  {
    var rest := t[h..];
    forall i | 0 <= i < w
      ensures IsSpace(rest[i])
    {
      assert rest[i] == t[h + i];
    }
    assert rest[w] == t[h + w];
    StripLeftRun(rest, w);
    SliceOfSlice(t, h, w);
  }

  /** Dropping `a` and then `b` characters drops `a + b`. */
  lemma SliceOfSlice(s: string, a: nat, b: nat)
    requires a + b <= |s|
    ensures s[a..][b..] == s[a + b..]
  {
  }

  /** Stripping the leading whitespace of a text that starts with exactly `w`
      whitespace characters drops those `w`. */
  lemma {:induction false} StripLeftRun(s: string, w: nat)
    requires w <= |s|
    requires forall i :: 0 <= i < w ==> IsSpace(s[i])
    requires w == |s| || !IsSpace(s[w])
    ensures StripLeft(s) == s[w..]
  {
    if w > 0 {
      StripLeftRun(s[1..], w - 1);
      assert s[1..][w - 1..] == s[w..];
    }
  }

  /** The outline of a list of lines, in document order, given what each line yields. */
  function Outline(lines: seq<string>, entry: string -> Option<string>): seq<string>
  {
    if |lines| == 0 then []
    else (if entry(lines[0]).Some? then [entry(lines[0]).value] else []) + Outline(lines[1..], entry)
  }

  /** The outline of two runs of lines is the outline of the first followed by that of
      the second: lines keep their document order, and a single line contributes its
      entry or nothing. */
  lemma {:induction false} OutlineAppend(a: seq<string>, b: seq<string>, entry: string -> Option<string>)
    ensures Outline(a + b, entry) == Outline(a, entry) + Outline(b, entry)
    ensures |a| == 1 ==> Outline(a, entry) == if entry(a[0]).Some? then [entry(a[0]).value] else []
  {
    if |a| > 0 {
      assert (a + b)[0] == a[0];
      assert (a + b)[1..] == a[1..] + b;
      OutlineAppend(a[1..], b, entry);
    } else {
      assert a + b == b;
    }
  }

  /** The outline of one more line of a prefix: the outline so far, then that line's
      entry if it has one. */
  lemma OutlineStep(lines: seq<string>, i: nat, entry: string -> Option<string>)
    requires i < |lines|
    ensures Outline(lines[..i + 1], entry)
            == Outline(lines[..i], entry) + (if entry(lines[i]).Some? then [entry(lines[i]).value] else [])
  {
    OutlineAppend(lines[..i], [lines[i]], entry);
    assert lines[..i + 1] == lines[..i] + [lines[i]];
  }

  /** `'#' * n`. */
  function Hashes(n: nat): (r: string)
    ensures |r| == n && forall i :: 0 <= i < n ==> r[i] == '#'
  {
    seq(n, _ => '#')
  }

  /** A heading line of `level` hashes, one space and a title yields the title indented
      by two spaces per level below the first ("# Header 1" gives "Header 1",
      "## Header 2" gives "  Header 2"). */
  lemma HeadingLine(level: nat, title: string)
    requires level >= 1 && |title| >= 1 && !IsSpace(title[0]) && !IsSpace(title[|title| - 1])
    ensures HeaderEntry(Hashes(level) + " " + title) == Some(Indent(level - 1) + title)
  {
    var line := Hashes(level) + " " + title;
    assert line[0] == '#' && !IsSpace(line[0]);
    assert line[|line| - 1] == title[|title| - 1];
    StripUnchanged(line);
    assert line[level] == ' ';
    assert forall i :: 0 <= i < level ==> line[i] == '#';
    HashRunExact(line, level);
    var rest := line[level..];
    assert rest[0] == ' ' && rest[1..] == title;
    StripLeftRun(rest, 1);
    HeadingAt(line, level);
    assert HeaderEntry(line) == Heading(line);
  }

  /** A text with no whitespace at either end is its own `strip()`. */
  lemma StripUnchanged(t: string)
    requires |t| > 0 && !IsSpace(t[0]) && !IsSpace(t[|t| - 1])
    ensures Strip(t) == t
  {
    assert StripLeft(t) == t;
    assert StripRight(t) == t;
  }

  /** `h` leading '#' followed by another character is a hash run of exactly `h`. */
  lemma HashRunExact(t: string, h: nat)
    requires h < |t| && t[h] != '#'
    requires forall i :: 0 <= i < h ==> t[i] == '#'
    ensures HashRun(t) == h
  {
  }

  /** The entry of a stripped text with `h` leading '#' followed by whitespace. */
  lemma HeadingAt(t: string, h: nat)
    requires HashRun(t) == h && 1 <= h < |t| && IsSpace(t[h])
    ensures Heading(t) == Some(Indent(h - 1) + StripLeft(t[h..]))
  {
    var title := StripLeft(t[h..]);
    var ind := Indent(h - 1);
    assert Heading(t) == Some(ind + title);
  }

  // ---------------------------------------------------------------------------
  // Front matter fields copied by `extract`

  /** `a or b` on two optional lookups. */
  function Or(a: Option<Value>, b: Option<Value>): (r: Option<Value>)
    ensures a.Some? && Truthy(a.value) ==> r == a
    ensures !(a.Some? && Truthy(a.value)) ==> r == b
  {
    if a.Some? && Truthy(a.value) then a else b
  }

  /** The keyword list `extract` derives from the front matter, or None when it leaves
      the default list in place: `keywords` (or else `tags`) when truthy, used as is
      when it is a list, split on ',' with each part stripped when it is a text. */
  function FrontMatterKeywords(fm: seq<(string, Value)>): (r: Option<seq<Value>>)
  {
    var kw := Or(Get(fm, "keywords"), Get(fm, "tags"));
    if kw.Some? && Truthy(kw.value) then
      match kw.value
      case List(items) => Some(items)
      case Str(s) => Some(StrippedParts(Split(s, ',')))
      case _ => None
    else None
  }

  function StrippedParts(parts: seq<string>): (r: seq<Value>)
    ensures |r| == |parts|
    ensures forall k :: 0 <= k < |parts| ==> r[k] == Str(Strip(parts[k]))
  {
    seq(|parts|, k requires 0 <= k < |parts| => Str(Strip(parts[k])))
  }

  /** Keyword normalisation: a truthy `keywords` entry wins over `tags`; a list is kept
      as is; a text becomes its comma-separated parts, each stripped, one per part;
      anything else leaves the keywords untouched. */
  lemma KeywordRules(fm: seq<(string, Value)>)
    ensures var r := FrontMatterKeywords(fm);
            var kw := Get(fm, "keywords");
            var src := if kw.Some? && Truthy(kw.value) then kw else Get(fm, "tags");
            && (src.None? || !Truthy(src.value) ==> r.None?)
            && (src.Some? && src.value.List? && Truthy(src.value) ==> r == Some(src.value.items))
            && (src.Some? && src.value.Str? && Truthy(src.value) ==>
                  && r.Some? && |r.value| == |Split(src.value.s, ',')|
                  && forall k :: 0 <= k < |r.value| ==>
                       r.value[k] == Str(Strip(Split(src.value.s, ',')[k])) && ',' !in r.value[k].s)
            && (src.Some? && !src.value.List? && !src.value.Str? ==> r.None?)
  {
    var r := FrontMatterKeywords(fm);
    var kw := Get(fm, "keywords");
    var src := if kw.Some? && Truthy(kw.value) then kw else Get(fm, "tags");
    if src.Some? && src.value.Str? && Truthy(src.value) {
      var parts := Split(src.value.s, ',');
      SplitPartsFree(src.value.s, ',');
      forall k | 0 <= k < |r.value| ensures ',' !in r.value[k].s {
        StripSub(parts[k]);
      }
    }
  }

  /** Stripping takes a contiguous piece of the text, so it adds no character. */
  lemma StripSub(s: string)
    ensures forall c :: c in Strip(s) ==> c in s
  {
    var l := StripLeft(s);
    assert forall c :: c in StripRight(l) ==> c in l;
    assert forall c :: c in l ==> c in s;
  }

  /** The metadata fields `extract` takes from parsed front matter. */
  datatype FrontMatterFields = FrontMatterFields(
    title: Option<Value>,
    author: Option<Value>,
    subject: Option<Value>,
    keywords: Option<seq<Value>>,
    hasFrontMatter: bool)

  /** Applying the front matter in `extract`: empty front matter only records
      `has_front_matter: false`; front matter that is not a mapping makes `.get` raise,
      which fails the extraction (None); otherwise title and author are copied, the
      subject falls back to the description, and the keywords are normalised. */
  function ApplyFrontMatter(fm: Value): (r: Option<FrontMatterFields>)
    ensures !Truthy(fm) ==> r == Some(FrontMatterFields(None, None, None, None, false))
    ensures Truthy(fm) && !fm.Dict? ==> r.None?
    ensures Truthy(fm) && fm.Dict? ==>
              && r.Some? && r.value.hasFrontMatter
              && r.value.title == Get(fm.entries, "title")
              && r.value.author == Get(fm.entries, "author")
              && r.value.subject == Or(Get(fm.entries, "subject"), Get(fm.entries, "description"))
              && r.value.keywords == FrontMatterKeywords(fm.entries)
  {
    if !Truthy(fm) then Some(FrontMatterFields(None, None, None, None, false))
    else if !fm.Dict? then None
    else
      Some(FrontMatterFields(
        Get(fm.entries, "title"), Get(fm.entries, "author"),
        Or(Get(fm.entries, "subject"), Get(fm.entries, "description")),
        FrontMatterKeywords(fm.entries), true))
  }

  /** `extract_headers(content)`: the outline of the lines of `content`. */
  method ExtractHeaders(content: string) returns (headers: seq<string>)
    ensures headers == Outline(Split(content, '\n'), HeaderEntry)
  {
    var lines := Split(content, '\n');
    headers := CollectHeaders(lines);
  }

  /** The loop of `extract_headers`: one pass over the lines, appending each entry. */
  method CollectHeaders(lines: seq<string>) returns (headers: seq<string>)
    ensures headers == Outline(lines, HeaderEntry)
  {
    headers := [];
    var i := 0;
    while i < |lines|
      invariant 0 <= i <= |lines|
      invariant headers == Outline(lines[..i], HeaderEntry)
    {
      var entry := HeaderEntry(lines[i]);
      OutlineStep(lines, i, HeaderEntry);
      if entry.Some? {
        headers := headers + [entry.value];
      }
      i := i + 1;
    }
    assert lines[..i] == lines;
  }
}
