/** BEL scripts as lists of lines: cutting a document into its metadata,
    definition and statement sections, building the metadata and definition
    sections, and merging several documents into one. Where the original
    writes to a file, the model returns the lines it would print, one per
    `print` call. */
module Documents {
  import opened Wrappers
  import opened Seqs
  import opened Text
  import opened Sorting

  predicate IsComment(line: string) {
    StartsWith(line, "#")
  }

  predicate IsDocumentLine(line: string) {
    StartsWith(line, "SET DOCUMENT")
  }

  predicate IsDefinition(line: string) {
    StartsWith(line, "DEFINE ANNOTATION") || StartsWith(line, "DEFINE NAMESPACE")
  }

  lemma StartsWithAppend(s: string, t: string, p: string)
    requires StartsWith(s, p)
    ensures StartsWith(s + t, p)
  {
    assert (s + t)[..|p|] == s[..|p|];
  }

  /** A definition line starts with 'D', so it is neither a comment nor a
      metadata line. */
  lemma DefinitionIsPlain(line: string)
    requires IsDefinition(line)
    ensures !IsComment(line) && !IsDocumentLine(line)
  {
    if StartsWith(line, "DEFINE ANNOTATION") {
      assert line[..17][0] == 'D';
    } else {
      assert line[..16][0] == 'D';
    }
    assert line[0] == 'D';
    if |line| >= 12 {
      assert line[..12][0] == line[0];
    }
    assert line[..1][0] == line[0];
  }

  /** `max(i for i, line in enumerate(lines) if p(line))`; None stands for
      the ValueError `max` raises on an empty sequence. */
  function LastWhere(lines: seq<string>, p: string -> bool): (r: Option<nat>)
    ensures r.None? <==> forall i :: 0 <= i < |lines| ==> !p(lines[i])
    ensures r.Some? ==> r.value < |lines| && p(lines[r.value])
    ensures r.Some? ==> forall i :: r.value < i < |lines| ==> !p(lines[i])
    decreases |lines|
  {
    if |lines| == 0 then None
    else if p(lines[|lines| - 1]) then Some(|lines| - 1)
    else
      var r := LastWhere(lines[..|lines| - 1], p);
      assert forall i :: 0 <= i < |lines| - 1 ==> lines[..|lines| - 1][i] == lines[i];
      r
  }

  /** The three sections of a BEL document. */
  datatype Sections = Sections(documents: seq<string>, definitions: seq<string>, statements: seq<string>)

  /** The lines that are not '#' comments. */
  function Uncommented(lines: seq<string>): seq<string> {
    Filter(lines, (line: string) => !IsComment(line))
  }

  /** `split_document`: metadata up to the last SET DOCUMENT line, definitions
      up to the last DEFINE line (comments dropped from both), and everything
      after that verbatim. `islice` with a stop below its start is empty. */
  function SplitDocument(lines: seq<string>): (r: Result<Sections, Error>)
    ensures r.Failure? <==>
              || (forall i :: 0 <= i < |lines| ==> !IsDocumentLine(lines[i]))
              || (forall i :: 0 <= i < |lines| ==> !IsDefinition(lines[i]))
    ensures r.Failure? ==> r.error.ValueError?
    ensures r.Success? ==> forall line :: line in r.value.documents ==> line in lines && !IsComment(line)
    ensures r.Success? ==> forall line :: line in r.value.definitions ==> line in lines && !IsComment(line)
  {
    var lastDocument := LastWhere(lines, IsDocumentLine);
    var lastDefinition := LastWhere(lines, IsDefinition);
    if lastDocument.None? || lastDefinition.None? then
      Failure(ValueError("max() arg is an empty sequence"))
    else
      Success(SplitAt(lines, lastDocument.value, lastDefinition.value))
  }

  /** The sections when line `d` is the last metadata line and line `e`
      the last definition. */
  function SplitAt(lines: seq<string>, d: nat, e: nat): Sections
    requires d < |lines| && e < |lines|
  {
    Sections(Uncommented(lines[..d + 1]),
             if d <= e then Uncommented(lines[d + 1..e + 1]) else [],
             lines[e + 1..])
  }

  /** The sections in terms of the last metadata line `d` and the last
      definition line `e`, wherever they are. */
  lemma SplitDocumentAt(lines: seq<string>, d: nat, e: nat)
    requires d < |lines| && IsDocumentLine(lines[d])
    requires forall i :: d < i < |lines| ==> !IsDocumentLine(lines[i])
    requires e < |lines| && IsDefinition(lines[e])
    requires forall i :: e < i < |lines| ==> !IsDefinition(lines[i])
    ensures SplitDocument(lines) == Success(SplitAt(lines, d, e))
    ensures d <= e ==> Plain(lines[e + 1..])
  {
    LastWhereIs(lines, IsDocumentLine, d);
    LastWhereIs(lines, IsDefinition, e);
  }

  /** The last line a test accepts is found wherever it is. */
  lemma LastWhereIs(lines: seq<string>, p: string -> bool, d: nat)
    requires d < |lines| && p(lines[d])
    requires forall i :: d < i < |lines| ==> !p(lines[i])
    ensures LastWhere(lines, p) == Some(d)
  {
  }

  /** The other direction: a metadata block ending in a SET DOCUMENT line,
      a definition block ending in a DEFINE line, and statements free of
      both kinds of line split back into exactly those three parts. */
  lemma {:induction false} SplitDocumentOfParts(a: seq<string>, b: seq<string>, c: seq<string>)
    requires |a| > 0 && IsDocumentLine(a[|a| - 1])
    requires forall i :: 0 <= i < |a| ==> !IsComment(a[i])
    requires |b| > 0 && IsDefinition(b[|b| - 1])
    requires forall i :: 0 <= i < |b| ==> !IsComment(b[i]) && !IsDocumentLine(b[i])
    requires Plain(c)
    ensures SplitDocument(a + b + c) == Success(Sections(a, b, c))
  {
    PartsBoundaries(a, b, c);
    SplitDocumentAt(a + b + c, |a| - 1, |a| + |b| - 1);
    SplitAtParts(a, b, c);
  }

  /** In the joined lines, the last metadata line ends `a` and the last
      definition ends `b`. */
  lemma PartsBoundaries(a: seq<string>, b: seq<string>, c: seq<string>)
    requires |a| > 0 && IsDocumentLine(a[|a| - 1])
    requires |b| > 0 && IsDefinition(b[|b| - 1])
    requires forall i :: 0 <= i < |b| ==> !IsDocumentLine(b[i])
    requires Plain(c)
    ensures var lines, d, e := a + b + c, |a| - 1, |a| + |b| - 1;
      && IsDocumentLine(lines[d]) && (forall i :: d < i < |lines| ==> !IsDocumentLine(lines[i]))
      && IsDefinition(lines[e]) && (forall i :: e < i < |lines| ==> !IsDefinition(lines[i]))
  {
    var lines := a + b + c;
    var d := |a| - 1;
    var e := |a| + |b| - 1;
    assert lines[d] == a[d];
    assert lines[e] == b[|b| - 1];
    forall i | d < i < |lines|
      ensures !IsDocumentLine(lines[i])
    {
      if i < |a| + |b| {
        assert lines[i] == b[i - |a|];
      } else {
        assert lines[i] == c[i - |a| - |b|];
      }
    }
    forall i | e < i < |lines|
      ensures !IsDefinition(lines[i])
    {
      assert lines[i] == c[i - |a| - |b|];
    }
  }

  /** Cutting the joined lines at the ends of `a` and `b` gives the parts
      back when `a` and `b` hold no comments. */
  lemma SplitAtParts(a: seq<string>, b: seq<string>, c: seq<string>)
    requires |a| > 0 && |b| > 0
    requires forall i :: 0 <= i < |a| ==> !IsComment(a[i])
    requires forall i :: 0 <= i < |b| ==> !IsComment(b[i])
    ensures SplitAt(a + b + c, |a| - 1, |a| + |b| - 1) == Sections(a, b, c)
  {
    var lines := a + b + c;
    var d := |a| - 1;
    var e := |a| + |b| - 1;
    assert lines[..d + 1] == a;
    assert lines[d + 1..e + 1] == b;
    assert lines[e + 1..] == c;
    FilterKeepsAll(a, (line: string) => !IsComment(line));
    FilterKeepsAll(b, (line: string) => !IsComment(line));
  }

  // ---------------------------------------------------------------------
  // The metadata section

  /** One `SET DOCUMENT key = text` line. */
  function Setting(key: string, text: string): string {
    "SET DOCUMENT " + key + " = " + text
  }

  function Quoted(s: string): string {
    "\"" + s + "\""
  }

  /** The keys of the metadata lines, in the order they are written; the
      optional ones only when given. */
  function MetadataKeys(copyright: Option<string>, authors: Option<string>, licenses: Option<string>): seq<string> {
    ["Name", "Version"]
    + (if licenses.Some? then ["License"] else [])
    + ["Description"]
    + (if authors.Some? then ["Authors"] else [])
    + ["ContactInfo"]
    + (if copyright.Some? then ["Copyright"] else [])
  }

  lemma SettingStartsWithKey(key: string, text: string)
    ensures StartsWith(Setting(key, text), "SET DOCUMENT " + key + " = ")
    ensures IsDocumentLine(Setting(key, text)) && !IsComment(Setting(key, text))
  {
    var p := "SET DOCUMENT " + key + " = ";
    assert Setting(key, text) == p + text;
    StartsWithAppend(p, text, p);
    assert p[..12] == "SET DOCUMENT";
    assert Setting(key, text)[..12] == p[..12];
    assert Setting(key, text)[..1] == "S";
  }

  /** The (key, text) pairs of the metadata lines, in the order written. The
      Name text has no closing quote, and the Authors text is unquoted. */
  function MetadataSettings(name: string, contact: string, description: string, version: string,
                            copyright: Option<string>, authors: Option<string>, licenses: Option<string>)
    : (r: seq<(string, string)>)
    ensures |r| == |MetadataKeys(copyright, authors, licenses)|
    ensures forall i :: 0 <= i < |r| ==> r[i].0 == MetadataKeys(copyright, authors, licenses)[i]
  {
    [("Name", "\"" + name), ("Version", Quoted(version))]
    + (if licenses.Some? then [("License", Quoted(licenses.value))] else [])
    + [("Description", Quoted(description))]
    + (if authors.Some? then [("Authors", authors.value)] else [])
    + [("ContactInfo", Quoted(contact))]
    + (if copyright.Some? then [("Copyright", Quoted(copyright.value))] else [])
  }

  /** The metadata lines both `make_document_metadata` functions write once
      their version is settled: one SET DOCUMENT line per key, in key order. */
  function MetadataLines(name: string, contact: string, description: string, version: string,
                         copyright: Option<string>, authors: Option<string>, licenses: Option<string>): (r: seq<string>)
    ensures |r| == |MetadataKeys(copyright, authors, licenses)|
    ensures forall i :: 0 <= i < |r| ==>
              StartsWith(r[i], "SET DOCUMENT " + MetadataKeys(copyright, authors, licenses)[i] + " = ")
    ensures forall i :: 0 <= i < |r| ==> IsDocumentLine(r[i]) && !IsComment(r[i])
  {
    var settings := MetadataSettings(name, contact, description, version, copyright, authors, licenses);
    var r := seq(|settings|, i requires 0 <= i < |settings| => Setting(settings[i].0, settings[i].1));
    forall i | 0 <= i < |r|
      ensures StartsWith(r[i], "SET DOCUMENT " + settings[i].0 + " = ")
      ensures IsDocumentLine(r[i]) && !IsComment(r[i])
    {
      SettingStartsWithKey(settings[i].0, settings[i].1);
    }
    r
  }

  function Count(o: Option<string>): nat {
    if o.Some? then 1 else 0
  }

  /** Where each value lands: every given value has its line, the optional
      ones shifting the lines after them by one. */
  lemma MetadataValues(name: string, contact: string, description: string, version: string,
                       copyright: Option<string>, authors: Option<string>, licenses: Option<string>)
    ensures var r := MetadataLines(name, contact, description, version, copyright, authors, licenses);
            var l := Count(licenses);
            var a := Count(authors);
            && |r| == 4 + l + a + Count(copyright)
            && r[0] == Setting("Name", "\"" + name)
            && r[1] == Setting("Version", Quoted(version))
            && (licenses.Some? ==> r[2] == Setting("License", Quoted(licenses.value)))
            && r[2 + l] == Setting("Description", Quoted(description))
            && (authors.Some? ==> r[3 + l] == Setting("Authors", authors.value))
            && r[3 + l + a] == Setting("ContactInfo", Quoted(contact))
            && (copyright.Some? ==> r[4 + l + a] == Setting("Copyright", Quoted(copyright.value)))
  {
    var settings := MetadataSettings(name, contact, description, version, copyright, authors, licenses);
    var l := Count(licenses);
    var a := Count(authors);
    assert settings[0] == ("Name", "\"" + name);
    assert settings[1] == ("Version", Quoted(version));
    assert settings[2 + l] == ("Description", Quoted(description));
    assert settings[3 + l + a] == ("ContactInfo", Quoted(contact));
  }

  /** The version `document_utils.make_document_metadata` writes when none is
      passed. */
  const DEFAULT_VERSION := "1.0.0"

  /** `make_document_metadata` of the document utilities: the version is
      written as given (its default is `DEFAULT_VERSION`). */
  function MakeDocumentMetadata(name: string, contact: string, description: string, version: string,
                                copyright: Option<string>, authors: Option<string>, licenses: Option<string>): (r: seq<string>)
    ensures |r| == |MetadataKeys(copyright, authors, licenses)|
    ensures forall i :: 0 <= i < |r| ==> IsDocumentLine(r[i]) && !IsComment(r[i])
    ensures r[1] == Setting("Version", Quoted(version))
  {
    MetadataValues(name, contact, description, version, copyright, authors, licenses);
    MetadataLines(name, contact, description, version, copyright, authors, licenses)
  }

  /** The version the boilerplate writes for a missing or empty one. */
  const BOILERPLATE_VERSION := "1.0"

  /** `make_document_metadata` of the boilerplate module: a falsy version
      (None or the empty string) becomes `BOILERPLATE_VERSION`. */
  function BoilerplateMetadata(name: string, contact: string, description: string, version: Option<string>,
                               copyright: Option<string>, authors: Option<string>, licenses: Option<string>): (r: seq<string>)
    ensures |r| == |MetadataKeys(copyright, authors, licenses)|
    ensures forall i :: 0 <= i < |r| ==> IsDocumentLine(r[i]) && !IsComment(r[i])
    ensures version.None? || version == Some("") ==> r[1] == Setting("Version", Quoted(BOILERPLATE_VERSION))
    ensures version.Some? && version.value != "" ==> r[1] == Setting("Version", Quoted(version.value))
  {
    var v := if version.Some? && version.value != "" then version.value else BOILERPLATE_VERSION;
    MetadataValues(name, contact, description, v, copyright, authors, licenses);
    MetadataLines(name, contact, description, v, copyright, authors, licenses)
  }

  /** The two metadata builders differ only in how the version defaults. */
  lemma MetadataBuildersAgree(name: string, contact: string, description: string, version: Option<string>,
                              copyright: Option<string>, authors: Option<string>, licenses: Option<string>)
    ensures version.Some? && version.value != "" ==>
              BoilerplateMetadata(name, contact, description, version, copyright, authors, licenses)
              == MakeDocumentMetadata(name, contact, description, version.value, copyright, authors, licenses)
    ensures version.None? ==>
              BoilerplateMetadata(name, contact, description, version, copyright, authors, licenses)
              == MakeDocumentMetadata(name, contact, description, BOILERPLATE_VERSION, copyright, authors, licenses)
    ensures BoilerplateMetadata(name, contact, description, None, copyright, authors, licenses)
            != MakeDocumentMetadata(name, contact, description, DEFAULT_VERSION, copyright, authors, licenses)
  {
    var b := BoilerplateMetadata(name, contact, description, None, copyright, authors, licenses);
    var m := MakeDocumentMetadata(name, contact, description, DEFAULT_VERSION, copyright, authors, licenses);
    assert b[1] == Setting("Version", Quoted(BOILERPLATE_VERSION));
    assert m[1] == Setting("Version", Quoted(DEFAULT_VERSION));
    assert |b[1]| != |m[1]|;
  }

  /** The Name line is written without its closing quote: it ends in the
      name itself, so a name that does not end in a quote gives a line that
      does not either. */
  lemma NameLineUnclosed(name: string, contact: string, description: string, version: string,
                         copyright: Option<string>, authors: Option<string>, licenses: Option<string>)
    ensures var line := MetadataLines(name, contact, description, version, copyright, authors, licenses)[0];
            && StartsWith(line, "SET DOCUMENT Name = \"")
            && line[|line| - |name|..] == name
            && (|name| > 0 && name[|name| - 1] != '"' ==> line[|line| - 1] != '"')
  {
    var line := MetadataLines(name, contact, description, version, copyright, authors, licenses)[0];
    var p := "SET DOCUMENT Name = \"";
    MetadataValues(name, contact, description, version, copyright, authors, licenses);
    assert line == p + name;
    StartsWithAppend(p, name, p);
  }

  // ---------------------------------------------------------------------
  // The definition section

  datatype Kind = Namespace | Annotation

  /** The start of a definition line of the given kind. */
  function DefinitionStart(kind: Kind): string {
    match kind
    case Namespace => "DEFINE NAMESPACE "
    case Annotation => "DEFINE ANNOTATION "
  }

  /** `'DEFINE NAMESPACE {} AS URL "{}"'.format(name, url)` and its
      annotation twin. */
  function DefinitionLine(kind: Kind, entry: (string, string)): string {
    DefinitionStart(kind) + (entry.0 + " AS URL " + Quoted(entry.1))
  }

  function Url(entry: (string, string)): string {
    entry.1
  }

  lemma DefinitionLineIsDefinition(kind: Kind, entry: (string, string))
    ensures IsDefinition(DefinitionLine(kind, entry))
    ensures !IsComment(DefinitionLine(kind, entry)) && !IsDocumentLine(DefinitionLine(kind, entry))
  {
    var p := DefinitionStart(kind);
    var line := DefinitionLine(kind, entry);
    assert line == p + (entry.0 + " AS URL " + Quoted(entry.1));
    if kind.Namespace? {
      assert p[..16] == "DEFINE NAMESPACE";
      assert line[..16] == p[..16];
    } else {
      assert p[..17] == "DEFINE ANNOTATION";
      assert line[..17] == p[..17];
    }
    DefinitionIsPlain(line);
  }

  /** One definition line per dictionary item (the items in dictionary
      order), ordered by URL; `sorted` is stable, so items sharing a URL
      keep their dictionary order. */
  function DefinitionLines(kind: Kind, items: seq<(string, string)>): (r: seq<string>)
    ensures |r| == |items|
    ensures exists order: seq<(string, string)> ::
              && SortedBy(order, Url) && multiset(order) == multiset(items) && |order| == |r|
              && (forall i :: 0 <= i < |r| ==> r[i] == DefinitionLine(kind, order[i]))
    ensures forall i :: 0 <= i < |r| ==> IsDefinition(r[i]) && !IsComment(r[i]) && !IsDocumentLine(r[i])
  {
    var order := SortBy(items, Url);
    var r := seq(|order|, i requires 0 <= i < |order| => DefinitionLine(kind, order[i]));
    assert forall i :: 0 <= i < |r| ==> IsDefinition(r[i]) && !IsComment(r[i]) && !IsDocumentLine(r[i]) by {
      forall i | 0 <= i < |r|
        ensures IsDefinition(r[i]) && !IsComment(r[i]) && !IsDocumentLine(r[i])
      {
        DefinitionLineIsDefinition(kind, order[i]);
      }
    }
    r
  }

  /** `make_document_namespaces`: the given dictionary, or the default table
      when None is passed. */
  function MakeDocumentNamespaces(namespaces: Option<seq<(string, string)>>, defaults: seq<(string, string)>): (r: seq<string>)
    ensures |r| == if namespaces.Some? then |namespaces.value| else |defaults|
    ensures forall i :: 0 <= i < |r| ==> StartsWith(r[i], "DEFINE NAMESPACE ")
  {
    var items := if namespaces.Some? then namespaces.value else defaults;
    var r := DefinitionLines(Namespace, items);
    DefinitionLinesStart(Namespace, items);
    r
  }

  /** `make_document_annotations`, likewise. */
  function MakeDocumentAnnotations(annotations: Option<seq<(string, string)>>, defaults: seq<(string, string)>): (r: seq<string>)
    ensures |r| == if annotations.Some? then |annotations.value| else |defaults|
    ensures forall i :: 0 <= i < |r| ==> StartsWith(r[i], "DEFINE ANNOTATION ")
  {
    var items := if annotations.Some? then annotations.value else defaults;
    var r := DefinitionLines(Annotation, items);
    DefinitionLinesStart(Annotation, items);
    r
  }

  lemma DefinitionLinesStart(kind: Kind, items: seq<(string, string)>)
    ensures forall i :: 0 <= i < |items| ==> StartsWith(DefinitionLines(kind, items)[i], DefinitionStart(kind))
  {
    var r := DefinitionLines(kind, items);
    var order: seq<(string, string)> :| && SortedBy(order, Url) && multiset(order) == multiset(items) && |order| == |r|
                 && (forall i :: 0 <= i < |r| ==> r[i] == DefinitionLine(kind, order[i]));
    forall i | 0 <= i < |items|
      ensures StartsWith(r[i], DefinitionStart(kind))
    {
      var p := DefinitionStart(kind);
      StartsWithAppend(p, order[i].0 + " AS URL " + Quoted(order[i].1), p);
      assert r[i] == p + (order[i].0 + " AS URL " + Quoted(order[i].1));
    }
  }

  /** Items sharing a URL keep their dictionary order among the lines. */
  lemma DefinitionLinesStable(kind: Kind, items: seq<(string, string)>, url: string)
    ensures var sorted := SortBy(items, Url);
            && DefinitionLines(kind, items) == seq(|sorted|, i requires 0 <= i < |sorted| => DefinitionLine(kind, sorted[i]))
            && WithKey(sorted, Url, url) == WithKey(items, Url, url)
  {
    SortIsStable(items, Url, url);
  }

  // ---------------------------------------------------------------------
  // Merging

  /** `[line.strip() for line in f]` */
  function StripLines(lines: seq<string>): seq<string> {
    seq(|lines|, i requires 0 <= i < |lines| => Strip(lines[i]))
  }

  /** `split_document([line.strip() for line in f])` for one input file. */
  function SplitInput(lines: seq<string>): Result<Sections, Error> {
    SplitDocument(StripLines(lines))
  }

  /** Splits every input in turn, stopping at the first that raises. */
  function SplitEach(inputs: seq<seq<string>>, split: seq<string> -> Result<Sections, Error>)
    : (r: Result<seq<Sections>, Error>)
    ensures r.Failure? <==> exists i :: 0 <= i < |inputs| && split(inputs[i]).Failure?
    ensures r.Failure? ==> exists i :: 0 <= i < |inputs| && split(inputs[i]) == Failure(r.error)
    ensures r.Success? ==> |r.value| == |inputs|
    ensures r.Success? ==> forall i :: 0 <= i < |inputs| ==> split(inputs[i]) == Success(r.value[i])
  {
    if |inputs| == 0 then Success([])
    else
      var front := inputs[..|inputs| - 1];
      assert forall i :: 0 <= i < |front| ==> front[i] == inputs[i];
      var sections :- SplitEach(front, split);
      var last :- split(inputs[|inputs| - 1]);
      Success(sections + [last])
  }

  /** What one input contributes after the merged definitions: a blank line,
      its metadata as `# SUBDOCUMENT` comments, a blank line, its statements. */
  function Subdocument(s: Sections): seq<string> {
    [""] + seq(|s.documents|, i requires 0 <= i < |s.documents| => "# SUBDOCUMENT " + s.documents[i]) + [""] + s.statements
  }

  function Subdocuments(sections: seq<Sections>): seq<seq<string>> {
    seq(|sections|, i requires 0 <= i < |sections| => Subdocument(sections[i]))
  }

  /** `sorted(set().union(*defs))` over the definition sections. */
  function MergedDefinitions(sections: seq<Sections>): (r: seq<string>)
    ensures Sorted(r) && Distinct(r)
    ensures forall line :: line in r <==> exists i :: 0 <= i < |sections| && line in sections[i].definitions
  {
    var all := seq(|sections|, i requires 0 <= i < |sections| => sections[i].definitions);
    var r := SortDistinct(Flatten(all));
    assert forall line :: line in r <==> exists i :: 0 <= i < |sections| && line in sections[i].definitions by {
      forall line
        ensures line in r <==> exists i :: 0 <= i < |sections| && line in sections[i].definitions
      {
        FlattenMembers(all, line);
        assert forall i :: 0 <= i < |sections| ==> all[i] == sections[i].definitions;
      }
    }
    r
  }

  /** The merged document: header, merged definitions, then the inputs'
      subdocuments in input order. */
  function MergeLines(header: seq<string>, sections: seq<Sections>): seq<string> {
    header + MergedDefinitions(sections) + Flatten(Subdocuments(sections))
  }

  /** `merge` with the metadata header it writes; fails exactly when some
      input has no SET DOCUMENT or no DEFINE line, and otherwise lays out the
      sections each input splits into. */
  function Merge(inputs: seq<seq<string>>, header: seq<string>): (r: Result<seq<string>, Error>)
    ensures r.Failure? <==> exists i :: 0 <= i < |inputs| && SplitInput(inputs[i]).Failure?
    ensures r.Failure? ==> r.error.ValueError?
    ensures r.Success? ==> |r.value| >= |header| + 2 * |inputs| && r.value[..|header|] == header
    ensures r.Success? ==>
              exists sections: seq<Sections> ::
                && |sections| == |inputs|
                && (forall i :: 0 <= i < |inputs| ==> SplitInput(inputs[i]) == Success(sections[i]))
                && r.value == MergeLines(header, sections)
  {
    var split := SplitEach(inputs, SplitInput);
    if split.Failure? then
      assert forall i :: 0 <= i < |inputs| && SplitInput(inputs[i]).Failure? ==> SplitInput(inputs[i]).error.ValueError?;
      Failure(split.error)
    else
      var sections := split.value;
      var r := MergeLines(header, sections);
      MergeLinesLength(header, sections);
      assert |sections| == |inputs| && (forall i :: 0 <= i < |inputs| ==> SplitInput(inputs[i]) == Success(sections[i]))
             && r == MergeLines(header, sections);
      Success(r)
  }

  lemma {:induction false} FlattenSubdocumentsLength(sections: seq<Sections>)
    ensures |Flatten(Subdocuments(sections))| >= 2 * |sections|
    decreases |sections|
  {
    if |sections| > 0 {
      var front := sections[..|sections| - 1];
      assert Subdocuments(sections)[..|sections| - 1] == Subdocuments(front);
      FlattenSubdocumentsLength(front);
    }
  }

  lemma MergeLinesLength(header: seq<string>, sections: seq<Sections>)
    ensures |MergeLines(header, sections)| >= |header| + 2 * |sections|
    ensures MergeLines(header, sections)[..|header|] == header
  {
    FlattenSubdocumentsLength(sections);
  }

  /** The defaults `merge` fills in for a missing name, contact and
      description. */
  const MERGED_NAME := "MERGED DOCUMENT"
  const MERGED_CONTACT := ""
  const MERGED_DESCRIPTION := "This is a merged document"

  /** The four metadata lines a merged document starts with. */
  function MergedHeader(name: Option<string>, contact: Option<string>, description: Option<string>,
                        version: string): seq<string> {
    [ Setting("Name", "\"" + name.GetOr(MERGED_NAME)),
      Setting("Version", Quoted(version)),
      Setting("Description", Quoted(description.GetOr(MERGED_DESCRIPTION))),
      Setting("ContactInfo", Quoted(contact.GetOr(MERGED_CONTACT))) ]
  }

  /** `document_utils.merge`: the header comes from `MakeDocumentMetadata`
      with its default version. */
  function DocumentUtilsMerge(inputs: seq<seq<string>>, name: Option<string>, contact: Option<string>,
                              description: Option<string>): (r: Result<seq<string>, Error>)
    ensures r.Failure? <==> exists i :: 0 <= i < |inputs| && SplitInput(inputs[i]).Failure?
    ensures r.Success? ==> |r.value| >= 4 + 2 * |inputs|
    ensures r.Success? ==> r.value[..4] == MergedHeader(name, contact, description, DEFAULT_VERSION)
  {
    var header := MakeDocumentMetadata(name.GetOr(MERGED_NAME), contact.GetOr(MERGED_CONTACT),
                                       description.GetOr(MERGED_DESCRIPTION), DEFAULT_VERSION, None, None, None);
    MetadataValues(name.GetOr(MERGED_NAME), contact.GetOr(MERGED_CONTACT),
                   description.GetOr(MERGED_DESCRIPTION), DEFAULT_VERSION, None, None, None);
    assert header == MergedHeader(name, contact, description, DEFAULT_VERSION);
    Merge(inputs, header)
  }

  /** `merger.merge`: the header comes from the boilerplate builder, whose
      version defaults differently. */
  function MergerMerge(inputs: seq<seq<string>>, name: Option<string>, contact: Option<string>,
                       description: Option<string>): (r: Result<seq<string>, Error>)
    ensures r.Failure? <==> exists i :: 0 <= i < |inputs| && SplitInput(inputs[i]).Failure?
    ensures r.Success? ==> |r.value| >= 4 + 2 * |inputs|
    ensures r.Success? ==> r.value[..4] == MergedHeader(name, contact, description, BOILERPLATE_VERSION)
  {
    var header := BoilerplateMetadata(name.GetOr(MERGED_NAME), contact.GetOr(MERGED_CONTACT),
                                      description.GetOr(MERGED_DESCRIPTION), None, None, None, None);
    MetadataValues(name.GetOr(MERGED_NAME), contact.GetOr(MERGED_CONTACT),
                   description.GetOr(MERGED_DESCRIPTION), BOILERPLATE_VERSION, None, None, None);
    assert header == MergedHeader(name, contact, description, BOILERPLATE_VERSION);
    Merge(inputs, header)
  }

  /** A subdocument is a blank line, the '# SUBDOCUMENT' comments, a blank
      line and the statements. */
  lemma SubdocumentShape(s: Sections)
    ensures var b := Subdocument(s);
            var n := |s.documents|;
            && |b| == 2 + n + |s.statements|
            && b[0] == "" && b[1 + n] == ""
            && (forall k :: 0 <= k < n ==> b[1 + k] == "# SUBDOCUMENT " + s.documents[k])
            && b[2 + n..] == s.statements
  {
  }

  /** Where the subdocument of input `i` starts in the merged lines. */
  function SubdocumentStart(header: seq<string>, sections: seq<Sections>, i: nat): nat
    requires i <= |sections|
  {
    |header| + |MergedDefinitions(sections)| + |Flatten(Subdocuments(sections)[..i])|
  }

  lemma MergeSlice(header: seq<string>, sections: seq<Sections>, i: nat)
    requires i < |sections|
    ensures SubdocumentStart(header, sections, i) + |Subdocument(sections[i])| <= |MergeLines(header, sections)|
    ensures MergeLines(header, sections)[SubdocumentStart(header, sections, i)..][..|Subdocument(sections[i])|]
            == Subdocument(sections[i])
  {
    var subs := Subdocuments(sections);
    FlattenSlice(subs, i);
    assert subs[i] == Subdocument(sections[i]);
    SliceBehind(header + MergedDefinitions(sections), Flatten(subs), |Flatten(subs[..i])|, subs[i]);
  }

  /** A slice of `f` stays in place behind a prefix. */
  lemma SliceBehind<T>(prefix: seq<T>, f: seq<T>, x: nat, b: seq<T>)
    requires x + |b| <= |f| && f[x..x + |b|] == b
    ensures |prefix| + x + |b| <= |prefix + f|
    ensures (prefix + f)[|prefix| + x..][..|b|] == b
  {
    assert (prefix + f)[|prefix| + x..] == f[x..];
    assert f[x..][..|b|] == f[x..x + |b|];
  }

  /** The layout of a merged document: after the header come the merged
      definitions, and each input's subdocument follows where the previous
      ones end, so inputs keep their order and their statements appear
      verbatim. */
  lemma MergeLayout(header: seq<string>, sections: seq<Sections>, i: nat)
    requires i < |sections|
    ensures SubdocumentStart(header, sections, i) + 2 + |sections[i].documents| + |sections[i].statements|
            <= |MergeLines(header, sections)|
    ensures MergeLines(header, sections)[SubdocumentStart(header, sections, i)] == ""
    ensures MergeLines(header, sections)[SubdocumentStart(header, sections, i) + 1 + |sections[i].documents|] == ""
    ensures forall k :: 0 <= k < |sections[i].documents| ==>
              MergeLines(header, sections)[SubdocumentStart(header, sections, i) + 1 + k]
              == "# SUBDOCUMENT " + sections[i].documents[k]
    ensures MergeLines(header, sections)[SubdocumentStart(header, sections, i) + 2 + |sections[i].documents|..]
              [..|sections[i].statements|]
            == sections[i].statements
  {
    MergeSlice(header, sections, i);
    SubdocumentAt(MergeLines(header, sections), SubdocumentStart(header, sections, i), sections[i]);
  }

  /** The merged definitions follow the header directly. */
  lemma MergeDefinitionsFollowHeader(header: seq<string>, sections: seq<Sections>)
    ensures MergeLines(header, sections)[..|header|] == header
    ensures MergeLines(header, sections)[|header|..|header| + |MergedDefinitions(sections)|]
            == MergedDefinitions(sections)
  {
  }

  /** Reads the parts of a subdocument off the lines that hold it. */
  lemma SubdocumentAt(r: seq<string>, at: nat, s: Sections)
    requires at + |Subdocument(s)| <= |r|
    requires r[at..][..|Subdocument(s)|] == Subdocument(s)
    ensures at + 2 + |s.documents| + |s.statements| <= |r|
    ensures r[at] == "" && r[at + 1 + |s.documents|] == ""
    ensures forall k :: 0 <= k < |s.documents| ==> r[at + 1 + k] == "# SUBDOCUMENT " + s.documents[k]
    ensures r[at + 2 + |s.documents|..][..|s.statements|] == s.statements
  {
    var n := |s.documents|;
    var b := Subdocument(s);
    SubdocumentShape(s);
    assert forall j :: 0 <= j < |b| ==> r[at + j] == b[j] by {
      forall j | 0 <= j < |b|
        ensures r[at + j] == b[j]
      {
        assert r[at..][..|b|][j] == b[j];
      }
    }
    assert r[at + 2 + n..][..|s.statements|] == b[2 + n..];
  }

  /** Merging yields a document that splits back into the header, the merged
      definitions and the subdocuments, when the header is a metadata
      section, every definition section holds only DEFINE lines (at least
      one overall), and no statement is a SET DOCUMENT or DEFINE line. */
  lemma MergeSplitsBack(header: seq<string>, sections: seq<Sections>)
    requires |header| > 0 && IsDocumentLine(header[|header| - 1])
    requires forall k :: 0 <= k < |header| ==> !IsComment(header[k])
    requires exists i :: 0 <= i < |sections| && |sections[i].definitions| > 0
    requires forall i, k :: 0 <= i < |sections| && 0 <= k < |sections[i].definitions| ==>
               IsDefinition(sections[i].definitions[k])
    requires forall i :: 0 <= i < |sections| ==> Plain(sections[i].statements)
    ensures SplitDocument(MergeLines(header, sections))
            == Success(Sections(header, MergedDefinitions(sections), Flatten(Subdocuments(sections))))
  {
    var defs := MergedDefinitions(sections);
    var i :| 0 <= i < |sections| && |sections[i].definitions| > 0;
    assert sections[i].definitions[0] in defs;
    forall k | 0 <= k < |defs|
      ensures IsDefinition(defs[k]) && !IsComment(defs[k]) && !IsDocumentLine(defs[k])
    {
      assert defs[k] in defs;
      var j :| 0 <= j < |sections| && defs[k] in sections[j].definitions;
      var m :| 0 <= m < |sections[j].definitions| && sections[j].definitions[m] == defs[k];
      DefinitionIsPlain(defs[k]);
    }
    SubdocumentsArePlain(sections);
    assert |defs| > 0 && IsDefinition(defs[|defs| - 1]);
    assert forall k :: 0 <= k < |defs| ==> !IsComment(defs[k]) && !IsDocumentLine(defs[k]);
    SplitDocumentOfParts(header, defs, Flatten(Subdocuments(sections)));
  }

  /** No line is a SET DOCUMENT or DEFINE line. */
  predicate Plain(lines: seq<string>) {
    forall k :: 0 <= k < |lines| ==> !IsDocumentLine(lines[k]) && !IsDefinition(lines[k])
  }

  /** A comment is neither a metadata line nor a definition. */
  lemma CommentIsPlain(line: string)
    requires IsComment(line)
    ensures !IsDocumentLine(line) && !IsDefinition(line)
  {
    assert line[0] == line[..1][0] == '#';
    if |line| >= 12 {
      assert line[..12][0] == '#';
    }
    if |line| >= 16 {
      assert line[..16][0] == '#';
    }
    if |line| >= 17 {
      assert line[..17][0] == '#';
    }
  }

  lemma SubdocumentIsPlain(s: Sections)
    requires Plain(s.statements)
    ensures Plain(Subdocument(s))
  {
    var b := Subdocument(s);
    var n := |s.documents|;
    SubdocumentShape(s);
    forall k | 0 <= k < |b|
      ensures !IsDocumentLine(b[k]) && !IsDefinition(b[k])
    {
      if 1 <= k <= n {
        var line := "# SUBDOCUMENT " + s.documents[k - 1];
        assert b[k] == line;
        assert line[..1] == "#";
        CommentIsPlain(line);
      } else if k > n + 1 {
        assert b[k] == b[2 + n..][k - n - 2];
      }
    }
  }

  /** Blank lines and comments are neither metadata nor definitions, so the
      subdocuments show nothing but their statements to a new split. */
  lemma {:induction false} SubdocumentsArePlain(sections: seq<Sections>)
    requires forall i :: 0 <= i < |sections| ==> Plain(sections[i].statements)
    ensures Plain(Flatten(Subdocuments(sections)))
    decreases |sections|
  {
    if |sections| > 0 {
      var front := sections[..|sections| - 1];
      var s := sections[|sections| - 1];
      assert Subdocuments(sections)[..|sections| - 1] == Subdocuments(front);
      SubdocumentsArePlain(front);
      SubdocumentIsPlain(s);
      var a := Flatten(Subdocuments(front));
      var b := Subdocument(s);
      var c := Flatten(Subdocuments(sections));
      assert c == a + b;
      forall k | 0 <= k < |c|
        ensures !IsDocumentLine(c[k]) && !IsDefinition(c[k])
      {
        if k < |a| {
          assert c[k] == a[k];
          assert !IsDocumentLine(a[k]) && !IsDefinition(a[k]);
        } else {
          assert c[k] == b[k - |a|];
          assert !IsDocumentLine(b[k - |a|]) && !IsDefinition(b[k - |a|]);
        }
      }
    }
  }
}
