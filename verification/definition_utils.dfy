/** Builders for BEL namespace (BELNS) and annotation (BELANNO) definition
    files, as the lines they print. The clock (`time.strftime`), the login
    name (`getpass.getuser`), pybel's domain list and its default function
    encodings are parameters. */
module DefinitionUtils {
  import opened Wrappers
  import opened Seqs
  import opened Text
  import opened Sorting
  import opened Belns

  /** The version written when none (or an empty one) is given. */
  const DEFAULT_VERSION := "1.0.0"

  /** The copyright written when none is given. */
  const DEFAULT_COPYRIGHT := "Other/Proprietary"

  /** The `[Namespace]` arguments of `make_namespace_header`. */
  datatype NamespaceInfo = NamespaceInfo(
    name: string,
    keyword: string,
    domain: string,
    queryUrl: Option<string>,
    description: Option<string>,
    species: Option<string>,
    version: Option<string>,
    created: Option<string>)

  /** The `[Author]` arguments; a missing name means the login name. */
  datatype AuthorInfo = AuthorInfo(name: Option<string>, contact: Option<string>, copyright: Option<string>)

  /** The `[Citation]` arguments. */
  datatype CitationInfo = CitationInfo(
    name: string,
    description: Option<string>,
    url: Option<string>,
    version: Option<string>,
    date: Option<string>)

  /** The `[AnnotationDefinition]` arguments. */
  datatype AnnotationInfo = AnnotationInfo(
    keyword: string,
    description: Option<string>,
    usage: Option<string>,
    version: Option<string>,
    created: Option<string>)

  // ---------------------------------------------------------------------
  // Headers

  function NamespaceFixed(defaultVersion: string, ns: NamespaceInfo, now: string): seq<(string, string)> {
    [("Keyword", ns.keyword),
     ("NameString", ns.name),
     ("DomainString", ns.domain),
     ("VersionString", OrDefault(ns.version, defaultVersion)),
     ("CreatedDateTime", OrDefault(ns.created, now))]
  }

  function NamespaceOptional(ns: NamespaceInfo): seq<(string, Option<string>)> {
    [("DescriptionString", ns.description),
     ("SpeciesString", ns.species),
     ("QueryValueURL", ns.queryUrl)]
  }

  lemma NamespaceKeys(defaultVersion: string, ns: NamespaceInfo, now: string)
    ensures var h := Header("[Namespace]", NamespaceFixed(defaultVersion, ns, now), NamespaceOptional(ns));
            && IsSection(h) && h[0] == "[Namespace]"
            && Keys(h[1..])
               == ["Keyword", "NameString", "DomainString", "VersionString", "CreatedDateTime"]
                  + OptionalKey("DescriptionString", ns.description)
                  + OptionalKey("SpeciesString", ns.species)
                  + OptionalKey("QueryValueURL", ns.queryUrl)
  {
    var fixed, optional := NamespaceFixed(defaultVersion, ns, now), NamespaceOptional(ns);
    NamespaceFieldKeys(defaultVersion, ns, now);
    HeaderKeys("[Namespace]", fixed, optional);
    PresentKeysOfThree(optional);
  }

  lemma NamespaceFieldKeys(defaultVersion: string, ns: NamespaceInfo, now: string)
    ensures PlainKeys(NamespaceFixed(defaultVersion, ns, now)) && PlainKeys(NamespaceOptional(ns))
    ensures Firsts(NamespaceFixed(defaultVersion, ns, now))
            == ["Keyword", "NameString", "DomainString", "VersionString", "CreatedDateTime"]
  {
    var fixed := NamespaceFixed(defaultVersion, ns, now);
    assert Firsts(fixed) == ["Keyword", "NameString", "DomainString", "VersionString", "CreatedDateTime"];
  }

  lemma NamespaceHolds(defaultVersion: string, ns: NamespaceInfo, now: string)
    ensures var h := Header("[Namespace]", NamespaceFixed(defaultVersion, ns, now), NamespaceOptional(ns));
            && Field("Keyword", ns.keyword) in h
            && Field("NameString", ns.name) in h
            && Field("DomainString", ns.domain) in h
            && Field("VersionString", OrDefault(ns.version, defaultVersion)) in h
            && Field("CreatedDateTime", OrDefault(ns.created, now)) in h
            && (ns.description.Some? ==> Field("DescriptionString", ns.description.value) in h)
            && (ns.species.Some? ==> Field("SpeciesString", ns.species.value) in h)
            && (ns.queryUrl.Some? ==> Field("QueryValueURL", ns.queryUrl.value) in h)
  {
    var fixed, optional := NamespaceFixed(defaultVersion, ns, now), NamespaceOptional(ns);
    assert fixed[0].0 == "Keyword" && fixed[1].0 == "NameString" && fixed[2].0 == "DomainString";
    assert fixed[3].0 == "VersionString" && fixed[4].0 == "CreatedDateTime";
    assert optional[0].0 == "DescriptionString" && optional[1].0 == "SpeciesString";
    assert optional[2].0 == "QueryValueURL";
    HeaderHolds("[Namespace]", fixed, optional);
  }

  /** The `[Namespace]` section with a given default version: the domain is
      checked first, then five fields always appear and three only when
      given. The older builder differs only in the default version. */
  function NamespaceHeaderWith(defaultVersion: string, ns: NamespaceInfo, domains: set<string>, now: string)
    : (r: Result<seq<string>, Error>)
    ensures r.Failure? <==> ns.domain !in domains
    ensures r.Failure? ==> r.error.ValueError?
    ensures r.Success? ==> IsSection(r.value) && r.value[0] == "[Namespace]"
    ensures r.Success? ==>
              Keys(r.value[1..])
              == ["Keyword", "NameString", "DomainString", "VersionString", "CreatedDateTime"]
                 + OptionalKey("DescriptionString", ns.description)
                 + OptionalKey("SpeciesString", ns.species)
                 + OptionalKey("QueryValueURL", ns.queryUrl)
    ensures r.Success? ==>
              && Field("Keyword", ns.keyword) in r.value
              && Field("NameString", ns.name) in r.value
              && Field("DomainString", ns.domain) in r.value
              && Field("VersionString", OrDefault(ns.version, defaultVersion)) in r.value
              && Field("CreatedDateTime", OrDefault(ns.created, now)) in r.value
    ensures r.Success? && ns.description.Some? ==> Field("DescriptionString", ns.description.value) in r.value
    ensures r.Success? && ns.species.Some? ==> Field("SpeciesString", ns.species.value) in r.value
    ensures r.Success? && ns.queryUrl.Some? ==> Field("QueryValueURL", ns.queryUrl.value) in r.value
  {
    if ns.domain !in domains then
      Failure(ValueError("Invalid domain: " + ns.domain))
    else
      NamespaceKeys(defaultVersion, ns, now);
      NamespaceHolds(defaultVersion, ns, now);
      Success(Header("[Namespace]", NamespaceFixed(defaultVersion, ns, now), NamespaceOptional(ns)))
  }

  /** `make_namespace_header`, whose default version is 1.0.0. */
  function NamespaceHeader(ns: NamespaceInfo, domains: set<string>, now: string): (r: Result<seq<string>, Error>)
    ensures r.Failure? <==> ns.domain !in domains
    ensures r.Success? && (ns.version.None? || ns.version == Some("")) ==>
              Field("VersionString", DEFAULT_VERSION) in r.value
  {
    NamespaceHeaderWith(DEFAULT_VERSION, ns, domains, now)
  }

  function AuthorFixed(name: string, copyright: Option<string>): seq<(string, string)> {
    [("NameString", name), ("CopyrightString", copyright.GetOr(DEFAULT_COPYRIGHT))]
  }

  lemma AuthorKeys(name: string, contact: Option<string>, copyright: Option<string>)
    ensures var h := Header("[Author]", AuthorFixed(name, copyright), [("ContactInfoString", contact)]);
            && IsSection(h) && h[0] == "[Author]"
            && Keys(h[1..]) == ["NameString", "CopyrightString"] + OptionalKey("ContactInfoString", contact)
  {
    var fixed, optional := AuthorFixed(name, copyright), [("ContactInfoString", contact)];
    assert Firsts(fixed) == ["NameString", "CopyrightString"];
    HeaderKeys("[Author]", fixed, optional);
    assert PresentKeys(optional) == OptionalKey("ContactInfoString", contact) + PresentKeys(optional[1..]);
  }

  lemma AuthorHolds(name: string, contact: Option<string>, copyright: Option<string>)
    ensures var h := Header("[Author]", AuthorFixed(name, copyright), [("ContactInfoString", contact)]);
            && Field("NameString", name) in h
            && Field("CopyrightString", copyright.GetOr(DEFAULT_COPYRIGHT)) in h
            && (contact.Some? ==> Field("ContactInfoString", contact.value) in h)
  {
    var fixed, optional := AuthorFixed(name, copyright), [("ContactInfoString", contact)];
    assert fixed[0].0 == "NameString" && fixed[1].0 == "CopyrightString";
    assert optional[0].0 == "ContactInfoString";
    HeaderHolds("[Author]", fixed, optional);
  }

  /** The `[Author]` section with the name already chosen: the copyright
      defaults to Other/Proprietary and the contact appears only when given. */
  function AuthorLines(name: string, contact: Option<string>, copyright: Option<string>): (r: seq<string>)
    ensures IsSection(r) && r[0] == "[Author]"
    ensures Keys(r[1..]) == ["NameString", "CopyrightString"] + OptionalKey("ContactInfoString", contact)
    ensures Field("NameString", name) in r
    ensures Field("CopyrightString", copyright.GetOr(DEFAULT_COPYRIGHT)) in r
    ensures contact.Some? ==> Field("ContactInfoString", contact.value) in r
  {
    AuthorKeys(name, contact, copyright);
    AuthorHolds(name, contact, copyright);
    Header("[Author]", AuthorFixed(name, copyright), [("ContactInfoString", contact)])
  }

  /** `make_author_header`: a missing name is the login name `user`. */
  function AuthorHeader(author: AuthorInfo, user: string): (r: seq<string>)
    ensures IsSection(r) && r[0] == "[Author]"
    ensures author.name.None? ==> Field("NameString", user) in r
    ensures author.name.Some? ==> Field("NameString", author.name.value) in r
    ensures author.copyright.None? ==> Field("CopyrightString", DEFAULT_COPYRIGHT) in r
  {
    AuthorLines(author.name.GetOr(user), author.contact, author.copyright)
  }

  function CitationOptional(c: CitationInfo): seq<(string, Option<string>)> {
    [("PublishedDate", c.date),
     ("PublishedVersionString", c.version),
     ("DescriptionString", c.description),
     ("ReferenceURL", c.url)]
  }

  lemma CitationKeys(c: CitationInfo)
    ensures var h := Header("[Citation]", [("NameString", c.name)], CitationOptional(c));
            && IsSection(h) && h[0] == "[Citation]"
            && Keys(h[1..])
               == ["NameString"]
                  + OptionalKey("PublishedDate", c.date)
                  + OptionalKey("PublishedVersionString", c.version)
                  + OptionalKey("DescriptionString", c.description)
                  + OptionalKey("ReferenceURL", c.url)
  {
    var fixed, optional := [("NameString", c.name)], CitationOptional(c);
    assert Firsts(fixed) == ["NameString"];
    CitationKeysArePlain(c);
    HeaderKeys("[Citation]", fixed, optional);
    CitationPresentKeys(c);
  }

  lemma CitationKeysArePlain(c: CitationInfo)
    ensures PlainKeys(CitationOptional(c))
  {
  }

  lemma CitationPresentKeys(c: CitationInfo)
    ensures PresentKeys(CitationOptional(c))
            == OptionalKey("PublishedDate", c.date)
               + OptionalKey("PublishedVersionString", c.version)
               + OptionalKey("DescriptionString", c.description)
               + OptionalKey("ReferenceURL", c.url)
  {
    var optional := CitationOptional(c);
    var a, b, d, e :=
      OptionalKey("PublishedDate", c.date), OptionalKey("PublishedVersionString", c.version),
      OptionalKey("DescriptionString", c.description), OptionalKey("ReferenceURL", c.url);
    PresentKeysOfThree(optional[1..]);
    assert PresentKeys(optional) == a + (b + d + e);
  }

  lemma CitationHolds(c: CitationInfo)
    ensures var h := Header("[Citation]", [("NameString", c.name)], CitationOptional(c));
            && Field("NameString", c.name) in h
            && (c.date.Some? ==> Field("PublishedDate", c.date.value) in h)
            && (c.version.Some? ==> Field("PublishedVersionString", c.version.value) in h)
            && (c.description.Some? ==> Field("DescriptionString", c.description.value) in h)
            && (c.url.Some? ==> Field("ReferenceURL", c.url.value) in h)
  {
    var fixed, optional := [("NameString", c.name)], CitationOptional(c);
    assert fixed[0].0 == "NameString";
    assert optional[0].0 == "PublishedDate" && optional[1].0 == "PublishedVersionString";
    assert optional[2].0 == "DescriptionString" && optional[3].0 == "ReferenceURL";
    HeaderHolds("[Citation]", fixed, optional);
  }

  /** `make_citation_header`: the name, then the date, version, description
      and URL, each only when given. */
  function CitationHeader(c: CitationInfo): (r: seq<string>)
    ensures IsSection(r) && r[0] == "[Citation]"
    ensures Keys(r[1..])
            == ["NameString"]
               + OptionalKey("PublishedDate", c.date)
               + OptionalKey("PublishedVersionString", c.version)
               + OptionalKey("DescriptionString", c.description)
               + OptionalKey("ReferenceURL", c.url)
    ensures Field("NameString", c.name) in r
    ensures c.date.Some? ==> Field("PublishedDate", c.date.value) in r
    ensures c.version.Some? ==> Field("PublishedVersionString", c.version.value) in r
    ensures c.description.Some? ==> Field("DescriptionString", c.description.value) in r
    ensures c.url.Some? ==> Field("ReferenceURL", c.url.value) in r
  {
    CitationKeys(c);
    CitationHolds(c);
    Header("[Citation]", [("NameString", c.name)], CitationOptional(c))
  }

  function AnnotationFixed(a: AnnotationInfo, now: string): seq<(string, string)> {
    [("Keyword", a.keyword),
     ("TypeString", "list"),
     ("VersionString", OrDefault(a.version, DEFAULT_VERSION)),
     ("CreatedDateTime", OrDefault(a.created, now))]
  }

  function AnnotationOptional(a: AnnotationInfo): seq<(string, Option<string>)> {
    [("DescriptionString", a.description), ("UsageString", a.usage)]
  }

  lemma AnnotationKeys(a: AnnotationInfo, now: string)
    ensures var h := Header("[AnnotationDefinition]", AnnotationFixed(a, now), AnnotationOptional(a));
            && IsSection(h) && h[0] == "[AnnotationDefinition]"
            && Keys(h[1..])
               == ["Keyword", "TypeString", "VersionString", "CreatedDateTime"]
                  + OptionalKey("DescriptionString", a.description)
                  + OptionalKey("UsageString", a.usage)
  {
    var fixed, optional := AnnotationFixed(a, now), AnnotationOptional(a);
    assert Firsts(fixed) == ["Keyword", "TypeString", "VersionString", "CreatedDateTime"];
    HeaderKeys("[AnnotationDefinition]", fixed, optional);
    assert optional[1..] == [("UsageString", a.usage)];
    assert PresentKeys(optional[1..]) == OptionalKey("UsageString", a.usage) + PresentKeys(optional[2..]);
  }

  lemma AnnotationHolds(a: AnnotationInfo, now: string)
    ensures var h := Header("[AnnotationDefinition]", AnnotationFixed(a, now), AnnotationOptional(a));
            && Field("Keyword", a.keyword) in h
            && Field("TypeString", "list") in h
            && Field("VersionString", OrDefault(a.version, DEFAULT_VERSION)) in h
            && Field("CreatedDateTime", OrDefault(a.created, now)) in h
            && (a.description.Some? ==> Field("DescriptionString", a.description.value) in h)
            && (a.usage.Some? ==> Field("UsageString", a.usage.value) in h)
  {
    var fixed, optional := AnnotationFixed(a, now), AnnotationOptional(a);
    assert fixed[0].0 == "Keyword" && fixed[1] == ("TypeString", "list");
    assert fixed[2].0 == "VersionString" && fixed[3].0 == "CreatedDateTime";
    assert optional[0].0 == "DescriptionString" && optional[1].0 == "UsageString";
    HeaderHolds("[AnnotationDefinition]", fixed, optional);
  }

  /** `make_annotation_header`: the type is always `list` and the version
      defaults to 1.0.0. */
  function AnnotationHeader(a: AnnotationInfo, now: string): (r: seq<string>)
    ensures IsSection(r) && r[0] == "[AnnotationDefinition]"
    ensures Keys(r[1..])
            == ["Keyword", "TypeString", "VersionString", "CreatedDateTime"]
               + OptionalKey("DescriptionString", a.description)
               + OptionalKey("UsageString", a.usage)
    ensures Field("Keyword", a.keyword) in r
    ensures Field("TypeString", "list") in r
    ensures Field("VersionString", OrDefault(a.version, DEFAULT_VERSION)) in r
    ensures Field("CreatedDateTime", OrDefault(a.created, now)) in r
    ensures a.description.Some? ==> Field("DescriptionString", a.description.value) in r
    ensures a.usage.Some? ==> Field("UsageString", a.usage.value) in r
  {
    AnnotationKeys(a, now);
    AnnotationHolds(a, now);
    Header("[AnnotationDefinition]", AnnotationFixed(a, now), AnnotationOptional(a))
  }

  lemma PresentKeysOfThree(optional: seq<(string, Option<string>)>)
    requires |optional| == 3
    ensures PresentKeys(optional)
            == OptionalKey(optional[0].0, optional[0].1)
               + OptionalKey(optional[1].0, optional[1].1)
               + OptionalKey(optional[2].0, optional[2].1)
  {
    assert optional[1..][1..] == optional[2..];
    assert PresentKeys(optional[2..]) == OptionalKey(optional[2].0, optional[2].1) + PresentKeys(optional[3..]);
  }

  /** The constant `[Processing]` block is a section. */
  lemma PropertiesIsSection()
    ensures IsSection(PropertiesHeader()) && PropertiesHeader()[0] == "[Processing]"
  {
    var p := PropertiesHeader();
    assert p[1][17] == '=' && p[2][15] == '=' && p[3][13] == '=';
    assert '=' !in p[0];
  }

  // ---------------------------------------------------------------------
  // Files

  /** `''.join(sorted(functions if functions is not None else
      belns_encodings.keys()))`, PyBEL's encodings given as `encodings`: the
      encoding letters every value line ends with. An empty list of
      functions is kept as given. */
  function FunctionCodes(functions: Option<seq<string>>, encodings: seq<string>): (r: string)
    ensures functions.None? ==> r == Concat(Sort(encodings))
    ensures functions.Some? ==> r == Concat(Sort(functions.value))
  {
    Concat(Sort(functions.GetOr(encodings)))
  }

  /** Each character of `s` as a one-letter string. */
  function Letters(s: string): (r: seq<string>)
    ensures |r| == |s|
  {
    seq(|s|, i requires 0 <= i < |s| => [s[i]])
  }

  /** With one-letter function codes, as BEL's are, the suffix holds each
      chosen letter once per occurrence, in ascending order. */
  lemma FunctionCodesLetters(functions: Option<seq<string>>, encodings: seq<string>)
    requires forall f :: f in functions.GetOr(encodings) ==> |f| == 1
    ensures |FunctionCodes(functions, encodings)| == |functions.GetOr(encodings)|
    ensures multiset(Letters(FunctionCodes(functions, encodings))) == multiset(functions.GetOr(encodings))
    ensures var r := FunctionCodes(functions, encodings);
            forall i, j :: 0 <= i < j < |r| ==> r[i] <= r[j]
  {
    var chosen := functions.GetOr(encodings);
    var s := Sort(chosen);
    assert forall k :: 0 <= k < |s| ==> s[k] in multiset(chosen);
    LettersOfSingles(s);
    SortedSingles(s);
  }

  /** Joining one-letter strings and splitting the result gives them back. */
  lemma LettersOfSingles(s: seq<string>)
    requires forall k :: 0 <= k < |s| ==> |s[k]| == 1
    ensures |Concat(s)| == |s|
    ensures Letters(Concat(s)) == s
  {
    ConcatSingles(s);
    var r := Concat(s);
    forall k | 0 <= k < |s| ensures Letters(r)[k] == s[k] {
      assert s[k] == [s[k][0]];
    }
  }

  /** Sorted one-letter strings join to characters in ascending order. */
  lemma SortedSingles(s: seq<string>)
    requires forall k :: 0 <= k < |s| ==> |s[k]| == 1
    requires Sorted(s)
    ensures forall i, j :: 0 <= i < j < |Concat(s)| ==> Concat(s)[i] <= Concat(s)[j]
  {
    ConcatSingles(s);
    var r := Concat(s);
    forall i, j | 0 <= i < j < |r| ensures r[i] <= r[j] {
      assert StrLe(s[i], s[j]);
    }
  }

  lemma {:induction false} ConcatSingles(s: seq<string>)
    requires forall k :: 0 <= k < |s| ==> |s[k]| == 1
    ensures |Concat(s)| == |s|
    ensures forall k :: 0 <= k < |s| ==> Concat(s)[k] == s[k][0]
  {
    if |s| > 0 {
      ConcatSingles(s[1..]);
    }
  }

  /** `build_namespace` as the lines it prints: the four headers, each
      followed by a blank line, then the `[Values]` section with one line
      per non-blank value, in sorted order. */
  function BuildNamespace(
    ns: NamespaceInfo, domains: set<string>, now: string,
    author: AuthorInfo, user: string,
    citation: CitationInfo,
    values: seq<string>, functions: Option<seq<string>>, encodings: seq<string>,
    prefix: string): (r: Result<seq<string>, Error>)
    ensures r.Failure? <==> ns.domain !in domains
    ensures r.Failure? ==> r.error.ValueError?
    ensures r.Success? ==>
              && SectionOf(r.value, "[Namespace]") == Some(NamespaceHeader(ns, domains, now).value[1..])
              && SectionOf(r.value, "[Author]") == Some(AuthorHeader(author, user)[1..])
              && SectionOf(r.value, "[Citation]") == Some(CitationHeader(citation)[1..])
              && SectionOf(r.value, "[Processing]") == Some(PropertiesHeader()[1..])
    ensures r.Success? ==>
              SectionOf(r.value, "[Values]")
              == Some(NameLines(prefix, Sort(values), FunctionCodes(functions, encodings)))
  {
    var header :- NamespaceHeader(ns, domains, now);
    var body := NameLines(prefix, Sort(values), FunctionCodes(functions, encodings));
    NameLinesNotBlank(prefix, Sort(values), FunctionCodes(functions, encodings));
    ReadDefinitionFile(header, AuthorHeader(author, user), CitationHeader(citation), body);
    Success(DefinitionFile(header, AuthorHeader(author, user), CitationHeader(citation), body))
  }

  /** The layout both builders print: the first header, the author, the
      citation and the processing block, each followed by a blank line,
      then the values. */
  function DefinitionFile(first: seq<string>, author: seq<string>, citation: seq<string>, values: seq<string>): seq<string> {
    PrintSections([first, author, citation, PropertiesHeader()], ["[Values]"] + values)
  }

  lemma TitlesDistinct()
    ensures Distinct(["[Namespace]", "[Author]", "[Citation]", "[Processing]", "[Values]"])
    ensures Distinct(["[AnnotationDefinition]", "[Author]", "[Citation]", "[Processing]", "[Values]"])
    ensures '=' !in "[Values]" && '=' !in "[Citation]"
  {
    assert "[Author]"[1] != "[Values]"[1];
  }

  /** Each section of a definition file reads back under its title. */
  lemma ReadDefinitionFile(first: seq<string>, author: seq<string>, citation: seq<string>, values: seq<string>)
    requires IsSection(first) && (first[0] == "[Namespace]" || first[0] == "[AnnotationDefinition]")
    requires IsSection(author) && author[0] == "[Author]"
    requires |citation| > 0 && citation[0] == "[Citation]" && Fields(citation[1..])
    requires forall i :: 0 <= i < |values| ==> values[i] != ""
    ensures var file := DefinitionFile(first, author, citation, values);
            && SectionOf(file, first[0]) == Some(first[1..])
            && SectionOf(file, "[Author]") == Some(author[1..])
            && SectionOf(file, "[Citation]") == Some(citation[1..])
            && SectionOf(file, "[Processing]") == Some(PropertiesHeader()[1..])
            && SectionOf(file, "[Values]") == Some(values)
  {
    TitlesDistinct();
    PropertiesIsSection();
    ReadFourSections(first, author, citation, PropertiesHeader(), "[Values]", values);
  }

  /** A value line is never blank: it holds the '|'. */
  lemma NameLinesNotBlank(prefix: string, names: seq<string>, suffix: string)
    ensures forall i :: 0 <= i < |NameLines(prefix, names, suffix)| ==> NameLines(prefix, names, suffix)[i] != ""
  {
    var r := NameLines(prefix, names, suffix);
    forall i | 0 <= i < |r|
      ensures r[i] != ""
    {
      assert |r[i]| > 0;
    }
  }

  /** A file of four headers with distinct titles and a closing section
      reads back section by section. */
  lemma ReadFourSections(a: seq<string>, b: seq<string>, c: seq<string>, d: seq<string>, title: string, body: seq<string>)
    requires IsSection(a) && IsSection(b) && IsSection(c) && IsSection(d)
    requires Distinct([a[0], b[0], c[0], d[0], title])
    requires '=' !in title && title != ""
    requires forall i :: 0 <= i < |body| ==> body[i] != ""
    ensures var file := PrintSections([a, b, c, d], [title] + body);
            && SectionOf(file, a[0]) == Some(a[1..])
            && SectionOf(file, b[0]) == Some(b[1..])
            && SectionOf(file, c[0]) == Some(c[1..])
            && SectionOf(file, d[0]) == Some(d[1..])
            && SectionOf(file, title) == Some(body)
  {
    var headers := [a, b, c, d];
    var titles := [a[0], b[0], c[0], d[0], title];
    forall j | 0 <= j < 4
      ensures IsSection(headers[j]) && headers[j][0] == titles[j] && titles[j] != title
    {
      assert titles[j] != titles[4];
    }
    forall i | 0 <= i < 4
      ensures SectionOf(PrintSections(headers, [title] + body), headers[i][0]) == Some(headers[i][1..])
    {
      forall j | 0 <= j < i
        ensures |headers[j]| > 0 && headers[j][0] != headers[i][0]
      {
        assert titles[j] != titles[i];
      }
      SectionsReadBack(headers, [title] + body, i);
    }
    SectionsLast(headers, title, body);
  }

  /** The values section of a namespace lists, in order, the non-blank
      values sorted, each stripped, between the prefix and the codes. */
  lemma NamespaceValuesSorted(prefix: string, values: seq<string>, codes: string)
    ensures var names := Filter(Sort(values), NotBlank);
            && Sorted(names)
            && multiset(names) == multiset(Filter(values, NotBlank))
            && |NameLines(prefix, Sort(values), codes)| == |names|
            && forall i :: 0 <= i < |names| ==>
                 NameLines(prefix, Sort(values), codes)[i] == prefix + Strip(names[i]) + "|" + codes
  {
    var names := Filter(Sort(values), NotBlank);
    FilterKeepsSorted(Sort(values), NotBlank, Identity);
    forall x
      ensures multiset(names)[x] == multiset(Filter(values, NotBlank))[x]
    {
      FilterMultiset(Sort(values), NotBlank, x);
      FilterMultiset(values, NotBlank, x);
    }
  }

  // ---------------------------------------------------------------------
  // Annotations

  /** One `prefix + key.strip() + '|' + value.strip()` line per entry whose
      key is not blank, in the order given. */
  function EntryLines(prefix: string, entries: seq<(string, string)>): (r: seq<string>)
    ensures |r| == CountWhere(entries, NotBlankKey)
    ensures forall i :: 0 <= i < |r| ==>
              r[i] == prefix + Strip(Filter(entries, NotBlankKey)[i].0) + "|" + Strip(Filter(entries, NotBlankKey)[i].1)
  {
    var kept := Filter(entries, NotBlankKey);
    seq(|kept|, i requires 0 <= i < |kept| => prefix + Strip(kept[i].0) + "|" + Strip(kept[i].1))
  }

  predicate NotBlankKey(entry: (string, string)) {
    !IsBlank(entry.0)
  }

  function Key(entry: (string, string)): string {
    entry.0
  }

  /** `build_annotation` as the lines it prints: the annotation header, the
      author, a one-line citation and the processing block, each followed by
      a blank line, then one `[Values]` line per entry whose key is not
      blank, sorted by key. The entries are a dictionary's items, so their
      keys are distinct. */
  function BuildAnnotation(
    a: AnnotationInfo, now: string,
    author: AuthorInfo, user: string,
    citationName: string,
    values: seq<(string, string)>,
    prefix: string): (r: seq<string>)
    requires DistinctKeys(values)
    ensures SectionOf(r, "[AnnotationDefinition]") == Some(AnnotationHeader(a, now)[1..])
    ensures SectionOf(r, "[Author]") == Some(AuthorHeader(author, user)[1..])
    ensures SectionOf(r, "[Citation]") == Some([Field("NameString", citationName)])
    ensures SectionOf(r, "[Processing]") == Some(PropertiesHeader()[1..])
    ensures SectionOf(r, "[Values]") == Some(EntryLines(prefix, SortBy(values, Key)))
  {
    var citation := ["[Citation]", Field("NameString", citationName)];
    var body := EntryLines(prefix, SortBy(values, Key));
    FieldHasEquals("NameString", citationName);
    assert citation[1..] == [Field("NameString", citationName)];
    assert Fields(citation[1..]);
    EntryLinesNotBlank(prefix, SortBy(values, Key));
    ReadDefinitionFile(AnnotationHeader(a, now), AuthorHeader(author, user), citation, body);
    DefinitionFile(AnnotationHeader(a, now), AuthorHeader(author, user), citation, body)
  }

  lemma EntryLinesNotBlank(prefix: string, entries: seq<(string, string)>)
    ensures forall i :: 0 <= i < |EntryLines(prefix, entries)| ==> EntryLines(prefix, entries)[i] != ""
  {
    var r := EntryLines(prefix, entries);
    forall i | 0 <= i < |r|
      ensures r[i] != ""
    {
      assert |r[i]| > 0;
    }
  }

  /** The annotation values come out sorted by key, every entry with a
      non-blank key exactly once. */
  lemma AnnotationValuesSorted(values: seq<(string, string)>)
    ensures var kept := Filter(SortBy(values, Key), NotBlankKey);
            && SortedBy(kept, Key)
            && multiset(kept) == multiset(Filter(values, NotBlankKey))
  {
    var kept := Filter(SortBy(values, Key), NotBlankKey);
    FilterKeepsSorted(SortBy(values, Key), NotBlankKey, Key);
    forall x
      ensures multiset(kept)[x] == multiset(Filter(values, NotBlankKey))[x]
    {
      FilterMultiset(SortBy(values, Key), NotBlankKey, x);
      FilterMultiset(values, NotBlankKey, x);
    }
  }
}
