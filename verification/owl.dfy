/** The OWL-to-BELNS converter: its own header builders, the label
    substitution applied to the ontology's subclass edges, and the
    `[Values]` section of the file it writes. The XML parsing is not
    modelled: the subclass edges (IRIs already stripped) and the
    `rdfs:label` table are inputs. The clock (`time.asctime`) is the
    parameter `now`. */
module Owl {
  import opened Wrappers
  import opened Seqs
  import opened Text
  import opened Sorting
  import opened Belns
  import DefinitionUtils

  /** The version written when none (or an empty one) is given, in the
      namespace and the citation header alike. */
  const DEFAULT_VERSION := "1.0"

  /** The arguments of the converter's `make_namespace_header`. */
  datatype NamespaceInfo = NamespaceInfo(
    name: string,
    keyword: string,
    description: string,
    domain: Option<string>,
    species: Option<string>,
    version: Option<string>,
    created: Option<string>)

  // ---------------------------------------------------------------------
  // Headers

  function NamespaceFixed(ns: NamespaceInfo, now: string): seq<(string, string)> {
    [("NameString", ns.name),
     ("Keyword", ns.keyword),
     ("DescriptionString", ns.description),
     ("VersionString", OrDefault(ns.version, DEFAULT_VERSION)),
     ("CreatedDateTime", OrDefault(ns.created, now))]
  }

  function NamespaceOptional(ns: NamespaceInfo): seq<(string, Option<string>)> {
    [("DomainString", ns.domain), ("SpeciesString", ns.species)]
  }

  lemma NamespaceKeys(ns: NamespaceInfo, now: string)
    ensures var h := Header("[Namespace]", NamespaceFixed(ns, now), NamespaceOptional(ns));
            && IsSection(h) && h[0] == "[Namespace]"
            && Keys(h[1..])
               == ["NameString", "Keyword", "DescriptionString", "VersionString", "CreatedDateTime"]
                  + OptionalKey("DomainString", ns.domain) + OptionalKey("SpeciesString", ns.species)
  {
    var fixed, optional := NamespaceFixed(ns, now), NamespaceOptional(ns);
    assert Firsts(fixed) == ["NameString", "Keyword", "DescriptionString", "VersionString", "CreatedDateTime"];
    HeaderKeys("[Namespace]", fixed, optional);
    assert optional[1..] == [("SpeciesString", ns.species)];
    assert PresentKeys(optional[1..]) == OptionalKey("SpeciesString", ns.species) + PresentKeys(optional[2..]);
  }

  lemma NamespaceHolds(ns: NamespaceInfo, now: string)
    ensures var h := Header("[Namespace]", NamespaceFixed(ns, now), NamespaceOptional(ns));
            && Field("NameString", ns.name) in h
            && Field("Keyword", ns.keyword) in h
            && Field("DescriptionString", ns.description) in h
            && Field("VersionString", OrDefault(ns.version, DEFAULT_VERSION)) in h
            && Field("CreatedDateTime", OrDefault(ns.created, now)) in h
            && (ns.domain.Some? ==> Field("DomainString", ns.domain.value) in h)
            && (ns.species.Some? ==> Field("SpeciesString", ns.species.value) in h)
  {
    var fixed, optional := NamespaceFixed(ns, now), NamespaceOptional(ns);
    assert fixed[0].0 == "NameString" && fixed[1].0 == "Keyword" && fixed[2].0 == "DescriptionString";
    assert fixed[3].0 == "VersionString" && fixed[4].0 == "CreatedDateTime";
    assert optional[0].0 == "DomainString" && optional[1].0 == "SpeciesString";
    HeaderHolds("[Namespace]", fixed, optional);
  }

  /** `make_namespace_header` of the converter: name, keyword, description,
      version and creation time always, in that order; the domain and the
      species only when given. There is no domain check here. */
  function NamespaceHeader(ns: NamespaceInfo, now: string): (r: seq<string>)
    ensures IsSection(r) && r[0] == "[Namespace]"
    ensures Keys(r[1..])
            == ["NameString", "Keyword", "DescriptionString", "VersionString", "CreatedDateTime"]
               + OptionalKey("DomainString", ns.domain) + OptionalKey("SpeciesString", ns.species)
    ensures Field("NameString", ns.name) in r && Field("Keyword", ns.keyword) in r
    ensures Field("DescriptionString", ns.description) in r
    ensures Field("VersionString", OrDefault(ns.version, DEFAULT_VERSION)) in r
    ensures Field("CreatedDateTime", OrDefault(ns.created, now)) in r
    ensures ns.domain.Some? ==> Field("DomainString", ns.domain.value) in r
    ensures ns.species.Some? ==> Field("SpeciesString", ns.species.value) in r
  {
    NamespaceKeys(ns, now);
    NamespaceHolds(ns, now);
    Header("[Namespace]", NamespaceFixed(ns, now), NamespaceOptional(ns))
  }

  lemma AuthorKeys(author: string, contact: string, copyright: Option<string>)
    ensures var h := Header("[Author]", [("NameString", author), ("ContactInfoString", contact)],
                            [("CopyrightString", copyright)]);
            && IsSection(h) && h[0] == "[Author]"
            && Keys(h[1..]) == ["NameString", "ContactInfoString"] + OptionalKey("CopyrightString", copyright)
  {
    var fixed, optional := [("NameString", author), ("ContactInfoString", contact)], [("CopyrightString", copyright)];
    assert Firsts(fixed) == ["NameString", "ContactInfoString"];
    HeaderKeys("[Author]", fixed, optional);
    assert PresentKeys(optional) == OptionalKey("CopyrightString", copyright) + PresentKeys(optional[1..]);
  }

  lemma AuthorHolds(author: string, contact: string, copyright: Option<string>)
    ensures var h := Header("[Author]", [("NameString", author), ("ContactInfoString", contact)],
                            [("CopyrightString", copyright)]);
            && Field("NameString", author) in h
            && Field("ContactInfoString", contact) in h
            && (copyright.Some? ==> Field("CopyrightString", copyright.value) in h)
  {
    var fixed, optional := [("NameString", author), ("ContactInfoString", contact)], [("CopyrightString", copyright)];
    assert fixed[0].0 == "NameString" && fixed[1].0 == "ContactInfoString";
    assert optional[0].0 == "CopyrightString";
    HeaderHolds("[Author]", fixed, optional);
  }

  /** `make_author_header` of the converter: the contact is always written,
      the copyright only when given (and it has no default). */
  function AuthorHeader(author: string, contact: string, copyright: Option<string>): (r: seq<string>)
    ensures IsSection(r) && r[0] == "[Author]"
    ensures Keys(r[1..]) == ["NameString", "ContactInfoString"] + OptionalKey("CopyrightString", copyright)
    ensures Field("NameString", author) in r && Field("ContactInfoString", contact) in r
    ensures copyright.Some? ==> Field("CopyrightString", copyright.value) in r
  {
    AuthorKeys(author, contact, copyright);
    AuthorHolds(author, contact, copyright);
    Header("[Author]", [("NameString", author), ("ContactInfoString", contact)], [("CopyrightString", copyright)])
  }

  function CitationFixed(name: string, description: string, url: string, version: Option<string>,
                         date: Option<string>, now: string): seq<(string, string)>
  {
    [("NameString", name),
     ("DescriptionString", description),
     ("ReferenceURL", url),
     ("PublishedVersionString", OrDefault(version, DEFAULT_VERSION)),
     ("PublishedDate", OrDefault(date, now))]
  }

  lemma CitationKeys(name: string, description: string, url: string, version: Option<string>,
                     date: Option<string>, now: string)
    ensures var h := Header("[Citation]", CitationFixed(name, description, url, version, date, now), []);
            && IsSection(h) && h[0] == "[Citation]"
            && Keys(h[1..]) == ["NameString", "DescriptionString", "ReferenceURL", "PublishedVersionString", "PublishedDate"]
  {
    var fixed := CitationFixed(name, description, url, version, date, now);
    assert Firsts(fixed) == ["NameString", "DescriptionString", "ReferenceURL", "PublishedVersionString", "PublishedDate"];
    HeaderKeys("[Citation]", fixed, []);
  }

  lemma CitationHolds(name: string, description: string, url: string, version: Option<string>,
                      date: Option<string>, now: string)
    ensures var h := Header("[Citation]", CitationFixed(name, description, url, version, date, now), []);
            && Field("NameString", name) in h
            && Field("DescriptionString", description) in h
            && Field("ReferenceURL", url) in h
            && Field("PublishedVersionString", OrDefault(version, DEFAULT_VERSION)) in h
            && Field("PublishedDate", OrDefault(date, now)) in h
  {
    var fixed := CitationFixed(name, description, url, version, date, now);
    assert fixed[0].0 == "NameString" && fixed[1].0 == "DescriptionString" && fixed[2].0 == "ReferenceURL";
    assert fixed[3].0 == "PublishedVersionString" && fixed[4].0 == "PublishedDate";
    HeaderHolds("[Citation]", fixed, []);
  }

  /** `make_citation_header` of the converter: always five fields, the
      version defaulting to 1.0 and the date to the current time. */
  function CitationHeader(name: string, description: string, url: string, version: Option<string>,
                          date: Option<string>, now: string): (r: seq<string>)
    ensures IsSection(r) && r[0] == "[Citation]" && |r| == 6
    ensures Keys(r[1..]) == ["NameString", "DescriptionString", "ReferenceURL", "PublishedVersionString", "PublishedDate"]
    ensures Field("NameString", name) in r && Field("DescriptionString", description) in r
    ensures Field("ReferenceURL", url) in r
    ensures Field("PublishedVersionString", OrDefault(version, DEFAULT_VERSION)) in r
    ensures Field("PublishedDate", OrDefault(date, now)) in r
  {
    CitationKeys(name, description, url, version, date, now);
    CitationHolds(name, description, url, version, date, now);
    Header("[Citation]", CitationFixed(name, description, url, version, date, now), [])
  }

  // ---------------------------------------------------------------------
  // make_values

  function Key(entry: (string, string)): string {
    entry.0
  }

  /** `make_values` as written: it builds the `[Values]` lines but has no
      return statement, so its result is always None. */
  function MakeValuesAsWritten(values: seq<(string, string)>): Option<seq<string>> {
    None
  }

  /** `make_values` as evidently intended: the `[Values]` title, then one
      `key|value` line per entry, sorted by key. The entries are a
      dictionary's items, so their keys are distinct. */
  function MakeValues(values: seq<(string, string)>): (r: seq<string>)
    requires DistinctKeys(values)
    ensures |r| == |values| + 1 && r[0] == "[Values]"
    ensures forall i :: 1 <= i < |r| ==>
              r[i] == SortBy(values, Key)[i - 1].0 + "|" + SortBy(values, Key)[i - 1].1
  {
    var lines := ValueLines(SortBy(values, Key));
    var r := ["[Values]"] + lines;
    assert forall i :: 1 <= i < |r| ==> r[i] == lines[i - 1];
    r
  }

  /** One `key|value` line per entry, in order. */
  function ValueLines(entries: seq<(string, string)>): (r: seq<string>)
    ensures |r| == |entries|
    ensures forall i :: 0 <= i < |r| ==> r[i] == entries[i].0 + "|" + entries[i].1
  {
    seq(|entries|, i requires 0 <= i < |entries| => entries[i].0 + "|" + entries[i].1)
  }

  /** The lines `make_values` was meant to return read back, split at their
      first '|', as the dictionary's entries sorted by key, as long as no
      key holds a '|'. */
  lemma MakeValuesReadsBack(values: seq<(string, string)>)
    requires DistinctKeys(values)
    requires forall i :: 0 <= i < |values| ==> '|' !in values[i].0
    ensures var r := MakeValues(values);
            forall i :: 1 <= i < |r| ==>
              (Before(r[i], '|'), After(r[i], '|')) == (SortBy(values, Key)[i - 1].0, Some(SortBy(values, Key)[i - 1].1))
    ensures SortedBy(SortBy(values, Key), Key) && multiset(SortBy(values, Key)) == multiset(values)
  {
    var r := MakeValues(values);
    var sorted := SortBy(values, Key);
    forall i | 1 <= i < |r|
      ensures (Before(r[i], '|'), After(r[i], '|')) == (sorted[i - 1].0, Some(sorted[i - 1].1))
    {
      var e := sorted[i - 1];
      assert e in multiset(values);
      assert '|' !in e.0;
      SeparatorRoundTrip(e.0, '|', e.1);
    }
  }

  /** The finding: whatever the dictionary, the written function loses the
      lines the intended one returns. */
  lemma MakeValuesReturnsNothing(values: seq<(string, string)>)
    requires DistinctKeys(values)
    ensures MakeValuesAsWritten(values) != Some(MakeValues(values))
    ensures MakeValuesAsWritten(values).None?
  {
  }

  // ---------------------------------------------------------------------
  // Label substitution and the [Values] section of `build`

  /** `r` is `s[i..j]`, and everything cut from either end is in `cs`. */
  predicate CutBy(s: string, r: string, cs: set<char>, i: int, j: int) {
    && 0 <= i <= j <= |s| && r == s[i..j]
    && (forall k :: 0 <= k < i ==> s[k] in cs)
    && (forall k :: j <= k < |s| ==> s[k] in cs)
  }

  /** `r` is what Python's `s.strip(cs)` gives: a slice of `s` whose cut
      ends are all in `cs` and which neither starts nor ends with one. */
  ghost predicate StrippedBy(s: string, r: string, cs: set<char>) {
    && (exists i, j :: CutBy(s, r, cs, i, j))
    && (|r| > 0 ==> r[0] !in cs && r[|r| - 1] !in cs)
  }

  /** The node name an IRI becomes: its `rdfs:label` when it has one,
      otherwise the IRI with '#' stripped from both ends and then
      whitespace, which leaves a piece of the IRI that neither starts nor
      ends with whitespace. */
  function Label(iri: string, labels: map<string, string>): (r: string)
    ensures iri in labels ==> r == labels[iri]
    ensures iri !in labels ==> exists t :: StrippedBy(iri, t, {'#'}) && StrippedBy(t, r, Whitespace)
    ensures iri !in labels ==> exists i, j :: CutBy(iri, r, {'#'} + Whitespace, i, j)
    ensures iri !in labels && |r| > 0 ==> r[0] !in Whitespace && r[|r| - 1] !in Whitespace
  {
    if iri in labels then labels[iri]
    else
      StripTwice(iri, {'#'}, Whitespace);
      StripsTwice(iri, {'#'}, Whitespace);
      Strip(StripChars(iri, {'#'}))
  }

  /** Stripping `a` and then `b` strips in both steps. */
  lemma StripsTwice(s: string, a: set<char>, b: set<char>)
    ensures exists t :: StrippedBy(s, t, a) && StrippedBy(t, StripChars(StripChars(s, a), b), b)
  {
    var t := StripChars(s, a);
    var i1, j1 := StripCut(s, a);
    var i2, j2 := StripCut(t, b);
    assert StrippedBy(s, t, a);
    assert StrippedBy(t, StripChars(t, b), b);
  }

  /** `strip` has one answer: two strips of the same string by the same
      characters are equal. */
  lemma StrippedUnique(s: string, r1: string, r2: string, cs: set<char>)
    requires StrippedBy(s, r1, cs) && StrippedBy(s, r2, cs)
    ensures r1 == r2
  {
    var i1, j1 :| CutBy(s, r1, cs, i1, j1);
    var i2, j2 :| CutBy(s, r2, cs, i2, j2);
    if |r1| > 0 && |r2| > 0 {
      assert s[i1] == r1[0] && s[i2] == r2[0];
      assert s[j1 - 1] == r1[|r1| - 1] && s[j2 - 1] == r2[|r2| - 1];
      assert i1 == i2 && j1 == j2;
    } else if |r1| > 0 {
      assert false;
    } else if |r2| > 0 {
      assert false;
    }
  }

  /** For an unlabelled IRI, the '#' strip followed by the whitespace
      strip pins the label down: whatever meets both is `Label`'s answer. */
  lemma LabelDetermined(iri: string, labels: map<string, string>, t: string, r: string)
    requires iri !in labels && StrippedBy(iri, t, {'#'}) && StrippedBy(t, r, Whitespace)
    ensures Label(iri, labels) == r
  {
    var l := Label(iri, labels);
    var t' :| StrippedBy(iri, t', {'#'}) && StrippedBy(t', l, Whitespace);
    StrippedUnique(iri, t, t', {'#'});
    StrippedUnique(t, r, l, Whitespace);
  }

  /** An unlabelled IRI "##a##" becomes the node "a". */
  lemma LabelOfHashes()
    ensures Label("##a##", map[]) == "a"
  {
    assert CutBy("##a##", "a", {'#'}, 2, 3);
    assert CutBy("a", "a", Whitespace, 0, 1);
    LabelDetermined("##a##", map[], "a", "a");
  }

  /** Stripping `a` and then `b` cuts a slice whose cut ends are in `a + b`. */
  lemma StripTwice(s: string, a: set<char>, b: set<char>)
    ensures exists i, j :: CutBy(s, StripChars(StripChars(s, a), b), a + b, i, j)
  {
    var t := StripChars(s, a);
    var i1, j1 := StripCut(s, a);
    var i2, j2 := StripCut(t, b);
    CutCompose(s, t, StripChars(t, b), a, b, i1, j1, i2, j2);
  }

  lemma StripCut(s: string, cs: set<char>) returns (i: int, j: int)
    ensures CutBy(s, StripChars(s, cs), cs, i, j)
  {
    var r := StripChars(s, cs);
    i, j :| && 0 <= i <= j <= |s| && r == s[i..j]
            && (forall k :: 0 <= k < i ==> s[k] in cs)
            && (forall k :: j <= k < |s| ==> s[k] in cs);
  }

  lemma CutCompose(s: string, t: string, r: string, a: set<char>, b: set<char>,
                   i1: int, j1: int, i2: int, j2: int)
    requires CutBy(s, t, a, i1, j1) && CutBy(t, r, b, i2, j2)
    ensures CutBy(s, r, a + b, i1 + i2, i1 + j2)
  {
    assert forall k :: i1 <= k < j1 ==> s[k] == t[k - i1];
    assert forall k :: 0 <= k < j2 - i2 ==> r[k] == s[i1 + i2 + k];
    assert r == s[i1 + i2..i1 + j2];
    forall k | 0 <= k < i1 + i2
      ensures s[k] in a + b
    {
      if k >= i1 { assert s[k] == t[k - i1]; }
    }
    forall k | i1 + j2 <= k < |s|
      ensures s[k] in a + b
    {
      if k < j1 { assert s[k] == t[k - i1]; }
    }
  }

  /** The subclass edges after label substitution, in order. */
  function Relabel(edges: seq<(string, string)>, labels: map<string, string>): (r: seq<(string, string)>)
    ensures |r| == |edges|
    ensures forall i :: 0 <= i < |r| ==> r[i] == (Label(edges[i].0, labels), Label(edges[i].1, labels))
  {
    seq(|edges|, i requires 0 <= i < |edges| => (Label(edges[i].0, labels), Label(edges[i].1, labels)))
  }

  /** Both endpoints of every edge, in order: the nodes the `DiGraph` gets
      from `add_edge`. */
  function Endpoints(edges: seq<(string, string)>): (r: seq<string>)
    ensures |r| == 2 * |edges|
    ensures forall x :: x in r <==> exists i :: 0 <= i < |edges| && (edges[i].0 == x || edges[i].1 == x)
  {
    if |edges| == 0 then []
    else
      var front := Endpoints(edges[..|edges| - 1]);
      var last := edges[|edges| - 1];
      assert forall i :: 0 <= i < |edges| - 1 ==> edges[..|edges| - 1][i] == edges[i];
      front + [last.0, last.1]
  }

  /** The nodes of the relabelled graph, as `sorted(G.nodes())` lists them:
      in order, each once, and exactly the labels of the edges' endpoints. */
  function Nodes(edges: seq<(string, string)>, labels: map<string, string>): (r: seq<string>)
    ensures Sorted(r) && Distinct(r)
    ensures forall x :: x in r <==>
              exists i :: 0 <= i < |edges| && (Label(edges[i].0, labels) == x || Label(edges[i].1, labels) == x)
  {
    var rel := Relabel(edges, labels);
    LabelledEnds(edges, labels, rel);
    SortDistinct(Endpoints(rel))
  }

  /** `x` is an endpoint of one of the edges. */
  predicate EndOf(es: seq<(string, string)>, x: string) {
    exists i :: 0 <= i < |es| && (es[i].0 == x || es[i].1 == x)
  }

  /** `x` is the label of an endpoint of one of the edges. */
  predicate LabelledEndOf(es: seq<(string, string)>, labels: map<string, string>, x: string) {
    exists i :: 0 <= i < |es| && (Label(es[i].0, labels) == x || Label(es[i].1, labels) == x)
  }

  /** An endpoint of the relabelled edges is the label of an endpoint of
      the original ones, and conversely. */
  lemma LabelledEnds(edges: seq<(string, string)>, labels: map<string, string>, rel: seq<(string, string)>)
    requires |rel| == |edges|
    requires forall i :: 0 <= i < |rel| ==> rel[i] == (Label(edges[i].0, labels), Label(edges[i].1, labels))
    ensures forall x :: EndOf(rel, x) <==> LabelledEndOf(edges, labels, x)
  {
    forall x
      ensures EndOf(rel, x) <==> LabelledEndOf(edges, labels, x)
    {
      if EndOf(rel, x) {
        var i :| 0 <= i < |rel| && (rel[i].0 == x || rel[i].1 == x);
        assert Label(edges[i].0, labels) == x || Label(edges[i].1, labels) == x;
      }
      if LabelledEndOf(edges, labels, x) {
        var i :| 0 <= i < |edges| && (Label(edges[i].0, labels) == x || Label(edges[i].1, labels) == x);
        assert rel[i].0 == x || rel[i].1 == x;
      }
    }
  }

  /** The `[Values]` section `build` writes: one `node|` line per node, in
      order. */
  function NodeLines(edges: seq<(string, string)>, labels: map<string, string>): (r: seq<string>)
    ensures |r| == |Nodes(edges, labels)|
    ensures forall i :: 0 <= i < |r| ==> r[i] == Nodes(edges, labels)[i] + "|"
  {
    var nodes := Nodes(edges, labels);
    seq(|nodes|, i requires 0 <= i < |nodes| => nodes[i] + "|")
  }

  /** A name has a line in the `[Values]` section exactly when it is a node,
      and then only one. */
  lemma NodeLinesListNodes(edges: seq<(string, string)>, labels: map<string, string>, x: string)
    ensures x + "|" in NodeLines(edges, labels) <==> x in Nodes(edges, labels)
    ensures forall i, j :: 0 <= i < j < |NodeLines(edges, labels)| ==> NodeLines(edges, labels)[i] != NodeLines(edges, labels)[j]
  {
    var nodes := Nodes(edges, labels);
    var r := NodeLines(edges, labels);
    if x in nodes {
      var k :| 0 <= k < |nodes| && nodes[k] == x;
      assert r[k] == x + "|";
    }
    if x + "|" in r {
      var k :| 0 <= k < |r| && r[k] == x + "|";
      PipeInjective(nodes[k], x);
    }
    forall i, j | 0 <= i < j < |r|
      ensures r[i] != r[j]
    {
      if r[i] == r[j] {
        PipeInjective(nodes[i], nodes[j]);
      }
    }
  }

  lemma PipeInjective(a: string, b: string)
    requires a + "|" == b + "|"
    ensures a == b
  {
    assert a == (a + "|")[..|a|];
    assert b == (b + "|")[..|b|];
  }

  /** `build` as the lines it writes: the converter's namespace header
      (without domain or species, with the default version and the current
      time), the author header with the contact, a citation named after the
      author that points at the ontology IRI, the processing block, then the
      nodes. */
  function Build(nsName: string, nsKeyword: string, nsDescription: string, author: string, contact: string,
                 ontologyIri: string, edges: seq<(string, string)>, labels: map<string, string>, now: string)
    : (r: seq<string>)
    ensures SectionOf(r, "[Namespace]")
            == Some(NamespaceHeader(NamespaceInfo(nsName, nsKeyword, nsDescription, None, None, None, None), now)[1..])
    ensures SectionOf(r, "[Author]") == Some(AuthorHeader(author, contact, None)[1..])
    ensures SectionOf(r, "[Citation]")
            == Some(CitationHeader(author, nsDescription, ontologyIri, None, None, now)[1..])
    ensures SectionOf(r, "[Processing]") == Some(PropertiesHeader()[1..])
    ensures SectionOf(r, "[Values]") == Some(NodeLines(edges, labels))
  {
    var header := NamespaceHeader(NamespaceInfo(nsName, nsKeyword, nsDescription, None, None, None, None), now);
    var authorLines := AuthorHeader(author, contact, None);
    var citation := CitationHeader(author, nsDescription, ontologyIri, None, None, now);
    var body := NodeLines(edges, labels);
    forall i | 0 <= i < |body|
      ensures body[i] != ""
    {
      assert |body[i]| > 0;
    }
    DefinitionUtils.ReadDefinitionFile(header, authorLines, citation, body);
    DefinitionUtils.DefinitionFile(header, authorLines, citation, body)
  }
}
