/** The older BELNS builder. Its headers print the same lines as the newer
    builder's except that a missing version becomes 1.0 and the author name
    has no default; its values keep the order they are given in. */
module NamespaceUtils {
  import opened Wrappers
  import opened Text
  import opened Sorting
  import opened Belns
  import DefinitionUtils

  /** The version written when none (or an empty one) is given. */
  const DEFAULT_VERSION := "1.0"

  /** `make_namespace_header` of the older builder. */
  function NamespaceHeader(ns: DefinitionUtils.NamespaceInfo, domains: set<string>, now: string)
    : (r: Result<seq<string>, Error>)
    ensures r.Failure? <==> ns.domain !in domains
    ensures r.Failure? ==> r.error.ValueError?
    ensures r.Success? && (ns.version.None? || ns.version == Some("")) ==>
              Field("VersionString", DEFAULT_VERSION) in r.value
    ensures r.Success? && ns.version.Some? && ns.version.value != "" ==>
              Field("VersionString", ns.version.value) in r.value
  {
    DefinitionUtils.NamespaceHeaderWith(DEFAULT_VERSION, ns, domains, now)
  }

  /** `make_author_header` of the older builder: the name is written as
      given. */
  function AuthorHeader(name: string, contact: Option<string>, copyright: Option<string>): (r: seq<string>)
    ensures IsSection(r) && r[0] == "[Author]"
    ensures Field("NameString", name) in r
    ensures copyright.None? ==> Field("CopyrightString", DefinitionUtils.DEFAULT_COPYRIGHT) in r
    ensures contact.Some? ==> Field("ContactInfoString", contact.value) in r
  {
    DefinitionUtils.AuthorLines(name, contact, copyright)
  }

  /** `build_namespace` of the older builder: the same four headers, then one
      value line per non-blank value in the order given. */
  function BuildNamespace(
    ns: DefinitionUtils.NamespaceInfo, domains: set<string>, now: string,
    authorName: string, authorContact: Option<string>, authorCopyright: Option<string>,
    citation: DefinitionUtils.CitationInfo,
    values: seq<string>, functions: Option<seq<string>>, encodings: seq<string>,
    prefix: string): (r: Result<seq<string>, Error>)
    ensures r.Failure? <==> ns.domain !in domains
    ensures r.Failure? ==> r.error.ValueError?
    ensures r.Success? ==>
              && SectionOf(r.value, "[Namespace]") == Some(NamespaceHeader(ns, domains, now).value[1..])
              && SectionOf(r.value, "[Author]") == Some(AuthorHeader(authorName, authorContact, authorCopyright)[1..])
              && SectionOf(r.value, "[Citation]") == Some(DefinitionUtils.CitationHeader(citation)[1..])
              && SectionOf(r.value, "[Processing]") == Some(PropertiesHeader()[1..])
    ensures r.Success? ==>
              SectionOf(r.value, "[Values]")
              == Some(NameLines(prefix, values, DefinitionUtils.FunctionCodes(functions, encodings)))
  {
    var header :- NamespaceHeader(ns, domains, now);
    var author := AuthorHeader(authorName, authorContact, authorCopyright);
    var citationLines := DefinitionUtils.CitationHeader(citation);
    var body := NameLines(prefix, values, DefinitionUtils.FunctionCodes(functions, encodings));
    DefinitionUtils.NameLinesNotBlank(prefix, values, DefinitionUtils.FunctionCodes(functions, encodings));
    DefinitionUtils.ReadDefinitionFile(header, author, citationLines, body);
    Success(DefinitionUtils.DefinitionFile(header, author, citationLines, body))
  }

  /** The two builders print the same file when the version and author name
      are given and the values already come in sorted order; otherwise they
      differ only in the defaults and the value order. */
  lemma BuildersAgree(
    ns: DefinitionUtils.NamespaceInfo, domains: set<string>, now: string,
    authorName: string, authorContact: Option<string>, authorCopyright: Option<string>, user: string,
    citation: DefinitionUtils.CitationInfo,
    values: seq<string>, functions: Option<seq<string>>, encodings: seq<string>,
    prefix: string)
    requires ns.version.Some? && ns.version.value != ""
    requires Sorted(values)
    ensures BuildNamespace(ns, domains, now, authorName, authorContact, authorCopyright, citation,
                           values, functions, encodings, prefix)
            == DefinitionUtils.BuildNamespace(ns, domains, now,
                 DefinitionUtils.AuthorInfo(Some(authorName), authorContact, authorCopyright), user,
                 citation, values, functions, encodings, prefix)
  {
    SortSortedIsIdentity(values, Identity);
  }

  /** With no version given, the two builders' namespace headers disagree:
      1.0 here, 1.0.0 in the newer builder. */
  lemma DefaultVersionsDiffer(ns: DefinitionUtils.NamespaceInfo, domains: set<string>, now: string)
    requires ns.version.None? && ns.domain in domains
    ensures NamespaceHeader(ns, domains, now) != DefinitionUtils.NamespaceHeader(ns, domains, now)
  {
    var legacy := NamespaceHeader(ns, domains, now).value;
    var current := DefinitionUtils.NamespaceHeader(ns, domains, now).value;
    assert legacy[4] == Field("VersionString", "1.0");
    assert current[4] == Field("VersionString", "1.0.0");
    assert |legacy[4]| != |current[4]|;
  }
}
