/** The line format shared by BEL namespace (BELNS) and annotation (BELANNO)
    definition files: `[Section]` titles followed by `Key=value` lines, a
    blank line after each section, and a closing `[Values]` section of
    `name|encoding` lines. */
module Belns {
  import opened Wrappers
  import opened Seqs
  import opened Text

  /** `'Key={}'.format(value)` */
  function Field(key: string, value: string): string {
    key + "=" + value
  }

  /** The text before the first '=' (the whole line when there is none). */
  function KeyOf(line: string): string {
    Before(line, '=')
  }

  /** The text after the first '=', if there is one. */
  function ValueOf(line: string): Option<string> {
    After(line, '=')
  }

  /** A field line reads back as its key and value as long as the key has
      no '=' of its own; the value may contain any character. */
  lemma FieldRoundTrip(key: string, value: string)
    requires '=' !in key
    ensures KeyOf(Field(key, value)) == key
    ensures ValueOf(Field(key, value)) == Some(value)
  {
    SeparatorRoundTrip(key, '=', value);
  }

  /** The key of every line. */
  function Keys(lines: seq<string>): seq<string> {
    seq(|lines|, i requires 0 <= i < |lines| => KeyOf(lines[i]))
  }

  /** A key written only when its value was given. */
  function OptionalKey(key: string, value: Option<string>): seq<string> {
    if value.Some? then [key] else []
  }

  /** A field written only when its value was given (`if x is not None`). */
  function OptionalField(key: string, value: Option<string>): seq<string> {
    if value.Some? then [Field(key, value.value)] else []
  }

  /** `value if value else default`: None and the empty string are falsy. */
  function OrDefault(value: Option<string>, default: string): (r: string)
    ensures value.None? || value == Some("") ==> r == default
    ensures value.Some? && value.value != "" ==> r == value.value
  {
    if value.Some? && value.value != "" then value.value else default
  }

  /** `make_properties_header`, the same constant block in every builder. */
  function PropertiesHeader(): seq<string> {
    ["[Processing]", "CaseSensitiveFlag=yes", "DelimiterString=|", "CacheableFlag=yes"]
  }

  /** A section as printed: its lines, then the blank line of a bare
      `print`. */
  function Block(lines: seq<string>): seq<string> {
    lines + [""]
  }

  lemma KeyOfPlain(line: string)
    requires '=' !in line
    ensures KeyOf(line) == line
  {
    BeforeAbsent(line, '=');
  }

  lemma KeysAppend(a: seq<string>, b: seq<string>)
    ensures Keys(a + b) == Keys(a) + Keys(b)
  {
  }

  lemma KeysOfField(key: string, value: string)
    requires '=' !in key
    ensures Keys([Field(key, value)]) == [key]
  {
    FieldRoundTrip(key, value);
  }

  lemma KeysOfOptional(key: string, value: Option<string>)
    requires '=' !in key
    ensures Keys(OptionalField(key, value)) == OptionalKey(key, value)
  {
    if value.Some? {
      KeysOfField(key, value.value);
    }
  }

  lemma FieldHasEquals(key: string, value: string)
    ensures '=' in Field(key, value)
  {
    assert Field(key, value)[|key|] == '=';
  }

  // ---------------------------------------------------------------------
  // Reading a file back by section

  /** The lines up to the first blank one. */
  function UpToBlank(lines: seq<string>): seq<string> {
    if |lines| == 0 || lines[0] == "" then [] else [lines[0]] + UpToBlank(lines[1..])
  }

  /** The body of the section titled `title`: the lines after the first line
      equal to the title, up to the next blank line; None when no line is
      the title. */
  function SectionOf(lines: seq<string>, title: string): (r: Option<seq<string>>)
    ensures r.None? <==> title !in lines
  {
    if |lines| == 0 then None
    else if lines[0] == title then Some(UpToBlank(lines[1..]))
    else
      assert lines == [lines[0]] + lines[1..];
      SectionOf(lines[1..], title)
  }

  /** Lines that carry an '=' are never blank and never a title. */
  predicate Fields(lines: seq<string>) {
    forall i :: 0 <= i < |lines| ==> '=' in lines[i]
  }

  lemma {:induction false} UpToBlankOfBody(body: seq<string>, rest: seq<string>)
    requires forall i :: 0 <= i < |body| ==> body[i] != ""
    ensures UpToBlank(body + [""] + rest) == body
    ensures UpToBlank(body) == body
    decreases |body|
  {
    if |body| > 0 {
      assert (body + [""] + rest)[1..] == body[1..] + [""] + rest;
      UpToBlankOfBody(body[1..], rest);
      assert body == [body[0]] + body[1..];
    }
  }

  /** A printed section is found under its own title; looking for another
      title (a non-empty line without '=') skips it. */
  lemma {:induction false} SectionOfBlock(title: string, body: seq<string>, rest: seq<string>, wanted: string)
    requires Fields(body) && '=' !in wanted && wanted != ""
    ensures SectionOf(Block([title] + body) + rest, wanted)
            == if title == wanted then Some(body) else SectionOf(rest, wanted)
  {
    var lines := Block([title] + body) + rest;
    assert lines == [title] + (body + [""] + rest);
    forall i | 0 <= i < |body|
      ensures body[i] != ""
    {
      assert '=' in body[i];
    }
    if title == wanted {
      UpToBlankOfBody(body, rest);
    } else {
      forall i | 0 <= i < |body|
        ensures body[i] != wanted
      {
        assert '=' in body[i];
      }
      SkipFields(body + [""] + rest, |body| + 1, wanted);
      assert (body + [""] + rest)[|body| + 1..] == rest;
    }
  }

  /** Skipping lines none of which is the wanted title. */
  lemma {:induction false} SkipFields(lines: seq<string>, n: nat, wanted: string)
    requires n <= |lines|
    requires forall i :: 0 <= i < n ==> lines[i] != wanted
    ensures SectionOf(lines, wanted) == SectionOf(lines[n..], wanted)
    decreases n
  {
    if n > 0 {
      SkipFields(lines[1..], n - 1, wanted);
      assert lines[1..][n - 1..] == lines[n..];
    }
  }

  /** The last section runs to the end of the file. */
  lemma LastSection(title: string, body: seq<string>)
    requires forall i :: 0 <= i < |body| ==> body[i] != ""
    ensures SectionOf([title] + body, title) == Some(body)
  {
    UpToBlankOfBody(body, []);
    assert ([title] + body)[1..] == body;
  }

  /** A section as a builder returns it: a title that is neither blank nor
      holds an '=', then field lines. */
  predicate IsSection(lines: seq<string>) {
    && |lines| > 0
    && lines[0] != ""
    && '=' !in lines[0]
    && Fields(lines[1..])
  }

  /** The text of a definition file: each header printed with a blank line
      after it, then the closing section, which runs to the end. */
  function PrintSections(headers: seq<seq<string>>, last: seq<string>): (r: seq<string>)
    ensures |headers| > 0 ==> r == Block(headers[0]) + PrintSections(headers[1..], last)
  {
    if |headers| == 0 then last else Block(headers[0]) + PrintSections(headers[1..], last)
  }

  /** Looking up a title no header carries skips all the headers. */
  lemma {:induction false} SectionsSkip(headers: seq<seq<string>>, last: seq<string>, wanted: string)
    requires forall j :: 0 <= j < |headers| ==> IsSection(headers[j]) && headers[j][0] != wanted
    requires '=' !in wanted && wanted != ""
    ensures SectionOf(PrintSections(headers, last), wanted) == SectionOf(last, wanted)
    decreases |headers|
  {
    if |headers| > 0 {
      var h := headers[0];
      assert h == [h[0]] + h[1..];
      SectionOfBlock(h[0], h[1..], PrintSections(headers[1..], last), wanted);
      SectionsSkip(headers[1..], last, wanted);
    }
  }

  /** Every header of a printed file reads back, by its title, as its own
      field lines, provided no earlier header has the same title. */
  lemma {:induction false} SectionsReadBack(headers: seq<seq<string>>, last: seq<string>, i: nat)
    requires i < |headers|
    requires forall j :: 0 <= j < |headers| ==> IsSection(headers[j])
    requires IsSection(headers[i])
    requires forall j :: 0 <= j < i ==> |headers[j]| > 0 && headers[j][0] != headers[i][0]
    ensures SectionOf(PrintSections(headers, last), headers[i][0]) == Some(headers[i][1..])
    decreases i
  {
    var h := headers[0];
    assert h == [h[0]] + h[1..];
    SectionOfBlock(h[0], h[1..], PrintSections(headers[1..], last), headers[i][0]);
    if i > 0 {
      SectionsReadBack(headers[1..], last, i - 1);
    }
  }

  /** The closing section of a printed file reads back as its lines, when
      none of them is blank and no header shares its title. */
  lemma SectionsLast(headers: seq<seq<string>>, title: string, body: seq<string>)
    requires forall j :: 0 <= j < |headers| ==> IsSection(headers[j]) && headers[j][0] != title
    requires '=' !in title && title != ""
    requires forall i :: 0 <= i < |body| ==> body[i] != ""
    ensures SectionOf(PrintSections(headers, [title] + body), title) == Some(body)
  {
    SectionsSkip(headers, [title] + body, title);
    LastSection(title, body);
  }

  /** A header built from a title and field lines is a section. */
  lemma FieldLinesAreFields(fields: seq<(string, string)>)
    ensures Fields(FieldLines(fields))
  {
    forall i | 0 <= i < |fields|
      ensures '=' in FieldLines(fields)[i]
    {
      FieldHasEquals(fields[i].0, fields[i].1);
    }
  }

  /** The field lines for a list of key/value pairs, in order. */
  function FieldLines(fields: seq<(string, string)>): (r: seq<string>)
    ensures |r| == |fields|
    ensures forall i :: 0 <= i < |r| ==> r[i] == Field(fields[i].0, fields[i].1)
  {
    seq(|fields|, i requires 0 <= i < |fields| => Field(fields[i].0, fields[i].1))
  }

  /** The keys of a run of field lines whose keys have no '='. */
  lemma FieldKeys(fields: seq<(string, string)>)
    requires PlainKeys(fields)
    ensures Keys(FieldLines(fields)) == Firsts(fields)
  {
    forall i | 0 <= i < |fields|
      ensures KeyOf(FieldLines(fields)[i]) == fields[i].0
    {
      FieldRoundTrip(fields[i].0, fields[i].1);
    }
  }

  lemma OptionalFieldIsFields(key: string, value: Option<string>)
    ensures Fields(OptionalField(key, value))
  {
    if value.Some? {
      FieldHasEquals(key, value.value);
    }
  }

  /** Keys that can be read back: none holds an '='. */
  predicate PlainKeys<V>(fields: seq<(string, V)>) {
    forall i :: 0 <= i < |fields| ==> '=' !in fields[i].0
  }

  /** The optional fields that were given, in order. */
  function OptionalFields(optional: seq<(string, Option<string>)>): seq<string> {
    if |optional| == 0 then []
    else OptionalField(optional[0].0, optional[0].1) + OptionalFields(optional[1..])
  }

  /** The keys of the optional fields that were given, in order. */
  function PresentKeys(optional: seq<(string, Option<string>)>): seq<string> {
    if |optional| == 0 then []
    else OptionalKey(optional[0].0, optional[0].1) + PresentKeys(optional[1..])
  }

  function Firsts<V>(fields: seq<(string, V)>): (r: seq<string>)
    ensures |r| == |fields| && forall i :: 0 <= i < |r| ==> r[i] == fields[i].0
  {
    seq(|fields|, i requires 0 <= i < |fields| => fields[i].0)
  }

  /** A header section: its title, the fields always written, then the
      optional ones that were given. */
  function Header(title: string, fixed: seq<(string, string)>, optional: seq<(string, Option<string>)>): seq<string> {
    [title] + FieldLines(fixed) + OptionalFields(optional)
  }

  lemma {:induction false} OptionalFieldsRead(optional: seq<(string, Option<string>)>)
    requires PlainKeys(optional)
    ensures Fields(OptionalFields(optional))
    ensures Keys(OptionalFields(optional)) == PresentKeys(optional)
    ensures forall i :: 0 <= i < |optional| && optional[i].1.Some? ==>
              Field(optional[i].0, optional[i].1.value) in OptionalFields(optional)
    decreases |optional|
  {
    if |optional| > 0 {
      var (k, v) := optional[0];
      var rest := optional[1..];
      OptionalFieldsRead(rest);
      OptionalFieldIsFields(k, v);
      KeysOfOptional(k, v);
      KeysAppend(OptionalField(k, v), OptionalFields(rest));
      forall i | 0 <= i < |optional| && optional[i].1.Some?
        ensures Field(optional[i].0, optional[i].1.value) in OptionalFields(optional)
      {
        if i > 0 {
          assert optional[i] == rest[i - 1];
        }
      }
    }
  }

  /** A header is a section whose keys are the fixed keys then the given
      optional ones, in that order. */
  lemma HeaderKeys(title: string, fixed: seq<(string, string)>, optional: seq<(string, Option<string>)>)
    requires title != "" && '=' !in title
    requires PlainKeys(fixed) && PlainKeys(optional)
    ensures IsSection(Header(title, fixed, optional))
    ensures Header(title, fixed, optional)[0] == title
    ensures Keys(Header(title, fixed, optional)[1..]) == Firsts(fixed) + PresentKeys(optional)
  {
    var h := Header(title, fixed, optional);
    var a, b := FieldLines(fixed), OptionalFields(optional);
    assert h[1..] == a + b;
    FieldLinesAreFields(fixed);
    OptionalFieldsRead(optional);
    FieldKeys(fixed);
    KeysAppend(a, b);
  }

  /** Every field a header was given appears in it. */
  lemma HeaderHolds(title: string, fixed: seq<(string, string)>, optional: seq<(string, Option<string>)>)
    requires PlainKeys(optional)
    ensures forall i :: 0 <= i < |fixed| ==> Field(fixed[i].0, fixed[i].1) in Header(title, fixed, optional)
    ensures forall i :: 0 <= i < |optional| && optional[i].1.Some? ==>
              Field(optional[i].0, optional[i].1.value) in Header(title, fixed, optional)
  {
    var h := Header(title, fixed, optional);
    var a, b := FieldLines(fixed), OptionalFields(optional);
    assert h == [title] + a + b;
    OptionalFieldsRead(optional);
    assert forall x :: x in a ==> x in h;
    assert forall x :: x in b ==> x in h;
  }

  // ---------------------------------------------------------------------
  // The [Values] section

  predicate NotBlank(s: string) {
    !IsBlank(s)
  }

  /** One `prefix + name.strip() + '|' + suffix` line per name that is not
      blank, in the order given. */
  function NameLines(prefix: string, names: seq<string>, suffix: string): (r: seq<string>)
    ensures |r| == CountWhere(names, NotBlank)
    ensures forall i :: 0 <= i < |r| ==>
              r[i] == prefix + Strip(Filter(names, NotBlank)[i]) + "|" + suffix
  {
    var kept := Filter(names, NotBlank);
    seq(|kept|, i requires 0 <= i < |kept| => prefix + Strip(kept[i]) + "|" + suffix)
  }

  /** A name line reads back as its stripped name when the suffix has no
      '|': the name is what lies between the prefix and the last '|'. */
  lemma NameLineReadsBack(prefix: string, name: string, suffix: string)
    requires '|' !in suffix
    ensures var line := prefix + Strip(name) + "|" + suffix;
            && StartsWith(line, prefix)
            && LastBar(line) == Some(|prefix| + |Strip(name)|)
            && line[|prefix|..|prefix| + |Strip(name)|] == Strip(name)
  {
    BarLineReadsBack(prefix, Strip(name), suffix);
  }

  /** Any text between a prefix and a '|' is read back from the line when
      the suffix has no '|'. */
  lemma BarLineReadsBack(prefix: string, mid: string, suffix: string)
    requires '|' !in suffix
    ensures var line := prefix + mid + "|" + suffix;
            && StartsWith(line, prefix)
            && LastBar(line) == Some(|prefix| + |mid|)
            && line[|prefix|..|prefix| + |mid|] == mid
  {
    var line := prefix + mid + "|" + suffix;
    var at := |prefix| + |mid|;
    assert line[..|prefix|] == prefix;
    assert line[at] == '|';
    forall k | at < k < |line|
      ensures line[k] != '|'
    {
      assert line[k] == suffix[k - at - 1];
    }
    LastBarIsLast(line, at);
  }

  /** The index of the last '|' in `line`. */
  function LastBar(line: string): (r: Option<nat>)
    ensures r.Some? ==> r.value < |line| && line[r.value] == '|'
    ensures r.Some? ==> forall k :: r.value < k < |line| ==> line[k] != '|'
    ensures r.None? ==> '|' !in line
  {
    if |line| == 0 then None
    else if line[|line| - 1] == '|' then Some(|line| - 1)
    else
      var r := LastBar(line[..|line| - 1]);
      assert forall k :: 0 <= k < |line| - 1 ==> line[..|line| - 1][k] == line[k];
      r
  }

  lemma LastBarIsLast(line: string, at: nat)
    requires at < |line| && line[at] == '|'
    requires forall k :: at < k < |line| ==> line[k] != '|'
    ensures LastBar(line) == Some(at)
  {
    var r := LastBar(line);
    assert r.Some? by {
      assert line[at] in line;
    }
  }

  /** A name that is only whitespace never gets a line, and the lines
      keep the order of the names they come from. */
  lemma NameLinesOrder(prefix: string, names: seq<string>, suffix: string, i: nat, j: nat)
    requires i < j < |names| && NotBlank(names[i]) && NotBlank(names[j])
    ensures exists p, q :: 0 <= p < q < |NameLines(prefix, names, suffix)|
              && NameLines(prefix, names, suffix)[p] == prefix + Strip(names[i]) + "|" + suffix
              && NameLines(prefix, names, suffix)[q] == prefix + Strip(names[j]) + "|" + suffix
  {
    var p, q := FilterPositions(names, NotBlank, i, j);
    var r := NameLines(prefix, names, suffix);
    assert r[p] == prefix + Strip(names[i]) + "|" + suffix;
    assert r[q] == prefix + Strip(names[j]) + "|" + suffix;
  }

  /** Two kept elements keep their relative order in the filtered sequence. */
  lemma {:induction false} FilterPositions<T(!new)>(s: seq<T>, keep: T -> bool, i: nat, j: nat)
    returns (p: nat, q: nat)
    requires i < j < |s| && keep(s[i]) && keep(s[j])
    ensures p < q < |Filter(s, keep)|
    ensures Filter(s, keep)[p] == s[i] && Filter(s, keep)[q] == s[j]
    decreases |s|
  {
    var front := s[..|s| - 1];
    var f := Filter(front, keep);
    if j == |s| - 1 {
      p := FilterPosition(front, keep, i);
      q := |f|;
    } else {
      p, q := FilterPositions(front, keep, i, j);
    }
  }

  lemma {:induction false} FilterPosition<T(!new)>(s: seq<T>, keep: T -> bool, i: nat) returns (p: nat)
    requires i < |s| && keep(s[i])
    ensures p < |Filter(s, keep)| && Filter(s, keep)[p] == s[i]
    decreases |s|
  {
    var front := s[..|s| - 1];
    if i == |s| - 1 {
      p := |Filter(front, keep)|;
    } else {
      p := FilterPosition(front, keep, i);
    }
  }
}
