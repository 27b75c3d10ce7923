/** The handful of Python `str` operations the modelled code relies on:
    `startswith`, the substring test `in`, `strip`, `split`, `join` and
    `replace`. Strings are sequences of Unicode scalar values. */
module Text {
  import opened Wrappers

  /** `s.startswith(p)` */
  predicate StartsWith(s: string, p: string) {
    |p| <= |s| && s[..|p|] == p
  }

  /** `p in s` for two strings: a substring test, not set membership. */
  predicate IsSubstring(p: string, s: string) {
    exists i, j :: 0 <= i <= j <= |s| && s[i..j] == p
  }

  lemma SubstringOfItself(s: string)
    ensures IsSubstring(s, s)
  {
    assert s[0..|s|] == s;
  }

  lemma PrefixIsSubstring(s: string, p: string)
    requires StartsWith(s, p)
    ensures IsSubstring(p, s)
  {
    assert s[0..|p|] == p;
  }

  lemma SubstringOfTail(p: string, s: string)
    requires |s| > 0 && IsSubstring(p, s[1..])
    ensures IsSubstring(p, s)
  {
    var i, j :| 0 <= i <= j <= |s[1..]| && s[1..][i..j] == p;
    assert s[i + 1..j + 1] == p;
  }

  /** An occurrence of `p` in `s` either starts `s` or lies in its tail. */
  lemma SubstringCases(p: string, s: string)
    requires IsSubstring(p, s)
    ensures StartsWith(s, p) || (|s| > 0 && IsSubstring(p, s[1..]))
  {
    var i, j :| 0 <= i <= j <= |s| && s[i..j] == p;
    if i > 0 {
      assert s[1..][i - 1..j - 1] == p;
    } else {
      assert s[..|p|] == p;
    }
  }

  lemma SubstringIsShorter(p: string, s: string)
    requires IsSubstring(p, s)
    ensures |p| <= |s|
  {
  }

  /** The characters Python's `str.isspace` accepts, which `strip()` removes. */
  const Whitespace: set<char> := {
    ' ', '\t', '\n', '\r', '\U{000B}', '\U{000C}',
    '\U{001C}', '\U{001D}', '\U{001E}', '\U{001F}', '\U{0085}', '\U{00A0}',
    '\U{1680}', '\U{2000}', '\U{2001}', '\U{2002}', '\U{2003}', '\U{2004}',
    '\U{2005}', '\U{2006}', '\U{2007}', '\U{2008}', '\U{2009}', '\U{200A}',
    '\U{2028}', '\U{2029}', '\U{202F}', '\U{205F}', '\U{3000}'
  }

  function TrimLeft(s: string, cs: set<char>): (r: string)
    ensures |r| <= |s| && r == s[|s| - |r|..]
    ensures forall i :: 0 <= i < |s| - |r| ==> s[i] in cs
    ensures |r| > 0 ==> r[0] !in cs
    decreases |s|
  {
    if |s| > 0 && s[0] in cs then TrimLeft(s[1..], cs) else s
  }

  function TrimRight(s: string, cs: set<char>): (r: string)
    ensures |r| <= |s| && r == s[..|r|]
    ensures forall i :: |r| <= i < |s| ==> s[i] in cs
    ensures |r| > 0 ==> r[|r| - 1] !in cs
    decreases |s|
  {
    if |s| > 0 && s[|s| - 1] in cs then TrimRight(s[..|s| - 1], cs) else s
  }

  /** `s.strip(chars)`: the longest slice of `s` that neither starts nor ends
      with a character of `cs`; everything cut off belongs to `cs`. */
  function StripChars(s: string, cs: set<char>): (r: string)
    ensures exists i, j ::
              && 0 <= i <= j <= |s| && r == s[i..j]
              && (forall k :: 0 <= k < i ==> s[k] in cs)
              && (forall k :: j <= k < |s| ==> s[k] in cs)
    ensures |r| > 0 ==> r[0] !in cs && r[|r| - 1] !in cs
    ensures |r| <= |s|
    ensures forall c :: c in r ==> c in s
  {
    var left := TrimLeft(s, cs);
    var r := TrimRight(left, cs);
    var i := |s| - |left|;
    assert r == s[i..i + |r|];
    r
  }

  /** `s.strip()` */
  function Strip(s: string): string {
    StripChars(s, Whitespace)
  }

  /** A stripped string is its own strip: `strip` is idempotent. */
  lemma {:induction false} StripIdempotent(s: string)
    ensures Strip(Strip(s)) == Strip(s)
  {
    var t := Strip(s);
    if |t| > 0 {
      assert t[0] !in Whitespace && t[|t| - 1] !in Whitespace;
      assert TrimLeft(t, Whitespace) == t;
      assert TrimRight(t, Whitespace) == t;
    }
  }

  /** `not s.strip()`: the string is empty or all whitespace. */
  predicate IsBlank(s: string) {
    |Strip(s)| == 0
  }

  lemma {:induction false} BlankIsAllWhitespace(s: string)
    ensures IsBlank(s) <==> forall k :: 0 <= k < |s| ==> s[k] in Whitespace
  {
    var left := TrimLeft(s, Whitespace);
    if IsBlank(s) {
      assert TrimRight(left, Whitespace) == [];
      assert |left| == 0;
    } else {
      var r := Strip(s);
      assert r[0] !in Whitespace;
    }
  }

  /** The text before the first `sep` (all of `s` when there is none). */
  function Before(s: string, sep: char): string {
    if |s| == 0 || s[0] == sep then "" else [s[0]] + Before(s[1..], sep)
  }

  /** The text after the first `sep`, if there is one. */
  function After(s: string, sep: char): Option<string> {
    if |s| == 0 then None
    else if s[0] == sep then Some(s[1..])
    else After(s[1..], sep)
  }

  /** `key + sep + value` splits back at its first separator into `key` and
      `value` when `key` holds no separator; `value` may hold any. */
  lemma {:induction false} SeparatorRoundTrip(key: string, sep: char, value: string)
    requires sep !in key
    ensures Before(key + [sep] + value, sep) == key
    ensures After(key + [sep] + value, sep) == Some(value)
    decreases |key|
  {
    var line := key + [sep] + value;
    if |key| == 0 {
      assert line == [sep] + value;
    } else {
      assert line[1..] == key[1..] + [sep] + value;
      assert sep !in key[1..] by {
        assert forall c :: c in key[1..] ==> c in key;
      }
      SeparatorRoundTrip(key[1..], sep, value);
      assert key == [key[0]] + key[1..];
    }
  }

  /** A string without the separator is all "before". */
  lemma {:induction false} BeforeAbsent(s: string, sep: char)
    requires sep !in s
    ensures Before(s, sep) == s
    ensures After(s, sep).None?
    decreases |s|
  {
    if |s| > 0 {
      assert sep !in s[1..] by {
        assert forall c :: c in s[1..] ==> c in s;
      }
      BeforeAbsent(s[1..], sep);
      assert s == [s[0]] + s[1..];
    }
  }

  /** `sep.join(pieces)` for a one-character separator. */
  function Join(pieces: seq<string>, sep: char): string
    requires |pieces| > 0
  {
    if |pieces| == 1 then pieces[0] else pieces[0] + [sep] + Join(pieces[1..], sep)
  }

  /** `''.join(pieces)` */
  function Concat(pieces: seq<string>): string {
    if |pieces| == 0 then "" else pieces[0] + Concat(pieces[1..])
  }

  /** `s.split(sep)` for a one-character separator: never empty, no piece
      contains the separator, and joining the pieces gives `s` back. */
  function Split(s: string, sep: char): (r: seq<string>)
    ensures |r| > 0
    ensures Join(r, sep) == s
    ensures forall i :: 0 <= i < |r| ==> sep !in r[i]
    decreases |s|
  {
    if |s| == 0 then [""]
    else
      var rest := Split(s[1..], sep);
      if s[0] == sep then [""] + rest
      else [[s[0]] + rest[0]] + rest[1..]
  }

  /** The other round trip: pieces free of the separator are recovered
      exactly by splitting their join. */
  lemma {:induction false} SplitJoin(pieces: seq<string>, sep: char)
    requires |pieces| > 0
    requires forall i :: 0 <= i < |pieces| ==> sep !in pieces[i]
    ensures Split(Join(pieces, sep), sep) == pieces
    decreases |pieces|, |pieces[0]|
  {
    var p := pieces[0];
    if |pieces| == 1 {
      SplitNoSeparator(p, sep);
    } else if |p| == 0 {
      var j := Join(pieces[1..], sep);
      assert Join(pieces, sep) == [sep] + j;
      assert ([sep] + j)[1..] == j;
      SplitJoin(pieces[1..], sep);
      assert pieces == [""] + pieces[1..];
    } else {
      var shorter := [p[1..]] + pieces[1..];
      assert shorter[1..] == pieces[1..];
      assert Join(pieces, sep) == [p[0]] + Join(shorter, sep);
      SplitJoin(shorter, sep);
      assert ([p[0]] + Join(shorter, sep))[1..] == Join(shorter, sep);
      assert p == [p[0]] + p[1..];
      assert pieces == [[p[0]] + p[1..]] + pieces[1..];
    }
  }

  /** `s.split(sep)` has one piece more than `s` has separators, so an
      empty string still splits into one (empty) piece. */
  lemma {:induction false} SplitCount(s: string, sep: char)
    ensures |Split(s, sep)| == multiset(s)[sep] + 1
    decreases |s|
  {
    if |s| > 0 {
      SplitCount(s[1..], sep);
      assert s == [s[0]] + s[1..];
      assert multiset(s) == multiset{s[0]} + multiset(s[1..]);
    }
  }

  lemma {:induction false} SplitNoSeparator(s: string, sep: char)
    requires sep !in s
    ensures Split(s, sep) == [s]
    decreases |s|
  {
    if |s| > 0 {
      SplitNoSeparator(s[1..], sep);
      assert [s[0]] + s[1..] == s;
    }
  }

  /** `s.replace(pat, rep)`: every non-overlapping occurrence of `pat`,
      scanned left to right, is replaced by `rep`. */
  function Replace(s: string, pat: string, rep: string): (r: string)
    requires |pat| > 0
    ensures !IsSubstring(pat, s) ==> r == s
    ensures |rep| == 0 ==> |r| <= |s|
    ensures forall c :: c in r ==> c in s || c in rep
    decreases |s|
  {
    if |s| < |pat| then s
    else if s[..|pat|] == pat then
      PrefixIsSubstring(s, pat);
      rep + Replace(s[|pat|..], pat, rep)
    else
      if IsSubstring(pat, s[1..]) then
        SubstringOfTail(pat, s);
        [s[0]] + Replace(s[1..], pat, rep)
      else
        assert [s[0]] + s[1..] == s;
        [s[0]] + Replace(s[1..], pat, rep)
  }
}
