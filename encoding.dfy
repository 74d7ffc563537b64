/** Turning the editor's label for a view's character encoding into a codec
    name that Python's `codecs.open` accepts. */
module Encoding {
  import opened Wrappers

  /** Index of the first line feed of `s`, or `|s|` when there is none. */
  function LineEnd(s: string): (n: nat)
    ensures n <= |s|
    ensures forall k :: 0 <= k < n ==> s[k] != '\n'
    ensures n < |s| ==> s[n] == '\n'
  {
    if s == [] || s[0] == '\n' then 0 else 1 + LineEnd(s[1..])
  }

  /** Index of the last occurrence of `c` in `s`, or -1. */
  function LastIndex(s: string, c: char): (k: int)
    ensures -1 <= k < |s|
    ensures k >= 0 ==> s[k] == c
    ensures forall m :: k < m < |s| ==> s[m] != c
  {
    if s == [] then -1
    else if s[|s| - 1] == c then |s| - 1
    else LastIndex(s[..|s| - 1], c)
  }

  /** Where `re.match(r'.+\((.*)\)', viewEncoding)` puts its parentheses. Since `.`
      does not match a line feed, the whole match lies before the first one;
      the greedy `.+` takes the last `(` at index 1 or later that still has a
      `)` after it, and the greedy `.*` then runs to the last `)`. The result
      is None exactly when no such pair exists. */
  function ParenSpan(viewEncoding: string): (r: Option<(nat, nat)>)
    ensures r.Some? ==>
      var (i, j) := r.value;
      1 <= i < j < LineEnd(viewEncoding) && viewEncoding[i] == '(' && viewEncoding[j] == ')' &&
      (forall m :: i < m < j ==> viewEncoding[m] != '(') &&
      (forall m :: j < m < LineEnd(viewEncoding) ==> viewEncoding[m] != ')')
    ensures r.None? ==>
      forall i, j :: 1 <= i < j < LineEnd(viewEncoding) && viewEncoding[i] == '(' ==> viewEncoding[j] != ')'
  {
    var line := viewEncoding[..LineEnd(viewEncoding)];
    var j := LastIndex(line, ')');
    if j < 0 then None
    else
      var i := LastIndex(line[..j], '(');
      if i < 1 then
        assert forall m :: 1 <= m < j ==> viewEncoding[m] == line[..j][m];
        None
      else Some((i, j))
  }

  /** The label itself, or the part inside its parentheses when the pattern
      matches. */
  function MatchedName(viewEncoding: string): string
  {
    match ParenSpan(viewEncoding)
    case Some((i, j)) => viewEncoding[i + 1..j]
    case None => viewEncoding
  }

  /** Python's `str.replace(pat, rep)`: every non-overlapping occurrence of
      `pat`, scanning left to right, is replaced by `rep`. */
  function ReplaceAll(s: string, pat: string, rep: string): string
    requires pat != []
    decreases |s|
  {
    if |s| < |pat| then s
    else if s[..|pat|] == pat then rep + ReplaceAll(s[|pat|..], pat, rep)
    else [s[0]] + ReplaceAll(s[1..], pat, rep)
  }

  /** The rewrites applied to the name, in order. */
  const Mapping: seq<(string, string)> :=
    [("with BOM", ""), ("Windows", "cp"), ("-", "_"), (" ", "")]

  predicate NonEmptyPatterns(ms: seq<(string, string)>)
  {
    forall k :: 0 <= k < |ms| ==> ms[k].0 != []
  }

  /** The rewrites of `ms` applied one after the other to `s`. */
  function ApplyMapping(s: string, ms: seq<(string, string)>): string
    requires NonEmptyPatterns(ms)
  {
    if ms == [] then s
    else
      var last := ms[|ms| - 1];
      ReplaceAll(ApplyMapping(s, ms[..|ms| - 1]), last.0, last.1)
  }

  /** The two labels that name no real encoding are read as UTF-8. */
  function Resolve(name: string): string
  {
    if name == "Undefined" || name == "Hexidecimal" then "utf_8" else name
  }

  /** The codec name the plugin derives from a viewEncoding. */
  function EncodingName(viewEncoding: string): string
  {
    Resolve(ApplyMapping(MatchedName(viewEncoding), Mapping))
  }

  /** Replacing a one-character pattern by text without that character
      leaves none of it. */
  lemma {:induction false} ReplaceRemovesChar(s: string, c: char, rep: string)
    requires c !in rep
    ensures c !in ReplaceAll(s, [c], rep)
    decreases |s|
  {
    if |s| >= 1 {
      ReplaceRemovesChar(s[1..], c, rep);
      if s[..1] != [c] {
        assert s[0] != c;
      }
    }
  }

  /** Replacing never introduces a character absent from both the text and
      the replacement. */
  lemma {:induction false} ReplaceKeepsAbsent(s: string, pat: string, rep: string, c: char)
    requires pat != []
    requires c !in s && c !in rep
    ensures c !in ReplaceAll(s, pat, rep)
    decreases |s|
  {
    if |s| >= |pat| {
      if s[..|pat|] == pat {
        ReplaceKeepsAbsent(s[|pat|..], pat, rep, c);
      } else {
        ReplaceKeepsAbsent(s[1..], pat, rep, c);
      }
    }
  }

  /** Whatever the viewEncoding, the derived name holds no hyphen and no space. */
  lemma EncodingNameHasNoHyphenOrSpace(viewEncoding: string)
    ensures '-' !in EncodingName(viewEncoding) && ' ' !in EncodingName(viewEncoding)
  {
    var name := MatchedName(viewEncoding);
    var afterWindows := ApplyMapping(name, Mapping[..2]);
    assert Mapping[..4][..3] == Mapping[..3];
    assert Mapping[..3][..2] == Mapping[..2];
    var afterHyphen := ApplyMapping(name, Mapping[..3]);
    assert afterHyphen == ReplaceAll(afterWindows, "-", "_");
    ReplaceRemovesChar(afterWindows, '-', "_");
    assert Mapping == Mapping[..4];
    assert ApplyMapping(name, Mapping) == ReplaceAll(afterHyphen, " ", "");
    ReplaceRemovesChar(afterHyphen, ' ', "");
    ReplaceKeepsAbsent(afterHyphen, " ", "", '-');
  }

  /** A viewEncoding without a parenthesised part only goes through the rewrites. */
  lemma UnbracketedLabel(viewEncoding: string)
    requires forall i, j :: 1 <= i < j < |viewEncoding| && viewEncoding[i] == '(' ==> viewEncoding[j] != ')'
    ensures EncodingName(viewEncoding) == Resolve(ApplyMapping(viewEncoding, Mapping))
  {
  }

  /** Derives the codec name: take the parenthesised part if the pattern
      matches, then apply the rewrites in order, then read the two
      placeholder labels as UTF-8. */
  method GetEncoding(viewEncoding: string) returns (encoding: string)
    ensures encoding == EncodingName(viewEncoding)
    ensures '-' !in encoding && ' ' !in encoding
    ensures ApplyMapping(MatchedName(viewEncoding), Mapping) in ["Undefined", "Hexidecimal"] ==> encoding == "utf_8"
  {
    encoding := MatchedName(viewEncoding);
    ghost var matched := encoding;
    var i := 0;
    while i < |Mapping|
      invariant 0 <= i <= |Mapping|
      invariant encoding == ApplyMapping(matched, Mapping[..i])
    {
      assert Mapping[..i + 1][..i] == Mapping[..i];
      encoding := ReplaceAll(encoding, Mapping[i].0, Mapping[i].1);
      i := i + 1;
    }
    assert Mapping[..i] == Mapping;
    encoding := Resolve(encoding);
    EncodingNameHasNoHyphenOrSpace(viewEncoding);
  }
}
