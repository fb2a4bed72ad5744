/** Character classes and string helpers shared by the scanner, the router and the merger. */
module Text {

  datatype Option<+T> = None | Some(value: T)

  /** A space or a tab: the `[ \t]` class of the scanning pattern. */
  predicate IsBlank(c: char) {
    c == ' ' || c == '\t'
  }

  /** The `\w` class of a JavaScript regular expression (ASCII letters, digits and `_`). */
  predicate IsWordChar(c: char) {
    ('a' <= c <= 'z') || ('A' <= c <= 'Z') || ('0' <= c <= '9') || c == '_'
  }

  /** The `\s` class of a JavaScript regular expression. */
  predicate IsSpace(c: char) {
    c == ' ' || c == '\t' || c == '\n' || c == '\r' || c == '\U{000B}' || c == '\U{000C}'
    || c == '\U{00A0}' || c == '\U{1680}' || ('\U{2000}' <= c <= '\U{200A}')
    || c == '\U{2028}' || c == '\U{2029}' || c == '\U{202F}' || c == '\U{205F}'
    || c == '\U{3000}' || c == '\U{FEFF}'
  }

  /** Where the run of blanks starting at `from` ends (what a greedy `[ \t]*` takes there). */
  function BlankEnd(s: string, from: nat): (n: nat)
    requires from <= |s|
    ensures from <= n <= |s|
    ensures forall k :: from <= k < n ==> IsBlank(s[k])
    ensures n == |s| || !IsBlank(s[n])
    decreases |s| - from
  {
    if from < |s| && IsBlank(s[from]) then BlankEnd(s, from + 1) else from
  }

  /** `word` occurs in `s` at position `p`. */
  predicate HasAt(s: string, p: nat, word: string) {
    p + |word| <= |s| && s[p..p + |word|] == word
  }

  /** Length of the longest run of word characters at the start of `s` (a greedy `\w*`). */
  function WordRun(s: string): (n: nat)
    ensures n <= |s|
    ensures forall k :: 0 <= k < n ==> IsWordChar(s[k])
    ensures n == |s| || !IsWordChar(s[n])
  {
    if s != [] && IsWordChar(s[0]) then 1 + WordRun(s[1..]) else 0
  }

  /** `parts.join(sep)` of JavaScript. */
  function Join(parts: seq<string>, sep: string): string
  {
    if |parts| == 0 then ""
    else if |parts| == 1 then parts[0]
    else parts[0] + sep + Join(parts[1..], sep)
  }

  /** The text of `lines`, each one followed by a line feed. */
  function Lines(lines: seq<string>): string
  {
    if lines == [] then "" else lines[0] + "\n" + Lines(lines[1..])
  }

  lemma {:induction false} JoinNonEmpty(parts: seq<string>, sep: string)
    requires parts != [] && forall k :: 0 <= k < |parts| ==> parts[k] != ""
    ensures Join(parts, sep) != ""
  {
    if |parts| > 1 {
      JoinNonEmpty(parts[1..], sep);
    }
  }

  /** A run of blanks from `from` that stops at a non-blank ends exactly there. */
  lemma {:induction false} BlankEndAt(s: string, from: nat, to: nat)
    requires from <= to < |s| && !IsBlank(s[to])
    requires forall k :: from <= k < to ==> IsBlank(s[k])
    ensures BlankEnd(s, from) == to
    decreases |s| - from
  {
    if from < to {
      BlankEndAt(s, from + 1, to);
    }
  }

  lemma {:induction false} LinesLength(lines: seq<string>)
    ensures |Lines(lines)| >= |lines|
  {
    if lines != [] {
      LinesLength(lines[1..]);
    }
  }
}
