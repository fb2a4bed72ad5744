/**
 * The fragment scanner of `_readFile`: one file, seen as its lines, is searched for
 * documentation fragments opened by `<indent><token><blanks><startSymbol>[tag]` and either
 * carried on the same line (inline form) or closed by a later terminator line
 * `<blanks><token><blanks><endSymbol>` (block form).
 *
 * The regular expression's `exec` at one line is modelled by `MatchFirst`, which returns the
 * capture groups; the loop that calls it and turns the groups into text is `ReadFile`.
 */
module Scanner {
  import opened Text

  /** The comment token of the file's type and the configured start and end symbols. */
  datatype Config = Config(token: string, startSymbol: string, endSymbol: string)

  /**
   * Symbols for which the pattern's greedy blank runs never have to give characters back:
   * the token and both symbols are non-empty and do not begin with a blank.
   */
  predicate WellFormed(cfg: Config) {
    && cfg.token != "" && !IsBlank(cfg.token[0])
    && cfg.startSymbol != "" && !IsBlank(cfg.startSymbol[0])
    && cfg.endSymbol != "" && !IsBlank(cfg.endSymbol[0])
  }

  predicate AllBlank(s: string) {
    forall k :: 0 <= k < |s| ==> IsBlank(s[k])
  }

  /**
   * When `line` reads `<blanks><token><blanks>` followed by `sym`, the length of that prefix
   * (capture group 1 of the pattern); `None` otherwise.
   */
  function MarkerPrefix(line: string, token: string, sym: string): (p: Option<nat>)
    ensures p.Some? ==> HasAt(line, p.value, sym)
    ensures p.Some? ==> AllBlank(line[..BlankEnd(line, 0)]) && HasAt(line, BlankEnd(line, 0), token)
    ensures p.Some? ==> BlankEnd(line, 0) + |token| <= p.value && AllBlank(line[BlankEnd(line, 0) + |token|..p.value])
  {
    var a := BlankEnd(line, 0);
    if HasAt(line, a, token) then
      var p := BlankEnd(line, a + |token|);
      if HasAt(line, p, sym) then Some(p) else None
    else None
  }

  /** A line that closes a block fragment: `^[ \t]*<token>[ \t]*<endSymbol>`. */
  predicate IsTerminator(line: string, cfg: Config) {
    MarkerPrefix(line, cfg.token, cfg.endSymbol).Some?
  }

  /** The nearest terminator line at index `from` or later. */
  function FindTerminator(lines: seq<string>, from: nat, cfg: Config): (j: Option<nat>)
    ensures j.Some? ==> from <= j.value < |lines| && IsTerminator(lines[j.value], cfg)
    ensures j.Some? ==> forall m :: from <= m < j.value ==> !IsTerminator(lines[m], cfg)
    ensures j.None? ==> forall m :: from <= m < |lines| ==> !IsTerminator(lines[m], cfg)
    decreases |lines| - from
  {
    if from >= |lines| then None
    else if IsTerminator(lines[from], cfg) then Some(from)
    else FindTerminator(lines, from + 1, cfg)
  }

  /** The length of the word in a `[word]` tag at the start of `rest`, if there is one. */
  function TagLength(rest: string): (w: Option<nat>)
    ensures w.Some? ==> 0 < w.value && w.value + 2 <= |rest|
    ensures w.Some? ==> rest[0] == '[' && rest[w.value + 1] == ']'
    ensures w.Some? ==> forall k :: 1 <= k <= w.value ==> IsWordChar(rest[k])
  {
    if rest != [] && rest[0] == '[' then
      var w := WordRun(rest[1..]);
      if 0 < w && w + 1 < |rest| && rest[w + 1] == ']' then Some(w) else None
    else None
  }

  /**
   * What `[ \t]*(.+?)$` captures from the rest of an opener line: the rest without its
   * leading blanks, except that the capture keeps at least one character.
   */
  function InlineText(rest: string): (t: string)
    requires rest != ""
    ensures t != "" && |t| <= |rest| && t == rest[|rest| - |t|..]
    ensures AllBlank(rest[..|rest| - |t|])
    ensures 1 < |t| ==> !IsBlank(t[0])
  {
    var k := BlankEnd(rest, 0);
    if k < |rest| then rest[k..] else rest[|rest| - 1..]
  }

  /** Capture group 3 (inline text) or 4 (block body, as its lines). */
  datatype Body = InlineBody(text: string) | BlockBody(lines: seq<string>)

  /** One match of the pattern: group 1, group 2, group 3 or 4, and the number of lines consumed. */
  datatype Match = Match(indents: string, syntax: Option<string>, body: Body, length: nat)

  /**
   * `regexp.exec` anchored at the first line of `ls`. The inline alternative is tried first;
   * the block alternative needs a body of at least one character, so its terminator is the
   * nearest one from the third line on; when a tagged opener has neither, the optional tag
   * is given back and the tag text itself becomes the inline capture.
   */
  function MatchFirst(ls: seq<string>, cfg: Config): (m: Option<Match>)
    requires ls != []
    ensures m.Some? ==> MarkerPrefix(ls[0], cfg.token, cfg.startSymbol).Some?
    ensures m.Some? ==> 0 < m.value.length <= |ls|
    ensures m.Some? && m.value.body.InlineBody? ==> m.value.body.text != "" && m.value.length == 1
    ensures m.Some? && m.value.body.BlockBody? ==>
              3 <= m.value.length && m.value.body.lines == ls[1..m.value.length - 1]
    ensures m.Some? && m.value.body.BlockBody? ==> IsTerminator(ls[m.value.length - 1], cfg)
  {
    match MarkerPrefix(ls[0], cfg.token, cfg.startSymbol)
    case None => None
    case Some(p) => MatchOpener(ls, cfg, ls[0][..p], ls[0][p + |cfg.startSymbol|..])
  }

  /** The alternatives of the pattern after an opener whose group 1 is `indents`, followed on its line by `rest`. */
  function MatchOpener(ls: seq<string>, cfg: Config, indents: string, rest: string): (m: Option<Match>)
    requires ls != []
    ensures m.Some? ==> 0 < m.value.length <= |ls|
    ensures m.Some? && m.value.body.InlineBody? ==> m.value.body.text != "" && m.value.length == 1
    ensures m.Some? && m.value.body.BlockBody? ==>
              3 <= m.value.length && m.value.body.lines == ls[1..m.value.length - 1]
    ensures m.Some? && m.value.body.BlockBody? ==> IsTerminator(ls[m.value.length - 1], cfg)
  {
    var tag := TagLength(rest);
    var term := FindTerminator(ls, 2, cfg);
    if tag.Some? && |rest| > tag.value + 2 then
      Some(Match(indents, Some(rest[1..tag.value + 1]), InlineBody(InlineText(rest[tag.value + 2..])), 1))
    else if tag.Some? && term.Some? then
      Some(Match(indents, Some(rest[1..tag.value + 1]), BlockBody(ls[1..term.value]), term.value + 1))
    else if rest != "" then
      Some(Match(indents, None, InlineBody(InlineText(rest)), 1))
    else if term.Some? then
      Some(Match(indents, None, BlockBody(ls[1..term.value]), term.value + 1))
    else None
  }

  /** Every body line that begins with `prefix` loses exactly that prefix; the others stay. */
  function Unindent(prefix: string, body: seq<string>): (r: seq<string>)
    ensures |r| == |body|
    ensures forall k :: 0 <= k < |body| ==>
      if prefix <= body[k] then prefix + r[k] == body[k] else r[k] == body[k]
  {
    if body == [] then []
    else
      var first := if prefix <= body[0] then body[0][|prefix|..] else body[0];
      [first] + Unindent(prefix, body[1..])
  }

  /** A fenced code block annotated with `tag`. */
  function Fence(tag: string, text: string): string {
    "```" + tag + "\n" + text + "\n```"
  }

  /** `text`, fenced when a tag is present. */
  function Wrap(tag: Option<string>, text: string): string {
    match tag
    case Some(t) => Fence(t, text)
    case None => text
  }

  /** The text one match contributes to the file's output. */
  function Output(m: Match): string {
    var text := match m.body
      case InlineBody(t) => t
      case BlockBody(b) => if m.indents != "" then Lines(Unindent(m.indents, b)) else Lines(b);
    Wrap(m.syntax, text)
  }

  /** The outputs of all matches found by scanning `ls` from its first line. */
  function Fragments(ls: seq<string>, cfg: Config): (r: seq<string>)
    ensures forall k :: 0 <= k < |r| ==> r[k] != ""
    decreases |ls|
  {
    if ls == [] then []
    else match MatchFirst(ls, cfg)
      case None => Fragments(ls[1..], cfg)
      case Some(m) =>
        OutputNonEmpty(m);
        [Output(m)] + Fragments(ls[m.length..], cfg)
  }

  /** A match with a non-empty capture contributes a non-empty text. */
  lemma OutputNonEmpty(m: Match)
    requires m.body.InlineBody? ==> m.body.text != ""
    requires m.body.BlockBody? ==> m.body.lines != []
    ensures Output(m) != ""
  {
    if m.syntax.None? && m.body.BlockBody? {
      var b := m.body.lines;
      var u := if m.indents != "" then Unindent(m.indents, b) else b;
      assert |u| == |b|;
      assert Lines(u) == u[0] + "\n" + Lines(u[1..]);
    }
  }

  /** `.md` in any letter case: the extension of the documents this tool writes. */
  predicate IsMarkdownExt(ext: string) {
    |ext| == 3 && ext[0] == '.' && (ext[1] == 'm' || ext[1] == 'M') && (ext[2] == 'd' || ext[2] == 'D')
  }

  /** What `_readFile` returns for a file: its fragments joined by CRLF, or nothing. */
  function FileOutput(ext: string, lines: seq<string>, cfg: Config): Option<string> {
    if IsMarkdownExt(ext) then None
    else
      var picked := Fragments(lines, cfg);
      if picked == [] then None else Some(Join(picked, "\r\n"))
  }

  /** The text computed from one match's capture groups inside the scan loop. */
  method MatchOutput(m: Match) returns (output: string)
    ensures output == Output(m)
  {
    output := "";
    match m.body {
      case InlineBody(t) =>
        output := t;
      case BlockBody(b) =>
        if m.indents != "" {
          output := output + Lines(Unindent(m.indents, b));
        } else {
          output := output + Lines(b);
        }
    }
    if m.syntax.Some? {
      output := Fence(m.syntax.value, output);
    }
  }

  /** The scan loop of `_readFile`, with the file already read and split at line feeds. */
  method ReadFile(ext: string, fileLines: seq<string>, cfg: Config) returns (output: Option<string>)
    ensures output == FileOutput(ext, fileLines, cfg)
  {
    if IsMarkdownExt(ext) {
      return None;
    }
    var picked: seq<string> := [];
    var rest := fileLines;
    while rest != []
      invariant picked + Fragments(rest, cfg) == Fragments(fileLines, cfg)
      decreases |rest|
    {
      var execResult := MatchFirst(rest, cfg);
      FragmentsAtMatch(rest, cfg);
      match execResult
      case None =>
        rest := rest[1..];
      case Some(m) =>
        var text := MatchOutput(m);
        picked := picked + [text];
        rest := rest[m.length..];
    }
    assert Fragments(rest, cfg) == [];
    assert picked == Fragments(fileLines, cfg);
    if 0 < |picked| {
      output := Some(Join(picked, "\r\n"));
    } else {
      output := None;
    }
  }

  /** One step of the scan: a match contributes its output, otherwise the next line is tried. */
  lemma FragmentsAtMatch(ls: seq<string>, cfg: Config)
    requires ls != []
    ensures MatchFirst(ls, cfg).None? ==> Fragments(ls, cfg) == Fragments(ls[1..], cfg)
    ensures MatchFirst(ls, cfg).Some? ==>
              Fragments(ls, cfg) == [Output(MatchFirst(ls, cfg).value)] + Fragments(ls[MatchFirst(ls, cfg).value.length..], cfg)
  {
  }

  /** Whatever a non-markdown file yields is a non-empty string, so the walk keeps it. */
  lemma FileOutputNonEmpty(ext: string, lines: seq<string>, cfg: Config)
    ensures FileOutput(ext, lines, cfg).Some? ==> FileOutput(ext, lines, cfg).value != ""
    ensures IsMarkdownExt(ext) ==> FileOutput(ext, lines, cfg).None?
  {
    if !IsMarkdownExt(ext) && Fragments(lines, cfg) != [] {
      JoinNonEmpty(Fragments(lines, cfg), "\r\n");
    }
  }
}

/** Properties of the fragment scanner. */
module ScannerFacts {
  import opened Text
  import opened Scanner

  /** The tag as written after the start symbol. */
  function TagText(tag: Option<string>): string {
    match tag
    case Some(t) => "[" + t + "]"
    case None => ""
  }

  /** A tag the pattern's `\[(\w+)\]` accepts. */
  predicate TagOk(tag: Option<string>) {
    tag.Some? ==> tag.value != "" && forall k :: 0 <= k < |tag.value| ==> IsWordChar(tag.value[k])
  }

  lemma {:induction false} WordRunOfTag(t: string, rest: string)
    requires forall k :: 0 <= k < |t| ==> IsWordChar(t[k])
    requires rest != [] && !IsWordChar(rest[0])
    ensures WordRun(t + rest) == |t|
  {
    if t == [] {
      assert t + rest == rest;
    } else {
      assert (t + rest)[0] == t[0];
      assert (t + rest)[1..] == t[1..] + rest;
      WordRunOfTag(t[1..], rest);
    }
  }

  /** A line written as blanks, token, blanks and a symbol has exactly that marker prefix. */
  lemma MarkerPrefixOfLine(lead: string, token: string, gap: string, sym: string, tail: string)
    requires AllBlank(lead) && AllBlank(gap)
    requires token != "" && !IsBlank(token[0]) && sym != "" && !IsBlank(sym[0])
    ensures MarkerPrefix(lead + token + gap + sym + tail, token, sym) == Some(|lead| + |token| + |gap|)
  {
    var line := lead + token + gap + sym + tail;
    var a := |lead|;
    var p := |lead| + |token| + |gap|;
    assert line[a] == token[0];
    BlankEndAt(line, 0, a);
    assert line[a..a + |token|] == token;
    assert line[p] == sym[0];
    BlankEndAt(line, a + |token|, p);
    assert line[p..p + |sym|] == sym;
  }

  /** The opener line of a fragment is recognised, with its indent, token and blanks as group 1. */
  lemma OpenerLine(ls: seq<string>, cfg: Config, lead: string, gap: string, rest: string)
    requires WellFormed(cfg) && AllBlank(lead) && AllBlank(gap)
    requires ls != [] && ls[0] == lead + cfg.token + gap + cfg.startSymbol + rest
    ensures MatchFirst(ls, cfg) == MatchOpener(ls, cfg, lead + cfg.token + gap, rest)
  {
    MarkerPrefixOfLine(lead, cfg.token, gap, cfg.startSymbol, rest);
    var p := |lead| + |cfg.token| + |gap|;
    assert ls[0][p + |cfg.startSymbol|..] == rest;
    assert ls[0][..p] == lead + cfg.token + gap;
  }

  /** The tag at the head of what follows the start symbol is recognised. */
  lemma TagOfRest(t: string, after: string)
    requires TagOk(Some(t))
    ensures TagLength("[" + t + "]" + after) == Some(|t|)
    ensures ("[" + t + "]" + after)[1..|t| + 1] == t
    ensures ("[" + t + "]" + after)[|t| + 2..] == after
  {
    var rest := "[" + t + "]" + after;
    assert rest[1..] == t + ("]" + after);
    WordRunOfTag(t, "]" + after);
  }

  /** The first alternative: a tag with more text after it on the opener line. */
  lemma OpenerTaggedInline(ls: seq<string>, cfg: Config, indents: string, rest: string, w: nat)
    requires ls != [] && TagLength(rest) == Some(w) && |rest| > w + 2
    ensures MatchOpener(ls, cfg, indents, rest)
            == Some(Match(indents, Some(rest[1..w + 1]), InlineBody(InlineText(rest[w + 2..])), 1))
  {
  }

  /** The third alternative: untagged text after the start symbol. */
  lemma OpenerPlainInline(ls: seq<string>, cfg: Config, indents: string, rest: string)
    requires ls != [] && TagLength(rest).None? && rest != ""
    ensures MatchOpener(ls, cfg, indents, rest) == Some(Match(indents, None, InlineBody(InlineText(rest)), 1))
  {
  }

  /** The inline alternative after an opener. */
  lemma InlineOpener(ls: seq<string>, cfg: Config, indents: string, tag: Option<string>, space: string, text: string)
    requires ls != [] && AllBlank(space) && TagOk(tag)
    requires text != "" && !IsBlank(text[0])
    requires tag.None? && space == "" ==> text[0] != '['
    ensures MatchOpener(ls, cfg, indents, TagText(tag) + (space + text)) == Some(Match(indents, tag, InlineBody(text), 1))
  {
    assert InlineText(space + text) == text by {
      BlankEndAt(space + text, 0, |space|);
    }
    match tag {
      case Some(t) => TaggedInline(ls, cfg, indents, t, space + text, text);
      case None => PlainInline(ls, cfg, indents, space, text);
    }
  }

  lemma TaggedInline(ls: seq<string>, cfg: Config, indents: string, t: string, after: string, text: string)
    requires ls != [] && TagOk(Some(t)) && after != "" && InlineText(after) == text
    ensures MatchOpener(ls, cfg, indents, "[" + t + "]" + after) == Some(Match(indents, Some(t), InlineBody(text), 1))
  {
    TagOfRest(t, after);
    OpenerTaggedInline(ls, cfg, indents, "[" + t + "]" + after, |t|);
  }

  lemma PlainInline(ls: seq<string>, cfg: Config, indents: string, space: string, text: string)
    requires ls != [] && AllBlank(space) && text != "" && InlineText(space + text) == text
    requires space == "" ==> text[0] != '['
    ensures MatchOpener(ls, cfg, indents, "" + (space + text)) == Some(Match(indents, None, InlineBody(text), 1))
  {
    var rest := space + text;
    assert "" + rest == rest;
    assert rest[0] != '[' by {
      if space != "" {
        assert rest[0] == space[0];
      }
    }
    OpenerPlainInline(ls, cfg, indents, rest);
  }

  /** The block alternative after an opener with nothing else on its line. */
  lemma BlockOpener(ls: seq<string>, cfg: Config, indents: string, tag: Option<string>, j: nat)
    requires TagOk(tag) && 2 <= j < |ls|
    requires IsTerminator(ls[j], cfg) && forall m :: 2 <= m < j ==> !IsTerminator(ls[m], cfg)
    ensures MatchOpener(ls, cfg, indents, TagText(tag)) == Some(Match(indents, tag, BlockBody(ls[1..j]), j + 1))
  {
    assert FindTerminator(ls, 2, cfg) == Some(j);
    match tag {
      case Some(t) =>
        assert TagText(tag) == "[" + t + "]" + "";
        TagOfRest(t, "");
      case None =>
    }
  }

  /**
   * Inline form: an opener followed on its line by optional blanks and some text yields exactly
   * that text (fenced when tagged), and the scan resumes at the next line.
   */
  lemma InlineFragment(ls: seq<string>, cfg: Config, lead: string, gap: string, tag: Option<string>,
                       space: string, text: string)
    requires WellFormed(cfg) && AllBlank(lead) && AllBlank(gap) && AllBlank(space) && TagOk(tag)
    requires text != "" && !IsBlank(text[0])
    requires tag.None? && space == "" ==> text[0] != '['
    requires ls != [] && ls[0] == lead + cfg.token + gap + cfg.startSymbol + (TagText(tag) + (space + text))
    ensures Fragments(ls, cfg) == [Wrap(tag, text)] + Fragments(ls[1..], cfg)
  {
    var rest := TagText(tag) + (space + text);
    OpenerLine(ls, cfg, lead, gap, rest);
    InlineOpener(ls, cfg, lead + cfg.token + gap, tag, space, text);
    FragmentsAtMatch(ls, cfg);
  }

  /**
   * Block form: a bare opener yields the lines up to the nearest terminator from the third line
   * on, each with the opener's whole prefix (indent, token, blanks) removed where it begins with
   * it, fenced when tagged; the scan resumes after the terminator.
   */
  lemma BlockFragment(ls: seq<string>, cfg: Config, lead: string, gap: string, tag: Option<string>, j: nat)
    requires WellFormed(cfg) && AllBlank(lead) && AllBlank(gap) && TagOk(tag)
    requires 2 <= j < |ls| && ls[0] == lead + cfg.token + gap + cfg.startSymbol + TagText(tag)
    requires IsTerminator(ls[j], cfg) && forall m :: 2 <= m < j ==> !IsTerminator(ls[m], cfg)
    ensures Fragments(ls, cfg) ==
              [Wrap(tag, Lines(Unindent(lead + cfg.token + gap, ls[1..j])))] + Fragments(ls[j + 1..], cfg)
  {
    var indents := lead + cfg.token + gap;
    var m := Match(indents, tag, BlockBody(ls[1..j]), j + 1);
    assert MatchFirst(ls, cfg) == Some(m) by {
      BlockOpener(ls, cfg, indents, tag, j);
      OpenerLine(ls, cfg, lead, gap, TagText(tag));
    }
    assert Output(m) == Wrap(tag, Lines(Unindent(indents, ls[1..j]))) by {
      assert indents != "";
    }
    assert Fragments(ls, cfg) == [Output(m)] + Fragments(ls[j + 1..], cfg) by {
      FragmentsAtMatch(ls, cfg);
    }
  }

  /**
   * An opener with nothing after it and no later terminator yields no fragment; a tagged one
   * gives its tag back and yields the tag text itself as an untagged inline fragment.
   */
  lemma UnterminatedOpener(ls: seq<string>, cfg: Config, lead: string, gap: string, tag: Option<string>)
    requires WellFormed(cfg) && AllBlank(lead) && AllBlank(gap) && TagOk(tag)
    requires ls != [] && ls[0] == lead + cfg.token + gap + cfg.startSymbol + TagText(tag)
    requires forall m :: 2 <= m < |ls| ==> !IsTerminator(ls[m], cfg)
    ensures tag.None? ==> Fragments(ls, cfg) == Fragments(ls[1..], cfg)
    ensures tag.Some? ==> Fragments(ls, cfg) == [TagText(tag)] + Fragments(ls[1..], cfg)
  {
    OpenerLine(ls, cfg, lead, gap, TagText(tag));
    assert FindTerminator(ls, 2, cfg) == None;
    var indents := lead + cfg.token + gap;
    match tag {
      case Some(t) =>
        var rest := TagText(tag);
        assert rest == "[" + t + "]" + "";
        TagOfRest(t, "");
        BlankEndAt(rest, 0, 0);
        assert InlineText(rest) == rest;
        assert MatchOpener(ls, cfg, indents, rest) == Some(Match(indents, None, InlineBody(rest), 1));
      case None =>
        assert MatchOpener(ls, cfg, indents, TagText(tag)) == None;
    }
    FragmentsAtMatch(ls, cfg);
  }

  /** A source line, or a fragment as an author writes it, in the order they occur in a file. */
  datatype Piece =
    | Code(line: string)
    | InlineDoc(lead: string, gap: string, tag: Option<string>, space: string, text: string)
    | BlockDoc(lead: string, gap: string, tag: Option<string>, body: seq<string>)

  /** The indent, token and blanks that open a fragment's lines. */
  function Indents(d: Piece, cfg: Config): string
    requires !d.Code?
  {
    d.lead + cfg.token + d.gap
  }

  /** Body lines as written in the file: each one behind the fragment's indents. */
  function Indented(indents: string, body: seq<string>): (r: seq<string>)
    ensures |r| == |body| && forall k :: 0 <= k < |body| ==> r[k] == indents + body[k]
  {
    if body == [] then [] else [indents + body[0]] + Indented(indents, body[1..])
  }

  /** The lines a piece occupies in the file. */
  function Emit(d: Piece, cfg: Config): (r: seq<string>)
    ensures r != []
  {
    match d
    case Code(line) => [line]
    case InlineDoc(lead, gap, tag, space, text) =>
      [Indents(d, cfg) + cfg.startSymbol + (TagText(tag) + (space + text))]
    case BlockDoc(lead, gap, tag, body) =>
      [Indents(d, cfg) + cfg.startSymbol + TagText(tag)] + Indented(Indents(d, cfg), body)
        + [Indents(d, cfg) + cfg.endSymbol]
  }

  function EmitAll(ds: seq<Piece>, cfg: Config): seq<string>
  {
    if ds == [] then [] else Emit(ds[0], cfg) + EmitAll(ds[1..], cfg)
  }

  /** What the documentation of a piece is: its text or its body, fenced when tagged. */
  function DocOf(d: Piece): seq<string> {
    match d
    case Code(_) => []
    case InlineDoc(_, _, tag, _, text) => [Wrap(tag, text)]
    case BlockDoc(_, _, tag, body) => [Wrap(tag, Lines(body))]
  }

  /** The documentation of a sequence of pieces, in order. */
  function Texts(ds: seq<Piece>): seq<string>
  {
    if ds == [] then [] else DocOf(ds[0]) + Texts(ds[1..])
  }

  /**
   * A piece the scanner reads back as written: a code line opens no fragment; a fragment has
   * blank indent and gap and a word tag; inline text is non-empty, starts with a non-blank and,
   * untagged and unspaced, not with `[`; a block body is non-empty and none of its lines reads
   * as a terminator.
   */
  predicate Readable(d: Piece, cfg: Config) {
    match d
    case Code(line) => MarkerPrefix(line, cfg.token, cfg.startSymbol).None?
    case InlineDoc(lead, gap, tag, space, text) =>
      && AllBlank(lead) && AllBlank(gap) && AllBlank(space) && TagOk(tag)
      && text != "" && !IsBlank(text[0]) && (tag.None? && space == "" ==> text[0] != '[')
    case BlockDoc(lead, gap, tag, body) =>
      && AllBlank(lead) && AllBlank(gap) && TagOk(tag) && body != []
      && forall k :: 0 <= k < |body| ==> !IsTerminator(Indents(d, cfg) + body[k], cfg)
  }

  /** Unindenting the written body lines gives the body back. */
  lemma UnindentIndented(indents: string, body: seq<string>)
    ensures Unindent(indents, Indented(indents, body)) == body
  {
    var r := Unindent(indents, Indented(indents, body));
    forall k | 0 <= k < |body|
      ensures r[k] == body[k]
    {
      assert indents <= indents + body[k];
      assert indents + r[k] == indents + body[k];
      assert r[k] == (indents + r[k])[|indents|..];
    }
  }

  /** One piece at the head of the file contributes exactly its documentation. */
  lemma ScanPiece(d: Piece, tail: seq<string>, cfg: Config)
    requires WellFormed(cfg) && Readable(d, cfg)
    ensures Fragments(Emit(d, cfg) + tail, cfg) == DocOf(d) + Fragments(tail, cfg)
  {
    match d {
      case Code(line) => ScanCode(line, tail, cfg);
      case InlineDoc(lead, gap, tag, space, text) => ScanInline(d, tail, cfg);
      case BlockDoc(lead, gap, tag, body) => ScanBlock(d, tail, cfg);
    }
  }

  lemma ScanCode(line: string, tail: seq<string>, cfg: Config)
    requires WellFormed(cfg) && Readable(Code(line), cfg)
    ensures Fragments(Emit(Code(line), cfg) + tail, cfg) == Fragments(tail, cfg)
  {
    var ls := [line] + tail;
    assert Emit(Code(line), cfg) + tail == ls;
    FragmentsAtMatch(ls, cfg);
    assert ls[1..] == tail;
  }

  lemma ScanInline(d: Piece, tail: seq<string>, cfg: Config)
    requires WellFormed(cfg) && d.InlineDoc? && Readable(d, cfg)
    ensures Fragments(Emit(d, cfg) + tail, cfg) == DocOf(d) + Fragments(tail, cfg)
  {
    var ls := Emit(d, cfg) + tail;
    assert ls[1..] == tail;
    assert Fragments(ls, cfg) == [Wrap(d.tag, d.text)] + Fragments(ls[1..], cfg) by {
      InlineFragment(ls, cfg, d.lead, d.gap, d.tag, d.space, d.text);
    }
  }

  lemma ScanBlock(d: Piece, tail: seq<string>, cfg: Config)
    requires WellFormed(cfg) && d.BlockDoc? && Readable(d, cfg)
    ensures Fragments(Emit(d, cfg) + tail, cfg) == DocOf(d) + Fragments(tail, cfg)
  {
    var indents := Indents(d, cfg);
    var opener := indents + cfg.startSymbol + TagText(d.tag);
    var mid := Indented(indents, d.body);
    var close := indents + cfg.endSymbol;
    var ls := [opener] + (mid + ([close] + tail));
    assert Emit(d, cfg) + tail == ls;
    var j := |d.body| + 1;
    assert ls[1..] == mid + ([close] + tail);
    assert ls[1..j] == mid by {
      assert ls[1..j] == (ls[1..])[..|mid|];
    }
    assert ls[j] == close;
    assert ls[j + 1..] == tail;
    assert IsTerminator(close, cfg) by {
      assert close == d.lead + cfg.token + d.gap + cfg.endSymbol + "";
      MarkerPrefixOfLine(d.lead, cfg.token, d.gap, cfg.endSymbol, "");
    }
    assert forall m :: 2 <= m < j ==> !IsTerminator(ls[m], cfg) by {
      forall m | 2 <= m < j
        ensures !IsTerminator(ls[m], cfg)
      {
        assert ls[m] == mid[m - 1];
      }
    }
    assert Fragments(ls, cfg) == [Wrap(d.tag, Lines(d.body))] + Fragments(tail, cfg) by {
      BlockFragment(ls, cfg, d.lead, d.gap, d.tag, j);
      UnindentIndented(indents, d.body);
    }
  }

  /**
   * Round trip of the scanner: the fragments read from a file made of readable pieces are
   * the pieces' documentation, in order.
   */
  lemma {:induction false} ScanEmitted(ds: seq<Piece>, cfg: Config)
    requires WellFormed(cfg) && forall k :: 0 <= k < |ds| ==> Readable(ds[k], cfg)
    ensures Fragments(EmitAll(ds, cfg), cfg) == Texts(ds)
  {
    if ds != [] {
      ScanEmitted(ds[1..], cfg);
      ScanPiece(ds[0], EmitAll(ds[1..], cfg), cfg);
    }
  }

  /** So `_readFile` of such a file is the documentation joined by CRLF, or nothing. */
  lemma ReadEmitted(ext: string, ds: seq<Piece>, cfg: Config)
    requires WellFormed(cfg) && forall k :: 0 <= k < |ds| ==> Readable(ds[k], cfg)
    requires !IsMarkdownExt(ext)
    ensures Texts(ds) == [] ==> FileOutput(ext, EmitAll(ds, cfg), cfg) == None
    ensures Texts(ds) != [] ==> FileOutput(ext, EmitAll(ds, cfg), cfg) == Some(Join(Texts(ds), "\r\n"))
  {
    ScanEmitted(ds, cfg);
  }
}
