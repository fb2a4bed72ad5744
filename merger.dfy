/**
 * The merge of `_createBuffer`: for every bucket key, each marker pair
 * `<!--\smdnize[key]:\s-->` … `<!--\s:mdnize\s-->` of the destination text (the bracketless
 * `<!--\smdnize:\s-->` for the default key) whose interior is non-empty is replaced, all
 * through the text, by the canonical opening marker, the bucket's entries and the closing
 * marker.
 *
 * The text is a string of characters; `\s` is the whitespace class of JavaScript.
 */
module Merger {
  import opened Text
  import Router

  /** The word between the blanks of an opening marker. */
  function Label(key: string): (l: string)
    ensures |l| >= 7 && IsWordHead(l[..7]) && l[..7] != CloseLabel
  {
    if key == "" then "mdnize:" else "mdnize[" + key + "]:"
  }

  const CloseLabel: string := ":mdnize"

  /** The first seven characters of every marker word: `mdnize[`, `mdnize:` or `:mdnize`. */
  predicate IsWordHead(w: string) {
    w == "mdnize[" || w == "mdnize:" || w == CloseLabel
  }

  /** `<!--\s<word>\s-->` at position `p` of `s`. */
  predicate MarkerAt(s: string, p: nat, word: string) {
    && p + |word| + 9 <= |s|
    && s[p..p + 4] == "<!--"
    && IsSpace(s[p + 4])
    && s[p + 5..p + 5 + |word|] == word
    && IsSpace(s[p + 5 + |word|])
    && s[p + 6 + |word|..p + 9 + |word|] == "-->"
  }

  /** The marker as this tool writes it, with single spaces. */
  function Marker(word: string): (m: string)
    ensures |m| == |word| + 9
  {
    "<!-- " + word + " -->"
  }

  const Close: string := Marker(CloseLabel)

  /** The nearest closing marker at `from` or later. */
  function FindClose(s: string, from: nat): (c: Option<nat>)
    ensures c.Some? ==> from <= c.value && MarkerAt(s, c.value, CloseLabel)
    ensures c.Some? ==> forall q :: from <= q < c.value ==> !MarkerAt(s, q, CloseLabel)
    ensures c.None? ==> forall q :: from <= q ==> !MarkerAt(s, q, CloseLabel)
    decreases |s| - from
  {
    if from + |CloseLabel| + 9 > |s| then None
    else if MarkerAt(s, from, CloseLabel) then Some(from)
    else FindClose(s, from + 1)
  }

  /**
   * The end of the marker pair of `key` that starts at the head of `t`: the opening marker,
   * an interior of at least one character and the nearest closing marker after it.
   */
  function Match(t: string, key: string): (e: Option<nat>)
    ensures e.Some? ==> MarkerAt(t, 0, Label(key)) && |Label(key)| + 9 + 1 + |Close| <= e.value <= |t|
    ensures e.Some? ==> MarkerAt(t, e.value - |Close|, CloseLabel)
  {
    if MarkerAt(t, 0, Label(key)) then
      match FindClose(t, |Label(key)| + 10)
      case Some(c) => Some(c + |Close|)
      case None => None
    else None
  }

  /** `t.replace(regexp, rep)` with the global flag: every pair, scanning left to right. */
  function Replace(t: string, key: string, rep: string): string
    decreases |t|
  {
    if t == [] then []
    else match Match(t, key)
      case Some(e) => rep + Replace(t[e..], key, rep)
      case None => [t[0]] + Replace(t[1..], key, rep)
  }

  /** A pair as this tool writes it around `body`. */
  function Wrapped(key: string, body: string): (w: string)
    ensures |w| == |Label(key)| + 9 + 8 + |body| + |Close|
  {
    Marker(Label(key)) + "\r\n\r\n" + body + "\r\n\r\n" + Close
  }

  /** The entries of a bucket, separated by blank lines. */
  function Body(entries: seq<string>): string {
    Join(entries, "\r\n\r\n")
  }

  /** What a pair of `key` becomes: canonical opening marker, entries, closing marker. */
  function Replacement(key: string, entries: seq<string>): string {
    Wrapped(key, Body(entries))
  }

  /** Each bucket key with the text its pairs are replaced by, in the order of the keys. */
  function Pairs(keys: seq<string>, lists: map<string, seq<string>>): (ps: seq<(string, string)>)
    requires forall i :: 0 <= i < |keys| ==> keys[i] in lists
    ensures |ps| == |keys|
    ensures forall i :: 0 <= i < |keys| ==> ps[i] == (keys[i], Replacement(keys[i], lists[keys[i]]))
  {
    seq(|keys|, i requires 0 <= i < |keys| => (keys[i], Replacement(keys[i], lists[keys[i]])))
  }

  /** The text after the replacements of the first `n` pairs, in order. */
  function Merged(str: string, pairs: seq<(string, string)>, n: nat): string
    requires n <= |pairs|
  {
    if n == 0 then str else Replace(Merged(str, pairs, n - 1), pairs[n - 1].0, pairs[n - 1].1)
  }

  lemma MergedNext(str: string, pairs: seq<(string, string)>, i: nat)
    requires i < |pairs|
    ensures Merged(str, pairs, i + 1) == Replace(Merged(str, pairs, i), pairs[i].0, pairs[i].1)
  {
  }

  /**
   * `_createBuffer`: the pairs of every bucket key, in the order of the keys, are replaced by
   * the bucket's entries.
   */
  method CreateBuffer(str: string, table: Router.BucketTable) returns (buffer: string)
    requires forall j :: 0 <= j < |table.keys| ==> table.keys[j] in table.lists
    ensures buffer == Merged(str, Pairs(table.keys, table.lists), |table.keys|)
  {
    var keys, lists := table.keys, table.lists;
    ghost var pairs := Pairs(keys, lists);
    buffer := str;
    for i := 0 to |keys|
      invariant buffer == Merged(str, pairs, i)
    {
      var key := keys[i];
      MergedNext(str, pairs, i);
      buffer := Replace(buffer, key, Replacement(key, lists[key]));
    }
  }

  /** A bucket key as discovery produces it: without `<` and `]`. */
  predicate KeyOk(key: string) {
    '<' !in key && ']' !in key
  }

  /** `<!--`, a whitespace and the first seven characters of a marker word at `p`: where every marker begins. */
  predicate HeadAt(s: string, p: nat) {
    p + 12 <= |s| && s[p..p + 4] == "<!--" && IsSpace(s[p + 4]) && IsWordHead(s[p + 5..p + 12])
  }

  /** Text in which no marker begins. */
  predicate Inert(x: string) {
    forall p :: 0 <= p < |x| ==> !HeadAt(x, p)
  }

  /**
   * Keys and buckets as the merge can rely on them: distinct keys as discovery produces them,
   * each with a bucket whose entries hold no marker.
   */
  predicate Ready(keys: seq<string>, lists: map<string, seq<string>>) {
    && (forall i :: 0 <= i < |keys| ==> keys[i] in lists && KeyOk(keys[i]) && Inert(Body(lists[keys[i]])))
    && (forall i, j :: 0 <= i < j < |keys| ==> keys[i] != keys[j])
  }
}

/** Properties of the merge: what a replacement leaves behind, and why merging twice changes nothing. */
module MergerFacts {
  import opened Text
  import opened Merger

  lemma MarkerHead(s: string, p: nat, word: string)
    requires MarkerAt(s, p, word) && |word| >= 7 && IsWordHead(word[..7])
    ensures HeadAt(s, p) && s[p] == '<'
  {
    assert s[p..p + 4][0] == s[p];
    assert s[p + 5..p + 12] == s[p + 5..p + 5 + |word|][..7];
  }

  /** A key free of `<` has a marker word free of `<`. */
  lemma LabelNoLt(key: string)
    requires KeyOk(key)
    ensures '<' !in Label(key)
  {
    if key != "" {
      assert Label(key) == "mdnize[" + key + "]:";
    }
  }

  /** A marker has `<` only at its start. */
  lemma MarkerNoLt(s: string, p: nat, word: string, q: nat)
    requires MarkerAt(s, p, word) && '<' !in word && p < q < p + |word| + 9
    ensures s[q] != '<'
  {
    if q < p + 4 {
      assert s[q] == s[p..p + 4][q - p];
    } else if q == p + 4 {
    } else if q < p + 5 + |word| {
      assert s[q] == s[p + 5..p + 5 + |word|][q - p - 5];
    } else if q == p + 5 + |word| {
    } else {
      assert s[q] == s[p + 6 + |word|..p + 9 + |word|][q - p - 6 - |word|];
    }
  }

  /** Whether a marker is present depends only on its own characters. */
  lemma MarkerShift(a: string, x: string, p: nat, word: string)
    ensures MarkerAt(a + x, |a| + p, word) <==> MarkerAt(x, p, word)
  {
    var s := a + x;
    if p + |word| + 9 <= |x| {
      assert s[|a| + p..|a| + p + 4] == x[p..p + 4];
      assert s[|a| + p + 4] == x[p + 4];
      assert s[|a| + p + 5..|a| + p + 5 + |word|] == x[p + 5..p + 5 + |word|];
      assert s[|a| + p + 5 + |word|] == x[p + 5 + |word|];
      assert s[|a| + p + 6 + |word|..|a| + p + 9 + |word|] == x[p + 6 + |word|..p + 9 + |word|];
    }
  }

  lemma MarkerExtend(x: string, y: string, p: nat, word: string)
    requires MarkerAt(x, p, word)
    ensures MarkerAt(x + y, p, word)
  {
    var s := x + y;
    assert s[p..p + 4] == x[p..p + 4];
    assert s[p + 5..p + 5 + |word|] == x[p + 5..p + 5 + |word|];
    assert s[p + 6 + |word|..p + 9 + |word|] == x[p + 6 + |word|..p + 9 + |word|];
  }

  /** The marker this tool writes is a marker. */
  lemma MarkerWritten(word: string, v: string)
    ensures MarkerAt(Marker(word) + v, 0, word)
  {
    var s := Marker(word) + v;
    assert s[0..4] == "<!--";
    assert s[5..5 + |word|] == word;
    assert s[6 + |word|..9 + |word|] == "-->";
  }

  /** Where the parts of a written pair lie. */
  lemma WrappedLayout(key: string, body: string, v: string)
    ensures var w := Wrapped(key, body) + v; var n := |Label(key)| + 9; var z := n + 4 + |body|;
      && w[..n] == Marker(Label(key))
      && w[n..n + 4] == "\r\n\r\n"
      && w[n + 4..z] == body
      && w[z..z + 4] == "\r\n\r\n"
      && w[z + 4..] == Close + v
      && w[z + 4 + |Close|..] == v
  {
  }

  /** Inside a written pair, the only place a marker can begin is its closing marker. */
  lemma HeadsInWrapped(key: string, body: string, v: string, p: nat)
    requires KeyOk(key) && Inert(body)
    requires 0 < p < |Wrapped(key, body)| && HeadAt(Wrapped(key, body) + v, p)
    ensures p == |Label(key)| + 9 + 4 + |body| + 4
  {
    var n := |Label(key)| + 9;
    var z := n + 4 + |body|;
    if p < n {
      NoHeadInOpening(key, body, v, p);
    } else if p < n + 4 || z <= p < z + 4 {
      NoHeadInSeparators(key, body, v, p);
    } else if p < z {
      NoHeadInBody(key, body, v, p);
    } else if p > z + 4 {
      NoHeadInClosing(key, body, v, p);
    }
  }

  lemma HeadIsLt(s: string, p: nat)
    requires HeadAt(s, p)
    ensures s[p] == '<'
  {
    assert s[p..p + 4][0] == s[p];
  }

  lemma NoHeadInOpening(key: string, body: string, v: string, p: nat)
    requires KeyOk(key) && 0 < p < |Label(key)| + 9
    ensures !HeadAt(Wrapped(key, body) + v, p)
  {
    var w := Wrapped(key, body) + v;
    var n := |Label(key)| + 9;
    WrappedLayout(key, body, v);
    LabelNoLt(key);
    MarkerWritten(Label(key), "");
    assert Marker(Label(key)) + "" == Marker(Label(key));
    MarkerNoLt(Marker(Label(key)), 0, Label(key), p);
    assert w[p] == w[..n][p];
    if HeadAt(w, p) {
      HeadIsLt(w, p);
    }
  }

  lemma NoHeadInSeparators(key: string, body: string, v: string, p: nat)
    requires var n := |Label(key)| + 9; var z := n + 4 + |body|; n <= p < n + 4 || z <= p < z + 4
    ensures !HeadAt(Wrapped(key, body) + v, p)
  {
    var w := Wrapped(key, body) + v;
    var n := |Label(key)| + 9;
    var z := n + 4 + |body|;
    WrappedLayout(key, body, v);
    if p < n + 4 {
      assert w[p] == w[n..n + 4][p - n];
    } else {
      assert w[p] == w[z..z + 4][p - z];
    }
    if HeadAt(w, p) {
      HeadIsLt(w, p);
    }
  }

  lemma NoHeadInBody(key: string, body: string, v: string, p: nat)
    requires Inert(body)
    requires var n := |Label(key)| + 9; n + 4 <= p < n + 4 + |body|
    ensures !HeadAt(Wrapped(key, body) + v, p)
  {
    var w := Wrapped(key, body) + v;
    var n := |Label(key)| + 9;
    var z := n + 4 + |body|;
    WrappedBody(key, body, v);
    if p + 12 <= z {
      assert !HeadAt(w[n + 4..z], p - (n + 4));
      NoHeadFromSlice(w, n + 4, z, p);
    } else {
      WrappedLayout(key, body, v);
      assert w[z] == w[z..z + 4][0] && w[z + 1] == w[z..z + 4][1];
      NoHeadAcross(w, p, z);
    }
  }

  /** Where the body of a written pair lies. */
  lemma WrappedBody(key: string, body: string, v: string)
    ensures var n := |Label(key)| + 9; (Wrapped(key, body) + v)[n + 4..n + 4 + |body|] == body
  {
    WrappedLayout(key, body, v);
  }

  /** A marker head inside the window `w[a..b]` of `w` is a marker head of the window too. */
  lemma NoHeadFromSlice(w: string, a: nat, b: nat, p: nat)
    requires a <= p && p + 12 <= b <= |w| && !HeadAt(w[a..b], p - a)
    ensures !HeadAt(w, p)
  {
    var x, i := w[a..b], p - a;
    var y, z := x[i..i + 12], w[p..p + 12];
    forall k | 0 <= k < 12
      ensures y[k] == z[k]
    {
      assert y[k] == x[i + k] == w[a + i + k];
    }
    assert y == z;
    SameHead(x, i, w, p);
  }

  /** Whether a marker head is at a position depends only on the twelve characters there. */
  lemma SameHead(x: string, i: nat, w: string, p: nat)
    requires i + 12 <= |x| && p + 12 <= |w|
    requires x[i..i + 12] == w[p..p + 12]
    ensures HeadAt(x, i) <==> HeadAt(w, p)
  {
    var y, z := x[i..i + 12], w[p..p + 12];
    var y1, z1, y2, z2 := x[i..i + 4], w[p..p + 4], x[i + 5..i + 12], w[p + 5..p + 12];
    forall k | 0 <= k < 4
      ensures y1[k] == z1[k]
    {
      assert y1[k] == y[k] && z1[k] == z[k];
    }
    forall k | 0 <= k < 7
      ensures y2[k] == z2[k]
    {
      assert y2[k] == y[k + 5] && z2[k] == z[k + 5];
    }
    assert x[i + 4] == y[4] && w[p + 4] == z[4];
    assert y1 == z1 && y2 == z2;
  }

  /** A character that occurs in a marker head other than at its whitespace. */
  predicate HeadChar(c: char) {
    c == '<' || c == '!' || c == '-' || c == 'm' || c == 'd' || c == 'n' || c == 'i' || c == 'z' || c == 'e'
    || c == '[' || c == ':'
  }

  /**
   * No marker head begun at `p` runs over position `z` when the character there cannot be
   * part of one and the next cannot start a marker word.
   */
  lemma NoHeadAcross(s: string, p: nat, z: nat)
    requires p < z < p + 12 && z + 1 < |s|
    requires !HeadChar(s[z]) && s[z + 1] != 'm' && s[z + 1] != ':'
    ensures !HeadAt(s, p)
  {
    if p + 12 <= |s| {
      if z < p + 4 {
        assert s[p..p + 4][z - p] == s[z];
      } else if z == p + 4 {
        assert s[p + 5..p + 12][0] == s[z + 1];
      } else {
        assert s[p + 5..p + 12][z - p - 5] == s[z];
      }
    }
  }

  /** No marker head begins at a character other than `<`. */
  lemma NoLtNoHead(s: string, p: nat)
    requires p < |s| && s[p] != '<'
    ensures !HeadAt(s, p)
  {
    if p + 12 <= |s| {
      assert s[p..p + 4][0] == s[p];
    }
  }

  /** A head that begins inside `y` is a head of `x + y` at the shifted position, and back. */
  lemma HeadShift(x: string, y: string, q: nat)
    requires q < |y|
    ensures HeadAt(x + y, |x| + q) <==> HeadAt(y, q)
  {
    if q + 12 <= |y| {
      var a, b := y[q..q + 12], (x + y)[|x| + q..|x| + q + 12];
      forall k | 0 <= k < 12
        ensures a[k] == b[k]
      {
      }
      assert a == b;
      SameHead(y, q, x + y, |x| + q);
    }
  }

  /** A head that ends inside `x` is a head of `x + y`, and back. */
  lemma HeadPrefix(x: string, y: string, p: nat)
    requires p + 12 <= |x|
    ensures HeadAt(x + y, p) <==> HeadAt(x, p)
  {
    var a, b := x[p..p + 12], (x + y)[p..p + 12];
    forall k | 0 <= k < 12
      ensures a[k] == b[k]
    {
    }
    assert a == b;
    SameHead(x, p, x + y, p);
  }

  /** `y` cannot complete a marker head begun before it: its first two characters rule that out. */
  predicate ClosesNoHead(y: string) {
    |y| >= 2 && !HeadChar(y[0]) && y[1] != 'm' && y[1] != ':'
  }

  /** Two texts without marker heads, the second beginning as `ClosesNoHead` says, have none together. */
  lemma InertAppend(x: string, y: string)
    requires Inert(x) && Inert(y) && ClosesNoHead(y)
    ensures Inert(x + y)
  {
    forall p | 0 <= p < |x + y|
      ensures !HeadAt(x + y, p)
    {
      if p >= |x| {
        HeadShift(x, y, p - |x|);
      } else if p + 12 <= |x| {
        HeadPrefix(x, y, p);
      } else {
        NoHeadAcross(x + y, p, |x|);
      }
    }
  }

  /** Text without marker heads stays so behind text without `<`. */
  lemma InertAfterNoLt(a: string, y: string)
    requires '<' !in a && Inert(y)
    ensures Inert(a + y)
  {
    forall p | 0 <= p < |a + y|
      ensures !HeadAt(a + y, p)
    {
      if p < |a| {
        assert (a + y)[p] == a[p];
        NoLtNoHead(a + y, p);
      } else {
        HeadShift(a, y, p - |a|);
      }
    }
  }

  /** The entries of a bucket, each without marker heads, are joined into a body without any. */
  lemma {:induction false} BodyInert(entries: seq<string>)
    requires forall i :: 0 <= i < |entries| ==> Inert(entries[i])
    ensures Inert(Body(entries))
    decreases |entries|
  {
    if |entries| >= 2 {
      var sep, rest := "\r\n\r\n", Body(entries[1..]);
      BodyInert(entries[1..]);
      InertAfterNoLt(sep, rest);
      InertAppend(entries[0], sep + rest);
      assert Body(entries) == entries[0] + (sep + rest);
    } else if |entries| == 0 {
      assert Body(entries) == [];
    }
  }

  lemma NoHeadInClosing(key: string, body: string, v: string, p: nat)
    requires var z := |Label(key)| + 9 + 4 + |body|; z + 4 < p < |Wrapped(key, body)|
    ensures !HeadAt(Wrapped(key, body) + v, p)
  {
    var w := Wrapped(key, body) + v;
    var z := |Label(key)| + 9 + 4 + |body|;
    WrappedLayout(key, body, v);
    MarkerWritten(CloseLabel, v);
    MarkerNoLt(Close + v, 0, CloseLabel, p - z - 4);
    assert w[p] == w[z + 4..][p - z - 4];
    if HeadAt(w, p) {
      HeadIsLt(w, p);
    }
  }

  /** A written pair is a pair of its own key, ending where the written text ends. */
  lemma MatchWrapped(key: string, body: string, v: string)
    requires KeyOk(key) && Inert(body)
    ensures Match(Wrapped(key, body) + v, key) == Some(|Wrapped(key, body)|)
  {
    var z := |Label(key)| + 9 + 4 + |body|;
    OpeningOfWrapped(key, body, v);
    ClosingOfWrapped(key, body, v);
    NoCloseInsideWrapped(key, body, v);
    MatchAt(Wrapped(key, body) + v, key, z + 4);
  }

  /** The opening marker of a written pair. */
  lemma OpeningOfWrapped(key: string, body: string, v: string)
    ensures MarkerAt(Wrapped(key, body) + v, 0, Label(key))
  {
    var w := Wrapped(key, body) + v;
    var n := |Label(key)| + 9;
    assert w == Marker(Label(key)) + w[n..] by {
      WrappedLayout(key, body, v);
      assert w[..n] + w[n..] == w;
    }
    MarkerWritten(Label(key), w[n..]);
  }

  /** A pair is matched up to the nearest closing marker after a non-empty interior. */
  lemma MatchAt(t: string, key: string, c: nat)
    requires MarkerAt(t, 0, Label(key)) && |Label(key)| + 10 <= c && MarkerAt(t, c, CloseLabel)
    requires forall q :: |Label(key)| + 10 <= q < c ==> !MarkerAt(t, q, CloseLabel)
    ensures Match(t, key) == Some(c + |Close|)
  {
    FindCloseAt(t, |Label(key)| + 10, c);
  }

  /** The closing marker of a written pair. */
  lemma ClosingOfWrapped(key: string, body: string, v: string)
    ensures MarkerAt(Wrapped(key, body) + v, |Label(key)| + 9 + 4 + |body| + 4, CloseLabel)
  {
    WrappedTail(key, body, v);
    CloseInSuffix(Wrapped(key, body) + v, |Label(key)| + 9 + 4 + |body| + 4, v);
  }

  /** What follows the body of a written pair: its closing marker, then the rest of the text. */
  lemma WrappedTail(key: string, body: string, v: string)
    ensures (Wrapped(key, body) + v)[|Label(key)| + 9 + 4 + |body| + 4..] == Close + v
  {
    WrappedLayout(key, body, v);
  }

  /** A closing marker at the head of a suffix of `w` is a closing marker of `w` where that suffix begins. */
  lemma CloseInSuffix(w: string, k: nat, v: string)
    requires k <= |w| && w[k..] == Close + v
    ensures MarkerAt(w, k, CloseLabel)
  {
    MarkerWritten(CloseLabel, v);
    MarkerShift(w[..k], w[k..], 0, CloseLabel);
    assert w[..k] + w[k..] == w;
  }

  /** No closing marker lies between the opening marker and the closing marker of a written pair. */
  lemma NoCloseInsideWrapped(key: string, body: string, v: string)
    requires KeyOk(key) && Inert(body)
    ensures var n := |Label(key)| + 9; var z := n + 4 + |body|;
      forall q :: n + 1 <= q < z + 4 ==> !MarkerAt(Wrapped(key, body) + v, q, CloseLabel)
  {
    var w := Wrapped(key, body) + v;
    var n := |Label(key)| + 9;
    var z := n + 4 + |body|;
    forall q | n + 1 <= q < z + 4
      ensures !MarkerAt(w, q, CloseLabel)
    {
      if MarkerAt(w, q, CloseLabel) {
        MarkerHead(w, q, CloseLabel);
        HeadsInWrapped(key, body, v, q);
      }
    }
  }

  /** The nearest closing marker from `from` is at `c` when one is there and none is before it. */
  lemma {:induction false} FindCloseAt(s: string, from: nat, c: nat)
    requires from <= c && MarkerAt(s, c, CloseLabel)
    requires forall q :: from <= q < c ==> !MarkerAt(s, q, CloseLabel)
    ensures FindClose(s, from) == Some(c)
    decreases c - from
  {
    if from < c {
      FindCloseAt(s, from + 1, c);
    }
  }

  /** No pair of any key begins strictly inside a written pair. */
  lemma NoMatchInsideWrapped(key: string, body: string, v: string, p: nat, other: string)
    requires KeyOk(key) && Inert(body) && 0 < p < |Wrapped(key, body)|
    ensures Match((Wrapped(key, body) + v)[p..], other).None?
  {
    var w := Wrapped(key, body) + v;
    NoMarkerInsideWrapped(key, body, v, p, other);
    NoMatchWithoutMarker(w, p, other);
  }

  /** Without an opening marker at `p` no pair begins there. */
  lemma NoMatchWithoutMarker(w: string, p: nat, key: string)
    requires p <= |w| && !MarkerAt(w, p, Label(key))
    ensures Match(w[p..], key).None?
  {
    MarkerShift(w[..p], w[p..], 0, Label(key));
    assert w[..p] + w[p..] == w;
  }

  lemma NoMarkerInsideWrapped(key: string, body: string, v: string, p: nat, other: string)
    requires KeyOk(key) && Inert(body) && 0 < p < |Wrapped(key, body)|
    ensures !MarkerAt(Wrapped(key, body) + v, p, Label(other))
  {
    var w := Wrapped(key, body) + v;
    if MarkerAt(w, p, Label(other)) {
      MarkerHead(w, p, Label(other));
      HeadsInWrapped(key, body, v, p);
      ClosingOfWrapped(key, body, v);
      MarkerHead(w, p, CloseLabel);
    }
  }

  /** A written pair of one key is not a pair of another key. */
  lemma OtherKeyOnWrapped(key: string, other: string, body: string, v: string)
    requires KeyOk(key) && KeyOk(other) && key != other
    ensures Match(Wrapped(key, body) + v, other).None?
  {
    OpeningOfWrapped(key, body, v);
    OtherKeyAtMarker(Wrapped(key, body) + v, key, other);
  }

  /** Text that begins with the opening marker of one key is not a pair of another key. */
  lemma OtherKeyAtMarker(w: string, key: string, other: string)
    requires KeyOk(key) && KeyOk(other) && key != other && MarkerAt(w, 0, Label(key))
    ensures Match(w, other).None?
  {
    if MarkerAt(w, 0, Label(other)) {
      SameLabel(w, key, other);
    }
  }

  /** Two keys without `]` whose markers both begin at the head of `w` are equal. */
  lemma SameLabel(w: string, k1: string, k2: string)
    requires KeyOk(k1) && KeyOk(k2) && MarkerAt(w, 0, Label(k1)) && MarkerAt(w, 0, Label(k2))
    ensures k1 == k2
  {
    var l1, l2 := Label(k1), Label(k2);
    assert w[5..5 + |l1|] == l1 && w[5..5 + |l2|] == l2;
    if |l1| <= |l2| {
      assert l1 == l2[..|l1|];
      LabelPrefix(k1, k2);
    } else {
      assert l2 == l1[..|l2|];
      LabelPrefix(k2, k1);
    }
  }

  lemma LabelPrefix(k1: string, k2: string)
    requires KeyOk(k1) && KeyOk(k2) && Label(k1) <= Label(k2)
    ensures k1 == k2
  {
    var l1, l2 := Label(k1), Label(k2);
    assert l1[6] == l2[6];
    if k1 != "" {
      assert l2[7 + |k1|] == l1[7 + |k1|] == ']';
      assert forall i :: 0 <= i < |k2| ==> l2[7 + i] == k2[i];
      assert k1 == l1[7..7 + |k1|] == l2[7..7 + |k2|] == k2;
    }
  }
}
