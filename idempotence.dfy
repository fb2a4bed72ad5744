/**
 * Why merging a destination text a second time changes nothing: after the replacement for a
 * key, every pair of that key reads exactly its replacement ("clean"), replacing the pairs of
 * another key keeps it so, and a text that is clean for a key is left as it is.
 */
module Idempotence {
  import opened Text
  import opened Merger
  import opened MergerFacts

  /** Every pair of `key` in `t`, wherever it begins, already reads `rep`. */
  predicate Clean(t: string, key: string, rep: string)
    decreases |t|
  {
    t == [] || ((Match(t, key).Some? ==> t[..Match(t, key).value] == rep) && Clean(t[1..], key, rep))
  }

  lemma {:induction false} CleanSuffix(t: string, key: string, rep: string, j: nat)
    requires Clean(t, key, rep) && j <= |t|
    ensures Clean(t[j..], key, rep)
    decreases j
  {
    if j > 0 {
      CleanSuffix(t[1..], key, rep, j - 1);
      assert t[1..][j - 1..] == t[j..];
    }
  }

  /** A clean text is its own replacement. */
  lemma {:induction false} CleanIdentity(t: string, key: string, rep: string)
    requires Clean(t, key, rep)
    ensures Replace(t, key, rep) == t
    decreases |t|
  {
    if t != [] {
      match Match(t, key)
      case Some(e) =>
        assert Replace(t[e..], key, rep) == t[e..] by {
          CleanSuffix(t, key, rep, e);
          CleanIdentity(t[e..], key, rep);
        }
        assert t[..e] == rep;
        SplitJoin(t, e);
      case None =>
        assert Replace(t[1..], key, rep) == t[1..] by {
          CleanIdentity(t[1..], key, rep);
        }
        SplitJoin(t, 1);
        assert [t[0]] == t[..1];
    }
  }

  lemma SplitJoin(t: string, e: nat)
    requires e <= |t|
    ensures t[..e] + t[e..] == t
  {
  }

  lemma AppendParts(a: string, b: string)
    ensures (a + b)[..|a|] == a && (a + b)[|a|..] == b && (a + b)[0..] == a + b
  {
  }

  lemma SuffixTail(t: string, p: nat)
    requires p < |t|
    ensures t[p..][1..] == t[p + 1..] && t[p..][0] == t[p]
  {
  }

  /** A written pair put in front of a clean text keeps it clean, for its own key and any other. */
  lemma CleanAfterWrapped(key: string, body: string, y: string, k: string, rep: string)
    requires KeyOk(key) && KeyOk(k) && Inert(body) && Clean(y, k, rep)
    requires k == key ==> rep == Wrapped(key, body)
    ensures Clean(Wrapped(key, body) + y, k, rep)
  {
    CleanWithin(key, body, y, k, rep, 0);
    AppendParts(Wrapped(key, body), y);
  }

  lemma {:induction false} CleanWithin(key: string, body: string, y: string, k: string, rep: string, p: nat)
    requires KeyOk(key) && KeyOk(k) && Inert(body) && Clean(y, k, rep)
    requires k == key ==> rep == Wrapped(key, body)
    requires p <= |Wrapped(key, body)|
    ensures Clean((Wrapped(key, body) + y)[p..], k, rep)
    decreases |Wrapped(key, body)| - p
  {
    var w := Wrapped(key, body) + y;
    AppendParts(Wrapped(key, body), y);
    if p < |Wrapped(key, body)| {
      CleanWithin(key, body, y, k, rep, p + 1);
      SuffixTail(w, p);
      if p == 0 {
        if k == key {
          MatchWrapped(key, body, y);
        } else {
          OtherKeyOnWrapped(key, k, body, y);
        }
      } else {
        NoMatchInsideWrapped(key, body, y, p, k);
      }
      CleanCons(w[p..], k, rep);
    }
  }

  /** A text is clean when its tail is and the pair at its head, if any, reads `rep`. */
  lemma CleanCons(t: string, key: string, rep: string)
    requires t != [] && Clean(t[1..], key, rep)
    requires Match(t, key).Some? ==> t[..Match(t, key).value] == rep
    ensures Clean(t, key, rep)
  {
  }

  /** A written pair begins with `<`. */
  lemma WrappedHead(key: string, body: string)
    ensures |Wrapped(key, body)| > 0 && Wrapped(key, body)[0] == '<'
  {
    assert Wrapped(key, body)[0] == Marker(Label(key))[0];
  }

  /** No pair begins where there is no `<`. */
  lemma NoMatchWithoutLt(t: string, key: string)
    requires t == [] || t[0] != '<'
    ensures Match(t, key).None?
  {
    if MarkerAt(t, 0, Label(key)) {
      MarkerHead(t, 0, Label(key));
    }
  }

  /** The first `<` at `from` or later, or the length when there is none. */
  function FirstLt(y: string, from: nat): (f: nat)
    requires from <= |y|
    ensures from <= f <= |y|
    ensures forall q :: from <= q < f ==> y[q] != '<'
    ensures f < |y| ==> y[f] == '<'
    decreases |y| - from
  {
    if from == |y| || y[from] == '<' then from else FirstLt(y, from + 1)
  }

  /**
   * Replacing with a text that begins with `<` copies everything before the first `<` and
   * still has a `<` there.
   */
  lemma {:induction false} Frontier(y: string, key: string, rep: string, f: nat)
    requires |rep| > 0 && rep[0] == '<' && f <= |y|
    requires forall q :: 0 <= q < f ==> y[q] != '<'
    ensures |Replace(y, key, rep)| >= f && Replace(y, key, rep)[..f] == y[..f]
    ensures f < |y| && y[f] == '<' ==> |Replace(y, key, rep)| > f && Replace(y, key, rep)[f] == '<'
    ensures f == |y| ==> Replace(y, key, rep) == y
    decreases f
  {
    if f > 0 {
      NoMatchWithoutLt(y, key);
      ReplaceCopy(y, key, rep);
      Frontier(y[1..], key, rep, f - 1);
      PrefixCons(y, f);
      PrefixCons(Replace(y, key, rep), f);
      ConsTail(y);
    }
  }

  /** Whether an opening marker is at the head depends only on the marker's own characters. */
  lemma MarkerWindow(s: string, t: string, word: string)
    requires MarkerAt(s, 0, word) && |word| + 9 <= |t| && s[..|word| + 9] == t[..|word| + 9]
    ensures MarkerAt(t, 0, word)
  {
    var n := |word| + 9;
    assert s[0..4] == s[..n][0..4] && t[0..4] == t[..n][0..4];
    assert s[4] == s[..n][4] && t[4] == t[..n][4];
    assert s[5..5 + |word|] == s[..n][5..5 + |word|] && t[5..5 + |word|] == t[..n][5..5 + |word|];
    assert s[5 + |word|] == s[..n][5 + |word|] && t[5 + |word|] == t[..n][5 + |word|];
    assert s[6 + |word|..n] == s[..n][6 + |word|..n] && t[6 + |word|..n] == t[..n][6 + |word|..n];
  }

  /** A text in which no pair begins anywhere is its own replacement. */
  lemma {:induction false} NoMatchNoChange(y: string, key: string, rep: string)
    requires forall q :: 0 <= q <= |y| ==> Match(y[q..], key).None?
    ensures Replace(y, key, rep) == y
    decreases |y|
  {
    if y != [] {
      assert y[0..] == y;
      forall q | 0 <= q <= |y| - 1
        ensures Match(y[1..][q..], key).None?
      {
        assert y[1..][q..] == y[q + 1..];
      }
      NoMatchNoChange(y[1..], key, rep);
      assert [y[0]] + y[1..] == y;
    }
  }

  /** A key whose opening marker is nowhere in `t` leaves `t` as it is. */
  lemma NoMarkerUnchanged(t: string, key: string, rep: string)
    requires forall p :: 0 <= p <= |t| ==> !MarkerAt(t, p, Label(key))
    ensures Replace(t, key, rep) == t
  {
    forall q | 0 <= q <= |t|
      ensures Match(t[q..], key).None?
    {
      NoMatchWithoutMarker(t, q, key);
    }
    NoMatchNoChange(t, key, rep);
  }

  /** An opening marker at the head without a pair: no closing marker follows it. */
  lemma NoCloseAfter(t: string, key: string)
    requires MarkerAt(t, 0, Label(key)) && Match(t, key).None?
    ensures forall c :: |Label(key)| + 10 <= c ==> !MarkerAt(t, c, CloseLabel)
  {
    assert FindClose(t, |Label(key)| + 10).None?;
  }

  /** Where no closing marker lies from `m` on, no pair of any key begins at `r` or later. */
  lemma NoMatchPast(t: string, m: nat, key: string, r: nat)
    requires forall c :: m <= c ==> !MarkerAt(t, c, CloseLabel)
    requires m <= r + 17 && r <= |t|
    ensures Match(t[r..], key).None?
  {
    SplitJoin(t, r);
    if Match(t[r..], key).Some? {
      var c := CloseOfMatch(t[r..], key);
      MarkerShift(t[..r], t[r..], c, CloseLabel);
    }
  }

  /** Where the closing marker of a pair lies. */
  lemma CloseOfMatch(t: string, key: string) returns (c: nat)
    requires Match(t, key).Some?
    ensures c == Match(t, key).value - |Close| && 17 <= c && MarkerAt(t, c, CloseLabel)
  {
    c := Match(t, key).value - |Close|;
  }

  /**
   * Replacing the pairs of `k2` after the first character of `t` does not create a pair of
   * `k1` at the head when there was none.
   */
  lemma CopyStep(t: string, k1: string, k2: string, rep2: string)
    requires t != [] && KeyOk(k1) && |rep2| > 0 && rep2[0] == '<'
    requires Match(t, k1).None?
    ensures Match([t[0]] + Replace(t[1..], k2, rep2), k1).None?
  {
    var y := t[1..];
    if MarkerAt([t[0]] + Replace(y, k2, rep2), 0, Label(k1)) {
      OpenSurvives(t, k1, k2, rep2);
      NoCloseAfter(t, k1);
      NothingAfterOpen(t, |Label(k1)| + 10, k2);
      NoMatchNoChange(y, k2, rep2);
      ConsTail(t);
    }
  }

  lemma PrefixCons(y: string, f: nat)
    requires 0 < f <= |y|
    ensures y[..f] == [y[0]] + y[1..][..f - 1]
  {
  }

  lemma SliceCons(w: string, p: nat, m: nat)
    requires p < m <= |w|
    ensures w[p..m] == [w[p]] + w[p + 1..m]
  {
  }

  lemma ConsTail(t: string)
    requires t != []
    ensures [t[0]] + t[1..] == t
  {
  }

  lemma ConsAssoc(c: char, a: string, r: string)
    ensures [c] + (a + r) == ([c] + a) + r
  {
  }

  /**
   * An opening marker at the head after the replacement was there before it, and nothing
   * the replacement put in reaches into it.
   */
  lemma OpenSurvives(t: string, k1: string, k2: string, rep2: string)
    requires t != [] && KeyOk(k1) && |rep2| > 0 && rep2[0] == '<'
    requires MarkerAt([t[0]] + Replace(t[1..], k2, rep2), 0, Label(k1))
    ensures |Label(k1)| + 8 <= FirstLt(t[1..], 0)
    ensures MarkerAt(t, 0, Label(k1))
  {
    var y := t[1..];
    Frontier(y, k2, rep2, FirstLt(y, 0));
    LabelNoLt(k1);
    OpenBeforeLt(t, Replace(y, k2, rep2), Label(k1), FirstLt(y, 0));
  }

  /**
   * A marker at the head of `t[0]` followed by `r`, where `r` agrees with the rest of `t` up to
   * its first `<` at `f` and keeps that `<`, lies before `f` and is a marker of `t` as well.
   */
  lemma OpenBeforeLt(t: string, r: string, word: string, f: nat)
    requires t != [] && '<' !in word && f <= |t| - 1 && f <= |r| && r[..f] == t[1..][..f]
    requires f < |t| - 1 ==> f < |r| && r[f] == '<'
    requires f == |t| - 1 ==> r == t[1..]
    requires MarkerAt([t[0]] + r, 0, word)
    ensures |word| + 8 <= f && MarkerAt(t, 0, word)
  {
    var out := [t[0]] + r;
    var n := |word| + 9;
    if f < n - 1 {
      if f < |t| - 1 {
        assert out[f + 1] == r[f];
        MarkerNoLt(out, 0, word, f + 1);
      }
    }
    WindowAgrees(t, r, n, f);
    MarkerWindow(out, t, word);
  }

  lemma WindowAgrees(t: string, r: string, n: nat, f: nat)
    requires t != [] && 0 < n && n - 1 <= f <= |t| - 1 && f <= |r| && r[..f] == t[1..][..f]
    ensures ([t[0]] + r)[..n] == t[..n]
  {
    assert ([t[0]] + r)[..n] == [t[0]] + r[..f][..n - 1];
    assert t[..n] == [t[0]] + t[1..][..f][..n - 1];
  }

  /**
   * With no closing marker from `m` on and no `<` after the head before `m - 18`, no pair of
   * any key begins after the head.
   */
  lemma NothingAfterOpen(t: string, m: nat, key: string)
    requires t != [] && forall c :: m <= c ==> !MarkerAt(t, c, CloseLabel)
    requires m <= FirstLt(t[1..], 0) + 18
    ensures forall q :: 0 <= q <= |t[1..]| ==> Match(t[1..][q..], key).None?
  {
    forall q | 0 <= q <= |t[1..]|
      ensures Match(t[1..][q..], key).None?
    {
      SuffixOfTail(t, q);
      if q < FirstLt(t[1..], 0) {
        NoMatchBeforeLt(t, key, q);
      } else {
        NoMatchPast(t, m, key, q + 1);
      }
    }
  }

  lemma NoMatchBeforeLt(t: string, key: string, q: nat)
    requires q + 1 <= |t| && q < FirstLt(t[1..], 0)
    ensures Match(t[q + 1..], key).None?
  {
    SuffixOfTail(t, q);
    NoMatchWithoutLt(t[q + 1..], key);
  }

  lemma SuffixOfTail(t: string, q: nat)
    requires q + 1 <= |t|
    ensures t[1..][q..] == t[q + 1..] && (q + 1 < |t| ==> t[1..][q] == t[q + 1])
  {
  }

  /** Replacing from inside a prefix in which no pair begins copies the rest of the prefix. */
  lemma {:induction false} SkipPrefix(a: string, y: string, key: string, rep: string, p: nat)
    requires p <= |a|
    requires forall i :: p <= i < |a| ==> Match((a + y)[i..], key).None?
    ensures Replace((a + y)[p..], key, rep) == (a + y)[p..|a|] + Replace(y, key, rep)
    decreases |a| - p
  {
    var w := a + y;
    AppendParts(a, y);
    if p < |a| {
      SkipPrefix(a, y, key, rep, p + 1);
      SuffixTail(w, p);
      ReplaceCopy(w[p..], key, rep);
      SliceCons(w, p, |a|);
      ConsAssoc(w[p], w[p + 1..|a|], Replace(y, key, rep));
    }
  }

  /** After the replacement for `key`, every pair of `key` reads exactly the replacement. */
  lemma {:induction false} ReplaceClean(t: string, key: string, body: string, rep: string)
    requires KeyOk(key) && Inert(body) && rep == Wrapped(key, body)
    ensures Clean(Replace(t, key, rep), key, rep)
    decreases |t|
  {
    if t != [] {
      match Match(t, key)
      case Some(e) =>
        ReplaceClean(t[e..], key, body, rep);
        CleanAfterWrapped(key, body, Replace(t[e..], key, rep), key, rep);
      case None =>
        ReplaceClean(t[1..], key, body, rep);
        WrappedHead(key, body);
        CopyStep(t, key, key, rep);
        var out := Replace(t, key, rep);
        assert out[1..] == Replace(t[1..], key, rep);
    }
  }

  /** Replacing the pairs of another key keeps a text clean. */
  lemma {:induction false} ReplaceKeepsClean(t: string, k1: string, body1: string, rep1: string,
                                             k2: string, body2: string, rep2: string)
    requires KeyOk(k1) && KeyOk(k2) && k1 != k2 && Inert(body1) && Inert(body2)
    requires rep1 == Wrapped(k1, body1) && rep2 == Wrapped(k2, body2)
    requires Clean(t, k1, rep1)
    ensures Clean(Replace(t, k2, rep2), k1, rep1)
    decreases |t|
  {
    if t != [] {
      match Match(t, k2)
      case Some(e) =>
        CleanSuffix(t, k1, rep1, e);
        ReplaceKeepsClean(t[e..], k1, body1, rep1, k2, body2, rep2);
        CleanAfterWrapped(k2, body2, Replace(t[e..], k2, rep2), k1, rep1);
      case None =>
        var out := Replace(t, k2, rep2);
        ReplaceCopy(t, k2, rep2);
        ReplaceKeepsClean(t[1..], k1, body1, rep1, k2, body2, rep2);
        if Match(t, k1).Some? {
          KeepPairAtHead(t, k1, body1, k2, rep2);
        } else {
          WrappedHead(k2, body2);
          CopyStep(t, k1, k2, rep2);
        }
        CleanCons(out, k1, rep1);
    }
  }

  /** Where no pair begins at the head, the replacement copies the head character. */
  lemma ReplaceCopy(t: string, key: string, rep: string)
    requires t != [] && Match(t, key).None?
    ensures Replace(t, key, rep) == [t[0]] + Replace(t[1..], key, rep)
    ensures |Replace(t, key, rep)| > 0 && Replace(t, key, rep)[1..] == Replace(t[1..], key, rep)
  {
    AppendParts([t[0]], Replace(t[1..], key, rep));
  }

  /** A written pair at the head survives the replacement of another key's pairs behind its first character. */
  lemma KeepPairAtHead(t: string, k1: string, body1: string, k2: string, rep2: string)
    requires KeyOk(k1) && Inert(body1)
    requires Match(t, k1).Some? && t[..Match(t, k1).value] == Wrapped(k1, body1)
    ensures var out := [t[0]] + Replace(t[1..], k2, rep2);
      Match(out, k1) == Some(|Wrapped(k1, body1)|) && out[..|Wrapped(k1, body1)|] == Wrapped(k1, body1)
  {
    var rep1 := Wrapped(k1, body1);
    var e := Match(t, k1).value;
    var rest := t[e..];
    SplitJoin(t, e);
    forall i | 1 <= i < |rep1|
      ensures Match((rep1 + rest)[i..], k2).None?
    {
      NoMatchInsideWrapped(k1, body1, rest, i, k2);
    }
    SkipPrefix(rep1, rest, k2, rep2, 1);
    var r := Replace(rest, k2, rep2);
    HeadThenRest(t, rep1, rest, r);
    MatchWrapped(k1, body1, r);
    AppendParts(rep1, r);
  }

  lemma HeadThenRest(t: string, a: string, rest: string, r: string)
    requires t == a + rest && |a| > 0
    ensures [t[0]] + ((a + rest)[1..|a|] + r) == a + r
  {
    assert (a + rest)[1..|a|] == a[1..];
    assert a == [a[0]] + a[1..];
  }

  /**
   * A pair list as the merge builds it from discovered keys: each replacement is the canonical
   * pair around a body without markers, for a key without `<` and `]`, and no key occurs twice.
   */
  predicate PairOk(pairs: seq<(string, string)>, bodies: seq<string>, i: nat) {
    && i < |pairs| && i < |bodies| && KeyOk(pairs[i].0) && Inert(bodies[i])
    && pairs[i].1 == Wrapped(pairs[i].0, bodies[i])
  }

  predicate Canonical(pairs: seq<(string, string)>, bodies: seq<string>) {
    && |bodies| == |pairs|
    && (forall i :: 0 <= i < |pairs| ==> PairOk(pairs, bodies, i))
    && (forall i, j :: 0 <= i < j < |pairs| ==> pairs[i].0 != pairs[j].0)
  }

  /** Every pair of the `i`-th key in `t` reads exactly that key's replacement. */
  predicate CleanFor(t: string, pairs: seq<(string, string)>, i: nat) {
    i < |pairs| && Clean(t, pairs[i].0, pairs[i].1)
  }

  /** After the merge of the first `n` pairs, every pair of each of their keys reads exactly its replacement. */
  lemma {:induction false} MergedClean(s: string, pairs: seq<(string, string)>, bodies: seq<string>, n: nat)
    requires Canonical(pairs, bodies) && n <= |pairs|
    ensures forall i :: 0 <= i < n ==> CleanFor(Merged(s, pairs, n), pairs, i)
  {
    if n > 0 {
      MergedClean(s, pairs, bodies, n - 1);
      MergedCleanStep(s, pairs, bodies, n - 1, n);
    }
  }

  /** One more pair merged: the earlier keys stay clean and the new one becomes clean. */
  lemma MergedCleanStep(s: string, pairs: seq<(string, string)>, bodies: seq<string>, m: nat, n: nat)
    requires Canonical(pairs, bodies) && m + 1 == n <= |pairs|
    requires forall i :: 0 <= i < m ==> CleanFor(Merged(s, pairs, m), pairs, i)
    ensures forall i :: 0 <= i < n ==> CleanFor(Merged(s, pairs, n), pairs, i)
  {
    forall i | 0 <= i < n
      ensures CleanFor(Merged(s, pairs, n), pairs, i)
    {
      if i == m {
        CleanLast(s, pairs, bodies, m);
      } else {
        assert CleanFor(Merged(s, pairs, m), pairs, i);
        CleanKept(s, pairs, bodies, m, i);
      }
    }
  }

  /** The replacement of pair `m` leaves its key clean. */
  lemma CleanLast(s: string, pairs: seq<(string, string)>, bodies: seq<string>, m: nat)
    requires Canonical(pairs, bodies) && m < |pairs|
    ensures CleanFor(Merged(s, pairs, m + 1), pairs, m)
  {
    assert PairOk(pairs, bodies, m);
    MergedNext(s, pairs, m);
    ReplaceClean(Merged(s, pairs, m), pairs[m].0, bodies[m], pairs[m].1);
  }

  /** The replacement of pair `m` keeps the keys of the earlier pairs clean. */
  lemma CleanKept(s: string, pairs: seq<(string, string)>, bodies: seq<string>, m: nat, i: nat)
    requires Canonical(pairs, bodies) && i < m < |pairs|
    requires CleanFor(Merged(s, pairs, m), pairs, i)
    ensures CleanFor(Merged(s, pairs, m + 1), pairs, i)
  {
    assert PairOk(pairs, bodies, i) && PairOk(pairs, bodies, m);
    MergedNext(s, pairs, m);
    ReplaceKeepsClean(Merged(s, pairs, m), pairs[i].0, bodies[i], pairs[i].1, pairs[m].0, bodies[m], pairs[m].1);
  }

  /** A text that is clean for every key is left as it is by the merge. */
  lemma {:induction false} MergeStable(s: string, pairs: seq<(string, string)>, n: nat)
    requires n <= |pairs|
    requires forall i :: 0 <= i < n ==> CleanFor(s, pairs, i)
    ensures Merged(s, pairs, n) == s
    decreases n
  {
    if n > 0 {
      MergeStable(s, pairs, n - 1);
      assert CleanFor(s, pairs, n - 1);
      StableStep(s, pairs, n - 1);
    }
  }

  /** A text the first `m` pairs leave as it is, and clean for pair `m`, is left as it is by pair `m` too. */
  lemma StableStep(s: string, pairs: seq<(string, string)>, m: nat)
    requires m < |pairs| && Merged(s, pairs, m) == s && CleanFor(s, pairs, m)
    ensures Merged(s, pairs, m + 1) == s
  {
    MergedNext(s, pairs, m);
    CleanIdentity(s, pairs[m].0, pairs[m].1);
  }

  /** Merging the merged text again with the same canonical pairs changes nothing. */
  lemma MergePairsIdempotent(s: string, pairs: seq<(string, string)>, bodies: seq<string>)
    requires Canonical(pairs, bodies)
    ensures Merged(Merged(s, pairs, |pairs|), pairs, |pairs|) == Merged(s, pairs, |pairs|)
  {
    MergedClean(s, pairs, bodies, |pairs|);
    MergeStable(Merged(s, pairs, |pairs|), pairs, |pairs|);
  }

  /**
   * `_createBuffer` is idempotent: merging its output again with the same buckets changes
   * nothing, when the keys are distinct, free of `<` and `]`, and no entry holds a marker.
   */
  lemma MergeIdempotent(s: string, keys: seq<string>, lists: map<string, seq<string>>)
    requires Ready(keys, lists)
    ensures var pairs := Pairs(keys, lists);
            Merged(Merged(s, pairs, |keys|), pairs, |keys|) == Merged(s, pairs, |keys|)
  {
    var pairs := Pairs(keys, lists);
    var bodies := seq(|keys|, i requires 0 <= i < |keys| => Body(lists[keys[i]]));
    forall i | 0 <= i < |pairs|
      ensures PairOk(pairs, bodies, i)
    {
    }
    MergePairsIdempotent(s, pairs, bodies);
  }
}
