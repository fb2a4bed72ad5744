/**
 * The pattern `_createBuffer` builds for a non-default key has the key pasted in without
 * escaping, where `_parseResult` escapes the keys it turns into patterns. Of the characters
 * a discovered key may hold, only `.` reads differently in a pattern: it stands for any
 * character but a line terminator. A key with a dot therefore also claims the pairs of other
 * keys, and the merge overwrites them.
 *
 * `MatchAsWritten` and `ReplaceAsWritten` read the key as the pattern does; the rest of the
 * model reads it literally, through `Merger.Match`.
 */
module KeyPattern {
  import opened Text
  import Merger
  import MergerFacts
  import Idempotence
  import Discovery
  import DiscoveryFacts

  /** The characters `.` does not match in a JavaScript pattern. */
  predicate IsLineTerminator(c: char) {
    c == '\n' || c == '\r' || c == '\U{2028}' || c == '\U{2029}'
  }

  /** `w` is matched by `key` read as a pattern: a `.` matches any character but a line terminator. */
  predicate PatternMatches(key: string, w: string) {
    && |w| == |key|
    && forall k :: 0 <= k < |key| ==> if key[k] == '.' then !IsLineTerminator(w[k]) else w[k] == key[k]
  }

  /** The opening marker the unescaped pattern of `key` accepts at the head of `t`. */
  predicate OpenerAsWritten(t: string, key: string) {
    && key != ""
    && 12 + |key| <= |t|
    && PatternMatches(key, t[12..12 + |key|])
    && Merger.MarkerAt(t, 0, Merger.Label(t[12..12 + |key|]))
  }

  /** The pair of `key` at the head of `t` as `_createBuffer`'s pattern finds it. */
  function MatchAsWritten(t: string, key: string): (e: Option<nat>)
    ensures e.Some? ==> 0 < e.value <= |t|
  {
    if key == "" then Merger.Match(t, key)
    else if OpenerAsWritten(t, key) then
      match Merger.FindClose(t, |Merger.Label(key)| + 10)
      case Some(c) => Some(c + |Merger.Close|)
      case None => None
    else None
  }

  /** `t.replace(regexp, rep)` with the unescaped pattern of `key`. */
  function ReplaceAsWritten(t: string, key: string, rep: string): string
    decreases |t|
  {
    if t == [] then []
    else match MatchAsWritten(t, key)
      case Some(e) => rep + ReplaceAsWritten(t[e..], key, rep)
      case None => [t[0]] + ReplaceAsWritten(t[1..], key, rep)
  }

  /** Without a dot, the unescaped pattern finds exactly the pairs the literal key finds. */
  lemma WithoutDotAgrees(t: string, key: string)
    requires '.' !in key
    ensures MatchAsWritten(t, key) == Merger.Match(t, key)
  {
    if key != "" && 12 + |key| <= |t| {
      var w := t[12..12 + |key|];
      if PatternMatches(key, w) {
        assert w == key;
      }
      if Merger.MarkerAt(t, 0, Merger.Label(key)) {
        DiscoveryFacts.BracketedMarker(t, key);
      }
    }
  }

  /**
   * A key whose pattern matches another key claims the pairs of that key: at an opening marker
   * of `other`, the unescaped pattern of `key` finds the pair the merge finds for `other`.
   */
  lemma PatternClaimsPair(t: string, key: string, other: string)
    requires other != "" && PatternMatches(key, other) && Merger.MarkerAt(t, 0, Merger.Label(other))
    ensures MatchAsWritten(t, key) == Merger.Match(t, other)
  {
    assert 12 + |key| <= |t| && t[12..12 + |key|] == other by {
      DiscoveryFacts.BracketedMarker(t, other);
    }
    assert OpenerAsWritten(t, key);
    assert |Merger.Label(key)| == |Merger.Label(other)| by {
      DiscoveryFacts.LabelOfKey(other);
      DiscoveryFacts.LabelOfKey(key);
    }
  }

  /** The pattern of `key` takes the whole pair of `other` as this tool writes it. */
  lemma ClaimsWrapped(key: string, other: string, body: string, rep: string)
    requires other != "" && Merger.KeyOk(other) && Merger.Inert(body) && PatternMatches(key, other)
    ensures var w := Merger.Wrapped(other, body);
            MatchAsWritten(w, key) == Some(|w|) && ReplaceAsWritten(w, key, rep) == rep
  {
    var w := Merger.Wrapped(other, body);
    assert w + [] == w;
    MergerFacts.MatchWrapped(other, body, []);
    PatternClaimsPair(w, key, other);
    assert w[|w|..] == [];
    assert ReplaceAsWritten(w, key, rep) == rep + [];
  }

  /** Read literally, another key leaves a pair as this tool writes it untouched. */
  lemma LiteralLeavesWrapped(key: string, other: string, body: string, rep: string)
    requires Merger.KeyOk(key) && Merger.KeyOk(other) && key != other && Merger.Inert(body)
    ensures var w := Merger.Wrapped(other, body);
            Merger.Match(w, key).None? && Merger.Replace(w, key, rep) == w
  {
    var w := Merger.Wrapped(other, body);
    assert w + [] == w;
    MergerFacts.OtherKeyOnWrapped(other, key, body, []);
    Idempotence.CleanAfterWrapped(other, body, [], key, rep);
    Idempotence.CleanIdentity(w, key, rep);
  }

  /**
   * The key `a.b`, which discovery accepts, overwrites the pair of the key `aXb`: its unescaped
   * pattern finds that pair and replaces all of it, where the literal key leaves it alone.
   */
  lemma DotKeyTakesOtherPair(body: string, rep: string)
    requires Merger.Inert(body)
    ensures Discovery.KeyChars("a.b") && Discovery.KeyChars("aXb")
    ensures var w := Merger.Wrapped("aXb", body);
            && MatchAsWritten(w, "a.b") == Some(|w|)
            && ReplaceAsWritten(w, "a.b", rep) == rep
            && Merger.Match(w, "a.b").None?
            && Merger.Replace(w, "a.b", rep) == w
  {
    DotKeys();
    ClaimsWrapped("a.b", "aXb", body, rep);
    LiteralLeavesWrapped("a.b", "aXb", body, rep);
  }

  /** The two keys of the example: both made of key characters, the first a pattern of the second. */
  lemma DotKeys()
    ensures Discovery.KeyChars("a.b") && Discovery.KeyChars("aXb")
    ensures PatternMatches("a.b", "aXb") && Merger.KeyOk("a.b") && Merger.KeyOk("aXb") && "a.b" != "aXb"
  {
    assert "a.b"[1] != "aXb"[1];
  }
}
