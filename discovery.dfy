/**
 * The discovery half of `_writeFile`: the destination text is searched for marker pairs
 * `<!--\smdnize[key]:\s-->` … `<!--\s:mdnize\s-->` (the brackets optional), each key found
 * gets an empty bucket in order of first appearance, and a text holding no pair gets the
 * default pair appended. An empty or unreadable destination becomes the default pair.
 */
module Discovery {
  import opened Text
  import Router
  import Merger
  import MergerFacts

  /** The key class `[\d\w\-._ /]` of the discovery pattern. */
  predicate IsKeyChar(c: char) {
    IsWordChar(c) || c == '-' || c == '.' || c == ' ' || c == '/'
  }

  predicate KeyChars(key: string) {
    forall k :: 0 <= k < |key| ==> IsKeyChar(key[k])
  }

  /** Length of the longest run of key characters at the start of `s` (a greedy `[…]*`). */
  function KeyRun(s: string): (n: nat)
    ensures n <= |s| && KeyChars(s[..n])
    ensures n == |s| || !IsKeyChar(s[n])
  {
    if s != [] && IsKeyChar(s[0]) then
      var n := 1 + KeyRun(s[1..]);
      assert forall k :: 1 <= k < n ==> s[..n][k] == s[1..][..n - 1][k - 1];
      n
    else 0
  }

  /**
   * The opening marker of the discovery pattern at the head of `t`: its key and where the
   * marker ends. Each optional bracket and the key run can succeed in one way only (the
   * characters that follow them are outside the key class), so the greedy reading is the
   * only match.
   */
  function OpenAt(t: string): (r: Option<(string, nat)>)
    ensures r.Some? ==> 16 <= r.value.1 <= |t| && KeyChars(r.value.0)
  {
    if |t| < 12 || t[..4] != "<!--" || !IsSpace(t[4]) || t[5..11] != "mdnize" then None
    else
      var a := if t[11] == '[' then 12 else 11;
      var b := a + KeyRun(t[a..]);
      var c := if b < |t| && t[b] == ']' then b + 1 else b;
      if c + 5 <= |t| && t[c] == ':' && IsSpace(t[c + 1]) && t[c + 2..c + 5] == "-->" then
        assert t[a..b] == t[a..][..b - a];
        Some((t[a..b], c + 5))
      else None
  }

  /**
   * A whole pair of the discovery pattern at the head of `t`: the opening marker, a non-empty
   * interior and the nearest closing marker after it. Gives the key and the end of the pair.
   */
  function PairAt(t: string): (r: Option<(string, nat)>)
    ensures r.Some? ==> 0 < r.value.1 <= |t| && KeyChars(r.value.0)
  {
    match OpenAt(t)
    case None => None
    case Some((key, n)) =>
      match Merger.FindClose(t, n + 1)
      case None => None
      case Some(c) => Some((key, c + |Merger.Close|))
  }

  /**
   * `t.match(reg)` with the global flag, each match reduced to its key: the keys of the pairs
   * found scanning left to right, the search resuming after each pair.
   */
  function Discovered(t: string): seq<string>
    decreases |t|
  {
    if t == [] then []
    else match PairAt(t)
      case Some((key, e)) => [key] + Discovered(t[e..])
      case None => Discovered(t[1..])
  }

  /** The keys of the table after declaring each of `found` that has no bucket yet. */
  function DeclareAll(keys: seq<string>, found: seq<string>): seq<string>
    decreases |found|
  {
    if found == [] then keys
    else DeclareAll(if found[0] in keys then keys else keys + [found[0]], found[1..])
  }

  /** An empty bucket for each key. */
  function EmptyBuckets(keys: seq<string>): map<string, seq<string>> {
    map k | k in keys :: []
  }

  /**
   * The default pair, written into a destination that has none: `<!-- mdnize: -->`, two line
   * feeds and `<!-- :mdnize -->`.
   */
  const Scaffold: string := Merger.Marker(Merger.Label("")) + "\n\n" + Merger.Close

  /** The text the merge starts from; `None` stands for a destination that cannot be read. */
  function DestText(dest: Option<string>): string {
    match dest
    case None => Scaffold
    case Some(s) => if Discovered(s) == [] then s + Scaffold else s
  }

  /** The keys of the bucket table before routing. */
  function DestKeys(dest: Option<string>): seq<string> {
    match dest
    case None => [""]
    case Some(s) => DeclareAll([""], Discovered(s))
  }

  /**
   * The discovery part of `_writeFile`: the table starts with the default bucket, every key
   * found in the destination is declared in turn, and a destination without a pair gets the
   * default pair appended.
   */
  method PrepareDestination(dest: Option<string>) returns (text: string, table: Router.BucketTable)
    ensures fresh(table) && table.Valid()
    ensures text == DestText(dest)
    ensures table.keys == DestKeys(dest) && table.lists == EmptyBuckets(table.keys)
  {
    table := new Router.BucketTable();
    assert table.lists == EmptyBuckets([""]);
    text := "";
    if dest.Some? {
      text := dest.value;
      var found := Discovered(text);
      if found != [] {
        for i := 0 to |found|
          invariant table.Valid()
          invariant DeclareAll(table.keys, found[i..]) == DeclareAll([""], found)
          invariant table.lists == EmptyBuckets(table.keys)
        {
          assert found[i..][0] == found[i] && found[i..][1..] == found[i + 1..];
          table.Declare(found[i]);
        }
        assert found[|found|..] == [];
      } else {
        text := text + Scaffold;
      }
    }
    if text == "" {
      text := Scaffold;
    }
  }
}

/** Properties of discovery: what the table and the text hold before routing. */
module DiscoveryFacts {
  import opened Text
  import opened Discovery
  import Router
  import Merger
  import MergerFacts

  /** The position of the first occurrence of `x` in `s`. */
  function FirstIndex(s: seq<string>, x: string): (n: nat)
    requires x in s
    ensures n < |s| && s[n] == x && forall k :: 0 <= k < n ==> s[k] != x
  {
    if s[0] == x then 0 else 1 + FirstIndex(s[1..], x)
  }

  lemma KeyRunIs(s: string, n: nat)
    requires n < |s| && KeyChars(s[..n]) && !IsKeyChar(s[n])
    ensures KeyRun(s) == n
  {
  }

  /** Where the key sits in the opening marker of a non-default key. */
  lemma LabelOfKey(key: string)
    requires key != ""
    ensures var word := Merger.Label(key);
            && |word| == |key| + 9 && word[..6] == "mdnize" && word[6] == '['
            && word[7..7 + |key|] == key && word[7 + |key|] == ']' && word[8 + |key|] == ':'
  {
    var word := Merger.Label(key);
    assert word == "mdnize[" + key + "]:";
  }

  /** The characters of an opening marker of a non-default key, position by position. */
  lemma BracketedMarker(t: string, key: string)
    requires key != "" && Merger.MarkerAt(t, 0, Merger.Label(key))
    ensures |t| >= |key| + 18 && t[..4] == "<!--" && IsSpace(t[4]) && t[5..11] == "mdnize" && t[11] == '['
    ensures t[12..12 + |key|] == key && t[12 + |key|] == ']' && t[13 + |key|] == ':'
    ensures IsSpace(t[14 + |key|]) && t[15 + |key|..18 + |key|] == "-->"
  {
    var word := Merger.Label(key);
    LabelOfKey(key);
    var m := t[5..5 + |word|];
    assert m == word;
    assert t[5..11] == m[..6];
    assert t[11] == m[6];
    assert t[12..12 + |key|] == m[7..7 + |key|];
    assert t[12 + |key|] == m[7 + |key|] && t[13 + |key|] == m[8 + |key|];
  }

  /** The opening marker of the default key, read by discovery. */
  lemma OpenAtDefault(t: string)
    requires Merger.MarkerAt(t, 0, Merger.Label(""))
    ensures OpenAt(t) == Some(("", 16))
  {
    var m := t[5..12];
    assert m == "mdnize:";
    assert t[5..11] == m[..6] && t[11] == m[6] == ':';
    assert t[11..][0] == ':';
    assert t[11..11] == "";
  }

  /** The opening marker of a non-default key, read by discovery. */
  lemma OpenAtBracketed(t: string, key: string)
    requires key != "" && KeyChars(key) && Merger.MarkerAt(t, 0, Merger.Label(key))
    ensures OpenAt(t) == Some((key, |key| + 18))
  {
    var n := |key|;
    BracketedMarker(t, key);
    assert t[12..][..n] == key && t[12..][n] == ']';
    KeyRunIs(t[12..], n);
  }

  /**
   * A pair as the merge reads it is a pair as discovery reads it: at an opening marker that
   * carries `key` in brackets (or no brackets for the default key), discovery reads the same
   * key and the same end of the opening marker, and finds a pair exactly when the merge does,
   * ending at the same place.
   */
  lemma PairAgreesWithMatch(t: string, key: string)
    requires KeyChars(key) && Merger.MarkerAt(t, 0, Merger.Label(key))
    ensures OpenAt(t) == Some((key, |Merger.Label(key)| + 9))
    ensures Merger.Match(t, key).Some? ==> PairAt(t) == Some((key, Merger.Match(t, key).value))
    ensures Merger.Match(t, key).None? ==> PairAt(t).None?
  {
    if key == "" {
      OpenAtDefault(t);
    } else {
      OpenAtBracketed(t, key);
      LabelOfKey(key);
    }
  }

  /** The markers of the default pair: the opening one at 0, the closing one at 18 and not at 17. */
  lemma ScaffoldMarkers()
    ensures Merger.MarkerAt(Scaffold, 0, Merger.Label(""))
    ensures Merger.MarkerAt(Scaffold, 18, Merger.CloseLabel) && !Merger.MarkerAt(Scaffold, 17, Merger.CloseLabel)
  {
    var head := Merger.Marker(Merger.Label(""));
    assert Scaffold == head + ("\n\n" + Merger.Close);
    MergerFacts.MarkerWritten(Merger.Label(""), "\n\n" + Merger.Close);
    ScaffoldClose(head + "\n\n");
    assert Scaffold[17..21][0] == Scaffold[17] == '\n';
  }

  lemma ScaffoldClose(a: string)
    ensures Merger.MarkerAt(a + Merger.Close, |a|, Merger.CloseLabel)
  {
    MergerFacts.MarkerWritten(Merger.CloseLabel, []);
    assert Merger.Close + [] == Merger.Close;
    MergerFacts.MarkerShift(a, Merger.Close, 0, Merger.CloseLabel);
  }

  /** The default pair is a pair of the default key, both to discovery and to the merge. */
  lemma ScaffoldIsDefaultPair()
    ensures PairAt(Scaffold) == Some(("", |Scaffold|))
    ensures Merger.Match(Scaffold, "") == Some(|Scaffold|)
  {
    ScaffoldMarkers();
    MergerFacts.MatchAt(Scaffold, "", 18);
    assert KeyChars("");
    PairAgreesWithMatch(Scaffold, "");
  }

  /** `t.match(reg)` finds nothing exactly when no pair starts anywhere in `t`. */
  lemma {:induction false} NothingDiscovered(t: string)
    ensures Discovered(t) == [] <==> forall p :: 0 <= p < |t| ==> PairAt(t[p..]).None?
    decreases |t|
  {
    if t != [] {
      assert t[0..] == t;
      if PairAt(t).None? {
        NothingDiscovered(t[1..]);
        forall p | 1 <= p < |t|
          ensures t[1..][p - 1..] == t[p..]
        {
        }
      }
    }
  }

  /** Every discovered key is made of key characters. */
  lemma {:induction false} DiscoveredKeyChars(t: string)
    ensures forall x :: x in Discovered(t) ==> KeyChars(x)
    decreases |t|
  {
    if t != [] {
      match PairAt(t) {
        case Some((key, e)) => DiscoveredKeyChars(t[e..]);
        case None => DiscoveredKeyChars(t[1..]);
      }
    }
  }

  /**
   * Declaring keeps what was declared before, adds exactly the keys found and no key twice.
   */
  lemma {:induction false} DeclareAllKeeps(keys: seq<string>, found: seq<string>)
    ensures keys <= DeclareAll(keys, found)
    ensures forall x :: x in DeclareAll(keys, found) <==> x in keys || x in found
    ensures Router.Distinct(keys) ==> Router.Distinct(DeclareAll(keys, found))
    decreases |found|
  {
    if found != [] {
      var next := if found[0] in keys then keys else keys + [found[0]];
      DeclareAllKeeps(next, found[1..]);
      assert found == [found[0]] + found[1..];
      if Router.Distinct(keys) && found[0] !in keys {
        forall i, j | 0 <= i < j < |next|
          ensures next[i] != next[j]
        {
          if j == |keys| {
            assert next[i] == keys[i];
          }
        }
      }
    }
  }

  /**
   * Keys are declared in order of first appearance: of two keys that were not declared before,
   * the one found first comes first.
   */
  lemma {:induction false} DeclareAllOrder(keys: seq<string>, found: seq<string>)
    requires Router.Distinct(keys)
    ensures var r := DeclareAll(keys, found);
            forall i, j :: |keys| <= i < j < |r| ==>
              r[i] in found && r[j] in found && FirstIndex(found, r[i]) < FirstIndex(found, r[j])
    decreases |found|
  {
    var r := DeclareAll(keys, found);
    if found != [] {
      var f := found[0];
      var next := if f in keys then keys else keys + [f];
      DeclareAllKeeps(keys, found);
      DeclareAllKeeps(next, found[1..]);
      DeclareAllOrder(next, found[1..]);
      forall i, j | |keys| <= i < j < |r|
        ensures r[i] in found && r[j] in found && FirstIndex(found, r[i]) < FirstIndex(found, r[j])
      {
        FreshKey(keys, r, i);
        FreshKey(keys, r, j);
        assert r[i] != r[j];
        if f in keys || i > |keys| {
          assert r[i] != f && r[j] != f by {
            if f !in keys {
              assert next[|keys|] == f && r[|keys|] == f;
            }
          }
          FirstIndexTail(found, r[i]);
          FirstIndexTail(found, r[j]);
        } else {
          assert r[i] == next[|keys|] == f;
          assert r[j] != f;
          FirstIndexTail(found, r[j]);
        }
      }
    }
  }

  /** A position of a distinct declaration past the old keys holds a key that was not declared. */
  lemma FreshKey(keys: seq<string>, r: seq<string>, i: nat)
    requires keys <= r && Router.Distinct(r) && |keys| <= i < |r|
    ensures r[i] !in keys
  {
  }

  lemma FirstIndexTail(s: seq<string>, x: string)
    requires x in s && s[0] != x
    ensures x in s[1..] && FirstIndex(s, x) == 1 + FirstIndex(s[1..], x)
  {
    assert s == [s[0]] + s[1..];
  }

  lemma KeyCharsOk(key: string)
    requires KeyChars(key)
    ensures Merger.KeyOk(key)
  {
  }

  /**
   * The table before routing: the default key first, then each key found in the destination,
   * once, in order of first appearance; no other key, and every key one the merge can match.
   */
  lemma DestKeysFacts(dest: Option<string>)
    ensures var keys := DestKeys(dest);
            && |keys| > 0 && keys[0] == ""
            && Router.Distinct(keys)
            && (forall x :: x in keys <==> x == "" || (dest.Some? && x in Discovered(dest.value)))
            && (forall i :: 0 <= i < |keys| ==> Merger.KeyOk(keys[i]))
    ensures dest.Some? ==>
              var found, keys := Discovered(dest.value), DestKeys(dest);
              forall i, j :: 1 <= i < j < |keys| ==>
                keys[i] in found && keys[j] in found && FirstIndex(found, keys[i]) < FirstIndex(found, keys[j])
  {
    var keys := DestKeys(dest);
    if dest.Some? {
      var found := Discovered(dest.value);
      DeclareAllKeeps([""], found);
      DeclareAllOrder([""], found);
      DiscoveredKeyChars(dest.value);
      assert keys[0] == [""][0];
    }
    forall i | 0 <= i < |keys|
      ensures Merger.KeyOk(keys[i])
    {
      assert keys[i] in keys;
      if keys[i] != "" {
        KeyCharsOk(keys[i]);
      }
    }
  }

  /**
   * The text before merging: the destination's text is kept, and only appended to; a text
   * with a pair is kept as it is; an empty or unreadable destination becomes exactly the
   * default pair; and the text always holds a pair.
   */
  lemma DestTextFacts(dest: Option<string>)
    ensures dest.Some? ==> dest.value <= DestText(dest)
    ensures dest.None? || dest == Some("") ==> DestText(dest) == Scaffold
    ensures dest.Some? && Discovered(dest.value) != [] ==> DestText(dest) == dest.value
    ensures Discovered(DestText(dest)) != []
  {
    ScaffoldIsDefaultPair();
    var t := DestText(dest);
    if dest.Some? && Discovered(dest.value) == [] {
      var s := dest.value;
      assert t == s + Scaffold && t[|s|..] == Scaffold;
      if s == "" {
        assert t == Scaffold;
      }
      NothingDiscovered(t);
    } else if dest.None? {
      assert t[0..] == t;
      NothingDiscovered(t);
    } else {
      assert dest.value != "";
    }
  }
}
