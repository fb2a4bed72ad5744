/**
 * The tree walk of `_pick`: a target is looked up in a file tree; a directory always gets an
 * entry holding what its children yield, a file gets an entry only when the scanner finds
 * documentation in it, and anything else is ignored.
 *
 * The JavaScript result object is an ordered association list here; assigning a property
 * replaces the value of an existing key in place and appends a new key at the end.
 */
module Walker {
  import opened Text
  import Scanner

  /** The file tree as the file system would show it. */
  datatype Node =
    | Directory(listing: seq<(string, Node)>)
    | File(ext: string, lines: seq<string>)
    | Other

  /** A value of the result object: a nested object for a directory, the text for a file. */
  datatype Extract = Folder(entries: seq<(string, Extract)>) | Leaf(text: string)

  /**
   * The settings the walk hands to the scanner: the comment token chosen for a file's
   * extension and the two symbols.
   */
  datatype Settings = Settings(tokenOf: string -> string, startSymbol: string, endSymbol: string)

  function ConfigFor(s: Settings, ext: string): Scanner.Config {
    Scanner.Config(s.tokenOf(ext), s.startSymbol, s.endSymbol)
  }

  /** The keys of an association list, in order. */
  function Keys<V>(obj: seq<(string, V)>): (ks: seq<string>)
    ensures |ks| == |obj| && forall k :: 0 <= k < |obj| ==> ks[k] == obj[k].0
  {
    if obj == [] then [] else [obj[0].0] + Keys(obj[1..])
  }

  /** `obj[key]`: the value stored under the first occurrence of `key`. */
  function Lookup<V>(obj: seq<(string, V)>, key: string): (r: Option<V>)
    ensures r.None? <==> key !in Keys(obj)
  {
    if obj == [] then None
    else if obj[0].0 == key then Some(obj[0].1)
    else Lookup(obj[1..], key)
  }

  /** `obj[key] = v`. */
  function Put<V>(obj: seq<(string, V)>, key: string, v: V): (r: seq<(string, V)>)
    ensures key in Keys(obj) ==> Keys(r) == Keys(obj)
    ensures key !in Keys(obj) ==> Keys(r) == Keys(obj) + [key]
    ensures Lookup(r, key) == Some(v)
    ensures forall k :: k != key ==> Lookup(r, k) == Lookup(obj, k)
  {
    if obj == [] then [(key, v)]
    else if obj[0].0 == key then [(key, v)] + obj[1..]
    else [obj[0]] + Put(obj[1..], key, v)
  }

  /** `obj` after `_pick(name, …, obj)` on `node`. */
  function Picked(s: Settings, obj: seq<(string, Extract)>, name: string, node: Node): seq<(string, Extract)>
    decreases node, 1
  {
    match node
    case Directory(listing) => Put(obj, name, Folder(PickChildren(s, node, |listing|)))
    case File(ext, lines) =>
      var output := Scanner.FileOutput(ext, lines, ConfigFor(s, ext));
      if output.Some? && output.value != "" then Put(obj, name, Leaf(output.value)) else obj
    case Other => obj
  }

  /** The object filled by the walk over the first `n` children of directory `dir`. */
  function PickChildren(s: Settings, dir: Node, n: nat): seq<(string, Extract)>
    requires dir.Directory? && n <= |dir.listing|
    decreases dir, 0, n
  {
    if n == 0 then []
    else Picked(s, PickChildren(s, dir, n - 1), dir.listing[n - 1].0, dir.listing[n - 1].1)
  }

  /**
   * `_pick`: the object passed in is given back with the target's entry set. The recursive call
   * fills the directory's own object, which is then stored under the target.
   */
  method Pick(s: Settings, target: string, node: Node, obj: seq<(string, Extract)>)
    returns (result: seq<(string, Extract)>)
    ensures result == Picked(s, obj, target, node)
    decreases node
  {
    match node {
      case Directory(list) =>
        var sub: seq<(string, Extract)> := [];
        for i := 0 to |list|
          invariant sub == PickChildren(s, node, i)
        {
          sub := Pick(s, list[i].0, list[i].1, sub);
        }
        result := Put(obj, target, Folder(sub));
      case File(ext, lines) =>
        var output := Scanner.ReadFile(ext, lines, ConfigFor(s, ext));
        if output.Some? && output.value != "" {
          result := Put(obj, target, Leaf(output.value));
        } else {
          result := obj;
        }
      case Other =>
        result := obj;
    }
  }

  /** `pick`: the result object starts empty and holds at most the target. */
  method PickTarget(s: Settings, target: string, root: Node) returns (result: seq<(string, Extract)>)
    ensures result == Picked(s, [], target, root)
    ensures |result| <= 1
  {
    result := Pick(s, target, root, []);
    PickedKeys(s, [], target, root);
  }

  /** Whether a child yields an entry: directories always, files only when they hold documentation. */
  predicate Yields(s: Settings, node: Node) {
    match node
    case Directory(_) => true
    case File(ext, lines) => Scanner.FileOutput(ext, lines, ConfigFor(s, ext)).Some?
    case Other => false
  }

  /** The names of the children that yield an entry, in listing order. */
  function YieldingNames(s: Settings, listing: seq<(string, Node)>): seq<string>
  {
    if listing == [] then []
    else
      var last := listing[|listing| - 1];
      YieldingNames(s, listing[..|listing| - 1]) + (if Yields(s, last.1) then [last.0] else [])
  }

  /**
   * The walk's effect on one name: a directory always stores a folder, a file stores its
   * scanner output exactly when there is one (never for `.md`), anything else leaves the
   * object as it was; no other key changes.
   */
  lemma PickedEntry(s: Settings, obj: seq<(string, Extract)>, name: string, node: Node)
    ensures node.Directory? ==>
              Lookup(Picked(s, obj, name, node), name) == Some(Folder(PickChildren(s, node, |node.listing|)))
    ensures node.File? ==>
              var output := Scanner.FileOutput(node.ext, node.lines, ConfigFor(s, node.ext));
              if output.Some? then Lookup(Picked(s, obj, name, node), name) == Some(Leaf(output.value))
              else Picked(s, obj, name, node) == obj
    ensures node.File? && Scanner.IsMarkdownExt(node.ext) ==> Picked(s, obj, name, node) == obj
    ensures node.Other? ==> Picked(s, obj, name, node) == obj
    ensures forall k :: k != name ==> Lookup(Picked(s, obj, name, node), k) == Lookup(obj, k)
  {
    if node.File? {
      Scanner.FileOutputNonEmpty(node.ext, node.lines, ConfigFor(s, node.ext));
    }
  }

  /** The keys of the object after one step: the name is appended exactly when it is new and yields. */
  lemma PickedKeys(s: Settings, obj: seq<(string, Extract)>, name: string, node: Node)
    ensures Yields(s, node) && name !in Keys(obj) ==> Keys(Picked(s, obj, name, node)) == Keys(obj) + [name]
    ensures !(Yields(s, node) && name !in Keys(obj)) ==> Keys(Picked(s, obj, name, node)) == Keys(obj)
  {
    if node.File? {
      Scanner.FileOutputNonEmpty(node.ext, node.lines, ConfigFor(s, node.ext));
    }
  }

  predicate DistinctNames(listing: seq<(string, Node)>) {
    forall i, j :: 0 <= i < j < |listing| ==> listing[i].0 != listing[j].0
  }

  /**
   * Children are visited in listing order: with distinct names, the keys of a directory's
   * object are the names of the children that yield an entry, in listing order.
   */
  lemma {:induction false} ChildrenInOrder(s: Settings, dir: Node, n: nat)
    requires dir.Directory? && n <= |dir.listing| && DistinctNames(dir.listing)
    ensures Keys(PickChildren(s, dir, n)) == YieldingNames(s, dir.listing[..n])
  {
    if n > 0 {
      ChildrenInOrder(s, dir, n - 1);
      var name := dir.listing[n - 1].0;
      assert dir.listing[..n][..n - 1] == dir.listing[..n - 1];
      assert name !in Keys(PickChildren(s, dir, n - 1)) by {
        YieldingNamesFrom(s, dir.listing[..n - 1]);
      }
      PickedKeys(s, PickChildren(s, dir, n - 1), name, dir.listing[n - 1].1);
    }
  }

  /** Every name in `YieldingNames` is the name of a child. */
  lemma {:induction false} YieldingNamesFrom(s: Settings, listing: seq<(string, Node)>)
    ensures forall x :: x in YieldingNames(s, listing) ==> exists k :: 0 <= k < |listing| && listing[k].0 == x
  {
    if listing != [] {
      var init := listing[..|listing| - 1];
      YieldingNamesFrom(s, init);
      forall x | x in YieldingNames(s, listing)
        ensures exists k :: 0 <= k < |listing| && listing[k].0 == x
      {
        if x in YieldingNames(s, init) {
          var k :| 0 <= k < |init| && init[k].0 == x;
          assert listing[k].0 == x;
        } else {
          assert listing[|listing| - 1].0 == x;
        }
      }
    }
  }
}
