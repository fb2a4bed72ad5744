/**
 * The router of `_parseResult`: the result of the walk is visited depth first; every file
 * text is appended, behind a header naming its path, to one bucket of the destination's
 * bucket table, the first declared key that the path begins with (optionally after `./`),
 * or the default bucket `""` when none does.
 */
module Router {
  import opened Text
  import opened Walker

  /** The `writeFileName` option: `true`, a string, or anything else. */
  datatype FileNameMode = Heading | Prefix(mark: string) | Annotation

  /** The line pushed before a file's text. */
  function Header(mode: FileNameMode, uri: string): (h: string)
    ensures mode.Heading? ==> h == "## " + uri
    ensures mode.Prefix? ==> h == mode.mark + " " + uri
    ensures mode.Annotation? ==> h == "<!-- " + uri + " -->"
  {
    match mode
    case Heading => "## " + uri
    case Prefix(mark) => mark + " " + uri
    case Annotation => "<!-- " + uri + " -->"
  }

  /** The path of an entry: the names leading to it joined by `/`. */
  function PathOf(nest: seq<string>, key: string): string {
    Join(nest + [key], "/")
  }

  /** A bucket key claims a path when it is non-empty and the path begins with it or with `./` and it. */
  predicate Selects(key: string, uri: string) {
    key != "" && (key <= uri || "./" + key <= uri)
  }

  /** The index of the first key, in table order, that claims `uri`. */
  function FirstSelecting(keys: seq<string>, uri: string): (i: Option<nat>)
    ensures i.Some? ==> i.value < |keys| && Selects(keys[i.value], uri)
    ensures i.Some? ==> forall j :: 0 <= j < i.value ==> !Selects(keys[j], uri)
    ensures i.None? ==> forall j :: 0 <= j < |keys| ==> !Selects(keys[j], uri)
  {
    if keys == [] then None
    else if Selects(keys[0], uri) then Some(0)
    else match FirstSelecting(keys[1..], uri)
      case None => None
      case Some(i) => Some(i + 1)
  }

  /** The bucket a file at `uri` is written to. */
  function Choose(keys: seq<string>, uri: string): string {
    match FirstSelecting(keys, uri)
    case None => ""
    case Some(i) => keys[i]
  }

  /** A bucket map that has a bucket for the default key and for every key of the table. */
  predicate Covers(lists: map<string, seq<string>>, keys: seq<string>) {
    "" in lists && forall k :: k in keys ==> k in lists
  }

  /** The bucket map after `_parseResult` has routed the first `n` entries of `folder`. */
  function RouteEntries(lists: map<string, seq<string>>, keys: seq<string>, folder: Extract,
                        nest: seq<string>, mode: FileNameMode, n: nat): (r: map<string, seq<string>>)
    requires Covers(lists, keys) && folder.Folder? && n <= |folder.entries|
    ensures r.Keys == lists.Keys
    decreases folder, 0, n
  {
    if n == 0 then lists
    else
      var before := RouteEntries(lists, keys, folder, nest, mode, n - 1);
      RouteEntry(before, keys, folder.entries[n - 1].0, folder.entries[n - 1].1, nest, mode)
  }

  /** The bucket map after routing one entry named `key` below `nest`. */
  function RouteEntry(lists: map<string, seq<string>>, keys: seq<string>, key: string, value: Extract,
                      nest: seq<string>, mode: FileNameMode): (r: map<string, seq<string>>)
    requires Covers(lists, keys)
    ensures r.Keys == lists.Keys
    decreases value, 1
  {
    match value
    case Folder(entries) => RouteEntries(lists, keys, value, nest + [key], mode, |entries|)
    case Leaf(text) =>
      var uri := PathOf(nest, key);
      var bucket := Choose(keys, uri);
      lists[bucket := lists[bucket] + [Header(mode, uri), text]]
  }

  /** The files of the first `n` entries of `folder`, depth first, as (path, text) pairs. */
  function LeavesOf(folder: Extract, nest: seq<string>, n: nat): seq<(string, string)>
    requires folder.Folder? && n <= |folder.entries|
    decreases folder, 0, n
  {
    if n == 0 then []
    else LeavesOf(folder, nest, n - 1) + LeavesOfEntry(folder.entries[n - 1].0, folder.entries[n - 1].1, nest)
  }

  function LeavesOfEntry(key: string, value: Extract, nest: seq<string>): seq<(string, string)>
    decreases value, 1
  {
    match value
    case Folder(entries) => LeavesOf(value, nest + [key], |entries|)
    case Leaf(text) => [(PathOf(nest, key), text)]
  }

  /** Each file, in order, appends its header and its text to the bucket its path chooses. */
  function Deliver(lists: map<string, seq<string>>, keys: seq<string>, leaves: seq<(string, string)>,
                   mode: FileNameMode): (r: map<string, seq<string>>)
    requires Covers(lists, keys)
    ensures r.Keys == lists.Keys
    decreases |leaves|
  {
    if leaves == [] then lists
    else
      var last := leaves[|leaves| - 1];
      var before := Deliver(lists, keys, leaves[..|leaves| - 1], mode);
      var bucket := Choose(keys, last.0);
      before[bucket := before[bucket] + [Header(mode, last.0), last.1]]
  }

  /** What the files in `leaves` add to bucket `k`: header and text of each file routed there, in order. */
  function Share(keys: seq<string>, leaves: seq<(string, string)>, k: string, mode: FileNameMode): seq<string>
  {
    if leaves == [] then []
    else
      var last := leaves[|leaves| - 1];
      Share(keys, leaves[..|leaves| - 1], k, mode)
        + (if Choose(keys, last.0) == k then [Header(mode, last.0), last.1] else [])
  }

  lemma {:induction false} DeliverAppend(lists: map<string, seq<string>>, keys: seq<string>,
                                         a: seq<(string, string)>, b: seq<(string, string)>, mode: FileNameMode)
    requires Covers(lists, keys)
    ensures Deliver(lists, keys, a + b, mode) == Deliver(Deliver(lists, keys, a, mode), keys, b, mode)
    decreases |b|
  {
    if b == [] {
      assert a + b == a;
    } else {
      assert (a + b)[..|a + b| - 1] == a + b[..|b| - 1];
      assert (a + b)[|a + b| - 1] == b[|b| - 1];
      DeliverAppend(lists, keys, a, b[..|b| - 1], mode);
    }
  }

  /**
   * The routing walk is a depth-first delivery: routing the entries of a folder has the same
   * effect as delivering its files one by one, in depth-first order.
   */
  lemma {:induction false} RoutedIsDelivered(lists: map<string, seq<string>>, keys: seq<string>, folder: Extract,
                                             nest: seq<string>, mode: FileNameMode, n: nat)
    requires Covers(lists, keys) && folder.Folder? && n <= |folder.entries|
    ensures RouteEntries(lists, keys, folder, nest, mode, n) == Deliver(lists, keys, LeavesOf(folder, nest, n), mode)
    decreases folder, 0, n
  {
    if n > 0 {
      var (key, value) := folder.entries[n - 1];
      var before := RouteEntries(lists, keys, folder, nest, mode, n - 1);
      var earlier, last := LeavesOf(folder, nest, n - 1), LeavesOfEntry(key, value, nest);
      RoutedIsDelivered(lists, keys, folder, nest, mode, n - 1);
      EntryIsDelivered(before, keys, key, value, nest, mode);
      DeliverStep(lists, keys, earlier, last, mode, before, RouteEntry(before, keys, key, value, nest, mode));
    }
  }

  /** Delivering `a` and then `b` is delivering `a + b`. */
  lemma {:induction false} DeliverStep(lists: map<string, seq<string>>, keys: seq<string>, a: seq<(string, string)>,
                    b: seq<(string, string)>, mode: FileNameMode, mid: map<string, seq<string>>,
                    r: map<string, seq<string>>)
    requires Covers(lists, keys) && mid == Deliver(lists, keys, a, mode) && r == Deliver(mid, keys, b, mode)
    ensures r == Deliver(lists, keys, a + b, mode)
  {
    DeliverAppend(lists, keys, a, b, mode);
  }

  lemma {:induction false} EntryIsDelivered(lists: map<string, seq<string>>, keys: seq<string>, key: string,
                                            value: Extract, nest: seq<string>, mode: FileNameMode)
    requires Covers(lists, keys)
    ensures RouteEntry(lists, keys, key, value, nest, mode) == Deliver(lists, keys, LeavesOfEntry(key, value, nest), mode)
    decreases value, 1
  {
    match value {
      case Folder(entries) =>
        RoutedIsDelivered(lists, keys, value, nest + [key], mode, |entries|);
      case Leaf(text) =>
        var leaves := [(PathOf(nest, key), text)];
        assert leaves[..0] == [];
    }
  }

  /**
   * Routing effect: every bucket keeps its entries and gains, in order, the header and text of
   * each file whose path chooses it; no bucket is added or removed.
   */
  lemma {:induction false} DeliverBuckets(lists: map<string, seq<string>>, keys: seq<string>,
                                          leaves: seq<(string, string)>, mode: FileNameMode)
    requires Covers(lists, keys)
    ensures forall k :: k in lists ==> Deliver(lists, keys, leaves, mode)[k] == lists[k] + Share(keys, leaves, k, mode)
    decreases |leaves|
  {
    if leaves != [] {
      DeliverBuckets(lists, keys, leaves[..|leaves| - 1], mode);
    }
  }

  /** A file is always routed to a bucket of the table: its chosen key, or the default one. */
  lemma ChooseInTable(keys: seq<string>, uri: string)
    ensures Choose(keys, uri) == "" || Choose(keys, uri) in keys
    ensures Choose(keys, uri) == "" <==> forall j :: 0 <= j < |keys| ==> !Selects(keys[j], uri)
  {
  }

  /** No key is declared twice: each key is new when it is appended. */
  predicate NoDuplicates(keys: seq<string>) {
    keys == [] || (keys[|keys| - 1] !in keys[..|keys| - 1] && NoDuplicates(keys[..|keys| - 1]))
  }

  /** No two positions hold the same key. */
  predicate Distinct(keys: seq<string>) {
    forall i, j :: 0 <= i < j < |keys| ==> keys[i] != keys[j]
  }

  /** Declaring only new keys is the same as keeping all keys distinct. */
  lemma {:induction false} NoDuplicatesDistinct(keys: seq<string>)
    ensures NoDuplicates(keys) <==> Distinct(keys)
  {
    if keys != [] {
      var init := keys[..|keys| - 1];
      var last := keys[|keys| - 1];
      NoDuplicatesDistinct(init);
      assert forall i :: 0 <= i < |init| ==> keys[i] == init[i];
      if NoDuplicates(keys) {
        forall i, j | 0 <= i < j < |keys|
          ensures keys[i] != keys[j]
        {
          if j == |keys| - 1 {
            assert keys[i] in init;
          }
        }
      }
    }
  }

  /**
   * The bucket table of `_writeFile`: bucket keys in the order they were declared, each with
   * the list of strings pushed into it. The default key `""` is always present.
   */
  class BucketTable {
    var keys: seq<string>
    var lists: map<string, seq<string>>

    ghost predicate Valid()
      reads this
    {
      && |keys| > 0 && keys[0] == ""
      && NoDuplicates(keys)
      && (forall k :: k in lists <==> k in keys)
    }

    /** `{ "": [] }`. */
    constructor ()
      ensures Valid() && keys == [""] && lists == map["" := []]
    {
      keys := [""];
      lists := map["" := []];
    }

    /** Adds an empty bucket for `key` unless it already has one. */
    method Declare(key: string)
      requires Valid()
      modifies this
      ensures Valid()
      ensures key in old(lists) ==> keys == old(keys) && lists == old(lists)
      ensures key !in old(lists) ==> keys == old(keys) + [key] && lists == old(lists)[key := []]
    {
      if key !in lists {
        assert (keys + [key])[..|keys|] == keys;
        keys := keys + [key];
        lists := lists[key := []];
      }
    }

    /** The inner loop of `_parseResult`: the first non-empty key that claims `uri`, else `""`. */
    method SelectBucket(uri: string) returns (output: string)
      requires Valid()
      ensures output == Choose(keys, uri) && output in lists
    {
      output := "";
      var i := 0;
      while i < |keys|
        invariant 0 <= i <= |keys|
        invariant forall j :: 0 <= j < i ==> !Selects(keys[j], uri)
      {
        var pattern := keys[i];
        if pattern != "" && (pattern <= uri || "./" + pattern <= uri) {
          output := pattern;
          return;
        }
        i := i + 1;
      }
    }

    /** `_parseResult(folder, this, nest)`: every file below `folder` is pushed into its bucket. */
    method Route(folder: Extract, nest: seq<string>, mode: FileNameMode)
      requires Valid() && folder.Folder?
      modifies this
      ensures Valid() && keys == old(keys)
      ensures lists == RouteEntries(old(lists), keys, folder, nest, mode, |folder.entries|)
      decreases folder, 0
    {
      for i := 0 to |folder.entries|
        invariant Valid() && keys == old(keys)
        invariant lists == RouteEntries(old(lists), keys, folder, nest, mode, i)
      {
        ghost var before := lists;
        RouteOne(folder.entries[i].0, folder.entries[i].1, nest, mode);
        assert lists == RouteEntry(before, keys, folder.entries[i].0, folder.entries[i].1, nest, mode);
      }
    }

    /**
     * One pass of the loop of `_parseResult`: the bucket is chosen for the entry's path; a
     * folder is routed recursively, a file pushes its header and then its text.
     */
    method RouteOne(key: string, value: Extract, nest: seq<string>, mode: FileNameMode)
      requires Valid()
      modifies this
      ensures Valid() && keys == old(keys)
      ensures lists == RouteEntry(old(lists), keys, key, value, nest, mode)
      decreases value, 1
    {
      var uri := Join(nest + [key], "/");
      var output := SelectBucket(uri);
      match value {
        case Folder(_) =>
          Route(value, nest + [key], mode);
        case Leaf(text) =>
          lists := lists[output := lists[output] + [Header(mode, uri)]];
          lists := lists[output := lists[output] + [text]];
          assert lists[output] == old(lists)[output] + [Header(mode, uri), text];
      }
    }
  }
}
