/**
 * The whole run of `pick`: the target is walked into a result object, the destination is
 * searched for its keys, the result is routed into the buckets of those keys, and the buckets
 * are merged back into the destination's text, which is the text written out.
 */
module Mdnize {
  import opened Text
  import Walker
  import Router
  import Merger
  import MergerFacts
  import Discovery
  import DiscoveryFacts
  import Idempotence

  /** The buckets after `_parseResult` has routed `result` into the destination's table. */
  function Buckets(dest: Option<string>, result: seq<(string, Walker.Extract)>, mode: Router.FileNameMode)
    : (lists: map<string, seq<string>>)
    ensures forall k :: k in lists <==> k in Discovery.DestKeys(dest)
  {
    var keys := Discovery.DestKeys(dest);
    DiscoveryFacts.DestKeysFacts(dest);
    Router.RouteEntries(Discovery.EmptyBuckets(keys), keys, Walker.Folder(result), [], mode, |result|)
  }

  /** The text `_writeFile` writes for `result` into the destination. */
  function Written(dest: Option<string>, result: seq<(string, Walker.Extract)>, mode: Router.FileNameMode): string {
    var keys := Discovery.DestKeys(dest);
    Merger.Merged(Discovery.DestText(dest), Merger.Pairs(keys, Buckets(dest, result, mode)), |keys|)
  }

  /** `_writeFile`: discovery, routing and merge, in that order, on one bucket table. */
  method WriteFile(dest: Option<string>, result: seq<(string, Walker.Extract)>, mode: Router.FileNameMode)
    returns (buffer: string)
    ensures buffer == Written(dest, result, mode)
  {
    var text, table := Discovery.PrepareDestination(dest);
    table.Route(Walker.Folder(result), [], mode);
    assert forall j :: 0 <= j < |table.keys| ==> table.keys[j] in table.keys;
    buffer := Merger.CreateBuffer(text, table);
  }

  /** `pick`: the walk of the target from an empty result object, then `_writeFile`. */
  method Pick(s: Walker.Settings, target: string, root: Walker.Node, dest: Option<string>,
              mode: Router.FileNameMode) returns (buffer: string)
    ensures buffer == Written(dest, Walker.Picked(s, [], target, root), mode)
  {
    var result := Walker.PickTarget(s, target, root);
    buffer := WriteFile(dest, result, mode);
  }

  /** The header and text of each file, in order. */
  function Entries(leaves: seq<(string, string)>, mode: Router.FileNameMode): seq<string> {
    if leaves == [] then []
    else
      var last := leaves[|leaves| - 1];
      Entries(leaves[..|leaves| - 1], mode) + [Router.Header(mode, last.0), last.1]
  }

  /** With the default key alone, every file is routed to the default bucket. */
  lemma {:induction false} DefaultShare(leaves: seq<(string, string)>, mode: Router.FileNameMode)
    ensures Router.Share([""], leaves, "", mode) == Entries(leaves, mode)
    decreases |leaves|
  {
    if leaves != [] {
      DefaultShare(leaves[..|leaves| - 1], mode);
      Router.ChooseInTable([""], leaves[|leaves| - 1].0);
    }
  }

  /**
   * A destination that is empty or cannot be read receives exactly the default pair, holding
   * the header and text of every file of the walk in depth-first order.
   */
  lemma BlankDestination(dest: Option<string>, result: seq<(string, Walker.Extract)>, mode: Router.FileNameMode)
    requires dest.None? || dest == Some("")
    ensures Written(dest, result, mode)
            == Merger.Replacement("", Entries(Router.LeavesOf(Walker.Folder(result), [], |result|), mode))
  {
    DefaultBucket(dest, result, mode);
    DiscoveryFacts.DestTextFacts(dest);
    var lists := Buckets(dest, result, mode);
    MergeIntoScaffold(Merger.Pairs([""], lists), Merger.Replacement("", lists[""]));
  }

  /** Routing into the default key alone fills its bucket with every file, in walk order. */
  lemma DefaultBucket(dest: Option<string>, result: seq<(string, Walker.Extract)>, mode: Router.FileNameMode)
    requires dest.None? || dest == Some("")
    ensures Discovery.DestKeys(dest) == [""]
    ensures Buckets(dest, result, mode)[""] == Entries(Router.LeavesOf(Walker.Folder(result), [], |result|), mode)
  {
    var folder := Walker.Folder(result);
    var leaves := Router.LeavesOf(folder, [], |result|);
    var empty := Discovery.EmptyBuckets([""]);
    Router.RoutedIsDelivered(empty, [""], folder, [], mode, |result|);
    Router.DeliverBuckets(empty, [""], leaves, mode);
    DefaultShare(leaves, mode);
  }

  /** Merging a replacement of the default key into the default pair gives the replacement. */
  lemma MergeIntoScaffold(pairs: seq<(string, string)>, rep: string)
    requires |pairs| == 1 && pairs[0] == ("", rep)
    ensures Merger.Merged(Discovery.Scaffold, pairs, 1) == rep
  {
    Merger.MergedNext(Discovery.Scaffold, pairs, 0);
    DiscoveryFacts.ScaffoldIsDefaultPair();
    assert Discovery.Scaffold[|Discovery.Scaffold|..] == [];
    assert Merger.Replace(Discovery.Scaffold, "", rep) == rep + [];
  }

  /**
   * Merging the written text again with the same buckets changes nothing, when no routed
   * entry holds the start of a marker.
   */
  lemma WrittenIsStable(dest: Option<string>, result: seq<(string, Walker.Extract)>, mode: Router.FileNameMode)
    requires forall k :: k in Discovery.DestKeys(dest) ==> Merger.Inert(Merger.Body(Buckets(dest, result, mode)[k]))
    ensures var keys, lists := Discovery.DestKeys(dest), Buckets(dest, result, mode);
            Merger.Merged(Written(dest, result, mode), Merger.Pairs(keys, lists), |keys|) == Written(dest, result, mode)
  {
    var keys, lists := Discovery.DestKeys(dest), Buckets(dest, result, mode);
    DiscoveryFacts.DestKeysFacts(dest);
    forall i | 0 <= i < |keys|
      ensures keys[i] in lists && Merger.Inert(Merger.Body(lists[keys[i]]))
    {
      assert keys[i] in keys;
    }
    Idempotence.MergeIdempotent(Discovery.DestText(dest), keys, lists);
  }

  /**
   * When a file's header holds no marker head: its path holds none, a `writeFileName` string
   * has no `<`, and an annotation header's path does not begin as a marker word does.
   */
  predicate HeaderOk(mode: Router.FileNameMode, uri: string) {
    && Merger.Inert(uri)
    && match mode
       case Heading => true
       case Prefix(mark) => '<' !in mark
       case Annotation => |uri| < 7 || !Merger.IsWordHead(uri[..7])
  }

  /** Under `HeaderOk`, the header `_parseResult` pushes before a file holds no marker head. */
  lemma HeaderInert(mode: Router.FileNameMode, uri: string)
    requires HeaderOk(mode, uri)
    ensures Merger.Inert(Router.Header(mode, uri))
  {
    match mode
    case Heading =>
      MergerFacts.InertAfterNoLt("## ", uri);
    case Prefix(mark) =>
      MergerFacts.InertAfterNoLt(mark + " ", uri);
    case Annotation =>
      AnnotationInert(uri);
  }

  lemma AnnotationInert(uri: string)
    requires Merger.Inert(uri) && (|uri| < 7 || !Merger.IsWordHead(uri[..7]))
    ensures Merger.Inert("<!-- " + uri + " -->")
  {
    var tail := " -->";
    MergerFacts.InertAfterNoLt(tail, []);
    assert tail + [] == tail;
    MergerFacts.InertAppend(uri, tail);
    var t := uri + tail;
    var h := "<!-- " + t;
    assert h == "<!-- " + uri + " -->";
    forall p | 0 <= p < |h|
      ensures !Merger.HeadAt(h, p)
    {
      if p == 0 && 12 <= |h| {
        if |uri| >= 7 {
          assert h[5..12] == uri[..7];
        } else {
          assert h[5..12][|uri|] == ' ';
        }
      } else if 0 < p < 5 {
        assert h[p] == "<!-- "[p];
        MergerFacts.NoLtNoHead(h, p);
      } else if p >= 5 {
        MergerFacts.HeadShift("<!-- ", t, p - 5);
      }
    }
  }

  /** A file whose header and text hold no marker head. */
  predicate LeafOk(mode: Router.FileNameMode, leaf: (string, string)) {
    HeaderOk(mode, leaf.0) && Merger.Inert(leaf.1)
  }

  /** What routing adds to a bucket holds no marker head when no file's header or text does. */
  lemma {:induction false} ShareInert(keys: seq<string>, leaves: seq<(string, string)>, k: string,
                                      mode: Router.FileNameMode)
    requires forall i :: 0 <= i < |leaves| ==> LeafOk(mode, leaves[i])
    ensures forall j :: 0 <= j < |Router.Share(keys, leaves, k, mode)| ==> Merger.Inert(Router.Share(keys, leaves, k, mode)[j])
    decreases |leaves|
  {
    if leaves != [] {
      var last := leaves[|leaves| - 1];
      assert LeafOk(mode, last);
      var before := Router.Share(keys, leaves[..|leaves| - 1], k, mode);
      var added := if Router.Choose(keys, last.0) == k then [Router.Header(mode, last.0), last.1] else [];
      ShareInert(keys, leaves[..|leaves| - 1], k, mode);
      HeaderInert(mode, last.0);
      assert Router.Share(keys, leaves, k, mode) == before + added;
      forall j | 0 <= j < |before + added|
        ensures Merger.Inert((before + added)[j])
      {
        if j < |before| {
          assert (before + added)[j] == before[j];
        } else if j == |before| {
          assert (before + added)[j] == Router.Header(mode, last.0);
        } else {
          assert (before + added)[j] == last.1;
        }
      }
    }
  }

  /** The files of the walk, in the order they are routed. */
  function Files(result: seq<(string, Walker.Extract)>): seq<(string, string)> {
    Router.LeavesOf(Walker.Folder(result), [], |result|)
  }

  /** When no file's header or text holds a marker head, no bucket's body holds one. */
  lemma BucketsInert(dest: Option<string>, result: seq<(string, Walker.Extract)>, mode: Router.FileNameMode)
    requires forall i :: 0 <= i < |Files(result)| ==> LeafOk(mode, Files(result)[i])
    ensures forall k :: k in Discovery.DestKeys(dest) ==> Merger.Inert(Merger.Body(Buckets(dest, result, mode)[k]))
  {
    var keys := Discovery.DestKeys(dest);
    var empty := Discovery.EmptyBuckets(keys);
    DiscoveryFacts.DestKeysFacts(dest);
    Router.RoutedIsDelivered(empty, keys, Walker.Folder(result), [], mode, |result|);
    Router.DeliverBuckets(empty, keys, Files(result), mode);
    forall k | k in keys
      ensures Merger.Inert(Merger.Body(Buckets(dest, result, mode)[k]))
    {
      ShareInert(keys, Files(result), k, mode);
      assert Buckets(dest, result, mode)[k] == Router.Share(keys, Files(result), k, mode);
      MergerFacts.BodyInert(Buckets(dest, result, mode)[k]);
    }
  }

  /**
   * Writing the same walk into the written text again changes nothing, when no file's path
   * or text holds a marker head (and headers are as `HeaderOk` says).
   */
  lemma FilesAreStable(dest: Option<string>, result: seq<(string, Walker.Extract)>, mode: Router.FileNameMode)
    requires forall i :: 0 <= i < |Files(result)| ==> LeafOk(mode, Files(result)[i])
    ensures var keys, lists := Discovery.DestKeys(dest), Buckets(dest, result, mode);
            Merger.Merged(Written(dest, result, mode), Merger.Pairs(keys, lists), |keys|) == Written(dest, result, mode)
  {
    BucketsInert(dest, result, mode);
    WrittenIsStable(dest, result, mode);
  }
}
