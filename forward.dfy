/**
  The forward converter's own logic around the validated file: whether a file is
  worth converting (`check_gfa_file`), the GBWT insertion batch size
  (`determine_batch_size`), whether segment names are translated into node ranges
  (`parse_segments`), and how `parse_paths` turns each replayed path or walk into
  a sequence of GBWT nodes (`add_segment` and the `current_path` buffer).
 */
module GfaToGbwt {
  import opened Optional
  import opened GfaBytes
  import opened GfaLines
  import opened GfaEvents
  import opened GfaParser
  import opened GbwtNodes

  // ---------------------------------------------------------------------------
  // check_gfa_file

  /** A file is converted only if it is ok, has a segment, and has a path or a walk. */
  function CheckGfaFile(file: GfaFile): (r: bool)
    reads file
    requires file.Consistent()
    ensures r <==> file.Ok() && |file.Segments()| > 0 && (|file.Paths()| > 0 || |file.Walks()| > 0)
  {
    file.Ok() && |file.sLines| > 0 && !(|file.pLines| == 0 && |file.wLines| == 0)
  }

  // ---------------------------------------------------------------------------
  // determine_batch_size

  /** The parts of `GFAParsingParameters` these decisions read. */
  datatype Parameters = Parameters(maxNodeLength: nat, batchSize: nat, automaticBatchSize: bool)

  /** `MIN_SEQUENCES_PER_BATCH * (max_path_length + 1)`, in 64-bit unsigned arithmetic. */
  function MinBatchSize(minSequencesPerBatch: nat, maxPathLength: nat): (r: nat)
    ensures r < WORD
  {
    (minSequencesPerBatch * (maxPathLength + 1)) % WORD
  }

  /**
    The batch size: the configured one, or in automatic mode the larger of it and
    room for the longest path, but never more than the file size.
   */
  function DetermineBatchSize(fileSize: nat, maxPathLength: nat, minSequencesPerBatch: nat, params: Parameters): (r: nat)
    ensures !params.automaticBatchSize ==> r == params.batchSize
    ensures params.automaticBatchSize ==> r <= fileSize
    ensures params.automaticBatchSize && r != fileSize ==>
      var minSize := MinBatchSize(minSequencesPerBatch, maxPathLength);
      params.batchSize <= r && minSize <= r && (r == params.batchSize || r == minSize)
    ensures params.automaticBatchSize && r == fileSize ==>
      fileSize <= params.batchSize || fileSize <= MinBatchSize(minSequencesPerBatch, maxPathLength)
  {
    if params.automaticBatchSize then
      var minSize := MinBatchSize(minSequencesPerBatch, maxPathLength);
      var larger := if minSize < params.batchSize then params.batchSize else minSize;
      if larger < fileSize then larger else fileSize
    else
      params.batchSize
  }

  /** When nothing wraps around, an automatic batch holds the longest path with its end marker, unless the file is smaller. */
  lemma BatchHoldsLongestPath(fileSize: nat, maxPathLength: nat, minSequencesPerBatch: nat, params: Parameters)
    requires params.automaticBatchSize && 1 <= minSequencesPerBatch
    requires minSequencesPerBatch * (maxPathLength + 1) < WORD
    ensures DetermineBatchSize(fileSize, maxPathLength, minSequencesPerBatch, params) >= if fileSize < maxPathLength + 1 then fileSize else maxPathLength + 1
  {
    var product := minSequencesPerBatch * (maxPathLength + 1);
    assert product >= maxPathLength + 1 by {
      assert product == (minSequencesPerBatch - 1) * (maxPathLength + 1) + (maxPathLength + 1);
    }
    assert MinBatchSize(minSequencesPerBatch, maxPathLength) == product;
  }

  // ---------------------------------------------------------------------------
  // The translate decision of parse_segments

  /**
    Segments are translated into node ranges when some segment is longer than the
    node length limit (0 stands for no limit, `std::numeric_limits<size_t>::max()`)
    or when some segment name is not usable as a node id.
   */
  function UsesTranslation(maxNodeLength: nat, maxSegmentLength: nat, translateSegmentIds: bool): (r: bool)
    requires maxSegmentLength < WORD
    ensures r <==> (maxNodeLength != 0 && maxSegmentLength > maxNodeLength) || translateSegmentIds
  {
    var limit := if maxNodeLength == 0 then WORD - 1 else maxNodeLength;
    if maxSegmentLength > limit then true
    else if translateSegmentIds then true
    else false
  }

  lemma {:induction false} SequenceLengthsAt(segments: seq<Segment>, k: nat)
    requires k < |segments|
    ensures SequenceLengths(segments)[k] == |segments[k].sequence|
    decreases |segments|
  {
    if k < |segments| - 1 {
      var init := segments[..|segments| - 1];
      assert init[k] == segments[k];
      SequenceLengthsAt(init, k);
    }
  }

  /** Some segment's sequence is longer than `n`. */
  predicate SomeSequenceLonger(segments: seq<Segment>, n: nat) {
    exists k :: 0 <= k < |segments| && |segments[k].sequence| > n
  }

  /**
    Over a file the constructor accepted, the decision is about its segments:
    translate exactly when some sequence exceeds the limit or some name is unusable.
   */
  lemma TranslationDecided(file: GfaFile, maxNodeLength: nat)
    requires file.Consistent() && file.Ok() && Summarizes(file.data, file.numericId, file.State())
    requires file.maxSegmentLength < WORD
    ensures UsesTranslation(maxNodeLength, file.maxSegmentLength, file.translateSegmentIds) <==>
      (maxNodeLength != 0 && SomeSequenceLonger(file.Segments(), maxNodeLength))
      || SomeNameUnusable(file.numericId, file.Segments())
  {
    var segments := file.Segments();
    var lengths := SequenceLengths(segments);
    MaxIsMaximum(lengths);
    if maxNodeLength != 0 && file.maxSegmentLength > maxNodeLength {
      var k :| 0 <= k < |lengths| && lengths[k] == Max(lengths);
      SequenceLengthsAt(segments, k);
    }
    if maxNodeLength != 0 && SomeSequenceLonger(segments, maxNodeLength) {
      var k :| 0 <= k < |segments| && |segments[k].sequence| > maxNodeLength;
      SequenceLengthsAt(segments, k);
    }
  }

  // ---------------------------------------------------------------------------
  // add_segment

  /** A translated segment's node ids, `[first, limit)`; `(0, 0)` for a name the source does not know. */
  datatype Range = Range(first: nat, limit: nat)

  /** `source.uses_translation()` together with `source.get_translation(name)`: None when names are used as ids. */
  type Translation = Option<Text -> Range>

  /** How many ids a `for` loop from `first` below `limit` visits. */
  function RangeSize(r: Range): nat {
    if r.first < r.limit then r.limit - r.first else 0
  }

  /** The forward nodes of the ids `first, first + 1, ..., limit - 1`. */
  function Ascending(range: Range): (r: seq<nat>)
    ensures |r| == RangeSize(range)
  {
    seq<nat>(RangeSize(range), k requires 0 <= k < RangeSize(range) => Encode(range.first + k, false))
  }

  /** The reverse nodes of the ids `limit - 1, limit - 2, ..., first`. */
  function Descending(range: Range): (r: seq<nat>)
    ensures |r| == RangeSize(range)
  {
    seq(RangeSize(range), k requires 0 <= k < RangeSize(range) => Encode(range.limit - 1 - k, true))
  }

  /** The nodes `add_segment` appends for one visit, or None when it refuses the visit. */
  function Expansion(tr: Translation, v: Visit): Option<seq<nat>> {
    match tr
    case None => Some([Encode(Accumulated(v.name), v.isReverse)])
    case Some(translate) =>
      var range := translate(v.name);
      if range.first == 0 && range.limit == 0 then None
      else if v.isReverse then Some(Descending(range))
      else Some(Ascending(range))
  }

  /** A visit is refused exactly when names are translated and its name has no range. */
  lemma ExpansionRefuses(tr: Translation, v: Visit)
    ensures Expansion(tr, v).None? <==> tr.Some? && tr.value(v.name) == Range(0, 0)
  {
  }

  /** Without translation, a visit is one node whose id is the name read as a decimal number. */
  lemma ExpansionUntranslated(v: Visit)
    ensures var r := Expansion(None, v);
      r.Some? && |r.value| == 1 && IsReverse(r.value[0]) == v.isReverse && Id(r.value[0]) == Accumulated(v.name)
    ensures AllDigits(v.name) ==> Id(Expansion(None, v).value[0]) == Value(v.name) % WORD
  {
    DecodeEncode(Accumulated(v.name), v.isReverse);
    if AllDigits(v.name) {
      AccumulatedDigits(v.name);
    }
  }

  /**
    With translation, a visit is the whole range in its orientation: ids ascending
    from `first` on a forward visit, descending from `limit - 1` on a reverse one.
   */
  lemma ExpansionTranslated(translate: Text -> Range, v: Visit)
    requires translate(v.name) != Range(0, 0)
    ensures var range := translate(v.name);
      var r := Expansion(Some(translate), v);
      && r.Some? && |r.value| == RangeSize(range)
      && (forall k :: 0 <= k < |r.value| ==> IsReverse(r.value[k]) == v.isReverse)
      && (forall k :: 0 <= k < |r.value| ==>
            Id(r.value[k]) == if v.isReverse then range.limit - 1 - k else range.first + k)
  {
    var range := translate(v.name);
    var r := Expansion(Some(translate), v);
    forall k | 0 <= k < |r.value|
      ensures IsReverse(r.value[k]) == v.isReverse
      ensures Id(r.value[k]) == if v.isReverse then range.limit - 1 - k else range.first + k
    {
      if v.isReverse {
        DecodeEncode(range.limit - 1 - k, true);
      } else {
        DecodeEncode(range.first + k, false);
      }
    }
  }

  /** A reverse visit passes the nodes of the forward visit of the same segment in the opposite order. */
  lemma ExpansionMirrors(translate: Text -> Range, name: Text)
    requires translate(name) != Range(0, 0)
    ensures var forward := Expansion(Some(translate), Visit(name, false)).value;
      var backward := Expansion(Some(translate), Visit(name, true)).value;
      && |forward| == |backward|
      && forall k :: 0 <= k < |backward| ==> Id(backward[k]) == Id(forward[|forward| - 1 - k])
  {
    ExpansionTranslated(translate, Visit(name, false));
    ExpansionTranslated(translate, Visit(name, true));
  }

  // ---------------------------------------------------------------------------
  // The callbacks of parse_paths, as a fold over the replayed events

  /** The closure state of `parse_paths`: `current_path` and the paths inserted into the builder so far. */
  datatype Indexing = Indexing(current: seq<nat>, inserted: seq<seq<nat>>)

  /** The callbacks return true for every event except a visit `add_segment` refuses. */
  predicate Handled<N>(tr: Translation, e: Event<N>) {
    !e.Visited? || Expansion(tr, e.visit).Some?
  }

  /** The three callbacks as one replay consumer: it looks at the event just delivered. */
  function Consumer<N>(tr: Translation): seq<Event<N>> -> bool {
    (d: seq<Event<N>>) => d == [] || Handled(tr, d[|d| - 1])
  }

  /**
    What the callbacks do with one event. As written, the name callback does
    nothing; with `clearOnStart` it also empties `current_path`.
   */
  function Handle<N>(tr: Translation, clearOnStart: bool, st: Indexing, e: Event<N>): Indexing {
    match e
    case Start(_) => if clearOnStart then st.(current := []) else st
    case Visited(v) =>
      (match Expansion(tr, v)
       case Some(nodes) => st.(current := st.current + nodes)
       case None => st)
    case Finish => Indexing([], st.inserted + [st.current])
  }

  /** A replay of `events` through the callbacks: the state, and whether no callback returned false. */
  function Run<N>(tr: Translation, clearOnStart: bool, st: Indexing, events: seq<Event<N>>): (Indexing, bool) {
    if events == [] then (st, true)
    else
      var (s, alive) := Run(tr, clearOnStart, st, events[..|events| - 1]);
      var e := events[|events| - 1];
      if alive then (Handle(tr, clearOnStart, s, e), Handled(tr, e)) else (s, false)
  }

  /** A replay of two stretches is the replay of the second from where the first left off, unless the first was stopped. */
  lemma {:induction false} RunAppend<N>(tr: Translation, c: bool, st: Indexing, a: seq<Event<N>>, b: seq<Event<N>>)
    ensures Run(tr, c, st, a + b) == (var r := Run(tr, c, st, a); if r.1 then Run(tr, c, r.0, b) else (r.0, false))
    decreases |b|
  {
    if b == [] {
      assert a + b == a;
    } else {
      var b' := b[..|b| - 1];
      assert (a + b)[..|a + b| - 1] == a + b';
      RunAppend(tr, c, st, a, b');
    }
  }

  /** Handing the callbacks only what the replay delivers ends in the state of running them over everything. */
  lemma RunDelivered<N>(tr: Translation, c: bool, st: Indexing, events: seq<Event<N>>)
    ensures Run(tr, c, st, Delivered(events, Consumer(tr))) == Run(tr, c, st, events)
  {
    var d := Delivered(events, Consumer(tr));
    DeliveredIsDelivery(events, Consumer(tr));
    if |d| < |events| {
      assert !Handled(tr, d[|d| - 1]);
      assert events == d + events[|d|..];
      RunAppend(tr, c, st, d, events[|d|..]);
    } else {
      assert d == events;
    }
  }

  /** The replay delivers no refused visit before its last event. */
  lemma DeliveredHandled<N>(tr: Translation, events: seq<Event<N>>, k: nat)
    requires k + 1 < |Delivered(events, Consumer(tr))|
    ensures Handled(tr, Delivered(events, Consumer(tr))[k])
  {
    var d := Delivered(events, Consumer(tr));
    DeliveredIsDelivery(events, Consumer(tr));
    assert Consumer(tr)(events[..k + 1]);
    assert events[..k + 1][k] == d[k];
  }

  // ---------------------------------------------------------------------------
  // parse_paths

  /** What `parse_paths` leaves: every path replayed, then every walk, through the same callbacks. */
  function ParsedPaths(tr: Translation, clearOnStart: bool, st: Indexing, paths: seq<Path>, walks: seq<Walk>): Indexing {
    var afterPaths := Run(tr, clearOnStart, st, PathEvents(paths)).0;
    Run(tr, clearOnStart, afterPaths, WalkEvents(walks)).0
  }

  /** The closure of `parse_paths`: the buffer `current_path` and the builder, seen as the list of inserted paths. */
  class PathIndexer {
    const translation: Translation
    var currentPath: seq<nat>
    var inserted: seq<seq<nat>>

    constructor (translation: Translation)
      ensures this.translation == translation && currentPath == [] && inserted == []
    {
      this.translation := translation;
      currentPath := [];
      inserted := [];
    }

    function Snapshot(): Indexing
      reads this
    {
      Indexing(currentPath, inserted)
    }

    /** `add_segment`: append the nodes of one visit, or refuse it when its name has no translation. */
    method AddSegment(name: Text, isReverse: bool) returns (ok: bool)
      modifies this
      ensures ok == Expansion(translation, Visit(name, isReverse)).Some?
      ensures inserted == old(inserted)
      ensures currentPath == if ok then old(currentPath) + Expansion(translation, Visit(name, isReverse)).value else old(currentPath)
    {
      if translation.Some? {
        var range := translation.value(name);
        if range.first == 0 && range.limit == 0 {
          return false;
        }
        if isReverse {
          var id: nat := range.limit;
          while id > range.first
            invariant id <= range.limit && (range.first < range.limit ==> range.first <= id)
            invariant range.limit <= range.first ==> id == range.limit
            invariant currentPath == old(currentPath) + seq(range.limit - id, k requires 0 <= k < range.limit - id => Encode(range.limit - 1 - k, true))
            invariant inserted == old(inserted)
          {
            currentPath := currentPath + [Encode(id - 1, isReverse)];
            id := id - 1;
          }
          assert range.limit - id == RangeSize(range);
          assert currentPath == old(currentPath) + Descending(range);
        } else {
          var id: nat := range.first;
          while id < range.limit
            invariant range.first <= id && (range.first < range.limit ==> id <= range.limit)
            invariant range.limit <= range.first ==> id == range.first
            invariant currentPath == old(currentPath) + seq(id - range.first, k requires 0 <= k < id - range.first => Encode(range.first + k, false))
            invariant inserted == old(inserted)
          {
            currentPath := currentPath + [Encode(id, isReverse)];
            id := id + 1;
          }
          assert id - range.first == RangeSize(range);
          assert currentPath == old(currentPath) + Ascending(range);
        }
      } else {
        var id := StoulUnsafe(name);
        currentPath := currentPath + [Encode(id, isReverse)];
      }
      return true;
    }

    /** The finishing callback: `builder.insert(current_path, true); current_path.clear();`. */
    method FinishPath()
      modifies this
      ensures inserted == old(inserted) + [old(currentPath)] && currentPath == []
    {
      inserted := inserted + [currentPath];
      currentPath := [];
    }

    /** Run the callback the event calls for; false when it refuses. */
    method HandleEvent<N>(e: Event<N>, clearOnStart: bool) returns (ok: bool)
      modifies this
      ensures Snapshot() == Handle(translation, clearOnStart, old(Snapshot()), e)
      ensures ok == Handled(translation, e)
    {
      match e
      case Start(_) =>
        if clearOnStart {
          currentPath := [];
        }
        ok := true;
      case Visited(v) =>
        ok := AddSegment(v.name, v.isReverse);
      case Finish =>
        FinishPath();
        ok := true;
    }

    /** Hand the callbacks what a replay delivers, in order. */
    method Consume<N>(delivered: seq<Event<N>>, clearOnStart: bool, ghost events: seq<Event<N>>)
      requires delivered == Delivered(events, Consumer(translation))
      modifies this
      ensures Snapshot() == Run(translation, clearOnStart, old(Snapshot()), events).0
    {
      ghost var st0 := Snapshot();
      for i := 0 to |delivered|
        invariant Run(translation, clearOnStart, st0, delivered[..i]).0 == Snapshot()
        invariant i < |delivered| ==> Run(translation, clearOnStart, st0, delivered[..i]).1
      {
        assert delivered[..i + 1][..i] == delivered[..i];
        var ok := HandleEvent(delivered[i], clearOnStart);
        if i + 1 < |delivered| {
          DeliveredHandled(translation, events, i);
        }
      }
      assert delivered[..|delivered|] == delivered;
      RunDelivered(translation, clearOnStart, st0, events);
    }

    /** `parse_paths` as written: replay the paths, then the walks, into the builder. */
    method ParsePaths(file: GfaFile)
      requires file.Valid()
      modifies this
      ensures Snapshot() == ParsedPaths(translation, false, old(Snapshot()), file.Paths(), file.Walks())
    {
      var paths := file.ForEachPath(Consumer(translation));
      Consume(paths, false, PathEvents(file.Paths()));
      var walks := file.ForEachWalk(Consumer(translation));
      Consume(walks, false, WalkEvents(file.Walks()));
    }

    /** `parse_paths` with the name callbacks emptying `current_path` before each traversal. */
    method ParsePathsCorrected(file: GfaFile)
      requires file.Valid()
      modifies this
      ensures Snapshot() == ParsedPaths(translation, true, old(Snapshot()), file.Paths(), file.Walks())
      ensures inserted == old(inserted) + Resolved(translation, PathVisitLists(file.Paths())) + Resolved(translation, WalkVisitLists(file.Walks()))
    {
      var paths := file.ForEachPath(Consumer(translation));
      Consume(paths, true, PathEvents(file.Paths()));
      var walks := file.ForEachWalk(Consumer(translation));
      Consume(walks, true, WalkEvents(file.Walks()));
      CorrectedInsertsTraversals(translation, old(Snapshot()), file.Paths(), file.Walks());
    }
  }

  // ---------------------------------------------------------------------------
  // What the callbacks insert

  /** The nodes of one traversal: the expansions of its visits, or None if some visit is refused. */
  function Resolve(tr: Translation, visits: seq<Visit>): Option<seq<nat>> {
    if visits == [] then Some([])
    else
      match Resolve(tr, visits[..|visits| - 1])
      case None => None
      case Some(nodes) =>
        match Expansion(tr, visits[|visits| - 1])
        case None => None
        case Some(last) => Some(nodes + last)
  }

  /** Every traversal resolves. */
  predicate AllResolve(tr: Translation, traversals: seq<seq<Visit>>) {
    forall k :: 0 <= k < |traversals| ==> Resolve(tr, traversals[k]).Some?
  }

  /** The node sequences of the traversals before the first one that does not resolve. */
  function Resolved(tr: Translation, traversals: seq<seq<Visit>>): seq<seq<nat>> {
    if traversals == [] then []
    else
      var init := traversals[..|traversals| - 1];
      if !AllResolve(tr, init) then Resolved(tr, init)
      else
        match Resolve(tr, traversals[|traversals| - 1])
        case Some(nodes) => Resolved(tr, init) + [nodes]
        case None => Resolved(tr, init)
  }

  function PathVisitLists(paths: seq<Path>): seq<seq<Visit>> {
    Project(paths, (p: Path) => p.visits)
  }

  function WalkVisitLists(walks: seq<Walk>): seq<seq<Visit>> {
    Project(walks, (w: Walk) => w.visits)
  }

  function Visits<N>(vs: seq<Visit>): (r: seq<Event<N>>)
    ensures |r| == |vs|
  {
    seq(|vs|, k requires 0 <= k < |vs| => Visited(vs[k]))
  }

  /** After the name and the visits of a traversal, the buffer holds its nodes, unless a visit was refused. */
  lemma {:induction false} RunVisits<N>(tr: Translation, c: bool, st: Indexing, name: N, vs: seq<Visit>)
    ensures var r := Run(tr, c, st, [Start(name)] + Visits<N>(vs));
      && r.0.inserted == st.inserted
      && (r.1 <==> Resolve(tr, vs).Some?)
      && (r.1 ==> r.0.current == (if c then [] else st.current) + Resolve(tr, vs).value)
    decreases |vs|
  {
    var events := [Start(name)] + Visits<N>(vs);
    if vs == [] {
      assert events == [Start(name)];
      assert events[..0] == [];
    } else {
      var init := vs[..|vs| - 1];
      var v := vs[|vs| - 1];
      assert events[..|events| - 1] == [Start(name)] + Visits<N>(init);
      var e: Event<N> := Visited(v);
      assert events[|events| - 1] == e;
      RunVisits(tr, c, st, name, init);
      var before := Run(tr, c, st, [Start(name)] + Visits<N>(init));
      assert Run(tr, c, st, events) == if before.1 then (Handle(tr, c, before.0, e), Handled(tr, e)) else (before.0, false);
    }
  }

  /** A whole traversal inserts its nodes and empties the buffer, or stops having inserted nothing. */
  lemma RunBlock<N>(tr: Translation, c: bool, st: Indexing, name: N, vs: seq<Visit>)
    ensures var r := Run(tr, c, st, Block(name, vs));
      && (r.1 <==> Resolve(tr, vs).Some?)
      && (r.1 ==> r.0 == Indexing([], st.inserted + [(if c then [] else st.current) + Resolve(tr, vs).value]))
      && (!r.1 ==> r.0.inserted == st.inserted)
  {
    var opening := [Start(name)] + Visits<N>(vs);
    assert Block(name, vs) == opening + [Finish];
    assert (opening + [Finish])[..|opening|] == opening;
    RunVisits(tr, c, st, name, vs);
  }

  lemma AllResolveAppend(tr: Translation, traversals: seq<seq<Visit>>)
    requires traversals != []
    ensures AllResolve(tr, traversals) <==>
      AllResolve(tr, traversals[..|traversals| - 1]) && Resolve(tr, traversals[|traversals| - 1]).Some?
  {
    var init := traversals[..|traversals| - 1];
    if AllResolve(tr, init) && Resolve(tr, traversals[|traversals| - 1]).Some? {
      forall k | 0 <= k < |traversals| ensures Resolve(tr, traversals[k]).Some? {
        if k < |init| { assert traversals[k] == init[k]; }
      }
    }
    if AllResolve(tr, traversals) {
      forall k | 0 <= k < |init| ensures Resolve(tr, init[k]).Some? {
        assert traversals[k] == init[k];
      }
    }
  }

  /** With the buffer emptied at each name, replaying the paths inserts exactly the resolved paths. */
  lemma {:induction false} CorrectedRunIndexesPaths(tr: Translation, st: Indexing, paths: seq<Path>)
    ensures var r := Run(tr, true, st, PathEvents(paths));
      && r.0.inserted == st.inserted + Resolved(tr, PathVisitLists(paths))
      && (r.1 <==> AllResolve(tr, PathVisitLists(paths)))
    decreases |paths|
  {
    var lists := PathVisitLists(paths);
    if paths == [] {
      assert lists == [];
    } else {
      var init := paths[..|paths| - 1];
      var last := paths[|paths| - 1];
      assert lists[..|lists| - 1] == PathVisitLists(init);
      CorrectedRunIndexesPaths(tr, st, init);
      var r1 := Run(tr, true, st, PathEvents(init));
      assert PathEvents(paths) == PathEvents(init) + PathBlock(last);
      RunAppend(tr, true, st, PathEvents(init), PathBlock(last));
      RunBlock(tr, true, r1.0, last.name, last.visits);
      AllResolveAppend(tr, lists);
      assert lists[|lists| - 1] == last.visits;
      if r1.1 {
        var r2 := Run(tr, true, r1.0, PathBlock(last));
        assert Run(tr, true, st, PathEvents(paths)) == r2;
        if r2.1 {
          assert [] + Resolve(tr, last.visits).value == Resolve(tr, last.visits).value;
          assert r2.0.inserted == r1.0.inserted + [Resolve(tr, last.visits).value];
        }
        assert Resolved(tr, lists) == Resolved(tr, PathVisitLists(init)) + (if Resolve(tr, last.visits).Some? then [Resolve(tr, last.visits).value] else []);
      } else {
        assert Resolved(tr, lists) == Resolved(tr, PathVisitLists(init));
      }
    }
  }

  lemma {:induction false} CorrectedRunIndexesWalks(tr: Translation, st: Indexing, walks: seq<Walk>)
    ensures var r := Run(tr, true, st, WalkEvents(walks));
      && r.0.inserted == st.inserted + Resolved(tr, WalkVisitLists(walks))
      && (r.1 <==> AllResolve(tr, WalkVisitLists(walks)))
    decreases |walks|
  {
    var lists := WalkVisitLists(walks);
    if walks == [] {
      assert lists == [];
    } else {
      var init := walks[..|walks| - 1];
      var last := walks[|walks| - 1];
      assert lists[..|lists| - 1] == WalkVisitLists(init);
      CorrectedRunIndexesWalks(tr, st, init);
      var r1 := Run(tr, true, st, WalkEvents(init));
      assert WalkEvents(walks) == WalkEvents(init) + WalkBlock(last);
      RunAppend(tr, true, st, WalkEvents(init), WalkBlock(last));
      RunBlock(tr, true, r1.0, last.name, last.visits);
      AllResolveAppend(tr, lists);
      assert lists[|lists| - 1] == last.visits;
      if r1.1 {
        var r2 := Run(tr, true, r1.0, WalkBlock(last));
        assert Run(tr, true, st, WalkEvents(walks)) == r2;
        if r2.1 {
          assert [] + Resolve(tr, last.visits).value == Resolve(tr, last.visits).value;
          assert r2.0.inserted == r1.0.inserted + [Resolve(tr, last.visits).value];
        }
        assert Resolved(tr, lists) == Resolved(tr, WalkVisitLists(init)) + (if Resolve(tr, last.visits).Some? then [Resolve(tr, last.visits).value] else []);
      } else {
        assert Resolved(tr, lists) == Resolved(tr, WalkVisitLists(init));
      }
    }
  }

  /**
    With the buffer emptied at each name, `parse_paths` inserts the node sequence
    of every path up to the first one with a refused visit, then likewise for the
    walks, and nothing else.
   */
  lemma CorrectedInsertsTraversals(tr: Translation, st: Indexing, paths: seq<Path>, walks: seq<Walk>)
    ensures ParsedPaths(tr, true, st, paths, walks).inserted
         == st.inserted + Resolved(tr, PathVisitLists(paths)) + Resolved(tr, WalkVisitLists(walks))
  {
    CorrectedRunIndexesPaths(tr, st, paths);
    CorrectedRunIndexesWalks(tr, Run(tr, true, st, PathEvents(paths)).0, walks);
  }

  // ---------------------------------------------------------------------------
  // The as-written callbacks carry a refused path's nodes into the first walk

  /** A translation that knows only segment `a`, as the single node id 1. */
  function OnlyA(name: Text): Range {
    if name == ['a'] then Range(1, 2) else Range(0, 0)
  }

  const exampleTranslation: Translation := Some(OnlyA)
  const visitA: Visit := Visit(['a'], false)
  const visitZ: Visit := Visit(['z'], false)
  /** A P-line `p  a+,z+` whose second segment has no translation. */
  const examplePath: Path := Path(['p'], [visitA, visitZ])
  /** A W-line `s  0  c  0  ...  >a`. */
  const exampleWalk: Walk := Walk(WalkName(['s'], ['0'], ['c'], ['0']), [visitA])

  lemma ExampleResolves()
    ensures Expansion(exampleTranslation, visitA) == Some([2])
    ensures Expansion(exampleTranslation, visitZ) == None
    ensures Resolve(exampleTranslation, [visitA]) == Some([2])
    ensures Resolve(exampleTranslation, [visitA, visitZ]) == None
  {
    assert OnlyA(['a']) == Range(1, 2);
    assert OnlyA(['z']) == Range(0, 0);
    assert Ascending(Range(1, 2)) == [2] by {
      assert Ascending(Range(1, 2))[0] == Encode(1, false);
    }
    var none: seq<Visit> := [];
    var two: seq<nat> := [2];
    assert [visitA][..0] == none;
    assert Resolve(exampleTranslation, none) == Some([]);
    assert [] + two == two;
    assert [visitA, visitZ][..1] == [visitA];
  }

  /** As written, the path stops at `z` with the node of `a` left in `current_path` and nothing inserted. */
  lemma ExamplePathPhase()
    ensures Run(exampleTranslation, false, Indexing([], []), PathEvents([examplePath])) == (Indexing([2], []), false)
  {
    var tr := exampleTranslation;
    var empty := Indexing([], []);
    var p := examplePath;
    ExampleResolves();
    RunVisits<Text>(tr, false, empty, p.name, [visitA]);
    var opening := [Start(p.name)] + Visits<Text>([visitA]);
    var refusal: seq<Event<Text>> := [Visited(visitZ)];
    assert [Start(p.name)] + Visits<Text>([visitA, visitZ]) == opening + refusal;
    RunAppend(tr, false, empty, opening, refusal);
    assert refusal[..0] == [];
    assert Run(tr, false, empty, opening + refusal) == (Indexing([2], []), false);
    assert PathBlock(p) == (opening + refusal) + [Finish];
    RunAppend(tr, false, empty, opening + refusal, [Finish]);
    assert PathEvents([p]) == PathBlock(p) by {
      assert [p][..0] == [];
    }
  }

  /** As written, the walk then appends its own node to what the path left and inserts both. */
  lemma ExampleWalkPhase()
    ensures Run(exampleTranslation, false, Indexing([2], []), WalkEvents([exampleWalk])).0.inserted == [[2, 2]]
  {
    ExampleResolves();
    RunBlock<WalkName>(exampleTranslation, false, Indexing([2], []), exampleWalk.name, exampleWalk.visits);
    assert WalkEvents([exampleWalk]) == WalkBlock(exampleWalk) by {
      var none: seq<Walk> := [];
      assert [exampleWalk][..0] == none;
      assert WalkEvents(none) == [];
    }
    assert exampleWalk.visits == [visitA];
    var two: seq<nat> := [2];
    assert two + two == [2, 2];
  }

  /** The traversals' own node sequences: the path inserts nothing, the walk `[2]`. */
  lemma ExampleResolved()
    ensures Resolved(exampleTranslation, PathVisitLists([examplePath])) == []
    ensures Resolved(exampleTranslation, WalkVisitLists([exampleWalk])) == [[2]]
  {
    ExampleResolves();
    assert PathVisitLists([examplePath]) == [[visitA, visitZ]];
    assert WalkVisitLists([exampleWalk]) == [[visitA]];
    var none: seq<seq<Visit>> := [];
    var two: seq<seq<nat>> := [[2]];
    assert [[visitA, visitZ]][..0] == none;
    assert [[visitA]][..0] == none;
    assert AllResolve(exampleTranslation, none);
    assert Resolved(exampleTranslation, none) == [];
    assert [] + two == two;
  }

  /**
    The counterexample: as written, `parse_paths` inserts the walk `>a` as the two
    nodes `[2, 2]`, the first of them left over from the refused path; the walk's
    own nodes, and what the corrected callbacks insert, are `[2]`.
   */
  lemma AsWrittenMixesTraversals()
    ensures ParsedPaths(exampleTranslation, false, Indexing([], []), [examplePath], [exampleWalk]).inserted == [[2, 2]]
    ensures Resolved(exampleTranslation, PathVisitLists([examplePath])) + Resolved(exampleTranslation, WalkVisitLists([exampleWalk])) == [[2]]
    ensures ParsedPaths(exampleTranslation, true, Indexing([], []), [examplePath], [exampleWalk]).inserted == [[2]]
  {
    ExamplePathPhase();
    ExampleWalkPhase();
    ExampleResolved();
    CorrectedInsertsTraversals(exampleTranslation, Indexing([], []), [examplePath], [exampleWalk]);
  }
}
