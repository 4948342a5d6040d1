/**
  The reverse converter (`gbwt_to_gfa`): a cache of segment names and lengths
  indexed by node, and the writers of the S-, L-, P- and W-lines. The graph and
  the GBWT index are given as values holding what the writers enumerate; the
  output is the produced text.
 */
module GbwtToGfa {
  import opened Optional
  import opened GfaBytes
  import opened GfaTokens
  import opened GbwtNodes
  import GfaLines
  import GfaEvents
  import Forward = GfaToGbwt

  const TAB: Text := ['\t']
  const NEWLINE: Text := ['\n']
  const SEGMENT_OPENING: Text := ['S', '\t']
  const PATH_OPENING: Text := ['P', '\t']
  const WALK_OPENING: Text := ['W', '\t']
  const COMMA: Text := [',']
  const LINK_OPENING: Text := ['L', '\t']
  const LINK_CLOSING: Text := ['\t', '*', '\n']
  const HEADER: Text := ['H', '\t', 'V', 'N', ':', 'Z', ':', '1', '.', '0', '\n']
  const STAR: Text := ['*']

  /** A prefix one element longer. */
  lemma PrefixStep<T>(s: seq<T>, i: nat)
    requires i < |s|
    ensures s[..i + 1] == s[..i] + [s[i]]
  {
  }

  // ---------------------------------------------------------------------------
  // The graph as the writers see it

  /** A segment of the graph (`for_each_segment`): its name and its node ids `[first, limit)`. */
  datatype NamedSegment = NamedSegment(name: Text, first: nat, limit: nat)

  /** An edge between two oriented nodes, as GBWT nodes (`handle_to_node` of both handles). */
  datatype Edge = Edge(from: nat, to: nat)

  /** An edge between two segments together with their names (`for_each_link`). */
  datatype SegmentLink = SegmentLink(edge: Edge, from: Text, to: Text)

  /**
    The parts of `GBWTGraph` the writers read: the node range of the index
    (`firstNode()`, `sigma()`), the node ids in `for_each_handle` order, the
    sequence of each node's forward handle, the edges in `for_each_edge` order,
    and, when the graph has segment names, its segments and segment links.
   */
  datatype Graph = Graph(
    firstNode: nat, sigma: nat,
    nodeIds: seq<nat>, sequence: nat -> Text,
    edges: seq<Edge>,
    segments: Option<seq<NamedSegment>>, links: seq<SegmentLink>)

  /** The number of node ids the tables cover, `(sigma() - firstNode()) / 2`. */
  function SlotCount(g: Graph): nat
    requires g.firstNode <= g.sigma
  {
    (g.sigma - g.firstNode) / 2
  }

  /** The number of nodes of a segment, `nodes.second - nodes.first`. */
  function Length(s: NamedSegment): nat
    requires s.first <= s.limit
  {
    s.limit - s.first
  }

  /** Without segment names every node is its own segment, named by its id (`std::to_string(get_id(handle))`). */
  function NodeSegments(ids: seq<nat>): (r: seq<NamedSegment>)
    ensures |r| == |ids|
    ensures forall k :: 0 <= k < |ids| ==> r[k] == NamedSegment(Decimal(ids[k]), ids[k], ids[k] + 1)
  {
    seq(|ids|, k requires 0 <= k < |ids| => NamedSegment(Decimal(ids[k]), ids[k], ids[k] + 1))
  }

  /** The segments the cache is built from. */
  function CachedSegments(g: Graph): seq<NamedSegment> {
    match g.segments
    case Some(segments) => segments
    case None => NodeSegments(g.nodeIds)
  }

  /** The slot of the first node of a segment, `(encode(nodes.first, false) - firstNode()) / 2`. */
  function RelativeSlot(s: NamedSegment, firstNode: nat): nat
    requires firstNode <= Encode(s.first, false)
  {
    Slot(Encode(s.first, false), firstNode)
  }

  /** Every segment's nodes have slots in a table of `count` slots. */
  predicate SegmentsFit(segments: seq<NamedSegment>, firstNode: nat, count: nat) {
    forall k :: 0 <= k < |segments| ==>
      && segments[k].first <= segments[k].limit
      && firstNode <= Encode(segments[k].first, false)
      && RelativeSlot(segments[k], firstNode) + Length(segments[k]) <= count
  }

  /** What the cache relies on: an even first node, and every cached segment inside the node range. */
  predicate GraphShape(g: Graph) {
    && g.firstNode <= g.sigma && g.firstNode % 2 == 0
    && SegmentsFit(CachedSegments(g), g.firstNode, SlotCount(g))
  }

  /** No two segments share a node id. */
  predicate Disjoint(segments: seq<NamedSegment>) {
    forall a, b :: 0 <= a < b < |segments| ==>
      segments[a].limit <= segments[b].first || segments[b].limit <= segments[a].first
  }

  /** Distinct node ids make disjoint one-node segments. */
  lemma NodeSegmentsDisjoint(ids: seq<nat>)
    requires forall a, b :: 0 <= a < b < |ids| ==> ids[a] != ids[b]
    ensures Disjoint(NodeSegments(ids))
  {
  }

  function Names(segments: seq<NamedSegment>): seq<Text> {
    GfaEvents.Project(segments, (s: NamedSegment) => s.name)
  }

  // ---------------------------------------------------------------------------
  // SegmentCache

  /** The cache as a value: for each slot, the index of its segment's name and the segment's length in nodes. */
  datatype Cache = Cache(firstNode: nat, slots: seq<(nat, nat)>, names: seq<Text>)

  /** The slots of segment `s` all hold `(k, length of s)`. */
  predicate SlotsHold(slots: seq<(nat, nat)>, firstNode: nat, s: NamedSegment, k: nat)
    requires s.first <= s.limit && firstNode <= Encode(s.first, false)
  {
    && RelativeSlot(s, firstNode) + Length(s) <= |slots|
    && forall j :: RelativeSlot(s, firstNode) <= j < RelativeSlot(s, firstNode) + Length(s) ==> slots[j] == (k, Length(s))
  }

  /** Every segment's slots name that segment and hold its length. */
  predicate CachesAll(cache: Cache, segments: seq<NamedSegment>)
    requires SegmentsFit(segments, cache.firstNode, |cache.slots|)
  {
    && cache.names == Names(segments)
    && forall k :: 0 <= k < |segments| ==> SlotsHold(cache.slots, cache.firstNode, segments[k], k)
  }

  /** A node the cache can answer for: its slot exists, names a segment and holds a positive length. */
  predicate Resolves(cache: Cache, node: nat) {
    && cache.firstNode <= node && Slot(node, cache.firstNode) < |cache.slots|
    && cache.slots[Slot(node, cache.firstNode)].0 < |cache.names|
    && cache.slots[Slot(node, cache.firstNode)].1 >= 1
  }

  /** `SegmentCache::get`: the name index and the segment length stored for a node. */
  function Get(cache: Cache, node: nat): (r: (nat, nat))
    requires Resolves(cache, node)
    ensures r.0 < |cache.names| && r.1 >= 1
  {
    cache.slots[Slot(node, cache.firstNode)]
  }

  /** The name the cache returns for a node. */
  function NameOf(cache: Cache, node: nat): Text
    requires Resolves(cache, node)
  {
    cache.names[Get(cache, node).0]
  }

  /** A cache built from disjoint segments answers, for every node of a segment in either orientation, that segment. */
  lemma CachedNode(cache: Cache, segments: seq<NamedSegment>, k: nat, id: nat, isReverse: bool)
    requires cache.firstNode % 2 == 0 && SegmentsFit(segments, cache.firstNode, |cache.slots|)
    requires CachesAll(cache, segments)
    requires k < |segments| && segments[k].first <= id < segments[k].limit
    ensures Resolves(cache, Encode(id, isReverse))
    ensures Get(cache, Encode(id, isReverse)) == (k, Length(segments[k]))
    ensures NameOf(cache, Encode(id, isReverse)) == segments[k].name
  {
    var s := segments[k];
    SlotOfId(s.first, false, cache.firstNode);
    SlotOfId(id, isReverse, cache.firstNode);
    assert SlotsHold(cache.slots, cache.firstNode, s, k);
  }

  /** `SegmentCache`: the slot table over the node range and the segment names, in enumeration order. */
  class SegmentCache {
    const firstNode: nat
    const segments: array<(nat, nat)>
    var names: seq<Text>

    function View(): Cache
      reads this, segments
    {
      Cache(firstNode, segments[..], names)
    }

    /** Set `count` slots from `first` on to `value`, leaving the others as they were. */
    method Fill(first: nat, count: nat, value: (nat, nat))
      requires first + count <= segments.Length
      modifies segments
      ensures forall j :: 0 <= j < segments.Length ==>
        segments[j] == if first <= j < first + count then value else old(segments[j])
    {
      for i := first to first + count
        invariant forall j :: 0 <= j < segments.Length ==>
          segments[j] == if first <= j < i then value else old(segments[j])
      {
        segments[i] := value;
      }
    }

    /**
      Fill the slots of each segment's nodes with its name index and length, and
      append its name. With disjoint segments every segment's slots survive.
     */
    constructor (g: Graph)
      requires GraphShape(g)
      ensures firstNode == g.firstNode && segments.Length == SlotCount(g) && fresh(segments)
      ensures names == Names(CachedSegments(g))
      ensures Disjoint(CachedSegments(g)) ==> CachesAll(View(), CachedSegments(g))
    {
      var all := CachedSegments(g);
      firstNode := g.firstNode;
      segments := new (nat, nat)[SlotCount(g)](_ => (0, 0));
      names := [];
      new;
      for k := 0 to |all|
        invariant names == Names(all[..k])
        invariant Disjoint(all) ==> forall m :: 0 <= m < k ==> SlotsHold(segments[..], firstNode, all[m], m)
      {
        var s := all[k];
        var relative := RelativeSlot(s, firstNode);
        var length := s.limit - s.first;
        ghost var before := segments[..];
        Fill(relative, length, (|names|, length));
        assert all[..k + 1] == all[..k] + [s];
        names := names + [s.name];
        if Disjoint(all) {
          KeepsOthers(before, segments[..], firstNode, all, k, relative, length);
        }
      }
      assert all[..|all|] == all;
    }
  }

  /** Filling one segment's slots keeps what the earlier, disjoint segments' slots hold, and fills its own. */
  lemma KeepsOthers(before: seq<(nat, nat)>, after: seq<(nat, nat)>, firstNode: nat, all: seq<NamedSegment>,
                    k: nat, relative: nat, length: nat)
    requires firstNode % 2 == 0 && SegmentsFit(all, firstNode, |before|) && Disjoint(all)
    requires k < |all| && relative == RelativeSlot(all[k], firstNode) && length == Length(all[k])
    requires |after| == |before| && relative + length <= |before|
    requires forall j :: 0 <= j < |after| ==> after[j] == if relative <= j < relative + length then (k, length) else before[j]
    requires forall m :: 0 <= m < k ==> SlotsHold(before, firstNode, all[m], m)
    ensures forall m :: 0 <= m < k + 1 ==> SlotsHold(after, firstNode, all[m], m)
  {
    forall m | 0 <= m < k + 1
      ensures SlotsHold(after, firstNode, all[m], m)
    {
      if m < k {
        var t := all[m];
        assert SlotsHold(before, firstNode, t, m);
        SlotOfId(t.first, false, firstNode);
        SlotOfId(all[k].first, false, firstNode);
        assert RelativeSlot(t, firstNode) + Length(t) <= relative || relative + length <= RelativeSlot(t, firstNode);
      }
    }
  }

  // ---------------------------------------------------------------------------
  // write_segments

  /** One S-line under construction: the name index and the sequences written so far. */
  datatype Group = Group(name: nat, sequence: Text)

  /** Every handle's forward node has a cache answer. */
  predicate HandlesResolve(cache: Cache, ids: seq<nat>) {
    forall k :: 0 <= k < |ids| ==> Resolves(cache, Encode(ids[k], false))
  }

  /** The name index of a node id's forward handle. */
  function NameIndex(cache: Cache, id: nat): (r: nat)
    requires Resolves(cache, Encode(id, false))
    ensures r < |cache.names|
  {
    Get(cache, Encode(id, false)).0
  }

  /** One handle more, with name index `k` and sequence `more`: it extends the last run or opens a new one. */
  function AddHandle(groups: seq<Group>, k: nat, more: Text): (r: seq<Group>)
    ensures |groups| <= |r| <= |groups| + 1 && r != [] && r[|r| - 1].name == k
    ensures forall j :: 0 <= j < |groups| - 1 ==> r[j] == groups[j]
  {
    if groups != [] && groups[|groups| - 1].name == k then
      groups[..|groups| - 1] + [Group(k, groups[|groups| - 1].sequence + more)]
    else
      groups + [Group(k, more)]
  }

  /** The maximal runs of consecutive handles with the same cached name, each with its sequences in order. */
  function Groups(cache: Cache, sequence: nat -> Text, ids: seq<nat>): (r: seq<Group>)
    requires HandlesResolve(cache, ids)
    ensures |r| <= |ids| && (ids != [] ==> r != [] && r[|r| - 1].name == NameIndex(cache, ids[|ids| - 1]))
    ensures forall j :: 0 <= j < |r| ==> r[j].name < |cache.names|
  {
    if ids == [] then []
    else
      var id := ids[|ids| - 1];
      AddHandle(Groups(cache, sequence, ids[..|ids| - 1]), NameIndex(cache, id), sequence(id))
  }

  /** An S-line without its newline: `S`, the name, then the sequence. */
  function OpenLine(cache: Cache, gr: Group): Text
    requires gr.name < |cache.names|
  {
    SEGMENT_OPENING + cache.names[gr.name] + TAB + gr.sequence
  }

  /** The S-lines of the groups, one per group. */
  function SegmentLines(cache: Cache, groups: seq<Group>): Text
    requires forall j :: 0 <= j < |groups| ==> groups[j].name < |cache.names|
  {
    if groups == [] then []
    else SegmentLines(cache, groups[..|groups| - 1]) + OpenLine(cache, groups[|groups| - 1]) + NEWLINE
  }

  /** The lines written so far: the finished ones, then the last one still open. */
  function OpenLines(cache: Cache, groups: seq<Group>): Text
    requires forall j :: 0 <= j < |groups| ==> groups[j].name < |cache.names|
  {
    if groups == [] then []
    else SegmentLines(cache, groups[..|groups| - 1]) + OpenLine(cache, groups[|groups| - 1])
  }

  /** The groups of a prefix and one handle more. */
  lemma GroupsStep(cache: Cache, sequence: nat -> Text, ids: seq<nat>, id: nat)
    requires HandlesResolve(cache, ids + [id])
    ensures HandlesResolve(cache, ids) && Resolves(cache, Encode(id, false))
    ensures Groups(cache, sequence, ids + [id]) ==
      AddHandle(Groups(cache, sequence, ids), NameIndex(cache, id), sequence(id))
  {
    assert forall k :: 0 <= k < |ids| ==> (ids + [id])[k] == ids[k];
    assert (ids + [id])[|ids|] == id;
    assert (ids + [id])[..|ids|] == ids;
  }

  /** The lines written once one handle more has been added. */
  lemma OpenLinesAdd(cache: Cache, groups: seq<Group>, k: nat, more: Text)
    requires forall j :: 0 <= j < |groups| ==> groups[j].name < |cache.names|
    requires k < |cache.names|
    ensures forall j :: 0 <= j < |AddHandle(groups, k, more)| ==> AddHandle(groups, k, more)[j].name < |cache.names|
    ensures OpenLines(cache, AddHandle(groups, k, more)) ==
      if groups != [] && groups[|groups| - 1].name == k then OpenLines(cache, groups) + more
      else (if groups == [] then [] else OpenLines(cache, groups) + NEWLINE) + OpenLine(cache, Group(k, more))
  {
    var r := AddHandle(groups, k, more);
    if groups != [] && groups[|groups| - 1].name == k {
      assert r[..|r| - 1] == groups[..|groups| - 1];
    } else {
      assert r[..|r| - 1] == groups;
    }
  }

  /** Writing pieces one after the other appends their concatenation. */
  lemma Regroup(a: Text, b: Text, c: Text, d: Text, e: Text)
    ensures a + b + c + d + e == a + (b + c + d + e)
  {
  }

  /** The name index of the last S-line, if any. */
  function LastName(groups: seq<Group>): Option<nat> {
    if groups == [] then None else Some(groups[|groups| - 1].name)
  }

  /** The groups name strings of the cache. */
  predicate NamesCached(cache: Cache, groups: seq<Group>) {
    forall j :: 0 <= j < |groups| ==> groups[j].name < |cache.names|
  }

  /**
    The body of the `write_segments` callback for one handle with name index
    `k` and sequence `more`: a name other than the previous one ends the open
    line and opens an S-line; then the sequence is written.
   */
  method WriteHandle(cache: Cache, ghost groups: seq<Group>, prev: Option<nat>, out: Text, k: nat, more: Text)
    returns (prev': Option<nat>, out': Text)
    requires NamesCached(cache, groups) && k < |cache.names|
    requires prev == LastName(groups) && out == OpenLines(cache, groups)
    ensures NamesCached(cache, AddHandle(groups, k, more))
    ensures prev' == LastName(AddHandle(groups, k, more))
    ensures out' == OpenLines(cache, AddHandle(groups, k, more))
  {
    OpenLinesAdd(cache, groups, k, more);
    out' := out;
    if prev != Some(k) {
      if prev.Some? {
        out' := out' + NEWLINE;
      }
      prev' := Some(k);
      ghost var start := out';
      out' := out' + SEGMENT_OPENING;
      out' := out' + cache.names[k];
      out' := out' + TAB;
      out' := out' + more;
      Regroup(start, SEGMENT_OPENING, cache.names[k], TAB, more);
    } else {
      prev' := prev;
      out' := out' + more;
    }
  }

  /**
    `write_segments`: go through the handles, starting a new S-line whenever the
    cached name differs from the previous handle's (names are compared by their
    place in the cache, as the source compares views of the same strings).
   */
  method WriteSegments(g: Graph, cache: Cache) returns (out: Text)
    requires HandlesResolve(cache, g.nodeIds)
    ensures out == SegmentLines(cache, Groups(cache, g.sequence, g.nodeIds))
  {
    var prev: Option<nat> := None;
    ghost var groups: seq<Group> := [];
    out := [];
    for i := 0 to |g.nodeIds|
      invariant HandlesResolve(cache, g.nodeIds[..i])
      invariant groups == Groups(cache, g.sequence, g.nodeIds[..i])
      invariant NamesCached(cache, groups) && prev == LastName(groups)
      invariant out == OpenLines(cache, groups)
    {
      var id := g.nodeIds[i];
      PrefixStep(g.nodeIds, i);
      GroupsStep(cache, g.sequence, g.nodeIds[..i], id);
      var segment := Get(cache, Encode(id, false));
      prev, out := WriteHandle(cache, groups, prev, out, segment.0, g.sequence(id));
      groups := AddHandle(groups, segment.0, g.sequence(id));
    }
    assert g.nodeIds[..|g.nodeIds|] == g.nodeIds;
    if prev.Some? {
      out := out + NEWLINE;
    }
  }

  /** Neighbouring S-lines have different cached names: each line is a maximal run. */
  lemma {:induction false} GroupsNeighboursDiffer(cache: Cache, sequence: nat -> Text, ids: seq<nat>)
    requires HandlesResolve(cache, ids)
    ensures var groups := Groups(cache, sequence, ids);
      forall j :: 0 <= j < |groups| - 1 ==> groups[j].name != groups[j + 1].name
    decreases |ids|
  {
    if ids != [] {
      var init := ids[..|ids| - 1];
      var id := ids[|ids| - 1];
      assert ids == init + [id];
      GroupsStep(cache, sequence, init, id);
      GroupsNeighboursDiffer(cache, sequence, init);
      var groups := Groups(cache, sequence, init);
      var k := NameIndex(cache, id);
      var r := AddHandle(groups, k, sequence(id));
      forall j | 0 <= j < |r| - 1
        ensures r[j].name != r[j + 1].name
      {
        if j + 1 < |groups| {
          assert j + 1 < |r| - 1 ==> r[j + 1] == groups[j + 1];
          assert r[j + 1].name == groups[j + 1].name;
        }
      }
    }
  }

  /** The sequences of the S-lines, in order. */
  function Sequences(groups: seq<Group>): Text {
    if groups == [] then [] else Sequences(groups[..|groups| - 1]) + groups[|groups| - 1].sequence
  }

  /** The sequences of the handles, in order. */
  function HandleSequences(sequence: nat -> Text, ids: seq<nat>): Text {
    if ids == [] then [] else HandleSequences(sequence, ids[..|ids| - 1]) + sequence(ids[|ids| - 1])
  }

  /** Adding a handle appends its sequence to the groups' sequences. */
  lemma SequencesAdd(groups: seq<Group>, k: nat, more: Text)
    ensures Sequences(AddHandle(groups, k, more)) == Sequences(groups) + more
  {
    var r := AddHandle(groups, k, more);
    if groups != [] && groups[|groups| - 1].name == k {
      var front := groups[..|groups| - 1];
      assert r[..|r| - 1] == front;
      assert Sequences(groups) == Sequences(front) + groups[|groups| - 1].sequence;
    } else {
      assert r[..|r| - 1] == groups;
    }
  }

  /** Grouping loses and reorders nothing: the S-lines' sequences, read in order, are every handle's sequence in order. */
  lemma {:induction false} GroupsKeepSequences(cache: Cache, sequence: nat -> Text, ids: seq<nat>)
    requires HandlesResolve(cache, ids)
    ensures Sequences(Groups(cache, sequence, ids)) == HandleSequences(sequence, ids)
    decreases |ids|
  {
    if ids != [] {
      var init := ids[..|ids| - 1];
      var id := ids[|ids| - 1];
      assert ids == init + [id];
      GroupsStep(cache, sequence, init, id);
      GroupsKeepSequences(cache, sequence, init);
      SequencesAdd(Groups(cache, sequence, init), NameIndex(cache, id), sequence(id));
    }
  }

  // ---------------------------------------------------------------------------
  // write_links

  /** An L-line between two oriented segments, with overlap `*`. */
  function LinkLine(from: Text, fromNode: nat, to: Text, toNode: nat): Text {
    LINK_OPENING + from + TAB + [OrientationByte(IsReverse(fromNode))] + TAB
    + to + TAB + [OrientationByte(IsReverse(toNode))] + LINK_CLOSING
  }

  /** The L-lines of the graph's segment links, in `for_each_link` order. */
  function NamedLinkLines(links: seq<SegmentLink>): Text {
    if links == [] then []
    else
      var l := links[|links| - 1];
      NamedLinkLines(links[..|links| - 1]) + LinkLine(l.from, l.edge.from, l.to, l.edge.to)
  }

  /** Both ends of every edge have a cache answer. */
  predicate EdgesResolve(cache: Cache, edges: seq<Edge>) {
    forall k :: 0 <= k < |edges| ==> Resolves(cache, edges[k].from) && Resolves(cache, edges[k].to)
  }

  /** The L-lines of the graph's edges, in `for_each_edge` order, with the cached names of both ends. */
  function EdgeLines(cache: Cache, edges: seq<Edge>): Text
    requires EdgesResolve(cache, edges)
  {
    if edges == [] then []
    else
      var e := edges[|edges| - 1];
      EdgeLines(cache, edges[..|edges| - 1]) + LinkLine(NameOf(cache, e.from), e.from, NameOf(cache, e.to), e.to)
  }

  /**
    `write_links`: with segment names, one L-line per segment link with the
    names the graph gives; otherwise one per edge, named through the cache.
   */
  method WriteLinks(g: Graph, cache: Cache) returns (out: Text)
    requires g.segments.None? ==> EdgesResolve(cache, g.edges)
    ensures out == if g.segments.Some? then NamedLinkLines(g.links) else EdgeLines(cache, g.edges)
  {
    out := [];
    if g.segments.Some? {
      for i := 0 to |g.links|
        invariant out == NamedLinkLines(g.links[..i])
      {
        var l := g.links[i];
        PrefixStep(g.links, i);
        out := out + LinkLine(l.from, l.edge.from, l.to, l.edge.to);
      }
      assert g.links[..|g.links|] == g.links;
    } else {
      for i := 0 to |g.edges|
        invariant EdgesResolve(cache, g.edges[..i])
        invariant out == EdgeLines(cache, g.edges[..i])
      {
        var e := g.edges[i];
        PrefixStep(g.edges, i);
        out := out + LinkLine(NameOf(cache, e.from), e.from, NameOf(cache, e.to), e.to);
      }
      assert g.edges[..|g.edges|] == g.edges;
    }
  }

  // ---------------------------------------------------------------------------
  // Written lines read back

  /** No tab and no newline: the bytes can form one field. */
  predicate FieldFree(s: Text) {
    forall m :: 0 <= m < |s| ==> !IsFieldSeparator(s[m])
  }

  /** The scan over the bytes `[i, j)`, none a separator of its class, stops at a separator or the end at `j`. */
  lemma {:induction false} ScanEndAt(data: Text, i: nat, j: nat, k: SeparatorClass)
    requires i <= j <= |data|
    requires forall m :: i <= m < j ==> !Ends(k, data[m])
    requires j == |data| || Ends(k, data[j])
    ensures ScanEnd(data, i, k) == j
    decreases j - i
  {
    if i < j {
      ScanEndAt(data, i + 1, j, k);
    }
  }

  /** A field-free run of bytes at `b`, followed by a separator, is one field. */
  lemma FieldAt(data: Text, b: nat, s: Text)
    requires b + |s| < |data| && FieldFree(s) && IsFieldSeparator(data[b + |s|])
    requires forall m :: 0 <= m < |s| ==> data[b + m] == s[m]
    ensures ScanEnd(data, b, FieldEnds) == b + |s|
    ensures data[b..b + |s|] == s
  {
    forall m | b <= m < b + |s|
      ensures !Ends(FieldEnds, data[m])
    {
      assert data[b + (m - b)] == s[m - b];
    }
    ScanEndAt(data, b, b + |s|, FieldEnds);
  }

  /** The bytes of an L-line by position. */
  lemma LinkLineBytes(from: Text, fromNode: nat, to: Text, toNode: nat)
    ensures var line := LinkLine(from, fromNode, to, toNode);
      var f := |from|;
      var t := |to|;
      && |line| == 10 + f + t
      && line[0] == 'L' && line[1] == '\t'
      && (forall m :: 0 <= m < f ==> line[2 + m] == from[m])
      && line[2 + f] == '\t' && line[3 + f] == OrientationByte(IsReverse(fromNode)) && line[4 + f] == '\t'
      && (forall m :: 0 <= m < t ==> line[5 + f + m] == to[m])
      && line[5 + f + t] == '\t' && line[6 + f + t] == OrientationByte(IsReverse(toNode)) && line[7 + f + t] == '\t'
  {
    var f := |from|;
    var t := |to|;
    var a := LINK_OPENING + from + TAB + [OrientationByte(IsReverse(fromNode))] + TAB;
    var b := to + TAB + [OrientationByte(IsReverse(toNode))] + LINK_CLOSING;
    assert LinkLine(from, fromNode, to, toNode) == a + b;
    assert |a| == 5 + f;
    assert forall m :: 0 <= m < f ==> a[2 + m] == from[m];
    assert forall m :: 0 <= m < t ==> b[m] == to[m];
  }

  /** The field after `f`, when the bytes after its separator are a field-free run `s` ended by a separator. */
  lemma NextFieldAt(data: Text, f: GfaTokens.Field, s: Text)
    requires f.end + 1 + |s| < |data| && FieldFree(s) && IsFieldSeparator(data[f.end + 1 + |s|])
    requires forall m :: 0 <= m < |s| ==> data[f.end + 1 + m] == s[m]
    ensures NextFieldOf(data, f) == GfaTokens.Field(f.end + 1, f.end + 1 + |s|, data[f.end + 1 + |s|] == '\t')
    ensures data[f.end + 1..f.end + 1 + |s|] == s
  {
    FieldAt(data, f.end + 1, s);
  }

  /** The L-line positions of the fields the tokenizer finds. */
  function LinkFieldsOf(p: nat, f: nat, t: nat): GfaLines.LinkFields {
    GfaLines.LinkFields(
      GfaTokens.Field(p + 2, p + 2 + f, true), GfaTokens.Field(p + 3 + f, p + 4 + f, true),
      GfaTokens.Field(p + 5 + f, p + 5 + f + t, true), GfaTokens.Field(p + 6 + f + t, p + 7 + f + t, true))
  }

  /** The tokenizer splits the line at `p` into a record-type field and the four fields `lf`, each ended by a tab. */
  predicate LinkTokenized(data: Text, p: nat, lf: GfaLines.LinkFields) {
    && p < lf.from.begin < lf.from.end < lf.fromOrientation.begin < lf.fromOrientation.end
    && lf.fromOrientation.end < lf.to.begin < lf.to.end < lf.toOrientation.begin < lf.toOrientation.end < |data|
    && lf.from.hasNext && lf.fromOrientation.hasNext && lf.to.hasNext
    && lf.fromOrientation.end == lf.fromOrientation.begin + 1 && lf.toOrientation.end == lf.toOrientation.begin + 1
    && data[lf.fromOrientation.begin] in {'+', '-'} && data[lf.toOrientation.begin] in {'+', '-'}
    && FirstFieldOf(data, p) == GfaTokens.Field(p, p + 1, true)
    && NextFieldOf(data, GfaTokens.Field(p, p + 1, true)) == lf.from
    && NextFieldOf(data, lf.from) == lf.fromOrientation
    && NextFieldOf(data, lf.fromOrientation) == lf.to
    && NextFieldOf(data, lf.to) == lf.toOrientation
  }

  /** The bytes of an L-line at `p` as the tokenizer splits them: five fields, each ended by a tab. */
  lemma LinkTokens(data: Text, p: nat, from: Text, o1: Byte, to: Text, o2: Byte)
    requires from != [] && to != [] && FieldFree(from) && FieldFree(to)
    requires (o1 == '+' || o1 == '-') && (o2 == '+' || o2 == '-')
    requires var f := |from|; var t := |to|;
      && p + 7 + f + t < |data|
      && data[p] == 'L' && data[p + 1] == '\t'
      && (forall m :: 0 <= m < f ==> data[p + 2 + m] == from[m])
      && data[p + 2 + f] == '\t' && data[p + 3 + f] == o1 && data[p + 4 + f] == '\t'
      && (forall m :: 0 <= m < t ==> data[p + 5 + f + m] == to[m])
      && data[p + 5 + f + t] == '\t' && data[p + 6 + f + t] == o2 && data[p + 7 + f + t] == '\t'
    ensures var lf := LinkFieldsOf(p, |from|, |to|);
      && LinkTokenized(data, p, lf)
      && data[lf.from.begin..lf.from.end] == from && data[lf.to.begin..lf.to.end] == to
      && data[lf.fromOrientation.begin] == o1 && data[lf.toOrientation.begin] == o2
  {
    var f := |from|;
    var t := |to|;
    var lf := LinkFieldsOf(p, f, t);
    FieldAt(data, p, ['L']);
    NextFieldAt(data, GfaTokens.Field(p, p + 1, true), from);
    NextFieldAt(data, lf.from, [o1]);
    NextFieldAt(data, lf.fromOrientation, to);
    NextFieldAt(data, lf.to, [o2]);
  }

  /** What the L-line validator and `for_each_link` make of the bytes of an L-line at `p`. */
  lemma LinkFieldsRead(data: Text, p: nat, from: Text, o1: Byte, to: Text, o2: Byte)
    requires from != [] && to != [] && FieldFree(from) && FieldFree(to)
    requires (o1 == '+' || o1 == '-') && (o2 == '+' || o2 == '-')
    requires var f := |from|; var t := |to|;
      && p + 7 + f + t < |data|
      && data[p] == 'L' && data[p + 1] == '\t'
      && (forall m :: 0 <= m < f ==> data[p + 2 + m] == from[m])
      && data[p + 2 + f] == '\t' && data[p + 3 + f] == o1 && data[p + 4 + f] == '\t'
      && (forall m :: 0 <= m < t ==> data[p + 5 + f + m] == to[m])
      && data[p + 5 + f + t] == '\t' && data[p + 6 + f + t] == o2 && data[p + 7 + f + t] == '\t'
    ensures p < |data| && GfaLines.LLineFields(data, p).Some?
    ensures GfaLines.LinkAt(data, p) == GfaLines.Link(from, o1 == '-', to, o2 == '-')
  {
    LinkTokens(data, p, from, o1, to, o2);
    LinkCheckedFields(data, p, LinkFieldsOf(p, |from|, |to|));
  }

  /** Fields found at those positions pass every check of the L-line validator. */
  lemma LinkCheckedFields(data: Text, p: nat, lf: GfaLines.LinkFields)
    requires LinkTokenized(data, p, lf)
    ensures GfaLines.LLineFields(data, p) == Some(lf)
    ensures GfaLines.LinkAt(data, p) == GfaLines.Link(
      data[lf.from.begin..lf.from.end], data[lf.fromOrientation.begin] == '-',
      data[lf.to.begin..lf.to.end], data[lf.toOrientation.begin] == '-')
  {
  }

  /**
    An L-line written for two non-empty names without tabs or newlines is
    accepted by the L-line validator wherever it stands in a file, and
    `for_each_link` reads back the same names and orientations.
   */
  lemma LinkLineReadsBack(data: Text, p: nat, from: Text, fromNode: nat, to: Text, toNode: nat)
    requires from != [] && to != [] && FieldFree(from) && FieldFree(to)
    requires var line := LinkLine(from, fromNode, to, toNode);
      p + |line| <= |data| && forall m :: 0 <= m < |line| ==> data[p + m] == line[m]
    ensures p < |data| && GfaLines.LLineFields(data, p).Some?
    ensures GfaLines.LinkAt(data, p) == GfaLines.Link(from, IsReverse(fromNode), to, IsReverse(toNode))
  {
    var line := LinkLine(from, fromNode, to, toNode);
    var f := |from|;
    var t := |to|;
    LinkLineBytes(from, fromNode, to, toNode);
    forall m | 0 <= m < f
      ensures data[p + 2 + m] == from[m]
    {
      assert data[p + (2 + m)] == line[2 + m];
    }
    forall m | 0 <= m < t
      ensures data[p + 5 + f + m] == to[m]
    {
      assert data[p + (5 + f + m)] == line[5 + f + m];
    }
    assert data[p + 0] == line[0] && data[p + 1] == line[1];
    assert data[p + (2 + f)] == line[2 + f] && data[p + (3 + f)] == line[3 + f] && data[p + (4 + f)] == line[4 + f];
    assert data[p + (5 + f + t)] == line[5 + f + t] && data[p + (6 + f + t)] == line[6 + f + t];
    assert data[p + (7 + f + t)] == line[7 + f + t];
    LinkFieldsRead(data, p, from, OrientationByte(IsReverse(fromNode)), to, OrientationByte(IsReverse(toNode)));
  }

  // ---------------------------------------------------------------------------
  // The segment lists of P- and W-lines

  /** Every node of a path has a cache answer. */
  predicate PathResolves(cache: Cache, path: seq<nat>) {
    forall k :: 0 <= k < |path| ==> Resolves(cache, path[k])
  }

  /** One emitted segment: the name index of a cache slot and the orientation of the node the segment starts at. */
  datatype SegmentVisit = SegmentVisit(name: nat, isReverse: bool)

  /**
    The segments the loops of `write_paths`, `write_walks` and
    `write_all_paths` emit from node `offset` on: the segment of the node at
    `offset`, then, skipping the segment's length in nodes, the rest.
   */
  function Decompose(cache: Cache, path: seq<nat>, offset: nat): (r: seq<SegmentVisit>)
    requires PathResolves(cache, path)
    ensures forall k :: 0 <= k < |r| ==> r[k].name < |cache.names|
    ensures offset <= |path| ==> |r| <= |path| - offset
    ensures |r| == 0 <==> offset >= |path|
    decreases |path| - offset
  {
    if offset >= |path| then []
    else
      var segment := Get(cache, path[offset]);
      [SegmentVisit(segment.0, IsReverse(path[offset]))] + Decompose(cache, path, offset + segment.1)
  }

  /** `name` followed by `+` or `-`. */
  function PathVisitText(cache: Cache, v: SegmentVisit): Text
    requires v.name < |cache.names|
  {
    cache.names[v.name] + [OrientationByte(v.isReverse)]
  }

  /** The segment field of a P-line: the oriented names, separated by commas. */
  function PathSegments(cache: Cache, visits: seq<SegmentVisit>): Text
    requires forall k :: 0 <= k < |visits| ==> visits[k].name < |cache.names|
  {
    if visits == [] then []
    else if |visits| == 1 then PathVisitText(cache, visits[0])
    else PathVisitText(cache, visits[0]) + COMMA + PathSegments(cache, visits[1..])
  }

  /** The segment field of a W-line: each name preceded by `>` or `<`, nothing in between. */
  function WalkSegments(cache: Cache, visits: seq<SegmentVisit>): Text
    requires forall k :: 0 <= k < |visits| ==> visits[k].name < |cache.names|
  {
    if visits == [] then []
    else [WalkGlyph(visits[0].isReverse)] + cache.names[visits[0].name] + WalkSegments(cache, visits[1..])
  }

  /** The step of the segment-skipping loop: the segment at `offset`, then the rest from one segment length on. */
  lemma DecomposeStep(cache: Cache, path: seq<nat>, offset: nat)
    requires PathResolves(cache, path) && offset < |path|
    ensures var segment := Get(cache, path[offset]);
      Decompose(cache, path, offset) == [SegmentVisit(segment.0, IsReverse(path[offset]))] + Decompose(cache, path, offset + segment.1)
  {
  }

  /** Writing the first visit of a P-line segment list, and a comma when more follow, leaves the rest to write. */
  lemma PathSegmentsCons(cache: Cache, start: Text, v: SegmentVisit, rest: seq<SegmentVisit>)
    requires v.name < |cache.names| && forall k :: 0 <= k < |rest| ==> rest[k].name < |cache.names|
    ensures rest != [] ==>
      start + cache.names[v.name] + [OrientationByte(v.isReverse)] + COMMA + PathSegments(cache, rest)
      == start + PathSegments(cache, [v] + rest)
    ensures rest == [] ==>
      start + cache.names[v.name] + [OrientationByte(v.isReverse)] + PathSegments(cache, rest)
      == start + PathSegments(cache, [v] + rest)
  {
    assert ([v] + rest)[0] == v && ([v] + rest)[1..] == rest;
  }

  /** Writing the first visit of a W-line segment list leaves the rest to write. */
  lemma WalkSegmentsCons(cache: Cache, start: Text, v: SegmentVisit, rest: seq<SegmentVisit>)
    requires v.name < |cache.names| && forall k :: 0 <= k < |rest| ==> rest[k].name < |cache.names|
    ensures start + [WalkGlyph(v.isReverse)] + cache.names[v.name] + WalkSegments(cache, rest)
      == start + WalkSegments(cache, [v] + rest)
  {
    assert ([v] + rest)[0] == v && ([v] + rest)[1..] == rest;
  }

  /**
    The segment loop of `write_paths` and `write_all_paths`: write the cached
    name and orientation of the node at `offset`, count the segment, skip its
    length in nodes, and put a comma when the path goes on.
   */
  method WritePathSegments(cache: Cache, path: seq<nat>) returns (text: Text, segments: nat)
    requires PathResolves(cache, path)
    ensures text == PathSegments(cache, Decompose(cache, path, 0))
    ensures segments == |Decompose(cache, path, 0)|
  {
    text := [];
    segments := 0;
    var offset: nat := 0;
    while offset < |path|
      invariant text + PathSegments(cache, Decompose(cache, path, offset)) == PathSegments(cache, Decompose(cache, path, 0))
      invariant segments + |Decompose(cache, path, offset)| == |Decompose(cache, path, 0)|
      decreases |path| - offset
    {
      var segment := Get(cache, path[offset]);
      var v := SegmentVisit(segment.0, IsReverse(path[offset]));
      DecomposeStep(cache, path, offset);
      PathSegmentsCons(cache, text, v, Decompose(cache, path, offset + segment.1));
      text := text + cache.names[segment.0];
      text := text + [OrientationByte(IsReverse(path[offset]))];
      segments := segments + 1;
      offset := offset + segment.1;
      if offset < |path| {
        text := text + COMMA;
      }
    }
  }

  /** The segment loop of `write_walks`: the orientation glyph and the cached name, then skip the segment's length. */
  method WriteWalkSegments(cache: Cache, path: seq<nat>) returns (text: Text)
    requires PathResolves(cache, path)
    ensures text == WalkSegments(cache, Decompose(cache, path, 0))
  {
    text := [];
    var offset: nat := 0;
    while offset < |path|
      invariant text + WalkSegments(cache, Decompose(cache, path, offset)) == WalkSegments(cache, Decompose(cache, path, 0))
      decreases |path| - offset
    {
      var segment := Get(cache, path[offset]);
      var v := SegmentVisit(segment.0, IsReverse(path[offset]));
      DecomposeStep(cache, path, offset);
      WalkSegmentsCons(cache, text, v, Decompose(cache, path, offset + segment.1));
      text := text + [WalkGlyph(IsReverse(path[offset]))];
      text := text + cache.names[segment.0];
      offset := offset + segment.1;
    }
  }

  // ---------------------------------------------------------------------------
  // Decomposition undoes the forward expansion

  /** The nodes a segment visit becomes in the forward converter: its ids ascending, or descending when reverse. */
  function Expand(segments: seq<NamedSegment>, v: SegmentVisit): seq<nat>
    requires v.name < |segments|
  {
    var range := Forward.Range(segments[v.name].first, segments[v.name].limit);
    if v.isReverse then Forward.Descending(range) else Forward.Ascending(range)
  }

  /** The whole path the forward converter builds from a list of segment visits. */
  function ExpandAll(segments: seq<NamedSegment>, visits: seq<SegmentVisit>): seq<nat>
    requires forall k :: 0 <= k < |visits| ==> visits[k].name < |segments|
  {
    if visits == [] then [] else Expand(segments, visits[0]) + ExpandAll(segments, visits[1..])
  }

  /** A translation that gives every segment its own node range. */
  predicate TranslatesTo(translate: Text -> Forward.Range, segments: seq<NamedSegment>) {
    forall k :: 0 <= k < |segments| ==> translate(segments[k].name) == Forward.Range(segments[k].first, segments[k].limit)
  }

  /** Every segment has at least one node. */
  predicate NonEmpty(segments: seq<NamedSegment>) {
    forall k :: 0 <= k < |segments| ==> segments[k].first < segments[k].limit
  }

  /** `Expand` is what `add_segment` appends for the visit's segment name under such a translation. */
  lemma ExpandIsExpansion(translate: Text -> Forward.Range, segments: seq<NamedSegment>, v: SegmentVisit)
    requires TranslatesTo(translate, segments) && NonEmpty(segments) && v.name < |segments|
    ensures Forward.Expansion(Some(translate), GfaLines.Visit(segments[v.name].name, v.isReverse)) == Some(Expand(segments, v))
  {
  }

  /** The cache answers for every node a visit expands to; at its first node, with the visit's segment and length and orientation. */
  lemma ExpandResolves(cache: Cache, segments: seq<NamedSegment>, v: SegmentVisit)
    requires cache.firstNode % 2 == 0 && SegmentsFit(segments, cache.firstNode, |cache.slots|)
    requires CachesAll(cache, segments) && NonEmpty(segments) && v.name < |segments|
    ensures PathResolves(cache, Expand(segments, v))
    ensures var e := Expand(segments, v);
      |e| == Length(segments[v.name]) && |e| > 0
      && Get(cache, e[0]) == (v.name, |e|) && IsReverse(e[0]) == v.isReverse
  {
    var s := segments[v.name];
    var e := Expand(segments, v);
    forall j | 0 <= j < |e|
      ensures Resolves(cache, e[j])
    {
      if v.isReverse {
        CachedNode(cache, segments, v.name, s.limit - 1 - j, true);
      } else {
        CachedNode(cache, segments, v.name, s.first + j, false);
      }
    }
    if v.isReverse {
      CachedNode(cache, segments, v.name, s.limit - 1, true);
    } else {
      CachedNode(cache, segments, v.name, s.first, false);
    }
  }

  /** Decomposing after a prefix is decomposing what follows the prefix. */
  lemma {:induction false} DecomposeShift(cache: Cache, a: seq<nat>, b: seq<nat>, offset: nat)
    requires PathResolves(cache, a) && PathResolves(cache, b)
    ensures PathResolves(cache, a + b)
    ensures Decompose(cache, a + b, |a| + offset) == Decompose(cache, b, offset)
    decreases |b| - offset
  {
    assert forall k :: 0 <= k < |a + b| ==> (a + b)[k] == if k < |a| then a[k] else b[k - |a|];
    if offset < |b| {
      assert (a + b)[|a| + offset] == b[offset];
      DecomposeShift(cache, a, b, offset + Get(cache, b[offset]).1);
    }
  }

  /**
    Emitting a path that the forward converter built from segment visits
    recovers exactly those visits: skipping one cached segment length per name
    lands on the first node of the next visit, and that node's slot names the
    visit's segment in the visit's orientation.
   */
  lemma {:induction false} DecomposeInvertsExpansion(cache: Cache, segments: seq<NamedSegment>, visits: seq<SegmentVisit>)
    requires cache.firstNode % 2 == 0 && SegmentsFit(segments, cache.firstNode, |cache.slots|)
    requires CachesAll(cache, segments) && NonEmpty(segments)
    requires forall k :: 0 <= k < |visits| ==> visits[k].name < |segments|
    ensures PathResolves(cache, ExpandAll(segments, visits))
    ensures Decompose(cache, ExpandAll(segments, visits), 0) == visits
  {
    if visits != [] {
      var v := visits[0];
      var e := Expand(segments, v);
      var rest := ExpandAll(segments, visits[1..]);
      ExpandResolves(cache, segments, v);
      DecomposeInvertsExpansion(cache, segments, visits[1..]);
      DecomposeShift(cache, e, rest, 0);
      assert (e + rest)[0] == e[0];
      DecomposeStep(cache, e + rest, 0);
      assert visits == [v] + visits[1..];
    }
  }

  // ---------------------------------------------------------------------------
  // The overlap field

  /** The overlap entries the loop `for i in [i, segments)` writes: `*`, with a comma before each further one. */
  function OverlapsFrom(i: nat, segments: nat): Text
    decreases segments - i
  {
    if i >= segments then []
    else STAR + (if i + 1 < segments then COMMA else []) + OverlapsFrom(i + 1, segments)
  }

  /** The overlap field of a P-line with `segments` segments. */
  function Overlaps(segments: nat): Text {
    OverlapsFrom(1, segments)
  }

  /** The loop of `write_paths` and `write_all_paths` that writes one `*` per pair of neighbouring segments. */
  method WriteOverlaps(segments: nat) returns (text: Text)
    ensures text == Overlaps(segments)
  {
    text := [];
    var i: nat := 1;
    while i < segments
      invariant 1 <= i
      invariant text + OverlapsFrom(i, segments) == Overlaps(segments)
      decreases segments - i
    {
      text := text + STAR;
      if i + 1 < segments {
        text := text + COMMA;
      }
      i := i + 1;
    }
  }

  /**
    From entry `i` on, the overlap field holds `segments - i` stars with a comma
    between each two: stars at even positions, commas at odd ones.
   */
  lemma {:induction false} OverlapsFromShape(i: nat, segments: nat)
    requires 1 <= i
    ensures |OverlapsFrom(i, segments)| == if i < segments then 2 * (segments - i) - 1 else 0
    ensures forall j :: 0 <= j < |OverlapsFrom(i, segments)| ==>
      OverlapsFrom(i, segments)[j] == if j % 2 == 0 then '*' else ','
    decreases segments - i
  {
    if i < segments {
      OverlapsFromShape(i + 1, segments);
      var rest := OverlapsFrom(i + 1, segments);
      if i + 1 < segments {
        assert OverlapsFrom(i, segments) == STAR + COMMA + rest;
        forall j | 0 <= j < |OverlapsFrom(i, segments)|
          ensures OverlapsFrom(i, segments)[j] == if j % 2 == 0 then '*' else ','
        {
          if j >= 2 {
            assert OverlapsFrom(i, segments)[j] == rest[j - 2];
          }
        }
      } else {
        assert OverlapsFrom(i, segments) == STAR;
      }
    }
  }

  /** A path of `segments` segments has `segments - 1` overlaps, `*`, separated by commas. */
  lemma OverlapsShape(segments: nat)
    ensures |Overlaps(segments)| == if segments >= 2 then 2 * segments - 3 else 0
    ensures forall j :: 0 <= j < |Overlaps(segments)| ==> Overlaps(segments)[j] == if j % 2 == 0 then '*' else ','
  {
    OverlapsFromShape(1, segments);
  }

  // ---------------------------------------------------------------------------
  // P-lines

  /** A P-line: the name, the comma-separated oriented segments, and one `*` overlap between each two segments. */
  function PathLine(cache: Cache, name: Text, path: seq<nat>): Text
    requires PathResolves(cache, path)
  {
    var visits := Decompose(cache, path, 0);
    PATH_OPENING + name + TAB + PathSegments(cache, visits) + TAB + Overlaps(|visits|) + NEWLINE
  }

  /** The body of the path loops of `write_paths` and `write_all_paths` for one path. */
  method WritePathLine(cache: Cache, name: Text, path: seq<nat>) returns (line: Text)
    requires PathResolves(cache, path)
    ensures line == PathLine(cache, name, path)
  {
    var list, segments := WritePathSegments(cache, path);
    var overlaps := WriteOverlaps(segments);
    line := PATH_OPENING + name + TAB + list + TAB + overlaps + NEWLINE;
  }

  /** A P-line names each segment of its path once and has one overlap fewer than segments. */
  lemma PathLineShape(cache: Cache, name: Text, path: seq<nat>)
    requires PathResolves(cache, path)
    ensures var segments := |Decompose(cache, path, 0)|;
      PathLine(cache, name, path) == PATH_OPENING + name + TAB + PathSegments(cache, Decompose(cache, path, 0)) + TAB + Overlaps(segments) + NEWLINE
      && |Overlaps(segments)| == (if segments >= 2 then 2 * segments - 3 else 0)
      && (path != [] <==> segments > 0)
  {
    OverlapsShape(|Decompose(cache, path, 0)|);
  }

  // ---------------------------------------------------------------------------
  // The index and its metadata

  /** The structured name of a GBWT path (`gbwt::PathName`). */
  datatype PathName = PathName(sample: nat, contig: nat, phase: nat, count: nat)

  /**
    The parts of the GBWT index the path writers read: the number of stored
    sequences (`sequences()`, forward and reverse), the node sequence of each
    (`extract`), and, when the metadata has path names, the path names and the
    sample and contig names if present.
   */
  datatype Index = Index(
    sequences: nat, extract: nat -> seq<nat>,
    pathNames: Option<seq<PathName>>, sampleNames: Option<seq<Text>>, contigNames: Option<seq<Text>>)

  /** `pathsForSample(sample)`: the ids of the paths of a sample, in increasing order. */
  function PathsForSample(names: seq<PathName>, sample: nat): (r: seq<nat>)
    ensures forall k :: 0 <= k < |r| ==> r[k] < |names|
  {
    if names == [] then []
    else
      var ids := PathsForSample(names[..|names| - 1], sample);
      if names[|names| - 1].sample == sample then ids + [|names| - 1] else ids
  }

  /** The reference paths are exactly the paths of the sample, each once, in increasing order. */
  lemma {:induction false} PathsForSampleExact(names: seq<PathName>, sample: nat)
    ensures forall id: nat :: id in PathsForSample(names, sample) <==> id < |names| && names[id].sample == sample
    ensures forall a, b :: 0 <= a < b < |PathsForSample(names, sample)| ==>
      PathsForSample(names, sample)[a] < PathsForSample(names, sample)[b]
  {
    if names != [] {
      var init := names[..|names| - 1];
      PathsForSampleExact(init, sample);
      assert forall id :: 0 <= id < |init| ==> init[id] == names[id];
    }
  }

  /** `write_paths`: one P-line per path of the reference sample, named by its contig. */
  function ReferenceLines(cache: Cache, ix: Index, names: seq<PathName>, ids: seq<nat>): Text
    requires ReferencePathsWritable(cache, ix, names, ids)
  {
    if ids == [] then []
    else
      var id := ids[|ids| - 1];
      ReferenceLines(cache, ix, names, ids[..|ids| - 1])
      + PathLine(cache, ix.contigNames.value[names[id].contig], ix.extract(2 * id))
  }

  /** The reference paths have contig names and cached nodes. */
  predicate ReferencePathsWritable(cache: Cache, ix: Index, names: seq<PathName>, ids: seq<nat>) {
    forall k :: 0 <= k < |ids| ==>
      && ids[k] < |names| && ix.contigNames.Some? && names[ids[k]].contig < |ix.contigNames.value|
      && PathResolves(cache, ix.extract(2 * ids[k]))
  }

  /** `write_paths`: extract each reference path's forward sequence and write its P-line. */
  method WritePaths(cache: Cache, ix: Index, names: seq<PathName>, refSample: nat) returns (out: Text)
    requires ReferencePathsWritable(cache, ix, names, PathsForSample(names, refSample))
    ensures out == ReferenceLines(cache, ix, names, PathsForSample(names, refSample))
  {
    var ids := PathsForSample(names, refSample);
    out := [];
    for i := 0 to |ids|
      invariant out == ReferenceLines(cache, ix, names, ids[..i])
    {
      var id := ids[i];
      PrefixStep(ids, i);
      var path := ix.extract(2 * id);
      var line := WritePathLine(cache, ix.contigNames.value[names[id].contig], path);
      out := out + line;
    }
    assert ids[..|ids|] == ids;
  }

  // ---------------------------------------------------------------------------
  // W-lines

  /** The sum of the lengths of the nodes' sequences, as `write_walks` accumulates it in a 64-bit `size_t`. */
  function Bases(g: Graph, path: seq<nat>): nat {
    if path == [] then 0 else Bases(g, path[..|path| - 1]) + |g.sequence(Id(path[|path| - 1]))|
  }

  /** The loop of `write_walks` that sums `get_length` over the nodes of the path, wrapping at 2^64. */
  method TotalLength(g: Graph, path: seq<nat>) returns (length: nat)
    ensures length == Bases(g, path) % WORD
  {
    length := 0;
    for i := 0 to |path|
      invariant length == Bases(g, path[..i]) % WORD
    {
      PrefixStep(path, i);
      length := (length + |g.sequence(Id(path[i]))|) % WORD;
    }
    assert path[..|path|] == path;
  }

  /** The sample field: the sample's name when the metadata has sample names, its number otherwise. */
  function SampleField(ix: Index, sample: nat): Text
    requires ix.sampleNames.Some? ==> sample < |ix.sampleNames.value|
  {
    if ix.sampleNames.Some? then ix.sampleNames.value[sample] else Decimal(sample)
  }

  /** The contig field: the contig's name when the metadata has contig names, its number otherwise. */
  function ContigField(ix: Index, contig: nat): Text
    requires ix.contigNames.Some? ==> contig < |ix.contigNames.value|
  {
    if ix.contigNames.Some? then ix.contigNames.value[contig] else Decimal(contig)
  }

  /** The names of a walk resolve in the metadata. */
  predicate WalkNamed(ix: Index, name: PathName) {
    && (ix.sampleNames.Some? ==> name.sample < |ix.sampleNames.value|)
    && (ix.contigNames.Some? ==> name.contig < |ix.contigNames.value|)
  }

  /** The end coordinate of a walk, `count + length`, in 64-bit arithmetic. */
  function WalkEnd(g: Graph, name: PathName, path: seq<nat>): nat {
    (name.count + Bases(g, path) % WORD) % WORD
  }

  /** A W-line: sample, phase, contig, start, end, and the `>`/`<`-prefixed segment names. */
  function WalkLine(cache: Cache, g: Graph, ix: Index, name: PathName, path: seq<nat>): Text
    requires PathResolves(cache, path) && WalkNamed(ix, name)
  {
    WALK_OPENING + SampleField(ix, name.sample) + TAB + Decimal(name.phase) + TAB + ContigField(ix, name.contig) + TAB
    + Decimal(name.count) + TAB + Decimal(WalkEnd(g, name, path)) + TAB
    + WalkSegments(cache, Decompose(cache, path, 0)) + NEWLINE
  }

  /**
    The end field of a W-line reads back as the start plus the number of bases
    on the walk's nodes, whenever that sum fits in 64 bits.
   */
  lemma WalkEndIsStartPlusBases(g: Graph, name: PathName, path: seq<nat>)
    ensures WalkEnd(g, name, path) < WORD
    ensures name.count + Bases(g, path) < WORD ==> Value(Decimal(WalkEnd(g, name, path))) == name.count + Bases(g, path)
  {
  }

  /** The body of the `write_walks` loop for one non-reference path. */
  method WriteWalkLine(cache: Cache, g: Graph, ix: Index, name: PathName, path: seq<nat>) returns (line: Text)
    requires PathResolves(cache, path) && WalkNamed(ix, name)
    ensures line == WalkLine(cache, g, ix, name, path)
  {
    var length := TotalLength(g, path);
    var sample := if ix.sampleNames.Some? then ix.sampleNames.value[name.sample] else Decimal(name.sample);
    var contig := if ix.contigNames.Some? then ix.contigNames.value[name.contig] else Decimal(name.contig);
    var list := WriteWalkSegments(cache, path);
    line := WALK_OPENING + sample + TAB + Decimal(name.phase) + TAB + contig + TAB
      + Decimal(name.count) + TAB + Decimal((name.count + length) % WORD) + TAB + list + NEWLINE;
  }

  /** The paths the walk loop writes, from the first `n` path ids: those outside the reference sample. */
  function WalkLines(cache: Cache, g: Graph, ix: Index, names: seq<PathName>, refSample: nat, n: nat): Text
    requires n <= |names| && WalksWritable(cache, ix, names, refSample)
  {
    if n == 0 then []
    else
      var id := n - 1;
      WalkLines(cache, g, ix, names, refSample, id)
      + if names[id].sample == refSample then [] else WalkLine(cache, g, ix, names[id], ix.extract(2 * id))
  }

  /** Every non-reference path has resolvable names and cached nodes. */
  predicate WalksWritable(cache: Cache, ix: Index, names: seq<PathName>, refSample: nat) {
    forall id :: 0 <= id < |names| && names[id].sample != refSample ==>
      WalkNamed(ix, names[id]) && PathResolves(cache, ix.extract(2 * id))
  }

  /** One path id more adds its W-line, unless the path belongs to the reference sample. */
  lemma WalkLinesStep(cache: Cache, g: Graph, ix: Index, names: seq<PathName>, refSample: nat, id: nat)
    requires id < |names| && WalksWritable(cache, ix, names, refSample)
    ensures names[id].sample == refSample ==>
      WalkLines(cache, g, ix, names, refSample, id + 1) == WalkLines(cache, g, ix, names, refSample, id)
    ensures names[id].sample != refSample ==>
      WalkNamed(ix, names[id]) && PathResolves(cache, ix.extract(2 * id)) &&
      WalkLines(cache, g, ix, names, refSample, id + 1)
        == WalkLines(cache, g, ix, names, refSample, id) + WalkLine(cache, g, ix, names[id], ix.extract(2 * id))
  {
  }

  /** `write_walks`: every path outside the reference sample becomes a W-line, in path id order. */
  method WriteWalks(cache: Cache, g: Graph, ix: Index, names: seq<PathName>, refSample: nat) returns (out: Text)
    requires WalksWritable(cache, ix, names, refSample)
    ensures out == WalkLines(cache, g, ix, names, refSample, |names|)
  {
    out := [];
    for id := 0 to |names|
      invariant out == WalkLines(cache, g, ix, names, refSample, id)
    {
      WalkLinesStep(cache, g, ix, names, refSample, id);
      if names[id].sample == refSample {
        continue;
      }
      var line := WriteWalkLine(cache, g, ix, names[id], ix.extract(2 * id));
      out := out + line;
    }
  }

  // ---------------------------------------------------------------------------
  // P-lines without metadata

  /** The number of forward sequences, `ceil(sequences() / 2)`: the values `0, 2, 4, ...` below `sequences()`. */
  function ForwardSequences(ix: Index): nat {
    (ix.sequences + 1) / 2
  }

  /** Every forward sequence has cached nodes. */
  predicate AllPathsWritable(cache: Cache, ix: Index) {
    forall id :: 0 <= id < ForwardSequences(ix) ==> PathResolves(cache, ix.extract(2 * id))
  }

  /** The P-lines of the first `n` forward sequences, each named by its path number. */
  function AllPathLines(cache: Cache, ix: Index, n: nat): Text
    requires n <= ForwardSequences(ix) && AllPathsWritable(cache, ix)
  {
    if n == 0 then [] else AllPathLines(cache, ix, n - 1) + PathLine(cache, Decimal(n - 1), ix.extract(2 * (n - 1)))
  }

  /** `write_all_paths`: sequence ids `0, 2, 4, ...` become P-lines named `0, 1, 2, ...`. */
  method WriteAllPaths(cache: Cache, ix: Index) returns (out: Text)
    requires AllPathsWritable(cache, ix)
    ensures out == AllPathLines(cache, ix, ForwardSequences(ix))
  {
    out := [];
    var seqId: nat := 0;
    ghost var n: nat := 0;
    while seqId < ix.sequences
      invariant seqId == 2 * n && n <= ForwardSequences(ix)
      invariant out == AllPathLines(cache, ix, n)
      decreases ix.sequences - seqId
    {
      var pathId := seqId / 2;
      assert pathId == n && n < ForwardSequences(ix);
      var path := ix.extract(seqId);
      var line := WritePathLine(cache, Decimal(pathId), path);
      out := out + line;
      seqId := seqId + 2;
      n := n + 1;
    }
  }

  // ---------------------------------------------------------------------------
  // gbwt_to_gfa

  /** A node belongs to a segment: its id lies in the node range of one of the cached segments. */
  predicate Covered(g: Graph, node: nat) {
    exists k :: 0 <= k < |CachedSegments(g)| && CachedSegments(g)[k].first <= Id(node) < CachedSegments(g)[k].limit
  }

  /** The cache of the graph: built over the graph's node range, holding every segment. */
  predicate CacheOf(cache: Cache, g: Graph) {
    && GraphShape(g) && cache.firstNode == g.firstNode && |cache.slots| == SlotCount(g)
    && CachesAll(cache, CachedSegments(g))
  }

  /** The cache answers for every node that belongs to a segment. */
  lemma CoveredResolves(cache: Cache, g: Graph, node: nat)
    requires CacheOf(cache, g) && Covered(g, node)
    ensures Resolves(cache, node)
  {
    var k :| 0 <= k < |CachedSegments(g)| && CachedSegments(g)[k].first <= Id(node) < CachedSegments(g)[k].limit;
    EncodeDecode(node);
    CachedNode(cache, CachedSegments(g), k, Id(node), IsReverse(node));
  }

  /**
    What the conversion relies on of `GBWTGraph` and its index: disjoint
    segments, every handle, edge end and path node inside a segment, a path
    name per pair of stored sequences, and the names the writers look up.
   */
  predicate Convertible(g: Graph, ix: Index, refSample: nat) {
    && GraphShape(g) && Disjoint(CachedSegments(g))
    && (forall k :: 0 <= k < |g.nodeIds| ==> Covered(g, Encode(g.nodeIds[k], false)))
    && (g.segments.None? ==> forall k :: 0 <= k < |g.edges| ==> Covered(g, g.edges[k].from) && Covered(g, g.edges[k].to))
    && (forall s, k :: 0 <= s < ix.sequences && 0 <= k < |ix.extract(s)| ==> Covered(g, ix.extract(s)[k]))
    && (ix.pathNames.Some? ==>
      var names := ix.pathNames.value;
      && 2 * |names| <= ix.sequences
      && (forall id :: 0 <= id < |names| && names[id].sample == refSample ==>
            ix.contigNames.Some? && names[id].contig < |ix.contigNames.value|)
      && (forall id :: 0 <= id < |names| && names[id].sample != refSample ==> WalkNamed(ix, names[id])))
  }

  /** With the graph's cache, every writer's requirement holds. */
  lemma WritersApply(cache: Cache, g: Graph, ix: Index, refSample: nat)
    requires CacheOf(cache, g) && Convertible(g, ix, refSample)
    ensures HandlesResolve(cache, g.nodeIds)
    ensures g.segments.None? ==> EdgesResolve(cache, g.edges)
    ensures AllPathsWritable(cache, ix)
    ensures ix.pathNames.Some? ==>
      && ReferencePathsWritable(cache, ix, ix.pathNames.value, PathsForSample(ix.pathNames.value, refSample))
      && WalksWritable(cache, ix, ix.pathNames.value, refSample)
  {
    forall k | 0 <= k < |g.nodeIds|
      ensures Resolves(cache, Encode(g.nodeIds[k], false))
    {
      CoveredResolves(cache, g, Encode(g.nodeIds[k], false));
    }
    if g.segments.None? {
      forall k | 0 <= k < |g.edges|
        ensures Resolves(cache, g.edges[k].from) && Resolves(cache, g.edges[k].to)
      {
        CoveredResolves(cache, g, g.edges[k].from);
        CoveredResolves(cache, g, g.edges[k].to);
      }
    }
    forall s | 0 <= s < ix.sequences
      ensures PathResolves(cache, ix.extract(s))
    {
      forall k | 0 <= k < |ix.extract(s)|
        ensures Resolves(cache, ix.extract(s)[k])
      {
        CoveredResolves(cache, g, ix.extract(s)[k]);
      }
    }
    if ix.pathNames.Some? {
      PathsForSampleExact(ix.pathNames.value, refSample);
    }
  }

  /**
    The whole output of `gbwt_to_gfa`: the header, the S-lines, the L-lines,
    and then either the reference paths as P-lines and the other paths as
    W-lines or, without path names, every forward sequence as a numbered P-line.
   */
  function Conversion(cache: Cache, g: Graph, ix: Index, refSample: nat): Text
    requires CacheOf(cache, g) && Convertible(g, ix, refSample)
  {
    WritersApply(cache, g, ix, refSample);
    HEADER + SegmentLines(cache, Groups(cache, g.sequence, g.nodeIds))
    + (if g.segments.Some? then NamedLinkLines(g.links) else EdgeLines(cache, g.edges))
    + match ix.pathNames
      case Some(names) =>
        ReferenceLines(cache, ix, names, PathsForSample(names, refSample)) + WalkLines(cache, g, ix, names, refSample, |names|)
      case None => AllPathLines(cache, ix, ForwardSequences(ix))
  }

  /**
    `gbwt_to_gfa`: cache the segments, write the header and the graph, then the
    paths; `refSample` is the metadata's id of the reference sample name.
   */
  method GbwtToGfa(g: Graph, ix: Index, refSample: nat) returns (out: Text, cache: SegmentCache)
    requires Convertible(g, ix, refSample)
    ensures CacheOf(cache.View(), g)
    ensures out == Conversion(cache.View(), g, ix, refSample)
  {
    cache := new SegmentCache(g);
    var view := cache.View();
    WritersApply(view, g, ix, refSample);
    out := HEADER;
    var segments := WriteSegments(g, view);
    out := out + segments;
    var links := WriteLinks(g, view);
    out := out + links;
    if ix.pathNames.Some? {
      var names := ix.pathNames.value;
      var paths := WritePaths(view, ix, names, refSample);
      var walks := WriteWalks(view, g, ix, names, refSample);
      out := out + (paths + walks);
    } else {
      var paths := WriteAllPaths(view, ix);
      out := out + paths;
    }
  }
}
