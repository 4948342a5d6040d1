/**
  What a replay hands to its consumers. The source's callbacks are closures that
  may keep state and return false to stop the replay; the model gives each replay
  one consumer `accept` that sees everything delivered so far, which covers any
  such closure. A replay delivers its records in order and stops right after the
  first one the consumer rejects.
 */
module GfaEvents {
  import opened GfaBytes
  import opened GfaLines

  /** `for_each_path` and `for_each_walk` call three callbacks: a name opens a traversal, one per segment, one to finish. */
  datatype Event<N> = Start(name: N) | Visited(visit: Visit) | Finish

  /** The deliveries after `done`, consumer permitting. */
  function Deliver<E>(done: seq<E>, rest: seq<E>, accept: seq<E> -> bool): seq<E>
    decreases |rest|
  {
    if rest == [] then done
    else if !accept(done + [rest[0]]) then done + [rest[0]]
    else Deliver(done + [rest[0]], rest[1..], accept)
  }

  /** What a replay of `events` delivers to `accept`. */
  function Delivered<E>(events: seq<E>, accept: seq<E> -> bool): seq<E> {
    Deliver([], events, accept)
  }

  /** The three facts that pin down a delivery: a prefix, every earlier delivery accepted, and complete unless the last one was rejected. */
  ghost predicate IsDelivery<E>(events: seq<E>, accept: seq<E> -> bool, d: seq<E>) {
    && |d| <= |events| && d == events[..|d|]
    && (forall k {:trigger events[..k]} :: 0 < k < |d| ==> accept(events[..k]))
    && (|d| == |events| || (0 < |d| && !accept(d)))
  }

  lemma {:induction false} DeliverIsDelivery<E>(events: seq<E>, accept: seq<E> -> bool, done: seq<E>)
    requires |done| <= |events| && done == events[..|done|]
    requires forall k {:trigger events[..k]} :: 0 < k <= |done| ==> accept(events[..k])
    ensures IsDelivery(events, accept, Deliver(done, events[|done|..], accept))
    decreases |events| - |done|
  {
    var rest := events[|done|..];
    if rest != [] {
      var next := done + [rest[0]];
      assert next == events[..|next|];
      if accept(next) {
        assert events[|next|..] == rest[1..];
        DeliverIsDelivery(events, accept, next);
      }
    }
  }

  /** `Delivered` meets the three facts... */
  lemma DeliveredIsDelivery<E>(events: seq<E>, accept: seq<E> -> bool)
    ensures IsDelivery(events, accept, Delivered(events, accept))
  {
    assert events[0..] == events;
    DeliverIsDelivery(events, accept, []);
  }

  /** ...and nothing else does: a shorter delivery would have been accepted by the longer one, a contradiction. */
  lemma DeliveryIsDelivered<E>(events: seq<E>, accept: seq<E> -> bool, d: seq<E>)
    requires IsDelivery(events, accept, d)
    ensures d == Delivered(events, accept)
  {
    DeliveredIsDelivery(events, accept);
  }

  /** A consumer that accepts everything receives every record. */
  lemma DeliveredAll<E>(events: seq<E>, accept: seq<E> -> bool)
    requires forall d :: accept(d)
    ensures Delivered(events, accept) == events
  {
    DeliveredIsDelivery(events, accept);
  }

  /** The events of one traversal: its name, each visit, then the finishing call. */
  function Block<N>(name: N, visits: seq<Visit>): (r: seq<Event<N>>)
    ensures |r| == |visits| + 2
  {
    [Start(name)] + seq(|visits|, k requires 0 <= k < |visits| => Visited(visits[k])) + [Finish]
  }

  /** The name opens the block, the visits follow in order, and the finishing call closes it. */
  lemma BlockAt<N>(name: N, visits: seq<Visit>, m: nat)
    requires m < |visits| + 2
    ensures Block(name, visits)[m] == if m == 0 then Start(name) else if m <= |visits| then Visited(visits[m - 1]) else Finish
  {
  }

  function PathBlock(p: Path): seq<Event<Text>> {
    Block(p.name, p.visits)
  }

  function WalkBlock(w: Walk): seq<Event<WalkName>> {
    Block(w.name, w.visits)
  }

  /** Everything `for_each_path` would call, path by path. */
  function PathEvents(paths: seq<Path>): seq<Event<Text>> {
    if paths == [] then [] else PathEvents(paths[..|paths| - 1]) + PathBlock(paths[|paths| - 1])
  }

  function WalkEvents(walks: seq<Walk>): seq<Event<WalkName>> {
    if walks == [] then [] else WalkEvents(walks[..|walks| - 1]) + WalkBlock(walks[|walks| - 1])
  }

  /** The events of the first paths are a prefix of the events of all of them. */
  lemma {:induction false} PathEventsPrefix(paths: seq<Path>, i: nat)
    requires i <= |paths|
    ensures PathEvents(paths[..i]) <= PathEvents(paths)
    decreases |paths|
  {
    if i < |paths| {
      var init := paths[..|paths| - 1];
      PathEventsPrefix(init, i);
      assert init[..i] == paths[..i];
    } else {
      assert paths[..i] == paths;
    }
  }

  lemma {:induction false} WalkEventsPrefix(walks: seq<Walk>, i: nat)
    requires i <= |walks|
    ensures WalkEvents(walks[..i]) <= WalkEvents(walks)
    decreases |walks|
  {
    if i < |walks| {
      var init := walks[..|walks| - 1];
      WalkEventsPrefix(init, i);
      assert init[..i] == walks[..i];
    } else {
      assert walks[..i] == walks;
    }
  }

  /** The events of the first `i + 1` paths extend those of the first `i` by one block. */
  lemma PathEventsNext(paths: seq<Path>, i: nat)
    requires i < |paths|
    ensures PathEvents(paths[..i + 1]) == PathEvents(paths[..i]) + PathBlock(paths[i])
  {
    assert paths[..i + 1][..i] == paths[..i];
  }

  lemma WalkEventsNext(walks: seq<Walk>, i: nat)
    requires i < |walks|
    ensures WalkEvents(walks[..i + 1]) == WalkEvents(walks[..i]) + WalkBlock(walks[i])
  {
    assert walks[..i + 1][..i] == walks[..i];
  }

  /** One field of every record, in order. */
  function Project<R, F>(records: seq<R>, field: R -> F): (r: seq<F>)
    ensures |r| == |records| && forall k :: 0 <= k < |records| ==> r[k] == field(records[k])
  {
    seq(|records|, k requires 0 <= k < |records| => field(records[k]))
  }

  /** The names `for_each_path_name` hands over. */
  function PathNames(paths: seq<Path>): seq<Text> {
    Project(paths, (p: Path) => p.name)
  }

  /** The name tuples `for_each_walk_name` hands over. */
  function WalkNames(walks: seq<Walk>): seq<WalkName> {
    Project(walks, (w: Walk) => w.name)
  }

  // ---------------------------------------------------------------------------
  // Steps of a replay loop

  /** `d` has been delivered so far and the consumer accepted all of it. */
  ghost predicate OnTrack<E>(events: seq<E>, accept: seq<E> -> bool, d: seq<E>) {
    && |d| <= |events| && d == events[..|d|]
    && forall k {:trigger events[..k]} :: 0 < k <= |d| ==> accept(events[..k])
  }

  lemma StartTrack<E>(events: seq<E>, accept: seq<E> -> bool)
    ensures OnTrack(events, accept, [])
  {
  }

  /** Delivering the next event: the replay either goes on or has delivered exactly `Delivered`. */
  lemma TrackStep<E>(events: seq<E>, accept: seq<E> -> bool, d: seq<E>, x: E)
    requires OnTrack(events, accept, d) && |d| < |events| && x == events[|d|]
    ensures d + [x] == events[..|d| + 1]
    ensures accept(d + [x]) ==> OnTrack(events, accept, d + [x])
    ensures !accept(d + [x]) ==> d + [x] == Delivered(events, accept)
  {
    assert d + [x] == events[..|d| + 1];
    if !accept(d + [x]) {
      DeliveryIsDelivered(events, accept, d + [x]);
    }
  }

  /** A replay that went through every event without a rejection has delivered exactly `Delivered`. */
  lemma TrackDone<E>(events: seq<E>, accept: seq<E> -> bool, d: seq<E>)
    requires OnTrack(events, accept, d) && |d| == |events|
    ensures d == Delivered(events, accept)
  {
    DeliveryIsDelivered(events, accept, d);
  }

  /** The element at offset `m` of a block that follows `base` inside `events`. */
  lemma InBlock<E>(events: seq<E>, base: seq<E>, block: seq<E>, m: nat)
    requires base + block <= events && m < |block|
    ensures |base| + m < |events| && events[|base| + m] == block[m]
    ensures base + block[..m] + [block[m]] == base + block[..m + 1]
  {
    assert (base + block)[|base| + m] == block[m];
    assert block[..m] + [block[m]] == block[..m + 1];
  }
}
