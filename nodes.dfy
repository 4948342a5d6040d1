/**
  GBWT node identifiers as the converters use them: a node is a graph node id
  together with an orientation, packed as `2 * id + reverse` (the packing of
  `gbwt::Node::encode`, `gbwt::Node::id` and `gbwt::Node::is_reverse`).
 */
module GbwtNodes {

  /** `gbwt::Node::encode(id, is_reverse)`. */
  function Encode(id: nat, isReverse: bool): (r: nat)
    ensures r / 2 == id
    ensures r % 2 == 1 <==> isReverse
  {
    2 * id + (if isReverse then 1 else 0)
  }

  /** `gbwt::Node::id`. */
  function Id(node: nat): nat {
    node / 2
  }

  /** `gbwt::Node::is_reverse`. */
  predicate IsReverse(node: nat) {
    node % 2 == 1
  }

  /** Decoding an encoded node gives back its id and its orientation... */
  lemma DecodeEncode(id: nat, isReverse: bool)
    ensures Id(Encode(id, isReverse)) == id
    ensures IsReverse(Encode(id, isReverse)) == isReverse
  {
  }

  /** ...and every node is the encoding of its id and orientation. */
  lemma EncodeDecode(node: nat)
    ensures Encode(Id(node), IsReverse(node)) == node
  {
  }

  /**
    The slot of a node in a table that covers the nodes from `firstNode` on:
    `(node - firstNode) / 2`, as `SegmentCache` computes it.
   */
  function Slot(node: nat, firstNode: nat): nat
    requires firstNode <= node
  {
    (node - firstNode) / 2
  }

  /**
    With an even first node, both orientations of a node id share one slot, and
    consecutive ids have consecutive slots.
   */
  lemma SlotOfId(id: nat, isReverse: bool, firstNode: nat)
    requires firstNode % 2 == 0 && firstNode <= Encode(id, false)
    ensures firstNode <= Encode(id, isReverse)
    ensures Slot(Encode(id, isReverse), firstNode) == id - firstNode / 2
  {
  }
}
