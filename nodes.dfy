/**
 * node.go: the node variants and capacity validation. Every node exposes an
 * ID and a score for an item; the Go `Node` interface is passed around in
 * the rest of the model as the pair of functions (NodeID, HashCode).
 */
module Nodes {
  import opened GoTypes
  import opened Ordering
  import opened Hasher

  // ----- IdNode: the identifier is the node itself -----

  datatype IdNode = IdNode(node: GoBytes)

  function NewIdNode(node: GoBytes): IdNode {
    IdNode(node)
  }

  function IdNodeID(n: IdNode): GoBytes {
    n.node
  }

  function IdNodeHashCode(hasher: NodeHasher, n: IdNode, item: Value): u64 {
    hasher(n.node, item)
  }

  /** IdNode.NodeID returns the wrapped value; HashCode is the hasher applied to it and the item. */
  lemma IdNodeContract(hasher: NodeHasher, x: GoBytes, item: Value)
    ensures IdNodeID(NewIdNode(x)) == x
    ensures IdNodeHashCode(hasher, NewIdNode(x), item) == hasher(x, item)
  {
  }

  // ----- KeyValueNode: a key with an inert payload -----

  datatype KeyValueNode<V> = KeyValueNode(key: GoBytes, value: V)

  function NewKeyValueNode<V>(key: GoBytes, value: V): KeyValueNode<V> {
    KeyValueNode(key, value)
  }

  function KeyValueNodeID<V>(n: KeyValueNode<V>): GoBytes {
    n.key
  }

  function KeyValueNodeHashCode<V>(hasher: NodeHasher, n: KeyValueNode<V>, item: Value): u64 {
    hasher(n.key, item)
  }

  /**
   * A key/value node is identified and scored by its key alone: the value
   * never reaches the hasher, and the score is that of an IdNode on the key.
   */
  lemma KeyValueNodeContract<V>(hasher: NodeHasher, key: GoBytes, v1: V, v2: V, item: Value)
    ensures KeyValueNodeID(NewKeyValueNode(key, v1)) == key
    ensures KeyValueNodeHashCode(hasher, NewKeyValueNode(key, v1), item)
         == KeyValueNodeHashCode(hasher, NewKeyValueNode(key, v2), item)
    ensures KeyValueNodeHashCode(hasher, NewKeyValueNode(key, v1), item)
         == IdNodeHashCode(hasher, NewIdNode(key), item)
  {
  }

  // ----- Capacity -----

  /** A node's weight. Only NewCapacity checks it; the zero value holds 0.0. */
  datatype Capacity = Capacity(value: Float)

  const ZeroCapacity := Capacity(Finite(0.0))

  predicate IsNaN(v: Float) { v.NaN? }

  /** math.IsInf(v, 0): infinite of either sign. */
  predicate IsInf(v: Float) { v.PosInf? || v.NegInf? }

  /** NewCapacity: accepts v only when v > 0, v is not NaN and v is not infinite. */
  function NewCapacity(v: Float): (r: (Capacity, bool))
    ensures r.1 <==> v.Finite? && v.r > 0.0
    ensures r.1 ==> r.0.value == v
    ensures !r.1 ==> r.0 == ZeroCapacity
  {
    if FloatLess(Finite(0.0), v) && !IsNaN(v) && !IsInf(v) then (Capacity(v), true)
    else (ZeroCapacity, false)
  }

  function CapacityValue(c: Capacity): Float {
    c.value
  }

  /** A capacity that NewCapacity accepted gives back exactly the value it was built from. */
  lemma NewCapacityValue(v: Float)
    requires NewCapacity(v).1
    ensures CapacityValue(NewCapacity(v).0) == v
    ensures CapacityValue(NewCapacity(v).0).Finite? && CapacityValue(NewCapacity(v).0).r > 0.0
  {
  }

  /** Zero, negative numbers, NaN and both infinities are refused; 0.001 is accepted. */
  lemma NewCapacityExamples()
    ensures !NewCapacity(Finite(0.0)).1 && !NewCapacity(Finite(-1.0)).1
    ensures !NewCapacity(NaN).1 && !NewCapacity(PosInf).1 && !NewCapacity(NegInf).1
    ensures NewCapacity(Finite(0.001)).1
  {
  }

  // ----- WeightedNode: any unweighted node plus a capacity -----

  datatype WeightedNode<N> = WeightedNode(node: N, capacity: Capacity)

  function NewWeightedNode<N>(node: N, capacity: Capacity): WeightedNode<N> {
    WeightedNode(node, capacity)
  }

  /** WeightedNode.NodeID: the wrapped node's ID (nodeID is the wrapped type's NodeID). */
  function WeightedNodeID<N>(nodeID: N -> GoBytes, n: WeightedNode<N>): GoBytes {
    nodeID(n.node)
  }

  /** NewWeightedNode stores both parts unchanged, and the weighted node keeps the wrapped node's ID. */
  lemma WeightedNodeContract<N>(nodeID: N -> GoBytes, node: N, capacity: Capacity)
    ensures NewWeightedNode(node, capacity).node == node
    ensures NewWeightedNode(node, capacity).capacity == capacity
    ensures WeightedNodeID(nodeID, NewWeightedNode(node, capacity)) == nodeID(node)
  {
  }
}
