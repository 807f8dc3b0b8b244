/**
 * rendezvous.go: the node set and its operations. The set is a slice of
 * nodes that Insert and Remove update in place; CalcCandidates scores every
 * node for an item, sorts the scored nodes in place, and returns the nodes
 * best first.
 *
 * A node type is given by two functions, the Go Node interface's methods:
 * NodeID and HashCode.
 */
module Rendezvous {
  import opened GoTypes
  import opened Hasher
  import opened Nodes
  import opened RankingSpec

  /** A node with its score for the item being ranked (CalcCandidates' `scored`). */
  datatype Scored<N> = Scored(node: N, code: int)

  function ScoredCode<N>(c: Scored<N>): int {
    c.code
  }

  /** The ID of a scored node is the ID of its node. */
  function ScoredId<N>(nodeId: N -> GoBytes): Scored<N> -> GoBytes {
    (c: Scored<N>) => nodeId(c.node)
  }

  /** The nodes of the scored nodes, in order. */
  function Project<N>(cs: seq<Scored<N>>): (r: seq<N>)
    ensures |r| == |cs|
  {
    seq(|cs|, i requires 0 <= i < |cs| => cs[i].node)
  }

  /**
   * sort.Slice with the less function of CalcCandidates: higher score
   * first, ties broken by the greater ID. An insertion sort in place; the
   * result is a sorted permutation of the input.
   */
  method SortByRank<T>(id: T -> GoBytes, code: T -> int, a: array<T>)
    modifies a
    ensures Sorted(id, code, a[..])
    ensures multiset(a[..]) == old(multiset(a[..]))
  {
    if a.Length == 0 {
      return;
    }
    for i := 1 to a.Length
      invariant Sorted(id, code, a[..i])
      invariant multiset(a[..]) == old(multiset(a[..]))
    {
      assert a[..i + 1][..i] == a[..i];
      OrderedExceptStart(id, code, a[..i + 1]);
      var j := i;
      while j > 0 && Before(id, code, a[j], a[j - 1])
        invariant 0 <= j <= i
        invariant OrderedExcept(id, code, a[..i + 1], j)
        invariant multiset(a[..]) == old(multiset(a[..]))
      {
        ghost var s := a[..i + 1];
        OrderedExceptSwap(id, code, s, j);
        a[j - 1], a[j] := a[j], a[j - 1];
        assert a[..i + 1] == s[j - 1 := s[j]][j := s[j - 1]];
        j := j - 1;
      }
      OrderedExceptDone(id, code, a[..i + 1], j);
    }
    assert a[..a.Length] == a[..];
  }

  /** Scoring then sorting then projecting gives a sorted permutation of the nodes. */
  lemma ProjectRanked<N>(nodeId: N -> GoBytes, score: N -> int, ns: seq<N>, cands: seq<Scored<N>>, sorted: seq<Scored<N>>)
    requires |cands| == |ns|
    requires forall k | 0 <= k < |ns| :: cands[k] == Scored(ns[k], score(ns[k]))
    requires multiset(sorted) == multiset(cands)
    requires Sorted(ScoredId(nodeId), ScoredCode, sorted)
    ensures multiset(Project(sorted)) == multiset(ns)
    ensures Sorted(nodeId, score, Project(sorted))
  {
    assert Project(cands) == ns;
    ProjectPermutation(cands, sorted);
    var r := Project(sorted);
    forall k | 0 <= k < |sorted|
      ensures sorted[k].code == score(sorted[k].node)
    {
      assert sorted[k] in multiset(cands);
    }
    forall p, q | 0 <= p < q < |r|
      ensures NotAfter(nodeId, score, r[p], r[q])
    {
      assert NotAfter(ScoredId(nodeId), ScoredCode, sorted[p], sorted[q]);
    }
  }

  /** Projection respects reordering. */
  lemma {:induction false} ProjectPermutation<N>(a: seq<Scored<N>>, b: seq<Scored<N>>)
    requires multiset(a) == multiset(b)
    ensures multiset(Project(a)) == multiset(Project(b))
    decreases |a|
  {
    if a == [] {
      assert |b| == |multiset(b)| == 0;
    } else {
      assert a[0] in multiset(b);
      var k :| 0 <= k < |b| && b[k] == a[0];
      var b' := b[..k] + b[k + 1..];
      RemoveMatching(a, b, k);
      ProjectPermutation(a[1..], b');
      assert a == [a[0]] + a[1..];
      assert b == b[..k] + ([b[k]] + b[k + 1..]);
      ProjectConcat([a[0]], a[1..]);
      ProjectConcat(b[..k], [b[k]] + b[k + 1..]);
      ProjectConcat([b[k]], b[k + 1..]);
      ProjectConcat(b[..k], b[k + 1..]);
    }
  }

  lemma ProjectConcat<N>(a: seq<Scored<N>>, b: seq<Scored<N>>)
    ensures Project(a + b) == Project(a) + Project(b)
  {
  }

  /**
   * RendezvousNodes: the node set. `nodes` is the slice the Go struct
   * holds; `hasher` is the NodeHasher it was created with; `nodeId` and
   * `hashCode` are the node type's NodeID and HashCode methods.
   */
  class RendezvousNodes<N> {
    var nodes: seq<N>
    const hasher: NodeHasher
    const nodeId: N -> GoBytes
    const hashCode: (NodeHasher, N, Value) -> int

    /** No two nodes share an ID: Insert replaces rather than duplicates. */
    predicate Valid()
      reads this
    {
      Distinct(nodeId, nodes)
    }

    /** A node's score for an item, as CalcCandidates computes it. */
    function Score(item: Value): N -> int {
      n => hashCode(hasher, n, item)
    }

    /** NewRendezvousNodes: an empty set with the given hasher. */
    constructor(hasher: NodeHasher, nodeId: N -> GoBytes, hashCode: (NodeHasher, N, Value) -> int)
      ensures nodes == [] && Valid()
      ensures this.hasher == hasher && this.nodeId == nodeId && this.hashCode == hashCode
    {
      this.nodes := [];
      this.hasher := hasher;
      this.nodeId := nodeId;
      this.hashCode := hashCode;
    }

    /**
     * CalcCandidates: every node once, best first for this item. With
     * distinct IDs the order is the reference ranking, whatever order the
     * nodes are stored in.
     */
    method CalcCandidates(item: Value) returns (ranked: seq<N>)
      ensures multiset(ranked) == multiset(nodes)
      ensures Sorted(nodeId, Score(item), ranked)
      ensures Valid() ==> ranked == Ranking(nodeId, Score(item), nodes)
    {
      var cands: seq<Scored<N>> := [];
      for i := 0 to |nodes|
        invariant |cands| == i
        invariant forall k | 0 <= k < i :: cands[k] == Scored(nodes[k], Score(item)(nodes[k]))
      {
        cands := cands + [Scored(nodes[i], hashCode(hasher, nodes[i], item))];
      }
      var sorted := new Scored<N>[|cands|](i requires 0 <= i < |cands| => cands[i]);
      assert sorted[..] == cands;
      SortByRank(ScoredId(nodeId), ScoredCode, sorted);
      ranked := [];
      for i := 0 to sorted.Length
        invariant ranked == Project(sorted[..i])
      {
        ranked := ranked + [sorted[i].node];
      }
      assert sorted[..sorted.Length] == sorted[..];
      ProjectRanked(nodeId, Score(item), nodes, cands, sorted[..]);
      if Valid() {
        RankingUnique(nodeId, Score(item), nodes, ranked);
      }
    }

    /**
     * Insert: take out the node with the same ID, if any, and append the
     * new node. Returns the node taken out.
     */
    method Insert(node: N) returns (prev: Option<N>)
      modifies this
      ensures var k := IndexOfId(nodeId, old(nodes), nodeId(node));
        && (k < 0 ==> prev == None && nodes == old(nodes) + [node])
        && (k >= 0 ==> prev == Some(old(nodes)[k]) && nodes == SwapRemove(old(nodes), k) + [node])
      ensures |nodes| == |old(nodes)| + (if prev.None? then 1 else 0)
      ensures IndexOfId(nodeId, nodes, nodeId(node)) >= 0
      ensures old(Valid()) ==> Valid()
    {
      ghost var s := nodes;
      prev := Remove(nodeId(node));
      nodes := nodes + [node];
      assert nodeId(nodes[|nodes| - 1]) == nodeId(node);
      if old(Valid()) {
        InsertState(nodeId, s, node, nodes);
      }
    }

    /**
     * Remove: find the first node with this ID, move the last node into
     * its slot and shorten the slice by one. Returns the node removed.
     */
    method Remove(x: GoBytes) returns (removed: Option<N>)
      modifies this
      ensures var k := IndexOfId(nodeId, old(nodes), x);
        && (k < 0 ==> removed == None && nodes == old(nodes))
        && (k >= 0 ==> removed == Some(old(nodes)[k]) && nodes == SwapRemove(old(nodes), k))
      ensures old(Valid()) ==> Valid()
    {
      var i := 0;
      while i < |nodes|
        invariant 0 <= i <= |nodes| && nodes == old(nodes)
        invariant forall k | 0 <= k < i :: nodeId(nodes[k]) != x
      {
        if nodeId(nodes[i]) == x {
          removed := Some(nodes[i]);
          var last := |nodes| - 1;
          nodes := nodes[i := nodes[last]];
          nodes := nodes[..last];
          if old(Valid()) {
            SwapRemoveWithout(nodeId, old(nodes), i);
          }
          return;
        }
        i := i + 1;
      }
      removed := None;
    }

    /** Contains: whether some node has this ID. */
    method Contains(x: GoBytes) returns (b: bool)
      ensures b <==> exists k | 0 <= k < |nodes| :: nodeId(nodes[k]) == x
      ensures b <==> IndexOfId(nodeId, nodes, x) >= 0
    {
      for i := 0 to |nodes|
        invariant forall k | 0 <= k < i :: nodeId(nodes[k]) != x
      {
        if nodeId(nodes[i]) == x {
          return true;
        }
      }
      return false;
    }

    method IsEmpty() returns (b: bool)
      ensures b <==> |nodes| == 0
    {
      return |nodes| == 0;
    }

    method Len() returns (n: int)
      ensures n == |nodes|
    {
      return |nodes|;
    }

    /** Nodes: a fresh copy of the slice; changing it does not change the set. */
    method Nodes() returns (copy: array<N>)
      ensures fresh(copy)
      ensures copy[..] == nodes
    {
      var ns := nodes;
      copy := new N[|ns|](i requires 0 <= i < |ns| => ns[i]);
    }
  }

  /** NewDefaultNodes: IdNode nodes scored by DefaultNodeHasher over the given SHA-256. */
  method NewDefaultNodes(sha: seq<byte> -> Digest) returns (r: RendezvousNodes<IdNode>)
    ensures fresh(r) && r.nodes == [] && r.Valid()
    ensures r.hasher == DefaultNodeHasher(sha)
    ensures r.nodeId == IdNodeID && r.hashCode == IdNodeHashCode
  {
    r := new RendezvousNodes(DefaultNodeHasher(sha), IdNodeID, IdNodeHashCode);
  }
}
