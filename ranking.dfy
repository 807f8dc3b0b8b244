/**
 * The order CalcCandidates ranks nodes in (rendezvous.go:34-39), and what
 * follows from it: a ranking is a sorted permutation of the node set; with
 * unique node IDs there is exactly one, so it depends neither on storage nor
 * on insertion order; and removing or inserting a node changes the ranking
 * only by deleting or inserting that node.
 *
 * Everything is generic in the node type T, given the node's ID and its
 * score for the item at hand (Go's NodeID and HashCode methods).
 */
module RankingSpec {
  import opened GoTypes
  import opened Ordering

  // ----- the order -----

  /** The sort.Slice less function: higher score first, and on equal scores the greater ID first. */
  predicate Before<T>(id: T -> GoBytes, code: T -> int, a: T, b: T) {
    if code(a) == code(b) then CompareBytes(id(a), id(b)) > 0 else code(a) > code(b)
  }

  /** a may stand before b in a ranking: b does not go strictly before a. */
  predicate NotAfter<T>(id: T -> GoBytes, code: T -> int, a: T, b: T) {
    !Before(id, code, b, a)
  }

  predicate Sorted<T>(id: T -> GoBytes, code: T -> int, s: seq<T>) {
    forall i, j | 0 <= i < j < |s| :: NotAfter(id, code, s[i], s[j])
  }

  /** The node-set invariant: no two nodes share an ID. */
  predicate Distinct<T>(id: T -> GoBytes, s: seq<T>) {
    forall i, j | 0 <= i < j < |s| :: id(s[i]) != id(s[j])
  }

  lemma BeforeAsymmetric<T>(id: T -> GoBytes, code: T -> int, a: T, b: T)
    requires Before(id, code, a, b)
    ensures !Before(id, code, b, a)
  {
    CompareBytesTotal(id(a), id(b));
  }

  /** On nodes with different IDs the order is total: one of the two goes first. */
  lemma BeforeTotal<T>(id: T -> GoBytes, code: T -> int, a: T, b: T)
    requires id(a) != id(b)
    ensures Before(id, code, a, b) || Before(id, code, b, a)
  {
    CompareBytesTotal(id(a), id(b));
  }

  lemma NotAfterTransitive<T>(id: T -> GoBytes, code: T -> int, a: T, b: T, c: T)
    requires NotAfter(id, code, a, b) && NotAfter(id, code, b, c)
    ensures NotAfter(id, code, a, c)
  {
    if code(a) == code(b) == code(c) {
      CompareBytesNonPositiveTransitive(id(c), id(b), id(a));
    }
  }

  // ----- a reference ranking: insertion sort -----

  /** Insert x into a ranking, in front of the first node it does not go after. */
  function InsertSorted<T>(id: T -> GoBytes, code: T -> int, x: T, s: seq<T>): (r: seq<T>)
    ensures |r| == |s| + 1
  {
    if s == [] || NotAfter(id, code, x, s[0]) then [x] + s
    else [s[0]] + InsertSorted(id, code, x, s[1..])
  }

  /** The ranking of a node sequence: every node, best first. */
  function Ranking<T>(id: T -> GoBytes, code: T -> int, s: seq<T>): (r: seq<T>)
    ensures |r| == |s|
  {
    if s == [] then [] else InsertSorted(id, code, s[0], Ranking(id, code, s[1..]))
  }

  lemma {:induction false} InsertSortedPermutes<T>(id: T -> GoBytes, code: T -> int, x: T, s: seq<T>)
    ensures multiset(InsertSorted(id, code, x, s)) == multiset(s) + multiset{x}
  {
    if s != [] && !NotAfter(id, code, x, s[0]) {
      InsertSortedPermutes(id, code, x, s[1..]);
      assert s == [s[0]] + s[1..];
    }
  }

  /** A node that may stand before every node of s may stand at the front of s. */
  lemma SortedCons<T>(id: T -> GoBytes, code: T -> int, x: T, s: seq<T>)
    requires Sorted(id, code, s)
    requires forall e | e in s :: NotAfter(id, code, x, e)
    ensures Sorted(id, code, [x] + s)
  {
    var r := [x] + s;
    forall i, j | 0 <= i < j < |r|
      ensures NotAfter(id, code, r[i], r[j])
    {
      if i > 0 {
        assert r[i] == s[i - 1] && r[j] == s[j - 1];
      } else {
        assert r[j] in s;
      }
    }
  }

  lemma {:induction false} InsertSortedSorted<T>(id: T -> GoBytes, code: T -> int, x: T, s: seq<T>)
    requires Sorted(id, code, s)
    ensures Sorted(id, code, InsertSorted(id, code, x, s))
  {
    if s == [] {
    } else if NotAfter(id, code, x, s[0]) {
      forall e | e in s
        ensures NotAfter(id, code, x, e)
      {
        if e != s[0] {
          var k :| 0 <= k < |s| && s[k] == e;
          NotAfterTransitive(id, code, x, s[0], e);
        }
      }
      SortedCons(id, code, x, s);
    } else {
      var t := s[1..];
      InsertSortedSorted(id, code, x, t);
      InsertSortedPermutes(id, code, x, t);
      BeforeAsymmetric(id, code, s[0], x);
      forall e | e in InsertSorted(id, code, x, t)
        ensures NotAfter(id, code, s[0], e)
      {
        assert e in multiset(InsertSorted(id, code, x, t));
        if e != x {
          assert e in multiset(t);
          var k :| 0 <= k < |t| && t[k] == e;
          assert s[k + 1] == e;
        }
      }
      SortedCons(id, code, s[0], InsertSorted(id, code, x, t));
    }
  }

  /** The reference ranking is a sorted permutation of its input. */
  lemma {:induction false} RankingSortedPermutation<T>(id: T -> GoBytes, code: T -> int, s: seq<T>)
    ensures Sorted(id, code, Ranking(id, code, s))
    ensures multiset(Ranking(id, code, s)) == multiset(s)
  {
    if s != [] {
      RankingSortedPermutation(id, code, s[1..]);
      InsertSortedSorted(id, code, s[0], Ranking(id, code, s[1..]));
      InsertSortedPermutes(id, code, s[0], Ranking(id, code, s[1..]));
      assert s == [s[0]] + s[1..];
    }
  }

  // ----- uniqueness of the ranking -----

  /** A sequence of nodes with distinct IDs holds each node at most once. */
  lemma {:induction false} DistinctNoDuplicates<T>(id: T -> GoBytes, s: seq<T>, x: T)
    requires Distinct(id, s)
    ensures multiset(s)[x] <= 1
  {
    if s != [] {
      assert s == [s[0]] + s[1..];
      DistinctNoDuplicates(id, s[1..], x);
      if s[0] == x {
        forall k | 0 <= k < |s[1..]|
          ensures s[1..][k] != x
        {
          assert id(s[0]) != id(s[k + 1]);
        }
      }
    }
  }

  /** An element at two positions occurs at least twice. */
  lemma TwoPositions<T>(s: seq<T>, i: nat, j: nat)
    requires i < j < |s| && s[i] == s[j]
    ensures multiset(s)[s[i]] >= 2
  {
    assert s == s[..j] + s[j..];
    assert s[i] in s[..j] && s[j] in s[j..];
  }

  /** Reordering a sequence of nodes with distinct IDs keeps the IDs distinct. */
  lemma DistinctPermutation<T>(id: T -> GoBytes, a: seq<T>, b: seq<T>)
    requires multiset(a) == multiset(b)
    requires Distinct(id, a)
    ensures Distinct(id, b)
  {
    forall i, j | 0 <= i < j < |b|
      ensures id(b[i]) != id(b[j])
    {
      if b[i] == b[j] {
        DistinctNoDuplicates(id, a, b[i]);
        TwoPositions(b, i, j);
        assert false;
      } else {
        assert b[i] in multiset(a) && b[j] in multiset(a);
        var p :| 0 <= p < |a| && a[p] == b[i];
        var q :| 0 <= q < |a| && a[q] == b[j];
        if p < q { assert id(a[p]) != id(a[q]); } else { assert id(a[q]) != id(a[p]); }
      }
    }
  }

  /**
   * With distinct IDs the order is strict and total, so two sorted
   * permutations of the same nodes are the same sequence.
   */
  lemma {:induction false} SortedPermutationUnique<T>(id: T -> GoBytes, code: T -> int, a: seq<T>, b: seq<T>)
    requires Sorted(id, code, a) && Sorted(id, code, b)
    requires multiset(a) == multiset(b)
    requires Distinct(id, a)
    ensures a == b
  {
    if a != [] {
      SortedHeadsEqual(id, code, a, b);
      TailPermutation(a, b);
      assert Sorted(id, code, a[1..]) && Sorted(id, code, b[1..]);
      assert Distinct(id, a[1..]);
      SortedPermutationUnique(id, code, a[1..], b[1..]);
    }
  }

  /** Two sorted permutations of nodes with distinct IDs start with the same node. */
  lemma SortedHeadsEqual<T>(id: T -> GoBytes, code: T -> int, a: seq<T>, b: seq<T>)
    requires Sorted(id, code, a) && Sorted(id, code, b)
    requires multiset(a) == multiset(b)
    requires Distinct(id, a) && a != []
    ensures b != [] && a[0] == b[0]
  {
    assert a[0] in multiset(b);
    var k :| 0 <= k < |b| && b[k] == a[0];
    if a[0] != b[0] {
      assert b[0] in multiset(a);
      var m :| 0 <= m < |a| && a[m] == b[0];
      assert NotAfter(id, code, b[0], b[k]);
      assert NotAfter(id, code, a[0], a[m]);
      assert id(a[0]) != id(a[m]);
      BeforeTotal(id, code, a[0], b[0]);
      assert false;
    }
  }

  /** Equal multisets with equal first elements have equal multisets of tails. */
  lemma TailPermutation<T>(a: seq<T>, b: seq<T>)
    requires multiset(a) == multiset(b) && a != [] && b != [] && a[0] == b[0]
    ensures multiset(a[1..]) == multiset(b[1..])
  {
    assert a == [a[0]] + a[1..] && b == [b[0]] + b[1..];
    assert multiset(a[1..]) == multiset(a) - multiset{a[0]};
    assert multiset(b[1..]) == multiset(b) - multiset{b[0]};
  }

  /** Taking the first element of a and a matching element of b out of equal multisets leaves equal multisets. */
  lemma RemoveMatching<T>(a: seq<T>, b: seq<T>, k: nat)
    requires multiset(a) == multiset(b) && a != [] && k < |b| && b[k] == a[0]
    ensures multiset(a[1..]) == multiset(b[..k] + b[k + 1..])
  {
    assert a == [a[0]] + a[1..];
    assert b == b[..k] + [b[k]] + b[k + 1..];
    assert multiset(a[1..]) == multiset(a) - multiset{a[0]};
    assert multiset(b[..k] + b[k + 1..]) == multiset(b) - multiset{b[k]};
  }

  /**
   * Any sorted permutation of nodes with distinct IDs is the reference
   * ranking: the outcome of an unstable sort is fully determined.
   */
  lemma RankingUnique<T>(id: T -> GoBytes, code: T -> int, s: seq<T>, r: seq<T>)
    requires Distinct(id, s)
    requires Sorted(id, code, r) && multiset(r) == multiset(s)
    ensures r == Ranking(id, code, s)
  {
    RankingSortedPermutation(id, code, s);
    DistinctPermutation(id, s, r);
    SortedPermutationUnique(id, code, r, Ranking(id, code, s));
  }

  /** Two node sequences holding the same nodes (in any order) rank every item identically. */
  lemma RankingOrderIndependent<T>(id: T -> GoBytes, code: T -> int, s1: seq<T>, s2: seq<T>)
    requires Distinct(id, s1)
    requires multiset(s1) == multiset(s2)
    ensures Ranking(id, code, s1) == Ranking(id, code, s2)
  {
    RankingSortedPermutation(id, code, s2);
    RankingUnique(id, code, s1, Ranking(id, code, s2));
  }

  // ----- removal and insertion -----

  /** The nodes of s whose ID is not x, in their order. */
  function Without<T>(id: T -> GoBytes, s: seq<T>, x: GoBytes): (r: seq<T>)
    ensures |r| <= |s|
  {
    if s == [] then []
    else (if id(s[0]) == x then [] else [s[0]]) + Without(id, s[1..], x)
  }

  /** Remove's swap-remove: the last node moves into slot k and the slice shrinks by one. */
  function SwapRemove<T>(s: seq<T>, k: nat): (r: seq<T>)
    requires k < |s|
    ensures |r| == |s| - 1
    ensures forall i | 0 <= i < |r| && i != k :: r[i] == s[i]
    ensures k < |r| ==> r[k] == s[|s| - 1]
  {
    s[k := s[|s| - 1]][..|s| - 1]
  }

  /** Filtering out ID x drops every node with that ID and keeps every other node as often as it occurs. */
  lemma {:induction false} WithoutCount<T>(id: T -> GoBytes, s: seq<T>, x: GoBytes, e: T)
    ensures multiset(Without(id, s, x))[e] == if id(e) == x then 0 else multiset(s)[e]
  {
    if s != [] {
      var w := Without(id, s[1..], x);
      WithoutCount(id, s[1..], x, e);
      assert multiset(s) == multiset{s[0]} + multiset(s[1..]) by {
        assert s == [s[0]] + s[1..];
      }
      if id(s[0]) == x {
        assert Without(id, s, x) == w;
      } else {
        assert Without(id, s, x) == [s[0]] + w;
        assert multiset(Without(id, s, x)) == multiset{s[0]} + multiset(w);
      }
    }
  }

  lemma WithoutMember<T>(id: T -> GoBytes, s: seq<T>, x: GoBytes, e: T)
    requires e in Without(id, s, x)
    ensures e in s && id(e) != x
  {
    WithoutCount(id, s, x, e);
    assert e in multiset(Without(id, s, x));
  }

  lemma {:induction false} WithoutSorted<T>(id: T -> GoBytes, code: T -> int, s: seq<T>, x: GoBytes)
    requires Sorted(id, code, s)
    ensures Sorted(id, code, Without(id, s, x))
  {
    if s != [] {
      WithoutSorted(id, code, s[1..], x);
      if id(s[0]) != x {
        forall e | e in Without(id, s[1..], x)
          ensures NotAfter(id, code, s[0], e)
        {
          WithoutMember(id, s[1..], x, e);
          var k :| 0 <= k < |s[1..]| && s[1..][k] == e;
          assert s[k + 1] == e;
        }
        SortedCons(id, code, s[0], Without(id, s[1..], x));
      }
    }
  }

  lemma MultisetExt<T>(ma: multiset<T>, mb: multiset<T>)
    requires forall e :: ma[e] == mb[e]
    ensures ma == mb
  {
  }

  /** Filtering by ID respects reordering. */
  lemma WithoutPermutation<T>(id: T -> GoBytes, a: seq<T>, b: seq<T>, x: GoBytes)
    requires multiset(a) == multiset(b)
    ensures multiset(Without(id, a, x)) == multiset(Without(id, b, x))
  {
    var ma, mb := multiset(Without(id, a, x)), multiset(Without(id, b, x));
    forall e
      ensures ma[e] == mb[e]
    {
      WithoutCount(id, a, x, e);
      WithoutCount(id, b, x, e);
    }
    MultisetExt(ma, mb);
  }

  /** Nothing in s has ID x: filtering x out changes nothing. */
  lemma {:induction false} WithoutAbsent<T>(id: T -> GoBytes, s: seq<T>, x: GoBytes)
    requires forall e | e in s :: id(e) != x
    ensures Without(id, s, x) == s
  {
    if s != [] {
      WithoutAbsent(id, s[1..], x);
      assert s == [s[0]] + s[1..];
    }
  }

  /** With distinct IDs, filtering out the ID of s[k] removes exactly s[k]. */
  lemma {:induction false} WithoutAt<T>(id: T -> GoBytes, s: seq<T>, k: nat)
    requires Distinct(id, s) && k < |s|
    ensures Without(id, s, id(s[k])) == s[..k] + s[k + 1..]
  {
    var x := id(s[k]);
    if k == 0 {
      forall e | e in s[1..]
        ensures id(e) != x
      {
        var i :| 0 <= i < |s[1..]| && s[1..][i] == e;
        assert id(s[0]) != id(s[i + 1]);
      }
      WithoutAbsent(id, s[1..], x);
    } else {
      var t := s[1..];
      assert t[k - 1] == s[k];
      WithoutAt(id, t, k - 1);
      assert s[..k] == [s[0]] + t[..k - 1];
      assert s[k + 1..] == t[k..];
      assert id(s[0]) != id(s[k]);
    }
  }

  lemma SwapRemovePermutation<T>(s: seq<T>, k: nat)
    requires k < |s|
    ensures multiset(SwapRemove(s, k)) == multiset(s[..k] + s[k + 1..])
  {
    var n := |s| - 1;
    if k < n {
      assert SwapRemove(s, k) == s[..k] + [s[n]] + s[k + 1..n];
      assert s[k + 1..] == s[k + 1..n] + [s[n]];
    } else {
      assert SwapRemove(s, k) == s[..k];
    }
  }

  lemma {:induction false} WithoutDistinct<T>(id: T -> GoBytes, s: seq<T>, x: GoBytes)
    requires Distinct(id, s)
    ensures Distinct(id, Without(id, s, x))
  {
    if s != [] {
      WithoutDistinct(id, s[1..], x);
      var w := Without(id, s[1..], x);
      if id(s[0]) != x {
        forall e | e in w
          ensures id(e) != id(s[0])
        {
          WithoutMember(id, s[1..], x, e);
          var k :| 0 <= k < |s[1..]| && s[1..][k] == e;
          assert s[k + 1] == e;
        }
        var r := [s[0]] + w;
        forall i, j | 0 <= i < j < |r|
          ensures id(r[i]) != id(r[j])
        {
          if i == 0 { assert r[j] in w; } else { assert r[i] == w[i - 1] && r[j] == w[j - 1]; }
        }
      }
    }
  }

  /**
   * Minimal disruption on removal: after Remove swap-removes the node at
   * index k, the new ranking is the old one with that node deleted and
   * every other node in the same relative order.
   */
  lemma RankingAfterRemove<T>(id: T -> GoBytes, code: T -> int, s: seq<T>, k: nat)
    requires Distinct(id, s) && k < |s|
    ensures Ranking(id, code, SwapRemove(s, k)) == Without(id, Ranking(id, code, s), id(s[k]))
  {
    var x := id(s[k]);
    var r := Ranking(id, code, s);
    var w := Without(id, r, x);
    RankingSortedPermutation(id, code, s);
    WithoutSorted(id, code, r, x);
    SwapRemoveWithout(id, s, k);
    WithoutPermutation(id, r, s, x);
    RankingUnique(id, code, SwapRemove(s, k), w);
  }

  /** Swap-removing slot k holds the same nodes as filtering out its ID, and keeps IDs distinct. */
  lemma SwapRemoveWithout<T>(id: T -> GoBytes, s: seq<T>, k: nat)
    requires Distinct(id, s) && k < |s|
    ensures multiset(SwapRemove(s, k)) == multiset(Without(id, s, id(s[k])))
    ensures Distinct(id, SwapRemove(s, k))
  {
    WithoutAt(id, s, k);
    SwapRemovePermutation(s, k);
    WithoutDistinct(id, s, id(s[k]));
    DistinctPermutation(id, Without(id, s, id(s[k])), SwapRemove(s, k));
  }

  /** The top choice survives the removal of any other node. */
  lemma WinnerSurvivesRemoval<T>(id: T -> GoBytes, code: T -> int, s: seq<T>, k: nat)
    requires Distinct(id, s) && k < |s|
    requires id(Ranking(id, code, s)[0]) != id(s[k])
    ensures |SwapRemove(s, k)| > 0
    ensures Ranking(id, code, SwapRemove(s, k))[0] == Ranking(id, code, s)[0]
  {
    RankingAfterRemove(id, code, s, k);
    var r := Ranking(id, code, s);
    assert r == [r[0]] + r[1..];
    assert Without(id, r, id(s[k])) == [r[0]] + Without(id, r[1..], id(s[k]));
  }

  /**
   * Minimal disruption on insertion: Insert takes out any node with the new
   * node's ID and appends the new node; the new ranking is the old one with
   * that ID taken out and the new node inserted at its place.
   */
  lemma RankingAfterInsert<T>(id: T -> GoBytes, code: T -> int, s: seq<T>, n: T)
    requires Distinct(id, s)
    ensures Ranking(id, code, Without(id, s, id(n)) + [n])
         == InsertSorted(id, code, n, Without(id, Ranking(id, code, s), id(n)))
  {
    var x := id(n);
    var r := Ranking(id, code, s);
    var w := Without(id, s, x);
    var v := Without(id, r, x);
    RankingSortedPermutation(id, code, s);
    WithoutSorted(id, code, r, x);
    InsertSortedSorted(id, code, n, v);
    InsertSortedPermutes(id, code, n, v);
    WithoutPermutation(id, r, s, x);
    AppendDistinct(id, s, n);
    RankingUnique(id, code, w + [n], InsertSorted(id, code, n, v));
  }

  /** Filtering out a node's ID and appending the node keeps IDs distinct. */
  lemma AppendDistinct<T>(id: T -> GoBytes, s: seq<T>, n: T)
    requires Distinct(id, s)
    ensures Distinct(id, Without(id, s, id(n)) + [n])
  {
    var w := Without(id, s, id(n));
    var t := w + [n];
    WithoutDistinct(id, s, id(n));
    forall i, j | 0 <= i < j < |t|
      ensures id(t[i]) != id(t[j])
    {
      if j == |w| {
        assert t[i] == w[i];
        WithoutMember(id, s, id(n), w[i]);
      } else {
        assert t[i] == w[i] && t[j] == w[j];
      }
    }
  }

  // ----- lookup by ID -----

  /** The index of the first node with ID x, or -1 when there is none (the scan of Remove and Contains). */
  function IndexOfId<T>(id: T -> GoBytes, s: seq<T>, x: GoBytes): (r: int)
    ensures -1 <= r < |s|
    ensures r >= 0 ==> id(s[r]) == x && forall k | 0 <= k < r :: id(s[k]) != x
    ensures r == -1 <==> forall k | 0 <= k < |s| :: id(s[k]) != x
  {
    if s == [] then -1
    else if id(s[0]) == x then 0
    else var r := IndexOfId(id, s[1..], x); if r < 0 then -1 else r + 1
  }

  /**
   * The state Insert leaves: any node with n's ID swap-removed, then n
   * appended. It holds the same nodes as the old state filtered by n's ID
   * plus n, and its IDs stay distinct.
   */
  lemma InsertState<T>(id: T -> GoBytes, s: seq<T>, n: T, t: seq<T>)
    requires Distinct(id, s)
    requires var k := IndexOfId(id, s, id(n));
      t == (if k < 0 then s else SwapRemove(s, k)) + [n]
    ensures multiset(t) == multiset(Without(id, s, id(n)) + [n])
    ensures Distinct(id, t)
  {
    var x := id(n);
    var k := IndexOfId(id, s, x);
    var u := Without(id, s, x) + [n];
    if k < 0 {
      WithoutAbsentIndex(id, s, x);
      assert t == u;
    } else {
      SwapRemoveWithout(id, s, k);
      assert multiset(t) == multiset(SwapRemove(s, k)) + multiset{n};
    }
    AppendDistinct(id, s, n);
    DistinctPermutation(id, u, t);
  }

  /**
   * The ranking after Insert is the old ranking with n's ID filtered out
   * and n inserted at its place.
   */
  lemma RankingAfterInsertState<T>(id: T -> GoBytes, code: T -> int, s: seq<T>, n: T, t: seq<T>)
    requires Distinct(id, s)
    requires var k := IndexOfId(id, s, id(n));
      t == (if k < 0 then s else SwapRemove(s, k)) + [n]
    ensures Ranking(id, code, t) == InsertSorted(id, code, n, Without(id, Ranking(id, code, s), id(n)))
  {
    InsertState(id, s, n, t);
    AppendDistinct(id, s, n);
    RankingAfterInsert(id, code, s, n);
    RankingOrderIndependent(id, code, Without(id, s, id(n)) + [n], t);
  }

  lemma WithoutAbsentIndex<T>(id: T -> GoBytes, s: seq<T>, x: GoBytes)
    requires IndexOfId(id, s, x) < 0
    ensures Without(id, s, x) == s
  {
    forall e | e in s
      ensures id(e) != x
    {
      var k :| 0 <= k < |s| && s[k] == e;
    }
    WithoutAbsent(id, s, x);
  }

  // ----- the insertion step of an in-place sort -----

  /**
   * Every pair of positions is in order except pairs (p, j) with p < j:
   * the node at j is still moving towards the front.
   */
  predicate OrderedExcept<T>(id: T -> GoBytes, code: T -> int, s: seq<T>, j: int) {
    && (forall p, q | 0 <= p < q < |s| && p != j && q != j :: NotAfter(id, code, s[p], s[q]))
    && (forall q | 0 <= j < q < |s| :: NotAfter(id, code, s[j], s[q]))
  }

  /** Appending one node to a sorted prefix: only the new node may be out of order. */
  lemma OrderedExceptStart<T>(id: T -> GoBytes, code: T -> int, s: seq<T>)
    requires s != [] && Sorted(id, code, s[..|s| - 1])
    ensures OrderedExcept(id, code, s, |s| - 1)
  {
    var j := |s| - 1;
    forall p, q | 0 <= p < q < |s| && p != j && q != j
      ensures NotAfter(id, code, s[p], s[q])
    {
      assert s[p] == s[..j][p] && s[q] == s[..j][q];
    }
  }

  /** Swapping the moving node with a predecessor it goes before keeps every other pair in order. */
  lemma OrderedExceptSwap<T>(id: T -> GoBytes, code: T -> int, s: seq<T>, j: int)
    requires 0 < j < |s| && OrderedExcept(id, code, s, j)
    requires Before(id, code, s[j], s[j - 1])
    ensures OrderedExcept(id, code, s[j - 1 := s[j]][j := s[j - 1]], j - 1)
  {
    BeforeAsymmetric(id, code, s[j], s[j - 1]);
    var t := s[j - 1 := s[j]][j := s[j - 1]];
    forall p, q | 0 <= p < q < |t| && p != j - 1 && q != j - 1
      ensures NotAfter(id, code, t[p], t[q])
    {
      if p == j {
        assert t[p] == s[j - 1] && t[q] == s[q];
      } else if q == j {
        assert t[p] == s[p] && t[q] == s[j - 1];
      } else {
        assert t[p] == s[p] && t[q] == s[q];
      }
    }
    forall q | j - 1 < q < |t|
      ensures NotAfter(id, code, t[j - 1], t[q])
    {
      if q > j {
        assert t[q] == s[q];
      }
    }
  }

  /** The moving node has stopped behind a predecessor it does not go before: all is in order. */
  lemma OrderedExceptDone<T>(id: T -> GoBytes, code: T -> int, s: seq<T>, j: int)
    requires 0 <= j < |s| && OrderedExcept(id, code, s, j)
    requires j == 0 || NotAfter(id, code, s[j - 1], s[j])
    ensures Sorted(id, code, s)
  {
    forall p, q | 0 <= p < q < |s|
      ensures NotAfter(id, code, s[p], s[q])
    {
      if q == j && p < j - 1 {
        NotAfterTransitive(id, code, s[p], s[j - 1], s[j]);
      }
    }
  }
}
