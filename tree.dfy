/**
 * The arena tree of `tree.hpp`: a flat sequence of nodes whose `parent`,
 * `first_child` and `next_sibling` fields are optional indices into the same
 * sequence, and `TreeHelper::GetChildren`, which walks a sibling list.
 */
module Tree {
  import opened Wrappers

  /** One `TreeNode`. The source's `long double` value is a natural number here. */
  datatype Node = Node(
    name: string,
    value: nat,
    parent: Option<nat>,
    firstChild: Option<nat>,
    nextSibling: Option<nat>)

  /** `chain` is the finite list obtained by following `nextSibling` from `start`
    * until it is empty: every index is in bounds, consecutive entries are linked,
    * and the last entry has no next sibling. */
  ghost predicate IsSiblingChain(nodes: seq<Node>, start: Option<nat>, chain: seq<nat>)
  {
    && (forall k :: 0 <= k < |chain| ==> chain[k] < |nodes|)
    && (start.None? <==> chain == [])
    && (start.Some? ==> chain[0] == start.value)
    && (forall k :: 0 <= k < |chain| - 1 ==> nodes[chain[k]].nextSibling == Some(chain[k + 1]))
    && (chain != [] ==> nodes[chain[|chain| - 1]].nextSibling.None?)
  }

  /** The local link invariants of node `i` that the tree builder establishes. */
  ghost predicate NodeLinksOk(nodes: seq<Node>, i: nat)
    requires i < |nodes|
  {
    var n := nodes[i];
    && (n.parent.None? <==> i == 0)
    && (n.parent.Some? ==> n.parent.value < i)
    && (n.firstChild.Some? ==>
          i < n.firstChild.value < |nodes| && nodes[n.firstChild.value].parent == Some(i))
    && (n.nextSibling.Some? ==>
          n.nextSibling.value < i && nodes[n.nextSibling.value].parent == n.parent)
  }

  /** Link invariants of every node: node 0 is the only parentless node, a parent
    * has a smaller index than its child, a first child has a larger index than
    * its parent, and a next sibling has a smaller index and the same parent. */
  ghost predicate LinksOk(nodes: seq<Node>)
  {
    forall i :: 0 <= i < |nodes| ==> NodeLinksOk(nodes, i)
  }

  /** The sibling list that starts at `start`. Indices strictly decrease along it,
    * so it is finite and has no repetition. */
  ghost function ChainFrom(nodes: seq<Node>, start: Option<nat>): (r: seq<nat>)
    requires LinksOk(nodes)
    requires start.Some? ==> start.value < |nodes|
    ensures start.None? <==> r == []
    ensures start.Some? ==> r[0] == start.value
    ensures forall k :: 0 <= k < |r| ==> r[k] < |nodes|
    ensures start.Some? ==> forall k :: 0 <= k < |r| ==> r[k] <= start.value
    ensures start.Some? ==> forall k :: 0 <= k < |r| ==> nodes[r[k]].parent == nodes[start.value].parent
    ensures forall a, b :: 0 <= a < b < |r| ==> r[a] > r[b]
    decreases if start.Some? then start.value + 1 else 0
  {
    if start.None? then []
    else
      var c := start.value;
      assert NodeLinksOk(nodes, c);
      [c] + ChainFrom(nodes, nodes[c].nextSibling)
  }

  /** The children of node `i`, in linked-list order. */
  ghost function Children(nodes: seq<Node>, i: nat): (r: seq<nat>)
    requires LinksOk(nodes) && i < |nodes|
    ensures forall k :: 0 <= k < |r| ==> i < r[k] < |nodes| && nodes[r[k]].parent == Some(i)
    ensures forall a, b :: 0 <= a < b < |r| ==> r[a] > r[b]
  {
    assert NodeLinksOk(nodes, i);
    var r := ChainFrom(nodes, nodes[i].firstChild);
    forall k | 0 <= k < |r| ensures i < r[k] {
      assert NodeLinksOk(nodes, r[k]);
    }
    r
  }

  /** Completeness: every node other than 0 is on its parent's child list. */
  ghost predicate ChildListsComplete(nodes: seq<Node>)
    requires LinksOk(nodes)
  {
    forall x {:trigger NodeLinksOk(nodes, x)} :: 0 < x < |nodes| ==>
      NodeLinksOk(nodes, x) && x in Children(nodes, nodes[x].parent.value)
  }

  /** The tree invariants: a non-empty node array whose links are consistent and
    * whose child lists hold exactly the nodes naming that parent. */
  ghost predicate WellFormed(nodes: seq<Node>)
  {
    |nodes| > 0 && LinksOk(nodes) && ChildListsComplete(nodes)
  }

  ghost predicate Distinct(s: seq<nat>)
  {
    forall a, b :: 0 <= a < b < |s| ==> s[a] != s[b]
  }

  /** A finite sibling chain never repeats an index: if it did, the walk would
    * cycle and never reach the entry without a next sibling. */
  lemma {:induction false} SiblingChainDistinct(nodes: seq<Node>, start: Option<nat>, chain: seq<nat>)
    requires IsSiblingChain(nodes, start, chain)
    ensures Distinct(chain)
  {
    forall a, b | 0 <= a < b < |chain| ensures chain[a] != chain[b] {
      if chain[a] == chain[b] {
        // following the links from equal entries gives equal entries
        var d := |chain| - 1 - b;
        var j := 0;
        assert nodes[chain[a]].nextSibling == Some(chain[a + 1]);
        while j < d
          invariant 0 <= j <= d
          invariant chain[a + j] == chain[b + j]
          invariant nodes[chain[a + j]].nextSibling.Some?
        {
          assert nodes[chain[a + j]].nextSibling == Some(chain[a + j + 1]);
          assert nodes[chain[b + j]].nextSibling == Some(chain[b + j + 1]);
          j := j + 1;
          assert nodes[chain[a + j]].nextSibling == Some(chain[a + j + 1]);
        }
        assert false;
      }
    }
  }

  /** Under the link invariants, the chain reached from `start` is `ChainFrom(start)`. */
  lemma {:induction false} SiblingChainIsChainFrom(nodes: seq<Node>, start: Option<nat>, chain: seq<nat>)
    requires LinksOk(nodes)
    requires start.Some? ==> start.value < |nodes|
    requires IsSiblingChain(nodes, start, chain)
    ensures chain == ChainFrom(nodes, start)
    decreases |chain|
  {
    if start.Some? {
      var c := start.value;
      var next := nodes[c].nextSibling;
      assert NodeLinksOk(nodes, c);
      var rest := chain[1..];
      assert IsSiblingChain(nodes, next, rest) by {
        if |chain| > 1 {
          assert nodes[chain[0]].nextSibling == Some(chain[1]);
          forall k | 0 <= k < |rest| - 1 ensures nodes[rest[k]].nextSibling == Some(rest[k + 1]) {
            assert nodes[chain[k + 1]].nextSibling == Some(chain[k + 2]);
          }
        }
      }
      SiblingChainIsChainFrom(nodes, next, rest);
      assert chain == [c] + rest;
    }
  }

  /** `ChainFrom` is a sibling chain. */
  lemma {:induction false} ChainFromIsSiblingChain(nodes: seq<Node>, start: Option<nat>)
    requires LinksOk(nodes)
    requires start.Some? ==> start.value < |nodes|
    ensures IsSiblingChain(nodes, start, ChainFrom(nodes, start))
    decreases if start.Some? then start.value + 1 else 0
  {
    if start.Some? {
      var c := start.value;
      assert NodeLinksOk(nodes, c);
      var next := nodes[c].nextSibling;
      ChainFromIsSiblingChain(nodes, next);
      var rest := ChainFrom(nodes, next);
      var chain := ChainFrom(nodes, start);
      assert chain == [c] + rest;
      forall k | 0 <= k < |chain| - 1 ensures nodes[chain[k]].nextSibling == Some(chain[k + 1]) {
        if k > 0 {
          assert nodes[rest[k - 1]].nextSibling == Some(rest[k]);
        }
      }
    }
  }

  /** Under the link invariants every node has a finite child chain, namely `Children`. */
  lemma {:induction false} ChildrenIsSiblingChain(nodes: seq<Node>, i: nat)
    requires LinksOk(nodes) && i < |nodes|
    ensures IsSiblingChain(nodes, nodes[i].firstChild, Children(nodes, i))
  {
    assert NodeLinksOk(nodes, i);
    ChainFromIsSiblingChain(nodes, nodes[i].firstChild);
  }

  /** `TreeHelper::GetChildren`: appends to `outChildren` the sibling list that
    * starts at `nodes[nodeId].first_child`. The nodes are only read. The source
    * needs the walk to end, so the precondition is that a finite chain exists. */
  method GetChildren(nodes: seq<Node>, nodeId: nat, outChildren: seq<nat>) returns (result: seq<nat>)
    requires nodeId < |nodes|
    requires exists chain :: IsSiblingChain(nodes, nodes[nodeId].firstChild, chain)
    ensures |result| >= |outChildren| && result[..|outChildren|] == outChildren
    ensures IsSiblingChain(nodes, nodes[nodeId].firstChild, result[|outChildren|..])
    ensures nodes[nodeId].firstChild.None? ==> result == outChildren
  {
    ghost var chain :| IsSiblingChain(nodes, nodes[nodeId].firstChild, chain);
    result := outChildren;
    var optChildId := nodes[nodeId].firstChild;
    ghost var k := 0;
    while optChildId.Some?
      invariant 0 <= k <= |chain|
      invariant result == outChildren + chain[..k]
      invariant k < |chain| ==> optChildId == Some(chain[k])
      invariant k == |chain| ==> optChildId.None?
      decreases |chain| - k
    {
      var childId := optChildId.value;
      result := result + [childId];
      optChildId := nodes[childId].nextSibling;
      k := k + 1;
    }
    assert chain[..k] == chain;
    assert result[|outChildren|..] == chain;
  }

  /** Under the link invariants, what `GetChildren` appends is `Children`. */
  lemma {:induction false} GetChildrenAppendsChildren(nodes: seq<Node>, nodeId: nat, chain: seq<nat>)
    requires LinksOk(nodes) && nodeId < |nodes|
    requires IsSiblingChain(nodes, nodes[nodeId].firstChild, chain)
    ensures chain == Children(nodes, nodeId)
    ensures Distinct(chain)
  {
    assert NodeLinksOk(nodes, nodeId);
    SiblingChainIsChainFrom(nodes, nodes[nodeId].firstChild, chain);
  }

  /** `nodes` and `other` have the same links; names and values may differ. */
  ghost predicate SameLinks(nodes: seq<Node>, other: seq<Node>)
  {
    && |nodes| == |other|
    && forall i :: 0 <= i < |nodes| ==>
         && nodes[i].parent == other[i].parent
         && nodes[i].firstChild == other[i].firstChild
         && nodes[i].nextSibling == other[i].nextSibling
  }

  lemma {:induction false} SameLinksChainFrom(nodes: seq<Node>, other: seq<Node>, start: Option<nat>)
    requires SameLinks(nodes, other) && LinksOk(nodes)
    requires start.Some? ==> start.value < |nodes|
    ensures LinksOk(other)
    ensures ChainFrom(other, start) == ChainFrom(nodes, start)
    decreases if start.Some? then start.value + 1 else 0
  {
    assert forall i :: 0 <= i < |nodes| ==> NodeLinksOk(nodes, i) == NodeLinksOk(other, i);
    if start.Some? {
      assert NodeLinksOk(nodes, start.value);
      SameLinksChainFrom(nodes, other, nodes[start.value].nextSibling);
    }
  }

  /** Changing only names and values keeps every invariant of the tree shape. */
  lemma {:induction false} SameLinksKeepShape(nodes: seq<Node>, other: seq<Node>)
    requires SameLinks(nodes, other) && LinksOk(nodes)
    ensures LinksOk(other)
    ensures forall i :: 0 <= i < |nodes| ==> Children(other, i) == Children(nodes, i)
    ensures ChildListsComplete(nodes) ==> ChildListsComplete(other)
  {
    assert forall i :: 0 <= i < |nodes| ==> NodeLinksOk(nodes, i) == NodeLinksOk(other, i);
    forall i | 0 <= i < |nodes| ensures Children(other, i) == Children(nodes, i) {
      assert NodeLinksOk(nodes, i);
      SameLinksChainFrom(nodes, other, nodes[i].firstChild);
    }
  }

  ghost predicate InBounds(nodes: seq<Node>, s: seq<nat>)
  {
    forall k :: 0 <= k < |s| ==> s[k] < |nodes|
  }

  /** The sum of the values of the nodes listed in `s`. */
  ghost function SumValues(nodes: seq<Node>, s: seq<nat>): nat
    requires InBounds(nodes, s)
  {
    if s == [] then 0 else SumValues(nodes, s[..|s| - 1]) + nodes[s[|s| - 1]].value
  }

  lemma {:induction false} SumValuesSplit(nodes: seq<Node>, s: seq<nat>, k: nat)
    requires InBounds(nodes, s) && k <= |s|
    ensures SumValues(nodes, s) == SumValues(nodes, s[..k]) + SumValues(nodes, s[k..])
    decreases |s|
  {
    if k < |s| {
      var t := s[..|s| - 1];
      SumValuesSplit(nodes, t, k);
      assert t[..k] == s[..k];
      assert t[k..] == s[k..][..|s[k..]| - 1];
    } else {
      assert s[..k] == s;
    }
  }

  lemma {:induction false} SumValuesRemoveAt(nodes: seq<Node>, t: seq<nat>, p: nat)
    requires InBounds(nodes, t) && p < |t|
    ensures InBounds(nodes, t[..p] + t[p + 1..])
    ensures SumValues(nodes, t) == SumValues(nodes, t[..p] + t[p + 1..]) + nodes[t[p]].value
  {
    var t' := t[..p] + t[p + 1..];
    SumValuesSplit(nodes, t, p);
    SumValuesSplit(nodes, t', p);
    assert t'[..p] == t[..p];
    assert t'[p..] == t[p + 1..];
    SumValuesSplit(nodes, t[p..], 1);
    assert t[p..][1..] == t[p + 1..];
    assert t[p..][..1] == [t[p]];
  }

  /** Removing the same element from two permutations of each other leaves permutations. */
  lemma {:induction false} MultisetRemoveLast(s: seq<nat>, t: seq<nat>) returns (p: nat)
    requires multiset(s) == multiset(t) && s != []
    ensures p < |t| && t[p] == s[|s| - 1]
    ensures multiset(s[..|s| - 1]) == multiset(t[..p] + t[p + 1..])
  {
    var x := s[|s| - 1];
    assert s == s[..|s| - 1] + [x];
    assert x in multiset(t);
    p :| 0 <= p < |t| && t[p] == x;
    assert t == t[..p] + [x] + t[p + 1..];
    calc {
      multiset(t);
      multiset(t[..p] + [x] + t[p + 1..]);
      multiset(t[..p]) + multiset{x} + multiset(t[p + 1..]);
      multiset(t[..p] + t[p + 1..]) + multiset{x};
    }
    calc {
      multiset(s);
      multiset(s[..|s| - 1] + [x]);
      multiset(s[..|s| - 1]) + multiset{x};
    }
    assert multiset(s[..|s| - 1]) == multiset(s) - multiset{x};
    assert multiset(t[..p] + t[p + 1..]) == multiset(t) - multiset{x};
  }

  /** The sum does not depend on the order of the nodes. */
  lemma {:induction false} SumValuesPermutation(nodes: seq<Node>, s: seq<nat>, t: seq<nat>)
    requires InBounds(nodes, s) && InBounds(nodes, t)
    requires multiset(s) == multiset(t)
    ensures SumValues(nodes, s) == SumValues(nodes, t)
    decreases |s|
  {
    if s == [] {
      assert |t| == |multiset(t)| == 0;
    } else {
      var p := MultisetRemoveLast(s, t);
      SumValuesRemoveAt(nodes, t, p);
      SumValuesPermutation(nodes, s[..|s| - 1], t[..p] + t[p + 1..]);
    }
  }

  /** The sum only reads the values of the listed nodes. */
  lemma {:induction false} SumValuesFrame(nodes: seq<Node>, other: seq<Node>, s: seq<nat>)
    requires InBounds(nodes, s) && InBounds(other, s)
    requires forall k :: 0 <= k < |s| ==> nodes[s[k]].value == other[s[k]].value
    ensures SumValues(nodes, s) == SumValues(other, s)
    decreases |s|
  {
    if s != [] {
      SumValuesFrame(nodes, other, s[..|s| - 1]);
    }
  }

  /** A permutation of a list without repetition has no repetition. */
  lemma {:induction false} DistinctPermutation(s: seq<nat>, t: seq<nat>)
    requires multiset(s) == multiset(t) && Distinct(t)
    ensures Distinct(s)
  {
    forall a, b | 0 <= a < b < |s| ensures s[a] != s[b] {
      if s[a] == s[b] {
        var x := s[a];
        assert s == s[..b] + s[b..];
        assert x in s[..b] && x in s[b..];
        assert multiset(s)[x] == multiset(s[..b])[x] + multiset(s[b..])[x];
        assert multiset(t)[x] >= 2;
        CountAtMostOne(t, x);
        assert false;
      }
    }
  }

  lemma {:induction false} CountAtMostOne(t: seq<nat>, x: nat)
    requires Distinct(t)
    ensures multiset(t)[x] <= 1
    decreases |t|
  {
    if t != [] {
      var t' := t[1..];
      assert t == [t[0]] + t';
      assert Distinct(t');
      CountAtMostOne(t', x);
      if t[0] == x {
        assert x !in t';
      }
    }
  }

  /** Every node that has children holds the sum of its children's values. */
  ghost predicate ValuesAdd(nodes: seq<Node>)
    requires LinksOk(nodes)
  {
    forall x :: 0 <= x < |nodes| && Children(nodes, x) != [] ==>
      nodes[x].value == SumValues(nodes, Children(nodes, x))
  }
}
