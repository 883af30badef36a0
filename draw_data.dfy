/**
 * `RectTreeDrawData::Create`: nodes are visited in ascending index order and
 * the children of each are laid out inside its (padded) rectangle with the
 * region stack of `Layout`. What the loop guarantees for every node is
 * `NodeLaidOut`; the geometric consequences (inside the parent, no overlap,
 * no gap) follow from the lemmas about plans.
 */
module DrawData {
  import opened Wrappers
  import opened Tree
  import opened Geometry
  import opened Layout

  /** `order` is the list the sort produces from the children of `p`: the same
    * nodes, by decreasing value, none twice, with the node's value as total. */
  ghost predicate SortedChildrenOf(nodes: seq<Node>, p: nat, order: seq<nat>)
    requires LinksOk(nodes) && p < |nodes|
  {
    && multiset(order) == multiset(Children(nodes, p))
    && InBounds(nodes, order) && Descending(nodes, order) && Unrepeated(order)
    && (order != [] ==> nodes[p].value as real == Total(nodes, order, 0, |order|))
  }

  /** The children of `p` hold the areas the greedy plan of some sorted order of
    * them places in the inner rectangle of `p`. */
  ghost predicate NodeLaidOut(nodes: seq<Node>, rects: seq<Option<Rect2d>>, padding: real, p: nat)
    requires LinksOk(nodes) && p < |nodes| && |rects| == |nodes|
  {
    exists order :: SortedChildrenOf(nodes, p, order) &&
      (order != [] ==>
         AreasOf(rects, order) == Place(GreedyPlan(nodes, order, 0, |order|), MakeInnerArea(rects[p], padding)))
  }

  /** The initial `rects`: node 0 covers the screen, every other rectangle is
    * default-constructed. */
  function InitialRects(count: nat): (r: seq<Option<Rect2d>>)
    requires count > 0
    ensures |r| == count && r[0] == Some(RootRect)
    ensures forall i :: 0 < i < count ==> r[i] == Some(EmptyRect)
  {
    seq(count, i => if i == 0 then Some(RootRect) else Some(EmptyRect))
  }

  /** `RectTreeDrawData::Create` (lines 8-132). The source reads the children's
    * values up to the node's value, so the values must add up. */
  method Create(nodes: seq<Node>, paddingFactor: real) returns (rects: seq<Option<Rect2d>>)
    requires |nodes| > 0 && LinksOk(nodes) && ValuesAdd(nodes)
    ensures |rects| == |nodes| && rects[0] == Some(RootRect)
    ensures forall p :: 0 <= p < |nodes| ==> NodeLaidOut(nodes, rects, paddingFactor, p)
  {
    rects := InitialRects(|nodes|);
    for nodeId := 0 to |nodes|
      invariant |rects| == |nodes| && rects[0] == Some(RootRect)
      invariant forall p :: 0 <= p < nodeId ==> NodeLaidOut(nodes, rects, paddingFactor, p)
    {
      var newRects, order := HandleChildrenOfNode(nodes, rects, nodeId, paddingFactor);
      ChildrenAfterParent(nodes, nodeId, order);
      NodeStep(nodes, rects, newRects, paddingFactor, nodeId, order);
      rects := newRects;
    }
  }

  /** One turn of the loop of `Create`: the node just handled is laid out, and
    * every earlier node still is. */
  lemma {:induction false} NodeStep(nodes: seq<Node>, rects: seq<Option<Rect2d>>, newRects: seq<Option<Rect2d>>,
                                    padding: real, nodeId: nat, order: seq<nat>)
    requires LinksOk(nodes) && nodeId < |nodes| && |rects| == |nodes| && |newRects| == |nodes|
    requires forall p :: 0 <= p < nodeId ==> NodeLaidOut(nodes, rects, padding, p)
    requires SortedChildrenOf(nodes, nodeId, order)
    requires order != [] ==>
      AreasOf(newRects, order) == Place(GreedyPlan(nodes, order, 0, |order|), MakeInnerArea(rects[nodeId], padding))
    requires forall c :: c in order ==> nodeId < c < |nodes| && nodes[c].parent == Some(nodeId)
    requires forall j :: 0 <= j < |rects| && j !in order ==> newRects[j] == rects[j]
    ensures forall p :: 0 <= p <= nodeId ==> NodeLaidOut(nodes, newRects, padding, p)
  {
    forall p | 0 <= p < nodeId ensures NodeLaidOut(nodes, newRects, padding, p) {
      LaidOutFrame(nodes, rects, newRects, padding, nodeId, order, p);
    }
    assert newRects[nodeId] == rects[nodeId];
  }

  /** The nodes of `order` are children of `nodeId`: each has a larger index,
    * and none is node 0. */
  lemma {:induction false} ChildrenAfterParent(nodes: seq<Node>, nodeId: nat, order: seq<nat>)
    requires LinksOk(nodes) && nodeId < |nodes|
    requires multiset(order) == multiset(Children(nodes, nodeId))
    ensures forall c :: c in order ==> nodeId < c < |nodes| && nodes[c].parent == Some(nodeId)
  {
    forall c | c in order ensures nodeId < c < |nodes| && nodes[c].parent == Some(nodeId) {
      assert c in multiset(Children(nodes, nodeId));
    }
  }

  /** Laying out the children of `nodeId` leaves every earlier node laid out:
    * it changes neither the rectangle of an earlier node nor those of its
    * children, which have another parent. */
  lemma {:induction false} LaidOutFrame(nodes: seq<Node>, rects: seq<Option<Rect2d>>, newRects: seq<Option<Rect2d>>,
                                        padding: real, nodeId: nat, order: seq<nat>, p: nat)
    requires LinksOk(nodes) && nodeId < |nodes| && |rects| == |nodes| && |newRects| == |nodes|
    requires forall c :: c in order ==> nodeId < c < |nodes| && nodes[c].parent == Some(nodeId)
    requires forall j :: 0 <= j < |rects| && j !in order ==> newRects[j] == rects[j]
    requires p < nodeId && NodeLaidOut(nodes, rects, padding, p)
    ensures NodeLaidOut(nodes, newRects, padding, p)
  {
    var o :| SortedChildrenOf(nodes, p, o) &&
      (o != [] ==> AreasOf(rects, o) == Place(GreedyPlan(nodes, o, 0, |o|), MakeInnerArea(rects[p], padding)));
    forall c | c in o ensures c !in order && c < |rects| && newRects[c] == rects[c] {
      assert c in multiset(Children(nodes, p));
    }
    AreasOfFrame(rects, newRects, o);
    assert newRects[p] == rects[p];
  }

  /** Areas of nodes outside the changed ones are the same before and after. */
  lemma {:induction false} AreasOfFrame(rects: seq<Option<Rect2d>>, newRects: seq<Option<Rect2d>>, s: seq<nat>)
    requires |newRects| == |rects| && forall c :: c in s ==> c < |rects| && newRects[c] == rects[c]
    ensures AreasOf(newRects, s) == AreasOf(rects, s)
  {
  }

  /** The children of `p` get the areas of the sorted order `order` whatever
    * the order: it lists the same nodes. */
  lemma {:induction false} SameAreas(nodes: seq<Node>, rects: seq<Option<Rect2d>>, p: nat, order: seq<nat>)
    requires LinksOk(nodes) && p < |nodes| && |rects| == |nodes|
    requires multiset(order) == multiset(Children(nodes, p))
    ensures forall c :: c in order ==> c < |rects|
    ensures AreasOf(rects, order) == AreasOf(rects, Children(nodes, p))
    ensures order == [] <==> Children(nodes, p) == []
    ensures |order| == |Children(nodes, p)|
  {
    forall c ensures c in order <==> c in Children(nodes, p) {
      assert c in order <==> c in multiset(order);
    }
    assert |order| == |multiset(order)|;
  }

  /** What laying out node `p` gives its children. With a NaN rectangle for
    * `p` every child gets one too. Otherwise, for a padding factor of at least
    * 0 and a parent with non-negative extents, every child with a rectangle
    * lies in the parent's inner rectangle with non-negative extents, and no
    * two children overlap. The children leave no gap in the inner rectangle
    * when the node has a positive value or a single child. */
  lemma {:induction false} NodeGeometry(nodes: seq<Node>, rects: seq<Option<Rect2d>>, padding: real, p: nat)
    requires LinksOk(nodes) && p < |nodes| && |rects| == |nodes| && NodeLaidOut(nodes, rects, padding, p)
    ensures rects[p].None? ==> AllUndefined(AreasOf(rects, Children(nodes, p)))
    ensures rects[p].Some? && NonNegative(rects[p].value) && 0.0 <= padding ==>
      && PlacedWithin(AreasOf(rects, Children(nodes, p)), MakeInnerRect(rects[p].value, padding))
      && PairwiseDisjoint(AreasOf(rects, Children(nodes, p)))
    ensures rects[p].Some? && Children(nodes, p) != [] && (nodes[p].value > 0 || |Children(nodes, p)| == 1) ==>
      CoversRect(AreasOf(rects, Children(nodes, p)), MakeInnerRect(rects[p].value, padding))
  {
    var o :| SortedChildrenOf(nodes, p, o) &&
      (o != [] ==> AreasOf(rects, o) == Place(GreedyPlan(nodes, o, 0, |o|), MakeInnerArea(rects[p], padding)));
    SameAreas(nodes, rects, p, o);
    if o != [] {
      var plan := GreedyPlan(nodes, o, 0, |o|);
      GreedyPlanOk(nodes, o, 0, |o|);
      GreedyPlanApart(nodes, o, 0, |o|);
      if rects[p].None? {
        PlaceUndefined(plan);
      } else {
        var r := rects[p].value;
        var inner := MakeInnerRect(r, padding);
        if NonNegative(r) && 0.0 <= padding {
          InnerRectNonNegative(r, padding);
          PlaceWithin(plan, inner);
          PlaceDisjoint(plan, inner);
        }
        if nodes[p].value > 0 || |o| == 1 {
          PlaceCovers(plan, inner);
        }
      }
    }
  }

  /** Each child of `p` with a rectangle gets the share of `p`'s inner
    * rectangle that its value has in `p`'s value: the child's area times the
    * node's value is the inner area times the child's value. A child with a
    * rectangle has a parent with one. */
  lemma {:induction false} ChildAreaShare(nodes: seq<Node>, rects: seq<Option<Rect2d>>, padding: real, p: nat, c: nat)
    requires LinksOk(nodes) && p < |nodes| && |rects| == |nodes| && NodeLaidOut(nodes, rects, padding, p)
    requires c in Children(nodes, p) && rects[c].Some?
    ensures rects[p].Some?
    ensures AreaShare(rects[c].value, MakeInnerRect(rects[p].value, padding), nodes[c].value as real, nodes[p].value as real)
  {
    var o :| SortedChildrenOf(nodes, p, o) &&
      (o != [] ==> AreasOf(rects, o) == Place(GreedyPlan(nodes, o, 0, |o|), MakeInnerArea(rects[p], padding)));
    SameAreas(nodes, rects, p, o);
    assert c in o by {
      assert c in multiset(Children(nodes, p));
    }
    var plan := GreedyPlan(nodes, o, 0, |o|);
    assert AreasOf(rects, o)[c] == rects[c];
    PlaceUndefined(plan);
    assert MakeInnerArea(rects[p], padding).Some?;
    var inner := MakeInnerRect(rects[p].value, padding);
    assert Place(plan, Some(inner))[c] == rects[c];
    GreedyPlanOk(nodes, o, 0, |o|);
    GreedyPlanWeights(nodes, o, 0, |o|);
    PlaceKeys(plan, Some(inner));
    WeightsKeys(plan);
    PlanShare(plan, inner, c, rects[c].value, nodes[p].value as real, nodes[c].value as real);
  }

  /** The facts every tree-wide lemma starts from: `Create`'s guarantees on a
    * well-formed tree, with a padding factor in [0, 1]. */
  ghost predicate LaidOut(nodes: seq<Node>, rects: seq<Option<Rect2d>>, padding: real)
  {
    && WellFormed(nodes) && |rects| == |nodes| && rects[0] == Some(RootRect)
    && 0.0 <= padding <= 1.0
    && forall p :: 0 <= p < |nodes| ==> NodeLaidOut(nodes, rects, padding, p)
  }

  /** A node other than 0 is a child of its parent, which has a smaller index. */
  lemma {:induction false} ParentOf(nodes: seq<Node>, c: nat)
    requires WellFormed(nodes) && 0 < c < |nodes|
    ensures nodes[c].parent.Some? && nodes[c].parent.value < c
    ensures c in Children(nodes, nodes[c].parent.value)
  {
    assert NodeLinksOk(nodes, c);
  }

  /** Every rectangle `Create` defines has non-negative extents. */
  lemma {:induction false} RectNonNegative(nodes: seq<Node>, rects: seq<Option<Rect2d>>, padding: real, c: nat)
    requires LaidOut(nodes, rects, padding) && c < |nodes|
    ensures rects[c].Some? ==> NonNegative(rects[c].value)
    decreases c
  {
    if c > 0 {
      ParentOf(nodes, c);
      var p := nodes[c].parent.value;
      RectNonNegative(nodes, rects, padding, p);
      NodeGeometry(nodes, rects, padding, p);
      assert AreasOf(rects, Children(nodes, p))[c] == rects[c];
    }
  }

  /** A node other than 0 with a rectangle lies inside its parent's inner
    * rectangle, and so inside its parent's rectangle. */
  lemma {:induction false} ChildWithinParent(nodes: seq<Node>, rects: seq<Option<Rect2d>>, padding: real, c: nat)
    requires LaidOut(nodes, rects, padding) && 0 < c < |nodes| && rects[c].Some?
    ensures nodes[c].parent.Some? && nodes[c].parent.value < c
    ensures rects[nodes[c].parent.value].Some?
    ensures Within(rects[c].value, MakeInnerRect(rects[nodes[c].parent.value].value, padding))
    ensures Within(rects[c].value, rects[nodes[c].parent.value].value)
  {
    ParentOf(nodes, c);
    var p := nodes[c].parent.value;
    RectNonNegative(nodes, rects, padding, p);
    NodeGeometry(nodes, rects, padding, p);
    assert AreasOf(rects, Children(nodes, p))[c] == rects[c];
    var r := rects[p].value;
    InnerRectWithin(r, padding);
    WithinTransitive(rects[c].value, MakeInnerRect(r, padding), r);
  }

  /** Two different children of the same node do not overlap. */
  lemma {:induction false} SiblingsDisjoint(nodes: seq<Node>, rects: seq<Option<Rect2d>>, padding: real, a: nat, b: nat)
    requires LaidOut(nodes, rects, padding) && 0 < a < |nodes| && 0 < b < |nodes| && a != b
    requires nodes[a].parent == nodes[b].parent && rects[a].Some? && rects[b].Some?
    ensures Disjoint(rects[a].value, rects[b].value)
  {
    ParentOf(nodes, a);
    ParentOf(nodes, b);
    var p := nodes[a].parent.value;
    RectNonNegative(nodes, rects, padding, p);
    NodeGeometry(nodes, rects, padding, p);
    var m := AreasOf(rects, Children(nodes, p));
    assert m[a] == rects[a] && m[b] == rects[b];
  }

  /** The children of a node with a rectangle, a positive value (or a single
    * child) cover its inner rectangle: every point of it lies in the
    * rectangle of some child. */
  lemma {:induction false} ChildrenCoverInner(nodes: seq<Node>, rects: seq<Option<Rect2d>>, padding: real, p: nat, pt: Vec2)
    requires LaidOut(nodes, rects, padding) && p < |nodes| && rects[p].Some?
    requires Children(nodes, p) != [] && (nodes[p].value > 0 || |Children(nodes, p)| == 1)
    requires Contains(MakeInnerRect(rects[p].value, padding), pt)
    ensures exists c :: c in Children(nodes, p) && rects[c].Some? && Contains(rects[c].value, pt)
  {
    NodeGeometry(nodes, rects, padding, p);
    var m := AreasOf(rects, Children(nodes, p));
    var c :| c in m && m[c].Some? && Contains(m[c].value, pt);
    assert c in Children(nodes, p) && m[c] == rects[c];
  }
}
