/**
 * The treemap layout of `RectTreeDrawData::Create` (`rect_tree_draw_data.cpp`).
 * Nodes are visited in increasing index order. The children of each node are
 * sorted by decreasing value, the node's rectangle is shrunk about its centre,
 * and the shrunk rectangle is split repeatedly with an explicit stack of
 * regions. A region is a slice of the sorted children with a rectangle and a
 * value. A one-node region gives its rectangle to that node. A larger region is
 * cut in two: the first group greedily takes children while
 * `first * 2.02 < total`, and the rectangle is cut across its longer side in
 * proportion to the group's share of the value.
 *
 * The same layout is written out twice more, inline in
 * `RectTreeViewerApp::Initialize` (`rect_tree_viewer_app.cpp`) and as the
 * `handle_children_of_node` lambda of `rect_tree_viewer_main.cpp`; it is
 * modelled once, here. Arithmetic is exact: `long double` values and `float`
 * coordinates are reals.
 */
module Layout {
  import opened Wrappers
  import opened Tree
  import opened Geometry

  /** The default `padding_factor` of `Create`. */
  const DefaultPaddingFactor: real := 0.97

  /** The multiplier of the greedy test `first_region_value * 2.02 < value`. */
  const GreedyFactor: real := 2.02

  /** `rects[0]`: the root covers the whole view, from (-1, -1) with size (2, 2). */
  const RootRect: Rect2d := Rect2d(Vec2(-1.0, -1.0), Vec2(2.0, 2.0))

  /** The value-initialised `Rect2d{}` that every other entry of `rects` starts as. */
  const EmptyRect: Rect2d := Rect2d(Vec2(0.0, 0.0), Vec2(0.0, 0.0))

  /** The `split_rect` lambda. A rectangle wider than tall is cut along X,
    * any other along Y. The first piece starts at the original bottom-left
    * corner and takes `ratio` of the cut extent; the second piece starts where
    * the first ends and takes the rest; the other extent is kept by both. */
  function SplitRect(rect: Rect2d, ratio: real): (r: (Rect2d, Rect2d))
    ensures r.0.bottomLeft == rect.bottomLeft
    ensures rect.size.x > rect.size.y ==>
      && r.0.size.x == rect.size.x * ratio
      && r.0.size.x + r.1.size.x == rect.size.x
      && r.0.size.y == rect.size.y && r.1.size.y == rect.size.y
      && r.1.bottomLeft == Vec2(rect.bottomLeft.x + r.0.size.x, rect.bottomLeft.y)
    ensures rect.size.x <= rect.size.y ==>
      && r.0.size.y == rect.size.y * ratio
      && r.0.size.y + r.1.size.y == rect.size.y
      && r.0.size.x == rect.size.x && r.1.size.x == rect.size.x
      && r.1.bottomLeft == Vec2(rect.bottomLeft.x, rect.bottomLeft.y + r.0.size.y)
  {
    if rect.size.x > rect.size.y then
      var leftWidth := Scale(rect.size.x, ratio);
      (Rect2d(rect.bottomLeft, Vec2(leftWidth, rect.size.y)),
       Rect2d(Vec2(rect.bottomLeft.x + leftWidth, rect.bottomLeft.y), Vec2(rect.size.x - leftWidth, rect.size.y)))
    else
      var bottomHeight := Scale(rect.size.y, ratio);
      (Rect2d(rect.bottomLeft, Vec2(rect.size.x, bottomHeight)),
       Rect2d(Vec2(rect.bottomLeft.x, rect.bottomLeft.y + bottomHeight), Vec2(rect.size.x, rect.size.y - bottomHeight)))
  }

  /** With a ratio in [0, 1] both pieces of a split lie inside the rectangle,
    * keep non-negative extents and have interiors that do not overlap. */
  lemma {:induction false} SplitRectWithin(rect: Rect2d, ratio: real)
    requires 0.0 <= ratio <= 1.0 && NonNegative(rect)
    ensures NonNegative(SplitRect(rect, ratio).0) && NonNegative(SplitRect(rect, ratio).1)
    ensures Within(SplitRect(rect, ratio).0, rect) && Within(SplitRect(rect, ratio).1, rect)
    ensures Disjoint(SplitRect(rect, ratio).0, SplitRect(rect, ratio).1)
  {
    if rect.size.x > rect.size.y {
      ScaleBounds(rect.size.x, ratio);
    } else {
      ScaleBounds(rect.size.y, ratio);
    }
  }

  /** Every point of the rectangle lies in one of the two pieces of a split,
    * whatever the ratio. */
  lemma {:induction false} SplitRectCovers(rect: Rect2d, ratio: real, p: Vec2)
    requires Contains(rect, p)
    ensures Contains(SplitRect(rect, ratio).0, p) || Contains(SplitRect(rect, ratio).1, p)
  {
  }

  /** An extent times a factor. Kept as a function of its own so that the
    * proofs about splits and padding treat the product as one quantity. */
  function Scale(extent: real, factor: real): real
  {
    extent * factor
  }

  /** A factor in [0, 1] shrinks a non-negative extent without making it negative. */
  lemma {:induction false} ScaleBounds(a: real, t: real)
    requires 0.0 <= a && 0.0 <= t <= 1.0
    ensures 0.0 <= Scale(a, t) <= a
  {
    assert a - a * t == a * (1.0 - t);
  }

  /** A quotient of a non-negative number by a larger positive one lies in [0, 1]. */
  lemma {:induction false} DivBounds(a: real, b: real)
    requires 0.0 <= a <= b && 0.0 < b
    ensures 0.0 <= a / b <= 1.0
  {
  }

  /** The `make_inner_rect` lambda: the size is scaled by `padding` and the
    * centre stays where it was. */
  function MakeInnerRect(rect: Rect2d, padding: real): (r: Rect2d)
    ensures r.size == Vec2(rect.size.x * padding, rect.size.y * padding)
    ensures r.bottomLeft.x + r.size.x / 2.0 == rect.bottomLeft.x + rect.size.x / 2.0
    ensures r.bottomLeft.y + r.size.y / 2.0 == rect.bottomLeft.y + rect.size.y / 2.0
  {
    var innerSize := Vec2(Scale(rect.size.x, padding), Scale(rect.size.y, padding));
    Rect2d(Vec2(rect.bottomLeft.x + (rect.size.x - innerSize.x) / 2.0,
                rect.bottomLeft.y + (rect.size.y - innerSize.y) / 2.0),
           innerSize)
  }

  /** A padding factor in [0, 1] keeps the inner rectangle inside the outer one. */
  lemma {:induction false} InnerRectWithin(rect: Rect2d, padding: real)
    requires 0.0 <= padding <= 1.0 && NonNegative(rect)
    ensures NonNegative(MakeInnerRect(rect, padding)) && Within(MakeInnerRect(rect, padding), rect)
  {
    var w, h := rect.size.x, rect.size.y;
    var inner := MakeInnerRect(rect, padding);
    ScaleBounds(w, padding);
    ScaleBounds(h, padding);
    var iw, ih := Scale(w, padding), Scale(h, padding);
    assert inner.size == Vec2(iw, ih);
    assert inner.bottomLeft.x == rect.bottomLeft.x + (w - iw) / 2.0;
    assert inner.bottomLeft.y == rect.bottomLeft.y + (h - ih) / 2.0;
  }

  /** A non-negative padding factor keeps the extents non-negative. */
  lemma {:induction false} InnerRectNonNegative(rect: Rect2d, padding: real)
    requires 0.0 <= padding && NonNegative(rect)
    ensures NonNegative(MakeInnerRect(rect, padding))
  {
    assert 0.0 <= rect.size.x * padding && 0.0 <= rect.size.y * padding;
  }

  /** The value of the node at position `i` of `s`. */
  ghost function Weight(nodes: seq<Node>, s: seq<nat>, i: nat): nat
    requires InBounds(nodes, s) && i < |s|
  {
    nodes[s[i]].value
  }

  /** The nodes of `s` have non-increasing values. */
  ghost predicate Descending(nodes: seq<Node>, s: seq<nat>)
    requires InBounds(nodes, s)
  {
    forall a, b :: 0 <= a < b < |s| ==> Weight(nodes, s, a) >= Weight(nodes, s, b)
  }

  /** The entry at position `i` of `s`. */
  ghost function At(s: seq<nat>, i: nat): nat
    requires i < |s|
  {
    s[i]
  }

  /** No entry of `s` occurs twice (`Distinct`, stated on `At` so that it is
    * only used where a proof asks for it). */
  ghost predicate Unrepeated(s: seq<nat>)
  {
    forall a, b :: 0 <= a < b < |s| ==> At(s, a) != At(s, b)
  }

  lemma {:induction false} DistinctUnrepeated(s: seq<nat>)
    requires Distinct(s)
    ensures Unrepeated(s)
  {
  }

  /** `c` is one of the nodes of the run `order[lo..hi]`. */
  ghost predicate InRun(order: seq<nat>, lo: nat, hi: nat, c: nat)
    requires lo <= hi <= |order|
  {
    exists i :: lo <= i < hi && At(order, i) == c
  }

  /** Two neighbouring runs of a sequence without repetitions share no node. */
  lemma {:induction false} RunsDisjoint(order: seq<nat>, lo: nat, mid: nat, hi: nat)
    requires Unrepeated(order) && lo <= mid <= hi <= |order|
    ensures forall c :: InRun(order, lo, mid, c) ==> !InRun(order, mid, hi, c)
  {
  }

  /** The sum of the values of the run `order[lo..hi]`, added from the back. */
  ghost function SumRange(nodes: seq<Node>, order: seq<nat>, lo: nat, hi: nat): nat
    requires InBounds(nodes, order) && lo <= hi <= |order|
    decreases hi - lo
  {
    if lo == hi then 0 else SumRange(nodes, order, lo, hi - 1) + nodes[order[hi - 1]].value
  }

  /** The sum of a run is the sum of its two parts. */
  lemma {:induction false} SumRangeSplit(nodes: seq<Node>, order: seq<nat>, lo: nat, mid: nat, hi: nat)
    requires InBounds(nodes, order) && lo <= mid <= hi <= |order|
    ensures SumRange(nodes, order, lo, hi) == SumRange(nodes, order, lo, mid) + SumRange(nodes, order, mid, hi)
    decreases hi - mid
  {
    if mid < hi {
      SumRangeSplit(nodes, order, lo, mid, hi - 1);
    }
  }

  /** `SumRange` over a run is `SumValues` over the same nodes. */
  lemma {:induction false} SumRangeIsSumValues(nodes: seq<Node>, order: seq<nat>, lo: nat, hi: nat)
    requires InBounds(nodes, order) && lo <= hi <= |order|
    ensures InBounds(nodes, order[lo..hi])
    ensures SumRange(nodes, order, lo, hi) == SumValues(nodes, order[lo..hi])
    decreases hi - lo
  {
    if lo < hi {
      SumRangeIsSumValues(nodes, order, lo, hi - 1);
      assert order[lo..hi][..hi - lo - 1] == order[lo..hi - 1];
    }
  }

  /** A run weighs at least as much as any one of its nodes. */
  lemma {:induction false} SumRangeAtLeast(nodes: seq<Node>, order: seq<nat>, lo: nat, hi: nat, i: nat)
    requires InBounds(nodes, order) && lo <= i < hi <= |order|
    ensures SumRange(nodes, order, lo, hi) >= nodes[order[i]].value
    decreases hi - lo
  {
    if i < hi - 1 {
      SumRangeAtLeast(nodes, order, lo, hi - 1, i);
    }
  }

  /** What holds of a region whenever it is on the stack: `order` holds the
    * sorted children and the region's run `order[lo..hi]` is not empty. */
  ghost predicate RangeOk(nodes: seq<Node>, order: seq<nat>, lo: nat, hi: nat)
  {
    InBounds(nodes, order) && Descending(nodes, order) && lo < hi <= |order|
  }

  /** The total value of a run, as the region's `float` value. */
  ghost function Total(nodes: seq<Node>, order: seq<nat>, lo: nat, hi: nat): real
    requires InBounds(nodes, order) && lo <= hi <= |order|
  {
    SumRange(nodes, order, lo, hi) as real
  }

  /** The greedy first group of the run `order[lo..hi]` has `k` nodes: at
    * least one, and the fewest whose sum times 2.02 reaches the value of the
    * whole run. */
  ghost predicate IsGreedyCut(nodes: seq<Node>, order: seq<nat>, lo: nat, hi: nat, k: nat)
    requires InBounds(nodes, order) && lo <= hi <= |order|
  {
    && 1 <= k <= hi - lo
    && Total(nodes, order, lo, lo + k) * GreedyFactor >= Total(nodes, order, lo, hi)
    && forall e :: lo < e < lo + k ==> Total(nodes, order, lo, e) * GreedyFactor < Total(nodes, order, lo, hi)
  }

  lemma {:induction false} GreedyCutUnique(nodes: seq<Node>, order: seq<nat>, lo: nat, hi: nat, k1: nat, k2: nat)
    requires InBounds(nodes, order) && lo <= hi <= |order|
    requires IsGreedyCut(nodes, order, lo, hi, k1) && IsGreedyCut(nodes, order, lo, hi, k2)
    ensures k1 == k2
  {
  }

  /** The greedy group size, searched from `k` on: the first `r` from `k` whose
    * prefix sum times 2.02 reaches the value of the run. */
  ghost function GreedyFrom(nodes: seq<Node>, order: seq<nat>, lo: nat, hi: nat, k: nat): (r: nat)
    requires InBounds(nodes, order) && lo < hi <= |order| && 1 <= k <= hi - lo
    ensures k <= r <= hi - lo
    decreases hi - lo - k
  {
    if Total(nodes, order, lo, lo + k) * GreedyFactor < Total(nodes, order, lo, hi) then
      GreedyFrom(nodes, order, lo, hi, k + 1)
    else
      k
  }

  /** The size of the first group the greedy loop picks. */
  ghost function GreedySize(nodes: seq<Node>, order: seq<nat>, lo: nat, hi: nat): (r: nat)
    requires InBounds(nodes, order) && lo < hi <= |order|
  {
    GreedyFrom(nodes, order, lo, hi, 1)
  }

  /** Searching from `k`, when no shorter prefix reached the value, finds the
    * greedy cut. */
  lemma {:induction false} GreedyFromIsCut(nodes: seq<Node>, order: seq<nat>, lo: nat, hi: nat, k: nat)
    requires InBounds(nodes, order) && lo < hi <= |order| && 1 <= k <= hi - lo
    requires forall e :: lo < e < lo + k ==> Total(nodes, order, lo, e) * GreedyFactor < Total(nodes, order, lo, hi)
    ensures IsGreedyCut(nodes, order, lo, hi, GreedyFrom(nodes, order, lo, hi, k))
    decreases hi - lo - k
  {
    if Total(nodes, order, lo, lo + k) * GreedyFactor < Total(nodes, order, lo, hi) {
      GreedyFromIsCut(nodes, order, lo, hi, k + 1);
    }
  }

  /** `GreedySize` is the greedy cut. */
  lemma {:induction false} GreedySizeIsCut(nodes: seq<Node>, order: seq<nat>, lo: nat, hi: nat)
    requires InBounds(nodes, order) && lo < hi <= |order|
    ensures IsGreedyCut(nodes, order, lo, hi, GreedySize(nodes, order, lo, hi))
  {
    GreedyFromIsCut(nodes, order, lo, hi, 1);
  }

  /** The greedy loop of `Create` on the region `order[lo..hi]` of value
    * `value`: the first group starts with the first node and takes the next
    * one while its value times 2.02 is below the region's. The region's value
    * is the sum of the run, so the loop never reads past its end. */
  method FirstRegion(nodes: seq<Node>, order: seq<nat>, lo: nat, hi: nat, value: real) returns (size: nat, firstValue: real)
    requires InBounds(nodes, order) && lo < hi <= |order| && value == Total(nodes, order, lo, hi)
    ensures IsGreedyCut(nodes, order, lo, hi, size)
    ensures firstValue == Total(nodes, order, lo, lo + size)
  {
    size := 1;
    firstValue := nodes[order[lo]].value as real;
    assert SumRange(nodes, order, lo, lo + 1) == nodes[order[lo]].value;
    while firstValue * GreedyFactor < value
      invariant 1 <= size <= hi - lo
      invariant firstValue == Total(nodes, order, lo, lo + size)
      invariant forall e :: lo < e < lo + size ==> Total(nodes, order, lo, e) * GreedyFactor < value
      decreases hi - lo - size
    {
      var childId := order[lo + size];
      firstValue := firstValue + nodes[childId].value as real;
      size := size + 1;
    }
  }

  /** On a sorted run of two or more nodes the greedy group stops before the
    * last node, so the second group is never empty. */
  lemma {:induction false} GreedyCutBeforeEnd(nodes: seq<Node>, order: seq<nat>, lo: nat, hi: nat, k: nat)
    requires RangeOk(nodes, order, lo, hi) && hi - lo >= 2
    requires IsGreedyCut(nodes, order, lo, hi, k)
    ensures k < hi - lo
  {
    SumRangeAtLeast(nodes, order, lo, hi - 1, lo);
    assert Weight(nodes, order, hi - 1) <= Weight(nodes, order, lo);
    assert Total(nodes, order, lo, hi - 1) * GreedyFactor >= Total(nodes, order, lo, hi);
  }

  /** The areas of the two groups of a region. A rectangle is cut in the ratio
    * `firstValue / value`. A rectangle with a NaN coordinate (`None`) yields two
    * such rectangles, and so does a region of value 0: `0 / 0` is NaN and it
    * reaches a coordinate of both pieces. (The first group never weighs more
    * than the region, so a positive numerator over 0 does not occur.) */
  function SplitArea(area: Option<Rect2d>, firstValue: real, value: real): (Option<Rect2d>, Option<Rect2d>)
  {
    if area.None? || value == 0.0 then (None, None)
    else
      var pieces := SplitRect(area.value, firstValue / value);
      (Some(pieces.0), Some(pieces.1))
  }

  /** `make_inner_rect` on an area; NaN coordinates stay NaN. */
  function MakeInnerArea(area: Option<Rect2d>, padding: real): Option<Rect2d>
  {
    if area.None? then None else Some(MakeInnerRect(area.value, padding))
  }

  /** Every defined area of `m` has non-negative extents and lies inside `rect`. */
  ghost predicate PlacedWithin(m: map<nat, Option<Rect2d>>, rect: Rect2d)
  {
    forall c :: c in m && m[c].Some? ==> NonNegative(m[c].value) && Within(m[c].value, rect)
  }

  /** Defined areas of different nodes have interiors that do not overlap. */
  ghost predicate PairwiseDisjoint(m: map<nat, Option<Rect2d>>)
  {
    forall c1, c2 :: c1 in m && c2 in m && c1 != c2 && m[c1].Some? && m[c2].Some? ==>
      Disjoint(m[c1].value, m[c2].value)
  }

  /** Every point of `rect` lies in the defined area of some node of `m`. */
  ghost predicate CoversRect(m: map<nat, Option<Rect2d>>, rect: Rect2d)
  {
    forall p :: Contains(rect, p) ==> exists c :: c in m && m[c].Some? && Contains(m[c].value, p)
  }

  /** A cut of a rectangle with non-negative extents at a ratio between 0 and 1:
    * both pieces are defined, have non-negative extents, lie inside it and do
    * not overlap. */
  lemma {:induction false} SplitAreaWithin(rect: Rect2d, firstValue: real, value: real)
    requires NonNegative(rect) && 0.0 <= firstValue <= value && 0.0 < value
    ensures SplitArea(Some(rect), firstValue, value).0.Some?
    ensures SplitArea(Some(rect), firstValue, value).1.Some?
    ensures NonNegative(SplitArea(Some(rect), firstValue, value).0.value)
    ensures NonNegative(SplitArea(Some(rect), firstValue, value).1.value)
    ensures Within(SplitArea(Some(rect), firstValue, value).0.value, rect)
    ensures Within(SplitArea(Some(rect), firstValue, value).1.value, rect)
    ensures Disjoint(SplitArea(Some(rect), firstValue, value).0.value, SplitArea(Some(rect), firstValue, value).1.value)
  {
    DivBounds(firstValue, value);
    SplitRectWithin(rect, firstValue / value);
  }

  /** Areas placed inside two rectangles that lie inside `rect` lie inside `rect`. */
  lemma {:induction false} UnionPlacedWithin(m1: map<nat, Option<Rect2d>>, m2: map<nat, Option<Rect2d>>, r1: Rect2d, r2: Rect2d, rect: Rect2d)
    requires PlacedWithin(m1, r1) && PlacedWithin(m2, r2) && Within(r1, rect) && Within(r2, rect)
    ensures PlacedWithin(m1 + m2, rect)
  {
    forall c | c in m1 + m2 && (m1 + m2)[c].Some? ensures Within((m1 + m2)[c].value, rect) {
      if c in m2 {
        WithinTransitive(m2[c].value, r2, rect);
      } else {
        WithinTransitive(m1[c].value, r1, rect);
      }
    }
  }

  /** Placed in two non-overlapping rectangles, two maps over different nodes
    * whose own areas do not overlap make a union whose areas do not overlap. */
  lemma {:induction false} UnionPairwiseDisjoint(m1: map<nat, Option<Rect2d>>, m2: map<nat, Option<Rect2d>>, r1: Rect2d, r2: Rect2d)
    requires PlacedWithin(m1, r1) && PlacedWithin(m2, r2) && Disjoint(r1, r2)
    requires PairwiseDisjoint(m1) && PairwiseDisjoint(m2)
    requires KeysApart(m1, m2)
    ensures PairwiseDisjoint(m1 + m2)
  {
    var m := m1 + m2;
    forall c1, c2 | c1 in m && c2 in m && c1 != c2 && m[c1].Some? && m[c2].Some?
      ensures Disjoint(m[c1].value, m[c2].value)
    {
      if c1 in m1 && c2 in m2 {
        DisjointWithin(m1[c1].value, m2[c2].value, r1, r2);
      } else if c1 in m2 && c2 in m1 {
        DisjointWithin(m1[c2].value, m2[c1].value, r1, r2);
      }
    }
  }

  /** A cut at a defined ratio leaves no point of the rectangle outside both
    * pieces. */
  lemma {:induction false} SplitAreaCovers(rect: Rect2d, firstValue: real, value: real)
    requires value != 0.0
    ensures SplitArea(Some(rect), firstValue, value).0.Some?
    ensures SplitArea(Some(rect), firstValue, value).1.Some?
    ensures forall p :: Contains(rect, p) ==>
      Contains(SplitArea(Some(rect), firstValue, value).0.value, p) ||
      Contains(SplitArea(Some(rect), firstValue, value).1.value, p)
  {
    forall p | Contains(rect, p)
      ensures Contains(SplitRect(rect, firstValue / value).0, p) || Contains(SplitRect(rect, firstValue / value).1, p)
    {
      SplitRectCovers(rect, firstValue / value, p);
    }
  }

  /** When the first group holds the whole value the ratio is 1 and the first
    * piece is the whole rectangle. */
  lemma {:induction false} FullSplitKeepsRect(rect: Rect2d, value: real)
    requires value != 0.0
    ensures SplitArea(Some(rect), value, value).0 == Some(rect)
  {
    assert value / value == 1.0;
  }

  /** If every point of `rect` is in `r1` or `r2` and the two maps, over
    * different nodes, cover `r1` and `r2`, their union covers `rect`. */
  lemma {:induction false} UnionCovers(m1: map<nat, Option<Rect2d>>, m2: map<nat, Option<Rect2d>>, r1: Rect2d, r2: Rect2d, rect: Rect2d)
    requires CoversRect(m1, r1) && CoversRect(m2, r2)
    requires KeysApart(m1, m2)
    requires forall p :: Contains(rect, p) ==> Contains(r1, p) || Contains(r2, p)
    ensures CoversRect(m1 + m2, rect)
  {
    var m := m1 + m2;
    forall p | Contains(rect, p) ensures exists c :: c in m && m[c].Some? && Contains(m[c].value, p) {
      if Contains(r2, p) {
        var c :| c in m2 && m2[c].Some? && Contains(m2[c].value, p);
        assert m[c] == m2[c];
      } else {
        var c :| c in m1 && m1[c].Some? && Contains(m1[c].value, p);
        assert m[c] == m1[c];
      }
    }
  }

  /** A map that covers `rect` still covers it once joined with a map over
    * other nodes. */
  lemma {:induction false} UnionCoversFirst(m1: map<nat, Option<Rect2d>>, m2: map<nat, Option<Rect2d>>, rect: Rect2d)
    requires CoversRect(m1, rect)
    requires KeysApart(m1, m2)
    ensures CoversRect(m1 + m2, rect)
  {
    var m := m1 + m2;
    forall p | Contains(rect, p) ensures exists c :: c in m && m[c].Some? && Contains(m[c].value, p) {
      var c :| c in m1 && m1[c].Some? && Contains(m1[c].value, p);
      assert m[c] == m1[c];
    }
  }

  /** How the stack loop cuts a region, as a tree: a one-node region is a leaf
    * holding the node and its value; a longer one is cut into its greedy
    * first group and the rest, and records the first group's value and the
    * region's, whose ratio cuts the area. */
  datatype Plan = Leaf(node: nat, weight: real) | Cut(first: Plan, rest: Plan, firstValue: real, value: real)

  /** The value of the region a plan lays out. */
  function Val(plan: Plan): real
  {
    match plan
    case Leaf(_, w) => w
    case Cut(_, _, _, v) => v
  }

  /** The nodes a plan lays out. */
  ghost function Keys(plan: Plan): set<nat>
  {
    match plan
    case Leaf(c, _) => {c}
    case Cut(f, r, _, _) => Keys(f) + Keys(r)
  }

  /** The values of a plan fit together: no leaf weighs less than nothing, the
    * first group weighs `firstValue` and the rest the remainder, and a region
    * of positive value has a first group of positive value. */
  ghost predicate PlanOk(plan: Plan)
  {
    match plan
    case Leaf(_, w) => w >= 0.0
    case Cut(f, r, fv, v) =>
      && PlanOk(f) && PlanOk(r) && Val(f) == fv && Val(r) == v - fv
      && 0.0 <= fv <= v && (v > 0.0 ==> fv > 0.0)
  }

  /** Different leaves of the plan hold different nodes. */
  ghost predicate Apart(plan: Plan)
  {
    match plan
    case Leaf(_, _) => true
    case Cut(f, r, _, _) => Apart(f) && Apart(r) && Keys(f) !! Keys(r)
  }

  /** The areas a plan gives its nodes when its region has area `area`: a leaf
    * takes the whole area; a cut splits it in the ratio of the first group's
    * value to the region's and places each group in its piece. */
  ghost function Place(plan: Plan, area: Option<Rect2d>): map<nat, Option<Rect2d>>
  {
    match plan
    case Leaf(c, _) => map[c := area]
    case Cut(f, r, fv, v) =>
      var pieces := SplitArea(area, fv, v);
      Place(f, pieces.0) + Place(r, pieces.1)
  }

  /** A plan gives an area to its nodes and to nothing else. */
  lemma {:induction false} PlaceKeys(plan: Plan, area: Option<Rect2d>)
    ensures Place(plan, area).Keys == Keys(plan)
  {
    match plan
    case Leaf(_, _) =>
    case Cut(f, r, fv, v) =>
      var pieces := SplitArea(area, fv, v);
      PlaceKeys(f, pieces.0);
      PlaceKeys(r, pieces.1);
  }

  /** No node has an area in both `m1` and `m2`. */
  ghost predicate KeysApart(m1: map<nat, Option<Rect2d>>, m2: map<nat, Option<Rect2d>>)
  {
    forall c :: c in m1 ==> c !in m2
  }

  /** The two groups of a cut whose leaves are apart get areas for different
    * nodes. */
  lemma {:induction false} CutKeysApart(plan: Plan, area: Option<Rect2d>)
    requires plan.Cut? && Apart(plan)
    ensures KeysApart(Place(plan.first, SplitArea(area, plan.firstValue, plan.value).0),
                      Place(plan.rest, SplitArea(area, plan.firstValue, plan.value).1))
  {
    var pieces := SplitArea(area, plan.firstValue, plan.value);
    PlaceKeys(plan.first, pieces.0);
    PlaceKeys(plan.rest, pieces.1);
  }

  /** No node of `m` has a defined area. */
  ghost predicate AllUndefined(m: map<nat, Option<Rect2d>>)
  {
    forall c :: c in m ==> m[c].None?
  }

  /** An area with a NaN coordinate leaves a NaN coordinate in the area of
    * every node. */
  lemma {:induction false} PlaceUndefined(plan: Plan)
    ensures AllUndefined(Place(plan, None))
  {
    match plan
    case Leaf(_, _) =>
    case Cut(f, r, fv, v) =>
      PlaceUndefined(f);
      PlaceUndefined(r);
  }

  /** A cut region of value 0 (all its nodes empty) gives every one of its
    * nodes an area with a NaN coordinate: its split ratio is `0 / 0`. */
  lemma {:induction false} ZeroCutUndefined(plan: Plan, area: Option<Rect2d>)
    requires plan.Cut? && plan.value == 0.0
    ensures AllUndefined(Place(plan, area))
  {
    PlaceUndefined(plan.first);
    PlaceUndefined(plan.rest);
  }

  /** Placed in a rectangle with non-negative extents, the nodes of a plan
    * get rectangles with non-negative extents inside it. */
  lemma {:induction false} PlaceWithin(plan: Plan, rect: Rect2d)
    requires PlanOk(plan) && NonNegative(rect)
    ensures PlacedWithin(Place(plan, Some(rect)), rect)
  {
    match plan
    case Leaf(_, _) =>
    case Cut(f, r, fv, v) =>
      if v == 0.0 {
        ZeroCutUndefined(plan, Some(rect));
      } else {
        var pieces := SplitArea(Some(rect), fv, v);
        SplitAreaWithin(rect, fv, v);
        PlaceWithin(f, pieces.0.value);
        PlaceWithin(r, pieces.1.value);
        UnionPlacedWithin(Place(f, pieces.0), Place(r, pieces.1), pieces.0.value, pieces.1.value, rect);
      }
  }

  /** The rectangles of different nodes of a plan whose leaves are apart have
    * interiors that do not overlap. */
  lemma {:induction false} PlaceDisjoint(plan: Plan, rect: Rect2d)
    requires PlanOk(plan) && Apart(plan) && NonNegative(rect)
    ensures PairwiseDisjoint(Place(plan, Some(rect)))
  {
    match plan
    case Leaf(_, _) =>
    case Cut(f, r, fv, v) =>
      if v == 0.0 {
        ZeroCutUndefined(plan, Some(rect));
      } else {
        var pieces := SplitArea(Some(rect), fv, v);
        SplitAreaWithin(rect, fv, v);
        CutKeysApart(plan, Some(rect));
        PlaceWithin(f, pieces.0.value);
        PlaceWithin(r, pieces.1.value);
        PlaceDisjoint(f, pieces.0.value);
        PlaceDisjoint(r, pieces.1.value);
        UnionPairwiseDisjoint(Place(f, pieces.0), Place(r, pieces.1), pieces.0.value, pieces.1.value);
      }
  }

  /** Every point of the rectangle lies in the rectangle of some node, provided
    * the plan is a single node or its region has a positive value (a region of
    * value 0 with several nodes has NaN rectangles only). */
  lemma {:induction false} PlaceCovers(plan: Plan, rect: Rect2d)
    requires PlanOk(plan) && Apart(plan) && (plan.Leaf? || Val(plan) > 0.0)
    ensures CoversRect(Place(plan, Some(rect)), rect)
  {
    match plan
    case Leaf(c, _) =>
      var m := Place(plan, Some(rect));
      forall p | Contains(rect, p) ensures exists c :: c in m && m[c].Some? && Contains(m[c].value, p) {
        assert m[c] == Some(rect);
      }
    case Cut(f, r, fv, v) =>
      var pieces := SplitArea(Some(rect), fv, v);
      SplitAreaCovers(rect, fv, v);
      CutKeysApart(plan, Some(rect));
      PlaceCovers(f, pieces.0.value);
      if r.Leaf? || v - fv > 0.0 {
        PlaceCovers(r, pieces.1.value);
        UnionCovers(Place(f, pieces.0), Place(r, pieces.1), pieces.0.value, pieces.1.value, rect);
      } else {
        FullSplitKeepsRect(rect, v);
        UnionCoversFirst(Place(f, pieces.0), Place(r, pieces.1), rect);
      }
  }

  /** The value each node of a plan holds, gathered with the same `+` as
    * `Place`, so that the two maps have the same keys. */
  ghost function Weights(plan: Plan): map<nat, real>
  {
    match plan
    case Leaf(c, w) => map[c := w]
    case Cut(f, r, _, _) => Weights(f) + Weights(r)
  }

  /** A plan gives a value to its nodes and to nothing else. */
  lemma {:induction false} WeightsKeys(plan: Plan)
    ensures Weights(plan).Keys == Keys(plan)
  {
    match plan
    case Leaf(_, _) =>
    case Cut(f, r, _, _) =>
      WeightsKeys(f);
      WeightsKeys(r);
  }

  /** `part` has the share `weight / total` of the area of `whole`, stated
    * without a division so that it also reads for a total of 0. */
  ghost predicate AreaShare(part: Rect2d, whole: Rect2d, weight: real, total: real)
  {
    Area(part) * total == Area(whole) * weight
  }

  /** Every defined area of `m` takes the share `w[c] / total` of the area of
    * `rect`, and `m` and `w` speak of the same nodes. */
  ghost predicate AreasProportional(m: map<nat, Option<Rect2d>>, w: map<nat, real>, rect: Rect2d, total: real)
  {
    && m.Keys == w.Keys
    && forall c :: c in m && m[c].Some? ==> AreaShare(m[c].value, rect, w[c], total)
  }

  /** `x * d == y * d` with `d` not 0 gives `x == y`. */
  lemma {:induction false} Cancel(x: real, y: real, d: real)
    requires d != 0.0 && x * d == y * d
    ensures x == y
  {
    assert (x - y) * d == 0.0;
  }

  /** A cut at the ratio `firstValue / value` gives its two pieces the shares
    * `firstValue / value` and `(value - firstValue) / value` of the area. */
  lemma {:induction false} SplitAreaProportional(rect: Rect2d, firstValue: real, value: real)
    requires value != 0.0
    ensures SplitArea(Some(rect), firstValue, value).0.Some?
    ensures SplitArea(Some(rect), firstValue, value).1.Some?
    ensures AreaShare(SplitArea(Some(rect), firstValue, value).0.value, rect, firstValue, value)
    ensures AreaShare(SplitArea(Some(rect), firstValue, value).1.value, rect, value - firstValue, value)
  {
    var t := firstValue / value;
    var pieces := SplitRect(rect, t);
    var w, h := rect.size.x, rect.size.y;
    assert t * value == firstValue;
    if w > h {
      calc {
        Area(pieces.0) * value;
        (w * t) * h * value;
        (w * h) * (t * value);
        Area(rect) * firstValue;
      }
      calc {
        Area(pieces.1) * value;
        (w - w * t) * h * value;
        (w * h) * value - (w * h) * (t * value);
        Area(rect) * (value - firstValue);
      }
    } else {
      calc {
        Area(pieces.0) * value;
        w * (h * t) * value;
        (w * h) * (t * value);
        Area(rect) * firstValue;
      }
      calc {
        Area(pieces.1) * value;
        w * (h - h * t) * value;
        (w * h) * value - (w * h) * (t * value);
        Area(rect) * (value - firstValue);
      }
    }
  }

  /** Shares of a piece are shares of the whole: if each area of `m` takes
    * `w[c] / sub` of the piece, and the piece takes `sub / total` of `rect`,
    * each area takes `w[c] / total` of `rect`. */
  lemma {:induction false} RescaleProportional(m: map<nat, Option<Rect2d>>, w: map<nat, real>, piece: Rect2d, rect: Rect2d,
                                               sub: real, total: real)
    requires AreasProportional(m, w, piece, sub) && sub != 0.0
    requires AreaShare(piece, rect, sub, total)
    ensures AreasProportional(m, w, rect, total)
  {
    forall c | c in m && m[c].Some? ensures AreaShare(m[c].value, rect, w[c], total) {
      assert AreaShare(m[c].value, piece, w[c], sub);
      var a, s, R, wc := Area(m[c].value), Area(piece), Area(rect), w[c];
      calc {
        (a * total) * sub;
        (a * sub) * total;
        (s * wc) * total;
        (s * total) * wc;
        (R * sub) * wc;
        (R * wc) * sub;
      }
      Cancel(a * total, R * wc, sub);
    }
  }

  /** A group of value 0 placed in a piece of area share 0 gives each of its
    * defined areas the share 0 of the region's area: a single node of value 0
    * gets the whole piece, a cut of value 0 only NaN rectangles. */
  lemma {:induction false} ZeroGroupProportional(g: Plan, piece: Rect2d, rect: Rect2d, total: real)
    requires PlanOk(g) && Val(g) == 0.0
    requires AreaShare(piece, rect, Val(g), total)
    ensures AreasProportional(Place(g, Some(piece)), Weights(g), rect, total)
  {
    PlaceKeys(g, Some(piece));
    WeightsKeys(g);
    if g.Cut? {
      ZeroCutUndefined(g, Some(piece));
    }
  }

  /** Two maps that each give their nodes their share of `rect` still do
    * once joined. */
  lemma {:induction false} UnionProportional(m1: map<nat, Option<Rect2d>>, w1: map<nat, real>,
                                             m2: map<nat, Option<Rect2d>>, w2: map<nat, real>, rect: Rect2d, total: real)
    requires AreasProportional(m1, w1, rect, total) && AreasProportional(m2, w2, rect, total)
    ensures AreasProportional(m1 + m2, w1 + w2, rect, total)
  {
    var m, w := m1 + m2, w1 + w2;
    assert m.Keys == w.Keys;
    forall c | c in m && m[c].Some? ensures AreaShare(m[c].value, rect, w[c], total) {
      if c in m2 {
        assert m[c] == m2[c] && w[c] == w2[c];
      } else {
        assert m[c] == m1[c] && w[c] == w1[c];
      }
    }
  }

  /** Each node of a plan gets the share of the rectangle its value has in
    * the plan's value: area times the plan's value equals the rectangle's
    * area times the node's value. */
  lemma {:induction false} PlaceArea(plan: Plan, rect: Rect2d)
    requires PlanOk(plan)
    ensures AreasProportional(Place(plan, Some(rect)), Weights(plan), rect, Val(plan))
  {
    match plan
    case Leaf(_, _) =>
    case Cut(f, r, fv, v) =>
      if v == 0.0 {
        PlaceKeys(plan, Some(rect));
        WeightsKeys(plan);
        ZeroCutUndefined(plan, Some(rect));
      } else {
        var p0, p1 := CutPieces(plan, rect);
        PlaceArea(f, p0);
        PlaceArea(r, p1);
        if Val(r) == 0.0 {
          ZeroGroupProportional(r, p1, rect, v);
        }
        CombineProportional(Place(f, Some(p0)), Weights(f), p0, Val(f), Place(r, Some(p1)), Weights(r), p1, Val(r), rect, v);
      }
  }

  /** The two pieces a cut of non-zero value gives, with the share of the
    * area each takes. */
  lemma {:induction false} CutPieces(plan: Plan, rect: Rect2d) returns (p0: Rect2d, p1: Rect2d)
    requires plan.Cut? && PlanOk(plan) && plan.value != 0.0
    ensures Place(plan, Some(rect)) == Place(plan.first, Some(p0)) + Place(plan.rest, Some(p1))
    ensures AreaShare(p0, rect, Val(plan.first), plan.value)
    ensures AreaShare(p1, rect, Val(plan.rest), plan.value)
  {
    SplitAreaProportional(rect, plan.firstValue, plan.value);
    p0, p1 := SplitArea(Some(rect), plan.firstValue, plan.value).0.value, SplitArea(Some(rect), plan.firstValue, plan.value).1.value;
  }

  /** The step of `PlaceArea` at a cut: the first group has a non-zero value
    * and the rest gives its areas their shares already (as when its value is
    * 0), so the shares each group gives inside its piece are shares of the
    * whole rectangle. */
  lemma {:induction false} CombineProportional(m0: map<nat, Option<Rect2d>>, w0: map<nat, real>, p0: Rect2d, v0: real,
                                               m1: map<nat, Option<Rect2d>>, w1: map<nat, real>, p1: Rect2d, v1: real,
                                               rect: Rect2d, total: real)
    requires AreasProportional(m0, w0, p0, v0) && v0 != 0.0 && AreaShare(p0, rect, v0, total)
    requires AreasProportional(m1, w1, p1, v1) && AreaShare(p1, rect, v1, total)
    requires v1 == 0.0 ==> AreasProportional(m1, w1, rect, total)
    ensures AreasProportional(m0 + m1, w0 + w1, rect, total)
  {
    RescaleProportional(m0, w0, p0, rect, v0, total);
    if v1 != 0.0 {
      RescaleProportional(m1, w1, p1, rect, v1, total);
    }
    UnionProportional(m0, w0, m1, w1, rect, total);
  }

  /** The plan the stack loop follows on the run `order[lo..hi]`: a one-node
    * run is a leaf; a longer one is cut after its greedy first group, with the
    * group's value and the run's. */
  ghost function GreedyPlan(nodes: seq<Node>, order: seq<nat>, lo: nat, hi: nat): Plan
    requires RangeOk(nodes, order, lo, hi)
    decreases hi - lo
  {
    if hi - lo == 1 then
      Leaf(order[lo], Total(nodes, order, lo, hi))
    else
      var k := GreedySize(nodes, order, lo, hi);
      GreedySizeIsCut(nodes, order, lo, hi);
      GreedyCutBeforeEnd(nodes, order, lo, hi, k);
      Cut(GreedyPlan(nodes, order, lo, lo + k), GreedyPlan(nodes, order, lo + k, hi),
          Total(nodes, order, lo, lo + k), Total(nodes, order, lo, hi))
  }

  /** One step of `GreedyPlan` on a run of two or more nodes: the cut `k` is
    * the greedy one and falls strictly inside the run. */
  lemma {:induction false} GreedyPlanSplit(nodes: seq<Node>, order: seq<nat>, lo: nat, hi: nat) returns (k: nat)
    requires RangeOk(nodes, order, lo, hi) && hi - lo >= 2
    ensures IsGreedyCut(nodes, order, lo, hi, k) && 1 <= k < hi - lo
    ensures GreedyPlan(nodes, order, lo, hi) ==
      Cut(GreedyPlan(nodes, order, lo, lo + k), GreedyPlan(nodes, order, lo + k, hi),
          Total(nodes, order, lo, lo + k), Total(nodes, order, lo, hi))
  {
    k := GreedySize(nodes, order, lo, hi);
    GreedySizeIsCut(nodes, order, lo, hi);
    GreedyCutBeforeEnd(nodes, order, lo, hi, k);
  }

  /** The values of the greedy plan fit together, and its value is the sum of
    * the run. */
  lemma {:induction false} GreedyPlanOk(nodes: seq<Node>, order: seq<nat>, lo: nat, hi: nat)
    requires RangeOk(nodes, order, lo, hi)
    ensures PlanOk(GreedyPlan(nodes, order, lo, hi))
    ensures Val(GreedyPlan(nodes, order, lo, hi)) == Total(nodes, order, lo, hi)
    decreases hi - lo
  {
    if hi - lo >= 2 {
      var k := GreedyPlanSplit(nodes, order, lo, hi);
      GreedyPlanOk(nodes, order, lo, lo + k);
      GreedyPlanOk(nodes, order, lo + k, hi);
      SumRangeSplit(nodes, order, lo, lo + k, hi);
    }
  }

  /** The greedy plan lays out every node of the run and nothing else. */
  lemma {:induction false} GreedyPlanKeys(nodes: seq<Node>, order: seq<nat>, lo: nat, hi: nat)
    requires RangeOk(nodes, order, lo, hi)
    ensures forall i :: lo <= i < hi ==> order[i] in Keys(GreedyPlan(nodes, order, lo, hi))
    ensures forall c :: c in Keys(GreedyPlan(nodes, order, lo, hi)) ==> InRun(order, lo, hi, c)
    decreases hi - lo
  {
    if hi - lo >= 2 {
      var k := GreedyPlanSplit(nodes, order, lo, hi);
      GreedyPlanKeys(nodes, order, lo, lo + k);
      GreedyPlanKeys(nodes, order, lo + k, hi);
    } else {
      assert At(order, lo) == order[lo];
    }
  }

  /** On a run without repeated nodes the leaves of the greedy plan are apart. */
  lemma {:induction false} GreedyPlanApart(nodes: seq<Node>, order: seq<nat>, lo: nat, hi: nat)
    requires RangeOk(nodes, order, lo, hi) && Unrepeated(order)
    ensures Apart(GreedyPlan(nodes, order, lo, hi))
    decreases hi - lo
  {
    if hi - lo >= 2 {
      var k := GreedyPlanSplit(nodes, order, lo, hi);
      GreedyPlanApart(nodes, order, lo, lo + k);
      GreedyPlanApart(nodes, order, lo + k, hi);
      NeighbourPlansApart(nodes, order, lo, lo + k, hi);
    }
  }

  /** Each node of the greedy plan weighs its own value. */
  lemma {:induction false} GreedyPlanWeights(nodes: seq<Node>, order: seq<nat>, lo: nat, hi: nat)
    requires RangeOk(nodes, order, lo, hi)
    ensures forall c :: c in Weights(GreedyPlan(nodes, order, lo, hi)) ==>
      c < |nodes| && Weights(GreedyPlan(nodes, order, lo, hi))[c] == nodes[c].value as real
    decreases hi - lo
  {
    if hi - lo >= 2 {
      var k := GreedyPlanSplit(nodes, order, lo, hi);
      GreedyPlanWeights(nodes, order, lo, lo + k);
      GreedyPlanWeights(nodes, order, lo + k, hi);
    } else {
      assert SumRange(nodes, order, lo, hi) == nodes[order[lo]].value;
    }
  }

  /** `PlaceArea` for one node `c` that gets the rectangle `area`, with the
    * plan's value and the node's weight given by other names. */
  lemma {:induction false} PlanShare(plan: Plan, rect: Rect2d, c: nat, area: Rect2d, total: real, weight: real)
    requires PlanOk(plan) && c in Place(plan, Some(rect)) && Place(plan, Some(rect))[c] == Some(area)
    requires total == Val(plan) && c in Weights(plan) && Weights(plan)[c] == weight
    ensures AreaShare(area, rect, weight, total)
  {
    PlaceArea(plan, rect);
    assert AreaShare(Place(plan, Some(rect))[c].value, rect, Weights(plan)[c], Val(plan));
  }

  /** The greedy plans of two neighbouring runs of a sequence without repeated
    * nodes lay out different nodes. */
  lemma {:induction false} NeighbourPlansApart(nodes: seq<Node>, order: seq<nat>, lo: nat, mid: nat, hi: nat)
    requires RangeOk(nodes, order, lo, mid) && RangeOk(nodes, order, mid, hi) && Unrepeated(order)
    ensures Keys(GreedyPlan(nodes, order, lo, mid)) !! Keys(GreedyPlan(nodes, order, mid, hi))
  {
    GreedyPlanKeys(nodes, order, lo, mid);
    GreedyPlanKeys(nodes, order, mid, hi);
    RunsDisjoint(order, lo, mid, hi);
  }

  /** Putting `x` at position `j` of a sorted sequence keeps it sorted when
    * everything before `j` weighs at least `x` and everything from `j` less. */
  lemma {:induction false} InsertKeepsDescending(nodes: seq<Node>, r: seq<nat>, x: nat, j: nat)
    requires InBounds(nodes, r) && x < |nodes| && j <= |r| && Descending(nodes, r)
    requires forall a :: 0 <= a < j ==> nodes[r[a]].value >= nodes[x].value
    requires j < |r| ==> nodes[r[j]].value < nodes[x].value
    ensures InBounds(nodes, r[..j] + [x] + r[j..])
    ensures Descending(nodes, r[..j] + [x] + r[j..])
  {
    var r' := r[..j] + [x] + r[j..];
    forall a, b | 0 <= a < b < |r'| ensures Weight(nodes, r', a) >= Weight(nodes, r', b) {
      if b < j {
        assert r'[a] == r[a] && r'[b] == r[b];
        assert Weight(nodes, r, a) >= Weight(nodes, r, b);
      } else if b == j {
        assert r'[a] == r[a];
      } else if a == j {
        assert r'[b] == r[b - 1];
        if b - 1 > j {
          assert Weight(nodes, r, j) >= Weight(nodes, r, b - 1);
        }
      } else if a < j {
        assert r'[a] == r[a] && r'[b] == r[b - 1];
        assert Weight(nodes, r, a) >= Weight(nodes, r, b - 1);
      } else {
        assert r'[a] == r[a - 1] && r'[b] == r[b - 1];
        assert Weight(nodes, r, a - 1) >= Weight(nodes, r, b - 1);
      }
    }
  }

  /** `std::ranges::sort(children_nodes, std::greater{}, get_node_value)`: the
    * children in order of decreasing value. The library sort is not stable,
    * so only that order is promised; this model sorts by insertion. */
  method SortByValueDescending(nodes: seq<Node>, s: seq<nat>) returns (r: seq<nat>)
    requires InBounds(nodes, s)
    ensures multiset(r) == multiset(s) && InBounds(nodes, r) && Descending(nodes, r)
  {
    r := [];
    for i := 0 to |s|
      invariant multiset(r) == multiset(s[..i]) && InBounds(nodes, r) && Descending(nodes, r)
    {
      var x := s[i];
      var j := InsertionPoint(nodes, r, x);
      InsertKeepsDescending(nodes, r, x, j);
      InsertMultiset(r, x, j);
      r := r[..j] + [x] + r[j..];
      assert s[..i + 1] == s[..i] + [x];
    }
    assert s[..|s|] == s;
  }

  /** Inserting `x` anywhere adds one `x` to the multiset. */
  lemma {:induction false} InsertMultiset(r: seq<nat>, x: nat, j: nat)
    requires j <= |r|
    ensures multiset(r[..j] + [x] + r[j..]) == multiset(r) + multiset{x}
  {
    assert r == r[..j] + r[j..];
  }

  /** The first position of `r` whose node weighs less than `x`, or `|r|`. */
  method InsertionPoint(nodes: seq<Node>, r: seq<nat>, x: nat) returns (j: nat)
    requires InBounds(nodes, r) && x < |nodes|
    ensures j <= |r|
    ensures forall a :: 0 <= a < j ==> nodes[r[a]].value >= nodes[x].value
    ensures j < |r| ==> nodes[r[j]].value < nodes[x].value
  {
    j := 0;
    while j < |r| && nodes[r[j]].value >= nodes[x].value
      invariant j <= |r|
      invariant forall a :: 0 <= a < j ==> nodes[r[a]].value >= nodes[x].value
    {
      j := j + 1;
    }
  }

  /** A region on the stack: an area, the run `order[lo..hi]` of the sorted
    * children (the source's span) and the region's value. */
  datatype Region = Region(area: Option<Rect2d>, lo: nat, hi: nat, value: real)

  /** `m` gives each of its nodes the area that `target` gives it. */
  ghost predicate Agrees(m: map<nat, Option<Rect2d>>, target: map<nat, Option<Rect2d>>)
  {
    forall c :: c in m ==> c in target && m[c] == target[c]
  }

  /** The region is a valid run of `order`, its value is the sum of the run,
    * and laying it out gives its nodes the areas that laying out all the
    * children gives them. */
  ghost predicate RegionOk(nodes: seq<Node>, order: seq<nat>, region: Region, target: map<nat, Option<Rect2d>>)
  {
    && RangeOk(nodes, order, region.lo, region.hi)
    && region.value == Total(nodes, order, region.lo, region.hi)
    && Agrees(Place(GreedyPlan(nodes, order, region.lo, region.hi), region.area), target)
  }

  /** The stack, bottom to top, holds consecutive non-empty runs of `order`
    * from 0 up to `doneFrom`, every one of them valid; the region at depth `r`
    * from the bottom starts at `r` or later. */
  ghost predicate StackOk(nodes: seq<Node>, order: seq<nat>, regions: seq<Region>, doneFrom: nat, target: map<nat, Option<Rect2d>>)
    decreases |regions|
  {
    if regions == [] then
      doneFrom == 0
    else
      var top := regions[|regions| - 1];
      && top.hi == doneFrom && |regions| - 1 <= top.lo
      && RegionOk(nodes, order, top, target)
      && StackOk(nodes, order, regions[..|regions| - 1], top.lo, target)
  }

  /** A union over different nodes agrees with `target` only if both parts do. */
  lemma {:induction false} AgreesUnion(m1: map<nat, Option<Rect2d>>, m2: map<nat, Option<Rect2d>>, target: map<nat, Option<Rect2d>>)
    requires Agrees(m1 + m2, target) && KeysApart(m1, m2)
    ensures Agrees(m1, target) && Agrees(m2, target)
  {
    forall c | c in m1 ensures c in target && m1[c] == target[c] {
      assert (m1 + m2)[c] == m1[c];
    }
  }

  /** A one-node region holds the area the layout gives that node. */
  lemma {:induction false} SingleRegionArea(nodes: seq<Node>, order: seq<nat>, region: Region, target: map<nat, Option<Rect2d>>)
    requires RegionOk(nodes, order, region, target) && region.hi - region.lo == 1
    ensures order[region.lo] in target && target[order[region.lo]] == region.area
  {
    assert Place(GreedyPlan(nodes, order, region.lo, region.hi), region.area) == map[order[region.lo] := region.area];
  }

  /** Splitting a valid region at its greedy cut pushes two valid regions: the
    * first group with its sum, the rest with the remainder. */
  lemma {:induction false} SplitRegionOk(nodes: seq<Node>, order: seq<nat>, region: Region, target: map<nat, Option<Rect2d>>,
                                         size: nat, firstValue: real)
    requires Unrepeated(order) && RegionOk(nodes, order, region, target) && region.hi - region.lo >= 2
    requires IsGreedyCut(nodes, order, region.lo, region.hi, size)
    requires firstValue == Total(nodes, order, region.lo, region.lo + size)
    ensures region.lo + size < region.hi
    ensures RegionOk(nodes, order,
      Region(SplitArea(region.area, firstValue, region.value).0, region.lo, region.lo + size, firstValue), target)
    ensures RegionOk(nodes, order,
      Region(SplitArea(region.area, firstValue, region.value).1, region.lo + size, region.hi, region.value - firstValue), target)
  {
    var lo, hi := region.lo, region.hi;
    var k := GreedyPlanSplit(nodes, order, lo, hi);
    GreedyCutUnique(nodes, order, lo, hi, size, k);
    SumRangeSplit(nodes, order, lo, lo + k, hi);
    var plan := GreedyPlan(nodes, order, lo, hi);
    GreedyPlanApart(nodes, order, lo, hi);
    CutKeysApart(plan, region.area);
    var pieces := SplitArea(region.area, firstValue, region.value);
    AgreesUnion(Place(plan.first, pieces.0), Place(plan.rest, pieces.1), target);
  }

  /** The areas `rects` gives the nodes of `s`. */
  ghost function AreasOf(rects: seq<Option<Rect2d>>, s: seq<nat>): map<nat, Option<Rect2d>>
    requires forall c :: c in s ==> c < |rects|
  {
    map c | c in s :: rects[c]
  }

  /** The body of the loop of `Create` for one node: its children, sorted by
    * decreasing value into `order`, are laid out in the node's inner rectangle
    * with the region stack, and nothing else changes. The areas the children
    * get are those the greedy plan places, and the node's value is their sum. */
  method HandleChildrenOfNode(nodes: seq<Node>, rects: seq<Option<Rect2d>>, nodeId: nat, paddingFactor: real)
    returns (newRects: seq<Option<Rect2d>>, order: seq<nat>)
    requires LinksOk(nodes) && ValuesAdd(nodes) && nodeId < |nodes| && |rects| == |nodes|
    ensures |newRects| == |rects|
    ensures multiset(order) == multiset(Children(nodes, nodeId)) && InBounds(nodes, order) && Descending(nodes, order)
    ensures Unrepeated(order)
    ensures order != [] ==> RangeOk(nodes, order, 0, |order|) && nodes[nodeId].value as real == Total(nodes, order, 0, |order|)
    ensures order != [] ==>
      AreasOf(newRects, order) == Place(GreedyPlan(nodes, order, 0, |order|), MakeInnerArea(rects[nodeId], paddingFactor))
    ensures forall j :: 0 <= j < |rects| && j !in order ==> newRects[j] == rects[j]
  {
    order := SortedChildren(nodes, nodeId);
    newRects := rects;
    if order != [] {
      var inner := MakeInnerArea(rects[nodeId], paddingFactor);
      newRects := LayOutRegions(nodes, order, rects, inner, nodes[nodeId].value as real);
    }
  }

  /** `GetChildren` followed by the sort: the children of `nodeId` in order of
    * decreasing value, each once, and their values add up to the node's. */
  method SortedChildren(nodes: seq<Node>, nodeId: nat) returns (order: seq<nat>)
    requires LinksOk(nodes) && ValuesAdd(nodes) && nodeId < |nodes|
    ensures multiset(order) == multiset(Children(nodes, nodeId)) && InBounds(nodes, order) && Descending(nodes, order)
    ensures Unrepeated(order)
    ensures order != [] ==> nodes[nodeId].value as real == Total(nodes, order, 0, |order|)
  {
    ChildrenIsSiblingChain(nodes, nodeId);
    var children := GetChildren(nodes, nodeId, []);
    assert children[0..] == children;
    GetChildrenAppendsChildren(nodes, nodeId, children);
    order := SortByValueDescending(nodes, children);
    DistinctPermutation(order, children);
    DistinctUnrepeated(order);
    if order != [] {
      SumValuesPermutation(nodes, order, children);
      SumRangeIsSumValues(nodes, order, 0, |order|);
      assert order[0..|order|] == order;
    }
  }

  /** The region stack of `Create`: starting from one region holding the whole
    * run `order` with area `inner` and value `value`, pop a region; a
    * one-node region gives its node the region's area, a longer one is cut
    * after its greedy first group and both groups are pushed. Every node of
    * `order` gets the area the greedy plan places, and nothing else changes. */
  /** What the loop of `LayOutRegions` has written so far: every node of the
    * finished suffix `order[doneFrom..]` holds its area from `target`, and no
    * node outside `target` has been touched. */
  ghost predicate StoredOk(order: seq<nat>, newRects: seq<Option<Rect2d>>, rects: seq<Option<Rect2d>>,
                           doneFrom: nat, target: map<nat, Option<Rect2d>>)
  {
    && |newRects| == |rects|
    && (forall k :: doneFrom <= k < |order| ==> order[k] < |newRects| && order[k] in target && newRects[order[k]] == target[order[k]])
    && (forall j :: 0 <= j < |rects| && j !in target ==> newRects[j] == rects[j])
  }

  /** Popping a one-node region and storing its area extends the finished
    * suffix by that node. */
  lemma {:induction false} StoreLeafOk(nodes: seq<Node>, order: seq<nat>, regions: seq<Region>, doneFrom: nat,
                                       target: map<nat, Option<Rect2d>>, newRects: seq<Option<Rect2d>>, rects: seq<Option<Rect2d>>)
    requires StackOk(nodes, order, regions, doneFrom, target) && regions != []
    requires StoredOk(order, newRects, rects, doneFrom, target)
    requires forall k :: 0 <= k < |order| ==> order[k] < |rects|
    requires regions[|regions| - 1].hi - regions[|regions| - 1].lo == 1
    ensures var region := regions[|regions| - 1];
      && StackOk(nodes, order, regions[..|regions| - 1], region.lo, target)
      && StoredOk(order, newRects[order[region.lo] := region.area], rects, region.lo, target)
      && |regions| - 1 <= region.lo < doneFrom
  {
    var region := regions[|regions| - 1];
    SingleRegionArea(nodes, order, region, target);
  }

  /** The region on top of a valid stack is a valid run with its total. */
  lemma {:induction false} TopRegionOk(nodes: seq<Node>, order: seq<nat>, regions: seq<Region>, doneFrom: nat,
                                       target: map<nat, Option<Rect2d>>)
    requires StackOk(nodes, order, regions, doneFrom, target) && regions != []
    ensures RangeOk(nodes, order, regions[|regions| - 1].lo, regions[|regions| - 1].hi)
    ensures regions[|regions| - 1].value == Total(nodes, order, regions[|regions| - 1].lo, regions[|regions| - 1].hi)
  {
  }

  /** Popping a larger region and pushing its two halves keeps the stack valid
    * and shrinks the measure `2 * doneFrom - |regions|`. */
  lemma {:induction false} PushHalvesOk(nodes: seq<Node>, order: seq<nat>, regions: seq<Region>, doneFrom: nat,
                                        target: map<nat, Option<Rect2d>>, size: nat, firstValue: real)
    requires Unrepeated(order) && StackOk(nodes, order, regions, doneFrom, target) && regions != []
    requires regions[|regions| - 1].hi - regions[|regions| - 1].lo != 1
    requires IsGreedyCut(nodes, order, regions[|regions| - 1].lo, regions[|regions| - 1].hi, size)
    requires firstValue == Total(nodes, order, regions[|regions| - 1].lo, regions[|regions| - 1].lo + size)
    ensures var region := regions[|regions| - 1];
      var pieces := SplitArea(region.area, firstValue, region.value);
      var next := regions[..|regions| - 1] + [Region(pieces.0, region.lo, region.lo + size, firstValue),
                                              Region(pieces.1, region.lo + size, region.hi, region.value - firstValue)];
      && StackOk(nodes, order, next, doneFrom, target)
      && |next| == |regions| + 1 && |next| <= 2 * doneFrom
  {
    var region := regions[|regions| - 1];
    assert RegionOk(nodes, order, region, target);
    SplitRegionOk(nodes, order, region, target, size, firstValue);
    var pieces := SplitArea(region.area, firstValue, region.value);
    var next := regions[..|regions| - 1] + [Region(pieces.0, region.lo, region.lo + size, firstValue),
                                            Region(pieces.1, region.lo + size, region.hi, region.value - firstValue)];
    var rest := regions[..|regions| - 1];
    assert next[..|next| - 1] == rest + [next[|next| - 2]];
    assert (rest + [next[|next| - 2]])[..|rest|] == rest;
  }

  /** One turn of the region stack (lines 93-127): pop the top region; a
    * one-node region gives that node its area, a larger one is cut at its
    * greedy split and both halves are pushed, the rest on top. */
  method PopRegion(nodes: seq<Node>, order: seq<nat>, rects: seq<Option<Rect2d>>, ghost target: map<nat, Option<Rect2d>>,
                   regions: seq<Region>, newRects: seq<Option<Rect2d>>, doneFrom: nat)
    returns (regions': seq<Region>, newRects': seq<Option<Rect2d>>, doneFrom': nat)
    requires Unrepeated(order) && regions != []
    requires forall k :: 0 <= k < |order| ==> order[k] < |rects|
    requires StackOk(nodes, order, regions, doneFrom, target)
    requires StoredOk(order, newRects, rects, doneFrom, target)
    ensures StackOk(nodes, order, regions', doneFrom', target)
    ensures StoredOk(order, newRects', rects, doneFrom', target)
    ensures 0 <= 2 * doneFrom' - |regions'| < 2 * doneFrom - |regions|
  {
    var region := regions[|regions| - 1];
    if region.hi - region.lo == 1 {
      StoreLeafOk(nodes, order, regions, doneFrom, target, newRects, rects);
      newRects' := newRects[order[region.lo] := region.area];
      doneFrom' := region.lo;
      regions' := regions[..|regions| - 1];
    } else {
      TopRegionOk(nodes, order, regions, doneFrom, target);
      var size, firstValue := FirstRegion(nodes, order, region.lo, region.hi, region.value);
      PushHalvesOk(nodes, order, regions, doneFrom, target, size, firstValue);
      var pieces := SplitArea(region.area, firstValue, region.value);
      newRects', doneFrom' := newRects, doneFrom;
      regions' := regions[..|regions| - 1] + [Region(pieces.0, region.lo, region.lo + size, firstValue),
                                              Region(pieces.1, region.lo + size, region.hi, region.value - firstValue)];
    }
  }

  /** The loop of `Create` for one node: runs the region stack of lines 91-128
    * over the sorted children `order`, storing each child's area in
    * `newRects`. The result is exactly the placement of the greedy plan. */
  method LayOutRegions(nodes: seq<Node>, order: seq<nat>, rects: seq<Option<Rect2d>>, inner: Option<Rect2d>, value: real)
    returns (newRects: seq<Option<Rect2d>>)
    requires RangeOk(nodes, order, 0, |order|) && Unrepeated(order) && value == Total(nodes, order, 0, |order|)
    requires forall k :: 0 <= k < |order| ==> order[k] < |rects|
    ensures |newRects| == |rects|
    ensures AreasOf(newRects, order) == Place(GreedyPlan(nodes, order, 0, |order|), inner)
    ensures forall j :: 0 <= j < |rects| && j !in order ==> newRects[j] == rects[j]
  {
    newRects := rects;
    ghost var target := Place(GreedyPlan(nodes, order, 0, |order|), inner);
    var regions := [Region(inner, 0, |order|, value)];
    var doneFrom: nat := |order|;
    while regions != []
      invariant StackOk(nodes, order, regions, doneFrom, target)
      invariant StoredOk(order, newRects, rects, doneFrom, target)
      decreases 2 * doneFrom - |regions|
    {
      regions, newRects, doneFrom := PopRegion(nodes, order, rects, target, regions, newRects, doneFrom);
    }
    TargetIsOrder(nodes, order, inner);
  }

  /** The nodes the plan places are exactly the nodes of `order`. */
  lemma {:induction false} TargetIsOrder(nodes: seq<Node>, order: seq<nat>, inner: Option<Rect2d>)
    requires RangeOk(nodes, order, 0, |order|)
    ensures Place(GreedyPlan(nodes, order, 0, |order|), inner).Keys == set c | c in order
  {
    PlaceKeys(GreedyPlan(nodes, order, 0, |order|), inner);
    GreedyPlanKeys(nodes, order, 0, |order|);
    forall c | c in Keys(GreedyPlan(nodes, order, 0, |order|)) ensures c in order {
      var k :| 0 <= k < |order| && At(order, k) == c;
    }
  }
}
