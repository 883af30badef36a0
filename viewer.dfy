/**
 * The queries of `RectTreeViewerApp` (`rect_tree_viewer_app.cpp/.hpp`): the
 * label of the synthetic root, the constructor's check, the layout step of
 * `Initialize`, the hit test `FindNodeAt`, `GetNodeFullPath` and
 * `PickSizeUnit`. Paths are strings; `ReadDirectoryTreeMulti` is not part of
 * this model, so its node array and root map are inputs of `Initialize`.
 */
module Viewer {
  import opened Wrappers
  import opened Tree
  import opened Geometry
  import opened Layout
  import opened DrawData

  /** `shrink_factor` of `Initialize`. */
  const ShrinkFactor: real := 0.97

  /** The name of the synthetic root node. */
  const SelectionLabel: string := "SELECTION"

  /** The error the constructor reports for an empty path list. */
  const NoPathsError: string := "Expected at least one path"

  // ---------------------------------------------------------------- root label

  /** The root label `Initialize` passes to `ReadDirectoryTreeMulti`: none for a
    * single path, "SELECTION" otherwise. */
  function RootLabel(paths: seq<string>): (r: Option<string>)
    ensures r.Some? <==> |paths| != 1
    ensures r.Some? ==> r.value == SelectionLabel
  {
    if |paths| == 1 then None else Some(SelectionLabel)
  }

  /** The constructor's `Ensure(!root_paths_.empty(), ...)`. */
  function CheckRootPaths(paths: seq<string>): (r: Result<seq<string>, string>)
    ensures r.Failure? <==> paths == []
    ensures r.Failure? ==> r.error == NoPathsError
    ensures r.Success? ==> r.value == paths
  {
    if paths == [] then Failure(NoPathsError) else Success(paths)
  }

  /** Every path list the constructor accepts asks for a synthetic root exactly
    * when it holds more than one path. */
  lemma {:induction false} AcceptedRootLabel(paths: seq<string>)
    requires CheckRootPaths(paths).Success?
    ensures RootLabel(CheckRootPaths(paths).value).Some? <==> |paths| > 1
  {
  }

  // ---------------------------------------------------------------- hit test

  /** `rects_[i].Contains(position)`. A rectangle with a NaN coordinate
    * (`None`) contains nothing: every comparison with NaN is false. */
  predicate AreaContains(area: Option<Rect2d>, position: Vec2)
  {
    area.Some? && Contains(area.value, position)
  }

  /** The first node of `cs` whose rectangle contains `position`. */
  function FirstContaining(rects: seq<Option<Rect2d>>, cs: seq<nat>, position: Vec2): (r: Option<nat>)
    requires forall k :: 0 <= k < |cs| ==> cs[k] < |rects|
    ensures r.None? <==> forall k :: 0 <= k < |cs| ==> !AreaContains(rects[cs[k]], position)
    ensures r.Some? ==> exists k :: (0 <= k < |cs| && cs[k] == r.value && AreaContains(rects[r.value], position) &&
      forall j :: 0 <= j < k ==> !AreaContains(rects[cs[j]], position))
    decreases |cs|
  {
    if cs == [] then None
    else if AreaContains(rects[cs[0]], position) then Some(cs[0])
    else
      var r := FirstContaining(rects, cs[1..], position);
      assert forall k :: 1 <= k < |cs| ==> cs[k] == cs[1..][k - 1];
      r
  }

  /** A containing node after only non-containing ones is the first. */
  lemma {:induction false} FirstContainingAt(rects: seq<Option<Rect2d>>, cs: seq<nat>, position: Vec2, i: nat)
    requires forall k :: 0 <= k < |cs| ==> cs[k] < |rects|
    requires i < |cs| && AreaContains(rects[cs[i]], position)
    requires forall k :: 0 <= k < i ==> !AreaContains(rects[cs[k]], position)
    ensures FirstContaining(rects, cs, position) == Some(cs[i])
  {
  }

  /** Where the descent of `FindNodeAt` from `node` ends: at the first child,
    * in linked-list order, whose rectangle contains the point, and so on. */
  ghost function HitFrom(nodes: seq<Node>, rects: seq<Option<Rect2d>>, position: Vec2, node: nat): nat
    requires LinksOk(nodes) && |rects| == |nodes| && node < |nodes|
    decreases |nodes| - node
  {
    match FirstContaining(rects, Children(nodes, node), position)
    case None => node
    case Some(c) => HitFrom(nodes, rects, position, c)
  }

  /** The answer of `FindNodeAt`: none outside the root rectangle, otherwise
    * where the descent from node 0 ends. */
  ghost function Hit(nodes: seq<Node>, rects: seq<Option<Rect2d>>, position: Vec2): Option<nat>
    requires LinksOk(nodes) && |rects| == |nodes|
  {
    if |rects| == 0 || !AreaContains(rects[0], position) then None
    else Some(HitFrom(nodes, rects, position, 0))
  }

  /** `b` is `a` or lies below `a`: following parent links from `b` reaches `a`. */
  ghost predicate Descends(nodes: seq<Node>, a: nat, b: nat)
    requires b < |nodes|
    decreases b
  {
    b == a || (nodes[b].parent.Some? && nodes[b].parent.value < b && Descends(nodes, a, nodes[b].parent.value))
  }

  /** The descent from a node whose rectangle contains the point ends at a
    * node below it whose rectangle contains the point and none of whose
    * children's rectangles does. */
  lemma {:induction false} HitFromProperties(nodes: seq<Node>, rects: seq<Option<Rect2d>>, position: Vec2, node: nat)
    requires LinksOk(nodes) && |rects| == |nodes| && node < |nodes| && AreaContains(rects[node], position)
    ensures HitFrom(nodes, rects, position, node) < |nodes|
    ensures AreaContains(rects[HitFrom(nodes, rects, position, node)], position)
    ensures forall c :: c in Children(nodes, HitFrom(nodes, rects, position, node)) ==> !AreaContains(rects[c], position)
    ensures Descends(nodes, node, HitFrom(nodes, rects, position, node))
    decreases |nodes| - node
  {
    var cs := Children(nodes, node);
    match FirstContaining(rects, cs, position)
    case None =>
      forall c | c in cs ensures !AreaContains(rects[c], position) {
        var k :| 0 <= k < |cs| && cs[k] == c;
      }
    case Some(c) =>
      var k :| 0 <= k < |cs| && cs[k] == c && AreaContains(rects[c], position);
      HitFromProperties(nodes, rects, position, c);
      DescendsThrough(nodes, node, c, HitFrom(nodes, rects, position, c));
  }

  /** Below a child is below its parent. */
  lemma {:induction false} DescendsThrough(nodes: seq<Node>, a: nat, c: nat, b: nat)
    requires LinksOk(nodes) && a < |nodes| && c in Children(nodes, a) && b < |nodes| && Descends(nodes, c, b)
    ensures Descends(nodes, a, b)
    decreases b
  {
    if b == c {
      assert nodes[c].parent == Some(a);
    } else {
      DescendsThrough(nodes, a, c, nodes[b].parent.value);
    }
  }

  /** The inner loop of `FindNodeAt`: the position of the first child whose
    * rectangle contains the point, or the length when there is none. */
  method FirstContainingIndex(rects: seq<Option<Rect2d>>, cs: seq<nat>, position: Vec2) returns (i: nat)
    requires forall k :: 0 <= k < |cs| ==> cs[k] < |rects|
    ensures i <= |cs|
    ensures i == |cs| <==> FirstContaining(rects, cs, position).None?
    ensures i < |cs| ==> FirstContaining(rects, cs, position) == Some(cs[i])
  {
    i := 0;
    while i < |cs|
      invariant 0 <= i <= |cs|
      invariant forall k :: 0 <= k < i ==> !AreaContains(rects[cs[k]], position)
    {
      if AreaContains(rects[cs[i]], position) {
        FirstContainingAt(rects, cs, position, i);
        return;
      }
      i := i + 1;
    }
  }

  /** `FindNodeAt`: none when there are no rectangles or the root's does not
    * contain the point; otherwise descend from node 0 into the first child (in
    * the order `GetChildren` gives) whose rectangle contains it, until no child
    * does. */
  method FindNodeAt(nodes: seq<Node>, rects: seq<Option<Rect2d>>, position: Vec2) returns (r: Option<nat>)
    requires LinksOk(nodes) && |rects| == |nodes|
    ensures r == Hit(nodes, rects, position)
  {
    if |rects| == 0 || !AreaContains(rects[0], position) {
      return None;
    }
    var parent: nat := 0;
    while true
      invariant parent < |nodes| && HitFrom(nodes, rects, position, parent) == HitFrom(nodes, rects, position, 0)
      decreases |nodes| - parent
    {
      ChildrenIsSiblingChain(nodes, parent);
      var children := GetChildren(nodes, parent, []);
      assert children[0..] == children;
      GetChildrenAppendsChildren(nodes, parent, children);
      var i := FirstContainingIndex(rects, children, position);
      if i == |children| {
        break;
      }
      parent := children[i];
    }
    return Some(parent);
  }

  /** What `FindNodeAt` answers: none exactly outside the root rectangle;
    * otherwise node 0 or a node below it whose rectangle contains the point
    * and none of whose children's rectangles does. */
  lemma {:induction false} FindNodeAtProperties(nodes: seq<Node>, rects: seq<Option<Rect2d>>, position: Vec2)
    requires LinksOk(nodes) && |rects| == |nodes|
    ensures Hit(nodes, rects, position).None? <==> |rects| == 0 || !AreaContains(rects[0], position)
    ensures Hit(nodes, rects, position).Some? ==>
      var n := Hit(nodes, rects, position).value;
      && n < |nodes| && Descends(nodes, 0, n) && AreaContains(rects[n], position)
      && forall c :: c in Children(nodes, n) ==> !AreaContains(rects[c], position)
  {
    if |rects| > 0 && AreaContains(rects[0], position) {
      HitFromProperties(nodes, rects, position, 0);
    }
  }

  /** On a layout made by `Create`, a point found in a node with a positive
    * value and children lies in the node's padding, outside its inner
    * rectangle: the children leave no gap there. */
  lemma {:induction false} HitInPadding(nodes: seq<Node>, rects: seq<Option<Rect2d>>, position: Vec2, n: nat)
    requires LaidOut(nodes, rects, ShrinkFactor) && n < |nodes| && Hit(nodes, rects, position) == Some(n)
    requires Children(nodes, n) != [] && nodes[n].value > 0
    ensures rects[n].Some? && !Contains(MakeInnerRect(rects[n].value, ShrinkFactor), position)
  {
    FindNodeAtProperties(nodes, rects, position);
    if Contains(MakeInnerRect(rects[n].value, ShrinkFactor), position) {
      ChildrenCoverInner(nodes, rects, ShrinkFactor, n, position);
    }
  }

  // ---------------------------------------------------------------- full path

  /** The format `"{}"` when `path` is empty and `"{}/{}"` otherwise. */
  function Join(component: string, path: string): (r: string)
    ensures path == [] ==> r == component
    ensures path != [] ==> r == component + "/" + path
  {
    if path == [] then component else component + "/" + path
  }

  /** The root map holds indices into the root paths. */
  ghost predicate RootIndexOk(rootIndex: map<nat, nat>, rootPaths: seq<string>)
  {
    forall k :: k in rootIndex ==> rootIndex[k] < |rootPaths|
  }

  /** The component a node contributes: the root path for a node of the root
    * map, its name otherwise. */
  function Component(nodes: seq<Node>, rootIndex: map<nat, nat>, rootPaths: seq<string>, n: nat): string
    requires n < |nodes| && RootIndexOk(rootIndex, rootPaths)
  {
    if n in rootIndex then rootPaths[rootIndex[n]] else nodes[n].name
  }

  /** Where the walk of `GetNodeFullPath` stops: the first node, going up from
    * `n`, that is in the root map or has no parent. */
  predicate Stops(nodes: seq<Node>, rootIndex: map<nat, nat>, n: nat)
    requires n < |nodes|
  {
    n in rootIndex || nodes[n].parent.None?
  }

  /** The string `GetNodeFullPath` builds before it rewrites backslashes: going
    * up from `n`, each node's component is joined in front of `path`. */
  ghost function FullPath(nodes: seq<Node>, rootIndex: map<nat, nat>, rootPaths: seq<string>, n: nat, path: string): string
    requires LinksOk(nodes) && n < |nodes| && RootIndexOk(rootIndex, rootPaths)
    decreases n
  {
    var next := Join(Component(nodes, rootIndex, rootPaths, n), path);
    if Stops(nodes, rootIndex, n) then next
    else
      assert NodeLinksOk(nodes, n);
      FullPath(nodes, rootIndex, rootPaths, nodes[n].parent.value, next)
  }

  /** The components on the way from the stopping node down to `n`. */
  ghost function Components(nodes: seq<Node>, rootIndex: map<nat, nat>, rootPaths: seq<string>, n: nat): (r: seq<string>)
    requires LinksOk(nodes) && n < |nodes| && RootIndexOk(rootIndex, rootPaths)
    ensures |r| > 0 && r[|r| - 1] == Component(nodes, rootIndex, rootPaths, n)
    decreases n
  {
    if Stops(nodes, rootIndex, n) then [Component(nodes, rootIndex, rootPaths, n)]
    else
      assert NodeLinksOk(nodes, n);
      Components(nodes, rootIndex, rootPaths, nodes[n].parent.value) + [Component(nodes, rootIndex, rootPaths, n)]
  }

  /** The components separated by single slashes. */
  function JoinAll(cs: seq<string>): string
    requires |cs| > 0
  {
    if |cs| == 1 then cs[0] else JoinAll(cs[..|cs| - 1]) + "/" + cs[|cs| - 1]
  }

  /** Joining a non-empty suffix: the components of `n` followed by the
    * suffix, a slash between each two and none at the end. */
  lemma {:induction false} FullPathWithSuffix(nodes: seq<Node>, rootIndex: map<nat, nat>, rootPaths: seq<string>, n: nat, path: string)
    requires LinksOk(nodes) && n < |nodes| && RootIndexOk(rootIndex, rootPaths) && path != []
    ensures FullPath(nodes, rootIndex, rootPaths, n, path) == JoinAll(Components(nodes, rootIndex, rootPaths, n)) + "/" + path
    decreases n
  {
    var comp := Component(nodes, rootIndex, rootPaths, n);
    var next := comp + "/" + path;
    if !Stops(nodes, rootIndex, n) {
      assert NodeLinksOk(nodes, n);
      var p := nodes[n].parent.value;
      var above := Components(nodes, rootIndex, rootPaths, p);
      FullPathWithSuffix(nodes, rootIndex, rootPaths, p, next);
      JoinAllSnoc(above, comp);
      assert JoinAll(above) + "/" + next == (JoinAll(above) + "/" + comp) + "/" + path;
    }
  }

  /** Appending a component appends a slash and the component. */
  lemma {:induction false} JoinAllSnoc(cs: seq<string>, c: string)
    requires |cs| > 0
    ensures JoinAll(cs + [c]) == JoinAll(cs) + "/" + c
  {
    assert (cs + [c])[..|cs|] == cs;
  }

  /** When the node's own component is not empty, the full path is its
    * components from the stopping node down, joined by single slashes: a
    * slash only between components and none at the end. (An empty own name
    * is dropped with its slash, since the format depends on `path` being
    * empty.) */
  lemma {:induction false} FullPathIsJoinedComponents(nodes: seq<Node>, rootIndex: map<nat, nat>, rootPaths: seq<string>, n: nat)
    requires LinksOk(nodes) && n < |nodes| && RootIndexOk(rootIndex, rootPaths)
    requires Component(nodes, rootIndex, rootPaths, n) != []
    ensures FullPath(nodes, rootIndex, rootPaths, n, []) == JoinAll(Components(nodes, rootIndex, rootPaths, n))
  {
    var comp := Component(nodes, rootIndex, rootPaths, n);
    if !Stops(nodes, rootIndex, n) {
      assert NodeLinksOk(nodes, n);
      var p := nodes[n].parent.value;
      FullPathWithSuffix(nodes, rootIndex, rootPaths, p, comp);
      JoinAllSnoc(Components(nodes, rootIndex, rootPaths, p), comp);
    }
  }

  /** The walk stops at the first node of the root map on the way up: the
    * first component is that root's path (or the name of a parentless
    * node), and no node below it on the way is in the root map. */
  lemma {:induction false} ComponentsStartAtRoot(nodes: seq<Node>, rootIndex: map<nat, nat>, rootPaths: seq<string>, n: nat)
    requires LinksOk(nodes) && n < |nodes| && RootIndexOk(rootIndex, rootPaths)
    ensures exists top: nat :: (top <= n && Stops(nodes, rootIndex, top) && Descends(nodes, top, n) &&
      Components(nodes, rootIndex, rootPaths, n)[0] == Component(nodes, rootIndex, rootPaths, top) &&
      forall m: nat :: m < |nodes| && top < m && Descends(nodes, m, n) ==> !Stops(nodes, rootIndex, m))
    ensures n in rootIndex ==> Components(nodes, rootIndex, rootPaths, n) == [rootPaths[rootIndex[n]]]
    decreases n
  {
    if !Stops(nodes, rootIndex, n) {
      assert NodeLinksOk(nodes, n);
      var p := nodes[n].parent.value;
      ComponentsStartAtRoot(nodes, rootIndex, rootPaths, p);
      var top: nat :| top <= p && Stops(nodes, rootIndex, top) && Descends(nodes, top, p) &&
        Components(nodes, rootIndex, rootPaths, p)[0] == Component(nodes, rootIndex, rootPaths, top) &&
        forall m: nat :: m < |nodes| && top < m && Descends(nodes, m, p) ==> !Stops(nodes, rootIndex, m);
      assert Descends(nodes, top, n);
      forall m: nat | m < |nodes| && top < m && Descends(nodes, m, n)
        ensures !Stops(nodes, rootIndex, m)
      {
        if m != n {
          assert Descends(nodes, m, p);
        }
      }
    } else {
      assert Descends(nodes, n, n);
      forall m: nat | m < |nodes| && Descends(nodes, m, n)
        ensures m <= n
      {
        DescendsOrder(nodes, m, n);
      }
    }
  }

  /** Following parent links only goes to smaller indices. */
  lemma {:induction false} DescendsOrder(nodes: seq<Node>, a: nat, b: nat)
    requires b < |nodes| && Descends(nodes, a, b)
    ensures a <= b
    decreases b
  {
    if b != a {
      DescendsOrder(nodes, a, nodes[b].parent.value);
    }
  }

  /** The in-place loop that turns every backslash into a slash. */
  method ReplaceBackslashes(s: string) returns (t: string)
    ensures |t| == |s|
    ensures forall i :: 0 <= i < |s| ==> t[i] == (if s[i] == '\\' then '/' else s[i])
    ensures forall i :: 0 <= i < |t| ==> t[i] != '\\'
  {
    t := s;
    for i := 0 to |t|
      invariant |t| == |s|
      invariant forall k :: 0 <= k < i ==> t[k] == (if s[k] == '\\' then '/' else s[k])
      invariant forall k :: i <= k < |t| ==> t[k] == s[k]
    {
      if t[i] == '\\' {
        t := t[i := '/'];
      }
    }
  }

  // ---------------------------------------------------------------- size unit

  /** The units of `PickSizeUnit`, largest first, with their powers of 1000. */
  const Units: seq<(string, real)> := [("PB", 1e15), ("TB", 1e12), ("GB", 1e9), ("MB", 1e6), ("kB", 1e3)]

  /** The quotient that makes a unit worth showing. */
  const UnitThreshold: real := 1.001

  /** `PickSizeUnit`: the first of PB, TB, GB, MB, kB whose quotient exceeds
    * 1.001, with that quotient; otherwise the size itself in bytes. */
  function PickSizeUnit(size: real): (r: (real, string))
    ensures r.1 == "b" ==> r.0 == size && size / 1e3 <= UnitThreshold
    ensures r.1 != "b" ==> r.0 > UnitThreshold
  {
    if size / 1e15 > 1.001 then (size / 1e15, "PB")
    else if size / 1e12 > 1.001 then (size / 1e12, "TB")
    else if size / 1e9 > 1.001 then (size / 1e9, "GB")
    else if size / 1e6 > 1.001 then (size / 1e6, "MB")
    else if size / 1e3 > 1.001 then (size / 1e3, "kB")
    else (size, "b")
  }

  /** The table reading of the rule: scan `Units` from position `i`. */
  function FirstUnitFrom(size: real, i: nat): (real, string)
    requires i <= |Units|
    decreases |Units| - i
  {
    if i == |Units| then (size, "b")
    else if size / Units[i].1 > UnitThreshold then (size / Units[i].1, Units[i].0)
    else FirstUnitFrom(size, i + 1)
  }

  /** `PickSizeUnit` follows the table: it picks the first unit whose quotient
    * exceeds the threshold, every larger unit's quotient stays at or below
    * it, and the value shown is the size over the unit's power. */
  lemma {:induction false} PickSizeUnitIsFirstUnit(size: real)
    ensures PickSizeUnit(size) == FirstUnitFrom(size, 0)
    ensures forall i :: 0 <= i < |Units| && PickSizeUnit(size).1 == Units[i].0 ==>
      PickSizeUnit(size).0 == size / Units[i].1 &&
      forall j :: 0 <= j < i ==> size / Units[j].1 <= UnitThreshold
  {
  }

  /** A larger size never gets a smaller unit: below one unit's threshold the
    * size is below every larger unit's too. */
  lemma {:induction false} SizeUnitMonotone(small: real, large: real)
    requires 0.0 <= small <= large
    ensures PickSizeUnit(small).1 != "b" ==> PickSizeUnit(large).1 != "b"
    ensures PickSizeUnit(small).1 == "PB" ==> PickSizeUnit(large).1 == "PB"
  {
  }

  // ---------------------------------------------------------------- the app

  /** The state of `RectTreeViewerApp` this model keeps: the root paths, the
    * node array with its root map, and one rectangle per node. */
  class App {
    var rootPaths: seq<string>
    var nodes: seq<Node>
    var rootIndex: map<nat, nat>
    var rects: seq<Option<Rect2d>>

    /** At least one root path; the links of the node array hold, there is a
      * rectangle per node (none before `Initialize`) and the root map points
      * into the root paths. */
    ghost predicate Valid()
      reads this
    {
      && |rootPaths| > 0 && LinksOk(nodes) && |rects| == |nodes|
      && RootIndexOk(rootIndex, rootPaths)
    }

    /** The constructor, for a path list its check accepts. */
    constructor(paths: seq<string>)
      requires CheckRootPaths(paths).Success?
      ensures Valid() && rootPaths == paths && nodes == [] && rects == [] && rootIndex == map[]
    {
      rootPaths := paths;
      nodes := [];
      rootIndex := map[];
      rects := [];
    }

    /** The layout step of `Initialize` (lines 46-143): `tree` and `roots` are
      * what `ReadDirectoryTreeMulti` returns for `RootLabel(rootPaths)`; the
      * layout is `Create` with the 0.97 shrink factor. */
    method Initialize(tree: seq<Node>, roots: map<nat, nat>)
      requires Valid() && WellFormed(tree) && ValuesAdd(tree) && RootIndexOk(roots, rootPaths)
      modifies this
      ensures Valid() && rootPaths == old(rootPaths) && nodes == tree && rootIndex == roots
      ensures LaidOut(nodes, rects, ShrinkFactor)
    {
      nodes := tree;
      rootIndex := roots;
      rects := Create(tree, ShrinkFactor);
    }

    /** `FindNodeAt` on the current layout. */
    method FindNode(position: Vec2) returns (r: Option<nat>)
      requires Valid()
      ensures r == Hit(nodes, rects, position)
    {
      r := FindNodeAt(nodes, rects, position);
    }

    /** `GetNodeFullPath`: walk up from the node, joining each component in
      * front, stopping after the first node of the root map (whose root path
      * replaces its name) or the parentless root; then turn backslashes into
      * slashes. */
    method GetNodeFullPath(inNodeId: nat) returns (path: string)
      requires Valid() && inNodeId < |nodes|
      ensures var full := FullPath(nodes, rootIndex, rootPaths, inNodeId, []);
        |path| == |full| && forall i :: 0 <= i < |full| ==> path[i] == (if full[i] == '\\' then '/' else full[i])
      ensures forall i :: 0 <= i < |path| ==> path[i] != '\\'
    {
      path := [];
      var nodeId: Option<nat> := Some(inNodeId);
      while nodeId.Some?
        invariant nodeId.Some? ==> nodeId.value < |nodes|
        invariant nodeId.Some? ==> FullPath(nodes, rootIndex, rootPaths, nodeId.value, path) == FullPath(nodes, rootIndex, rootPaths, inNodeId, [])
        invariant nodeId.None? ==> path == FullPath(nodes, rootIndex, rootPaths, inNodeId, [])
        decreases if nodeId.Some? then nodeId.value + 1 else 0
      {
        var id := nodeId.value;
        var node := nodes[id];
        var isRoot := id in rootIndex;
        var buffer := Join(if isRoot then rootPaths[rootIndex[id]] else node.name, path);
        assert NodeLinksOk(nodes, id);
        path := buffer;
        nodeId := if isRoot then None else node.parent;
      }
      path := ReplaceBackslashes(path);
    }
  }

  /** `RectTreeViewerApp(paths)`: a new app, or the constructor's error. */
  method NewApp(paths: seq<string>) returns (r: Result<App, string>)
    ensures r.Failure? <==> paths == []
    ensures r.Failure? ==> r.error == NoPathsError
    ensures r.Success? ==> fresh(r.value) && r.value.Valid() && r.value.rootPaths == paths
  {
    match CheckRootPaths(paths)
    case Failure(e) =>
      r := Failure(e);
    case Success(ps) =>
      var app := new App(ps);
      r := Success(app);
  }
}
