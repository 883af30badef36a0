/**
 * The older single-root viewer of `rect_tree_viewer_main.cpp`. Its layout is
 * the same greedy split with the 0.97 shrink factor, run over the tree
 * `ReadDirectoryTree` builds for its one root; its hit test and size units
 * are those of `Viewer`. Its full path differs: it is the names from node 0
 * down, joined by single slashes, with no root-path substitution and no
 * backslash rewrite.
 */
module LegacyViewer {
  import opened Wrappers
  import opened Tree
  import opened Geometry
  import opened DirectoryTree
  import opened DrawData
  import opened Viewer

  /** The names from node 0 down to `n`, following parent links. */
  ghost function AncestorNames(nodes: seq<Node>, n: nat): (r: seq<string>)
    requires LinksOk(nodes) && n < |nodes|
    ensures |r| > 0 && r[|r| - 1] == nodes[n].name
    decreases n
  {
    assert NodeLinksOk(nodes, n);
    if nodes[n].parent.None? then [nodes[n].name]
    else AncestorNames(nodes, nodes[n].parent.value) + [nodes[n].name]
  }

  /** The walk up always ends at node 0, so the first name is the root's and
    * there is one name per node on the way. */
  lemma {:induction false} AncestorNamesStartAtRoot(nodes: seq<Node>, n: nat)
    requires LinksOk(nodes) && n < |nodes|
    ensures AncestorNames(nodes, n)[0] == nodes[0].name
    ensures |AncestorNames(nodes, n)| <= n + 1
    ensures n > 0 ==> |AncestorNames(nodes, n)| > 1
    decreases n
  {
    assert NodeLinksOk(nodes, n);
    if nodes[n].parent.Some? {
      AncestorNamesStartAtRoot(nodes, nodes[n].parent.value);
    }
  }

  /** One step of the older `GetNodeFullPath`: putting node `n`'s name and a
    * slash in front of `path` leaves the part still to come from `n`'s
    * parent, or the whole path at node 0. */
  lemma {:induction false} PrependAncestor(nodes: seq<Node>, n: nat, path: string)
    requires LinksOk(nodes) && n < |nodes|
    ensures nodes[n].parent.Some? ==> (nodes[n].parent.value < n &&
      JoinAll(AncestorNames(nodes, nodes[n].parent.value)) + "/" + (nodes[n].name + "/" + path)
        == JoinAll(AncestorNames(nodes, n)) + "/" + path)
    ensures nodes[n].parent.None? ==> nodes[n].name + "/" + path == JoinAll(AncestorNames(nodes, n)) + "/" + path
  {
    assert NodeLinksOk(nodes, n);
    if nodes[n].parent.Some? {
      var above := AncestorNames(nodes, nodes[n].parent.value);
      JoinAllSnoc(above, nodes[n].name);
      assert JoinAll(above) + "/" + (nodes[n].name + "/" + path) == (JoinAll(above) + "/" + nodes[n].name) + "/" + path;
    }
  }

  /** The state of the older app. */
  class LegacyApp {
    var nodes: seq<Node>
    var rects: seq<Option<Rect2d>>

    ghost predicate Valid()
      reads this
    {
      LinksOk(nodes) && |rects| == |nodes|
    }

    constructor()
      ensures Valid() && nodes == [] && rects == []
    {
      nodes := [];
      rects := [];
    }

    /** The tree-building and layout part of `Initialize`: read the tree under
      * the root, then lay it out with the 0.97 shrink factor. */
    method Initialize(root: Entry)
      modifies this
      ensures Valid() && LaidOut(nodes, rects, ShrinkFactor)
      ensures exists origin :: MirrorsTree(root, nodes, origin)
      ensures ValuesAdd(nodes) && nodes[0].value == FileBytes(root)
    {
      nodes := ReadDirectoryTree(root);
      rects := Create(nodes, ShrinkFactor);
    }

    /** `FindNodeAt` on the current layout. */
    method FindNode(position: Vec2) returns (r: Option<nat>)
      requires Valid()
      ensures r == Hit(nodes, rects, position)
    {
      r := FindNodeAt(nodes, rects, position);
    }

    /** `GetNodeFullPath` of the older app: start from the node's name and
      * put each ancestor's name and a slash in front, up to node 0. The
      * result is the names from the root down, joined by single slashes. */
    method GetNodeFullPath(inNodeId: nat) returns (path: string)
      requires Valid() && inNodeId < |nodes|
      ensures path == JoinAll(AncestorNames(nodes, inNodeId))
    {
      var tree := nodes;
      assert NodeLinksOk(tree, inNodeId);
      path := tree[inNodeId].name;
      var nodeId: Option<nat> := tree[inNodeId].parent;
      while nodeId.Some?
        invariant nodeId.Some? ==> nodeId.value < |tree|
        invariant nodeId.Some? ==> JoinAll(AncestorNames(tree, nodeId.value)) + "/" + path == JoinAll(AncestorNames(tree, inNodeId))
        invariant nodeId.None? ==> path == JoinAll(AncestorNames(tree, inNodeId))
        decreases if nodeId.Some? then nodeId.value + 1 else 0
      {
        var node := tree[nodeId.value];
        PrependAncestor(tree, nodeId.value, path);
        path := node.name + "/" + path;
        nodeId := node.parent;
      }
    }
  }
}
