# rect_tree_viewer: the tree and treemap core in Dafny

This project models the core of `rect_tree_viewer`, a disk-usage viewer that draws a directory tree as nested rectangles (a treemap). It has six parts.

- **The arena tree** (`tree.dfy`, module `Tree`).
  - Nodes live in one flat sequence, and `parent`, `first_child` and `next_sibling` are optional indices into it.
  - `WellFormed` states the link invariants the builder establishes:
    - node 0 is the only node without a parent;
    - a parent has a smaller index than its child;
    - sibling lists run towards smaller indices and agree with the parent fields;
    - every node is on its parent's list.
  - `GetChildren` walks one sibling list and appends it to the caller's vector.
- **The tree builder** (`read_directory_tree.dfy`, module `DirectoryTree`).
  - `ReadDirectoryTree` runs a stack-driven walk over an entry tree. The entry tree stands for the filesystem.
  - Each new node is prepended to its parent's child list.
  - A reverse pass then adds every node's value into its parent's.
  - The proofs show the result is well formed and mirrors the entry tree. They also show values add up, so the root holds the total size of all regular files.
- **Geometry** (`geometry.dfy`, module `Geometry`). `Rect2d` with its inclusive `Contains` test and its conversion to the painter's centred rectangle.
- **The layout engine** (`layout.dfy`, module `Layout`; `draw_data.dfy`, module `DrawData`). This is `RectTreeDrawData::Create`.
  - Nodes are visited in index order. The children of each node are sorted by decreasing value, and the node's rectangle is shrunk about its centre by the padding factor (default 0.97).
  - A stack of regions then splits that rectangle:
    - a region of one child gives that child its rectangle;
    - a larger region is cut once. The first group greedily takes children while `first * 2.02 < total`, and the rectangle is cut across its longer side in proportion to `first / total`.
  - The stack loop (`LayOutRegions`, `PopRegion`) is proved against a recursive reference, `GreedyPlan`. That is the binary split tree the greedy rule produces, and `Place` gives its rectangles.
  - From `GreedyPlan`, the lemmas show that in exact arithmetic the children of a node:
    - lie inside its padded rectangle;
    - do not overlap one another;
    - leave no gap when the value is positive.
- **The app's queries** (`viewer.dfy`, module `Viewer`).
  - The root label: a synthetic "SELECTION" root when more than one path is opened.
  - The constructor's check for an empty path list.
  - The layout step of `Initialize`.
  - The hit test `FindNodeAt`, proved against the reference descent `Hit`.
  - `GetNodeFullPath`, proved against the reference walk `FullPath`.
  - `PickSizeUnit`, proved against a unit table.
- **The older single-root viewer** (`legacy_viewer.dfy`, module `LegacyViewer`) of `rect_tree_viewer_main.cpp`.
  - Its layout is `ReadDirectoryTree` followed by the same greedy layout.
  - Its `GetNodeFullPath` joins every name from node 0 down with '/'.

The same layout is written three times in the repository: `RectTreeDrawData::Create`, inline in `RectTreeViewerApp::Initialize`, and as the `handle_children_of_node` lambda of `rect_tree_viewer_main.cpp`. In exact arithmetic the three are the same computation, so it is modelled once, as are the three copies of `Rect2d` and the two copies of `FindNodeAt` and `PickSizeUnit`.

A rectangle whose coordinates have become NaN is modelled as `None` (`Option<Rect2d>`). Every comparison with NaN is false, so `Contains` is false on such a rectangle, and padding or splitting it gives NaN again. This matters because splitting a region with two or more children and total value 0 divides 0 by 0 (`rect_tree_draw_data.cpp:112`), for example a directory holding only empty files. `Layout.ZeroCutUndefined` shows that every child below such a split gets a NaN rectangle. Those children can never be hit by `FindNodeAt`, and the no-gap lemmas are stated only for positive values or a single child.

Where the repository's written description and the code differ, the model follows the code:
- a failing filesystem call is not skipped; it propagates, so there is no skip path;
- the sort is `std::ranges::sort`, which is not stable, so ties may come in any order;
- `FindNodeAt` descends in `GetChildren` (linked-list) order, not in the sorted order;
- the greedy rule is `first * 2.02 < total`.

## Model

| member | source | states |
|---|---|---|
| Tree.Children | src/rect_tree_viewer/code/private/tree.hpp:22-28 | A node's child list is the sibling chain from its first child. Every entry has a larger index than the node and names it as parent, and the list is strictly decreasing. |
| Tree.GetChildren | src/rect_tree_viewer/code/private/tree.hpp:19-29 | Only appends: `outChildren` stays an unchanged prefix. The appended part starts at `first_child` and each later index is the previous one's `next_sibling`. Nothing is appended without a first child. |
| Tree.GetChildrenAppendsChildren | src/rect_tree_viewer/code/private/tree.hpp:23-28 | On well-linked nodes the appended chain is exactly the node's child list, each index once. |
| Tree.SiblingChainDistinct | src/rect_tree_viewer/code/private/tree.hpp:23-28 | A finite sibling chain never repeats an index, so the walk terminates. |
| Tree.SiblingChainIsChainFrom | src/rect_tree_viewer/code/private/tree.hpp:23-28 | On well-linked nodes there is only one sibling chain from a given start. |
| Tree.ChildrenIsSiblingChain | src/rect_tree_viewer/code/private/tree.hpp:22-28 | On well-linked nodes every node's child list is a finite sibling chain, which `GetChildren` requires. |
| DirectoryTree.ReadDirectoryTree | src/rect_tree_viewer/code/private/read_directory_tree.hpp:6-71 | The result is a well-formed tree with one node per entry that mirrors the entry tree. Each interior node's value is the sum of its children's values. The root's value is the total size of all regular files. |
| DirectoryTree.Walk | src/rect_tree_viewer/code/private/read_directory_tree.hpp:16-59 | The walk builds well-formed links: node 0 is the only parentless node and `parent < child`. There is one node per entry. A file gets its file name and size; a directory gets its stem, value 0, and its entries as children in reverse order; any other entry gets its stem, value 0 and no children. |
| DirectoryTree.ExpandDirectory | src/rect_tree_viewer/code/private/read_directory_tree.hpp:41-57 | Enumerating a directory adds one node and one stack entry per entry, and the walk invariant still holds. |
| DirectoryTree.StartDirectory | src/rect_tree_viewer/code/private/read_directory_tree.hpp:39-41 | A popped directory starts its enumeration with the walk invariant in force. |
| DirectoryTree.PrependChildChildren | src/rect_tree_viewer/code/private/read_directory_tree.hpp:43-51 | The new node becomes the first entry of its parent's child list, ahead of the old list. It has no children, and every other list is unchanged. |
| DirectoryTree.PrependChildComplete | src/rect_tree_viewer/code/private/read_directory_tree.hpp:43-51 | Prepending a child keeps the links well formed and every child list complete. |
| DirectoryTree.VisitFile | src/rect_tree_viewer/code/private/read_directory_tree.hpp:33-38 | A regular file's node takes the file name and the size. |
| DirectoryTree.VisitOther | src/rect_tree_viewer/code/private/read_directory_tree.hpp:33-39 | An entry that is neither a file nor a directory keeps value 0 and no children. |
| DirectoryTree.PopStack | src/rect_tree_viewer/code/private/read_directory_tree.hpp:28-31 | A popped entry has its node allocated and is nowhere else on the stack. The count of entries still to visit drops by that entry's subtree, so the walk terminates. |
| DirectoryTree.PropagateValues | src/rect_tree_viewer/code/private/read_directory_tree.hpp:61-68 | Links and names are unchanged. Each node's final value is its initial value plus the sum of its children's final values. |
| DirectoryTree.MirrorsValuesAdd | src/rect_tree_viewer/code/private/read_directory_tree.hpp:61-68 | After the pass, every node with children has a value equal to the sum of its children's values. |
| DirectoryTree.ValueIsFileBytes | src/rect_tree_viewer/code/private/read_directory_tree.hpp:61-68 | Every node's value is the total size of the regular files under its entry; for node 0 that is the whole tree. |
| Geometry.ToPainterRect | src/rect_tree_viewer/code/private/rect_tree_draw_data.hpp:18-26 | Size and colour are copied, the rotation is 0, and the centre is half the size away from the bottom-left corner. The same code is repeated at rect_tree_viewer_app.hpp:62-70, rect_tree_viewer_main.cpp:66-74. |
| Geometry.ContainsIsClosedBox | src/rect_tree_viewer/code/private/rect_tree_draw_data.hpp:28-33 | `Contains` holds iff the point lies in the closed box between the corners, inclusive on all four edges. The same code is repeated at rect_tree_viewer_app.hpp:72-77, rect_tree_viewer_main.cpp:76-81. |
| Geometry.NegativeExtentContainsNothing | src/rect_tree_viewer/code/private/rect_tree_draw_data.hpp:30-32 | A rectangle with a negative extent contains no point. |
| Geometry.ZeroSizeContainsOnlyCorner | src/rect_tree_viewer/code/private/rect_tree_draw_data.hpp:30-32 | A zero-size rectangle contains exactly its bottom-left corner. |
| Geometry.PainterCentreInside | src/rect_tree_viewer/code/private/rect_tree_draw_data.hpp:18-33 | For a non-negative size, the painter centre and the four corners lie inside the rectangle. |
| Layout.SplitRect | src/rect_tree_viewer/code/private/rect_tree_draw_data.cpp:29-63 | The cut is along X iff width > height, otherwise along Y. The first piece starts at the bottom-left corner with `ratio` of the cut extent. The second piece starts where the first ends. The two cut extents sum to the original and the other extent is unchanged. The same code is repeated at rect_tree_viewer_main.cpp:209-240. |
| Layout.SplitRectWithin | src/rect_tree_viewer/code/private/rect_tree_draw_data.cpp:29-63 | With a ratio in [0, 1] both pieces are non-negative, lie inside the rectangle and do not overlap. |
| Layout.SplitRectCovers | src/rect_tree_viewer/code/private/rect_tree_draw_data.cpp:29-63 | Every point of the rectangle lies in one of the two pieces. |
| Layout.MakeInnerRect | src/rect_tree_viewer/code/private/rect_tree_draw_data.cpp:65-69 | The size is scaled by the padding factor and the centre is kept. |
| Layout.InnerRectWithin | src/rect_tree_viewer/code/private/rect_tree_draw_data.cpp:65-69 | With padding in [0, 1] the inner rectangle is non-negative and lies inside the outer one. |
| Layout.SortByValueDescending | src/rect_tree_viewer/code/private/rect_tree_draw_data.cpp:84 | The result is a permutation of the input, sorted by descending value. |
| Layout.SortedChildren | src/rect_tree_viewer/code/private/rect_tree_draw_data.cpp:75-84 | The collected and sorted children are a permutation of the child list, by descending value with no repeats. When there are children, their values total the node's value. |
| Layout.FirstRegion | src/rect_tree_viewer/code/private/rect_tree_draw_data.cpp:102-110 | The greedy loop finds the unique cut: at least one node; the group reaches `total / 2.02`; every shorter prefix stays below it. Every read is in bounds and `firstValue` is the group's sum. The same code is repeated at rect_tree_viewer_app.cpp:87-94, rect_tree_viewer_main.cpp:189-196. |
| Layout.GreedyCutUnique | src/rect_tree_viewer/code/private/rect_tree_draw_data.cpp:102-110 | At most one group size satisfies the greedy condition. |
| Layout.GreedyCutBeforeEnd | src/rect_tree_viewer/code/private/rect_tree_draw_data.cpp:115-127 | On a descending run of two or more nodes whose value is their sum, the first group leaves at least one node, which is what the two asserts check. |
| Layout.SplitRegionOk | src/rect_tree_viewer/code/private/rect_tree_draw_data.cpp:112-127 | Both pushed regions are non-empty, their values are `first` and `total - first`, and each still satisfies the region invariant. The same code is repeated at rect_tree_viewer_app.cpp:96-138, rect_tree_viewer_main.cpp:198-240. |
| Layout.GreedyPlanSplit | src/rect_tree_viewer/code/private/rect_tree_draw_data.cpp:102-127 | A run of two or more nodes is cut at the greedy size into two smaller plans. |
| Layout.GreedyPlanOk | src/rect_tree_viewer/code/private/rect_tree_draw_data.cpp:91-128 | The split tree of a run is well formed, and each node's value is the sum over its run. |
| Layout.GreedyPlanKeys | src/rect_tree_viewer/code/private/rect_tree_draw_data.cpp:96-127 | The leaves of the split tree are exactly the nodes of the run. |
| Layout.GreedyPlanApart | src/rect_tree_viewer/code/private/rect_tree_draw_data.cpp:115-127 | The two halves of every cut share no node, so no child is given two rectangles. |
| Layout.TargetIsOrder | src/rect_tree_viewer/code/private/rect_tree_draw_data.cpp:96-100 | The placed rectangles are keyed exactly by the sorted children: every child gets one rectangle. |
| Layout.PlaceWithin | src/rect_tree_viewer/code/private/rect_tree_draw_data.cpp:91-128 | Every rectangle placed in a non-negative rectangle is non-negative and inside it. |
| Layout.PlaceDisjoint | src/rect_tree_viewer/code/private/rect_tree_draw_data.cpp:91-128 | Rectangles placed for distinct children do not overlap. |
| Layout.PlaceCovers | src/rect_tree_viewer/code/private/rect_tree_draw_data.cpp:91-128 | When the region's value is positive, or it holds a single node, the placed rectangles leave no gap. |
| Layout.ZeroCutUndefined | src/rect_tree_viewer/code/private/rect_tree_draw_data.cpp:112-113 | Splitting a region of value 0 into two groups divides 0 by 0, and every rectangle placed below it has a NaN coordinate. |
| Layout.SplitAreaProportional | src/rect_tree_viewer/code/private/rect_tree_draw_data.cpp:112-113 | A cut at `first / total` gives the first piece the share `first / total` of the area and the second piece the share `(total - first) / total`. |
| Layout.PlaceArea | src/rect_tree_viewer/code/private/rect_tree_draw_data.cpp:91-128 | Each node that gets a defined rectangle gets the share of the region's area that its value has in the region's value (area times region value equals region area times node value). |
| Layout.GreedyPlanWeights | src/rect_tree_viewer/code/private/rect_tree_draw_data.cpp:96-99 | A one-node region of the greedy split carries that node's own value. |
| Layout.PopRegion | src/rect_tree_viewer/code/private/rect_tree_draw_data.cpp:91-128 | One pass of the stack loop either stores a one-node region's rectangle or pushes the two halves. The stack invariant holds afterwards and the loop measure drops. |
| Layout.LayOutRegions | src/rect_tree_viewer/code/private/rect_tree_draw_data.cpp:87-128 | When the stack is empty, the rectangles of the sorted children are those the greedy split tree places in the start rectangle, and no other rectangle changed. |
| Layout.HandleChildrenOfNode | src/rect_tree_viewer/code/private/rect_tree_draw_data.cpp:75-128 | For one node, the children in descending order get exactly the greedy placement inside the padded rectangle. Everything else is unchanged, and a childless node changes nothing. The same code is repeated at rect_tree_viewer_main.cpp:154-245. |
| DrawData.InitialRects | src/rect_tree_viewer/code/private/rect_tree_draw_data.cpp:18-19 | One rectangle per node; node 0 gets (-1, -1) with size (2, 2). |
| DrawData.Create | src/rect_tree_viewer/code/private/rect_tree_draw_data.cpp:8-132 | One rectangle per node, node 0's is the square (-1,-1)/(2,2), and every node's children are laid out inside its padded rectangle. |
| DrawData.NodeStep | src/rect_tree_viewer/code/private/rect_tree_draw_data.cpp:73-129 | Laying out one node keeps the layout of every earlier node. |
| DrawData.ChildrenAfterParent | src/rect_tree_viewer/code/private/rect_tree_draw_data.cpp:73-88 | Children have larger ids than their parent, so a node's rectangle is final before it is subdivided. |
| DrawData.NodeGeometry | src/rect_tree_viewer/code/private/rect_tree_draw_data.cpp:91-128 | A NaN parent rectangle leaves NaN children. Otherwise the children lie inside the padded rectangle without overlapping, and they cover it when the value is positive or there is one child. |
| DrawData.ChildAreaShare | src/rect_tree_viewer/code/private/rect_tree_draw_data.cpp:73-128 | A child with a rectangle has a parent with one, and its area is the parent's padded area times the child's value over the parent's value. |
| DrawData.RectNonNegative | src/rect_tree_viewer/code/private/rect_tree_draw_data.cpp:73-129 | Every defined rectangle of the layout has non-negative extents. |
| DrawData.ChildWithinParent | src/rect_tree_viewer/code/private/rect_tree_draw_data.cpp:73-88 | A child's rectangle lies inside its parent's padded rectangle, and so inside the parent's rectangle. |
| DrawData.SiblingsDisjoint | src/rect_tree_viewer/code/private/rect_tree_draw_data.cpp:91-128 | The rectangles of two siblings do not overlap. |
| DrawData.ChildrenCoverInner | src/rect_tree_viewer/code/private/rect_tree_draw_data.cpp:91-128 | With a positive value or a single child, every point of the padded rectangle lies in some child's rectangle. |
| Viewer.RootLabel | src/rect_tree_viewer/code/private/rect_tree_viewer_app.cpp:37-44 | No synthetic root for exactly one path; otherwise the label is "SELECTION". |
| Viewer.AcceptedRootLabel | src/rect_tree_viewer/code/private/rect_tree_viewer_app.cpp:37-44 | For any path list the constructor accepts, a synthetic root is asked for iff there is more than one path. |
| Viewer.CheckRootPaths | src/rect_tree_viewer/code/private/rect_tree_viewer_app.hpp:92-95 | Fails with "Expected at least one path" iff the list is empty; otherwise keeps the paths. |
| Viewer.NewApp | src/rect_tree_viewer/code/private/rect_tree_viewer_app.hpp:92-95 | Construction fails iff the path list is empty. Otherwise the new app keeps the paths and starts valid and empty. |
| Viewer.App.constructor | src/rect_tree_viewer/code/private/rect_tree_viewer_app.hpp:92-95 | An accepted path list gives a valid app with no nodes, rectangles or root map. |
| Viewer.App.Initialize | src/rect_tree_viewer/code/private/rect_tree_viewer_app.cpp:46-143 | With the 0.97 shrink factor there is one rectangle per node, node 0 gets the root square, and every node's children are laid out in its padded rectangle. The root map must index the root paths. |
| Viewer.FirstContaining | src/rect_tree_viewer/code/private/rect_tree_viewer_app.cpp:208-217 | Gives the first child in list order whose rectangle contains the point, and none iff no child's does. |
| Viewer.FirstContainingIndex | src/rect_tree_viewer/code/private/rect_tree_viewer_app.cpp:208-217 | The inner loop stops at that first containing child, or runs to the end when there is none. |
| Viewer.FindNodeAt | src/rect_tree_viewer/code/private/rect_tree_viewer_app.cpp:196-226 | The result is the descent from node 0 into the first containing child in `GetChildren` order, or none outside the root rectangle. The same code is repeated at rect_tree_viewer_main.cpp:307-337. |
| Viewer.App.FindNode | src/rect_tree_viewer/code/private/rect_tree_viewer_app.cpp:196-226 | The app's hit test on its own nodes and rectangles. |
| Viewer.FindNodeAtProperties | src/rect_tree_viewer/code/private/rect_tree_viewer_app.cpp:198-225 | The result is none iff there are no rectangles or the root's does not contain the point. Otherwise it is node 0 or a descendant whose rectangle contains the point and none of whose children's rectangles does. |
| Viewer.HitFromProperties | src/rect_tree_viewer/code/private/rect_tree_viewer_app.cpp:203-223 | Descending from a containing node ends, below it, at a containing node with no containing child. |
| Viewer.HitInPadding | src/rect_tree_viewer/code/private/rect_tree_viewer_app.cpp:196-226 | On the app's layout, a point that lands on a node with a positive value and children lies in its padding, not its inner rectangle. |
| Viewer.Join | src/rect_tree_viewer/code/private/rect_tree_viewer_app.cpp:240 | The format is `{}` while the path is empty and `{}/{}` after. |
| Viewer.FullPathWithSuffix | src/rect_tree_viewer/code/private/rect_tree_viewer_app.cpp:233-254 | Walking up in front of a non-empty suffix gives the components joined by single slashes, then a slash and the suffix. |
| Viewer.FullPathIsJoinedComponents | src/rect_tree_viewer/code/private/rect_tree_viewer_app.cpp:233-254 | With a non-empty own component, the path is the components from the stopping node down, with a slash only between them. |
| Viewer.ComponentsStartAtRoot | src/rect_tree_viewer/code/private/rect_tree_viewer_app.cpp:238-253 | The first component is that of the first ancestor-or-self that is in the root map or has no parent; no node between it and the start is in the root map or parentless. A root-map node contributes only its root path. |
| Viewer.ReplaceBackslashes | src/rect_tree_viewer/code/private/rect_tree_viewer_app.cpp:256-259 | Every backslash becomes a slash and every other character is kept, so the result holds no backslash. |
| Viewer.App.GetNodeFullPath | src/rect_tree_viewer/code/private/rect_tree_viewer_app.cpp:228-262 | The result is the walked path with backslashes turned into slashes, and contains no backslash. |
| Viewer.PickSizeUnit | src/rect_tree_viewer/code/private/rect_tree_viewer_app.cpp:264-272 | "b" keeps the size and means even the kB quotient is at most 1.001. Any other unit shows a quotient above 1.001. |
| Viewer.PickSizeUnitIsFirstUnit | src/rect_tree_viewer/code/private/rect_tree_viewer_app.cpp:264-272 | The result is the first PB/TB/GB/MB/kB entry whose quotient exceeds 1.001, with the size over that unit's power. Every larger unit's quotient stays at or below 1.001. The same code is repeated at rect_tree_viewer_main.cpp:357-365. |
| Viewer.SizeUnitMonotone | src/rect_tree_viewer/code/private/rect_tree_viewer_app.cpp:264-272 | A larger size never drops to bytes, nor out of PB. |
| LegacyViewer.AncestorNames | src/rect_tree_viewer/code/private/rect_tree_viewer_main.cpp:339-355 | The names on the way from the root down to the node, ending with the node's own name. |
| LegacyViewer.AncestorNamesStartAtRoot | src/rect_tree_viewer/code/private/rect_tree_viewer_main.cpp:345-353 | The walk up always reaches node 0, whose name comes first. |
| LegacyViewer.PrependAncestor | src/rect_tree_viewer/code/private/rect_tree_viewer_main.cpp:347-352 | Each pass puts one ancestor's name and a slash in front and moves to a smaller id. |
| LegacyViewer.LegacyApp.constructor | src/rect_tree_viewer/code/private/rect_tree_viewer_main.cpp:457-458 | The older app starts with no nodes and no rectangles. |
| LegacyViewer.LegacyApp.Initialize | src/rect_tree_viewer/code/private/rect_tree_viewer_main.cpp:145-250 | The tree mirrors the root entry with additive values. The layout is the greedy layout with the 0.97 shrink factor and the root square. |
| LegacyViewer.LegacyApp.FindNode | src/rect_tree_viewer/code/private/rect_tree_viewer_main.cpp:307-337 | The older app's hit test is the shared one on its own nodes and rectangles. |
| LegacyViewer.LegacyApp.GetNodeFullPath | src/rect_tree_viewer/code/private/rect_tree_viewer_main.cpp:339-355 | The result is every name from the root down to the node, joined by '/'. |

## Left out

- Filesystem access: `fs::is_regular_file`, `fs::file_size`, `fs::directory_iterator` and the `stem()` and `filename()` of a path become the input datatype `DirectoryTree.Entry`. Errors they throw propagate in the source and are not modelled.
- Symbolic links: `fs::is_directory` and `fs::is_regular_file` follow them, so a link to an ancestor directory makes the source's walk run forever. The finite `DirectoryTree.Entry` datatype cannot express such a cycle, and the termination of `DirectoryTree.Walk` rests on that.
- `ReadDirectoryTreeMulti` is not part of this model. `Viewer.App.Initialize` takes its node array and root map as inputs.
- The older app's fixed default `root_path_` is replaced by an `Entry` parameter of `LegacyViewer.LegacyApp.Initialize`.
- Floating point: `long double` values are natural numbers and `float` coordinates are exact reals. The `static_cast<float>` narrowing and rounding in the split and the padding are not modelled. A NaN coordinate is modelled as `None`.
- `std::ranges::sort` is modelled by an insertion sort that promises only a permutation by descending value. `DrawData.NodeLaidOut` holds for some such order, because the source fixes no tie order.
- `Region`'s default member initialiser `value = 0`: every region in the model is built with its value.
- GUI, rendering and input are out of scope: ImGui, `Painter2d`, OpenGL, `Tick`, `DrawGUI`, the camera files, viewport transforms, mouse and scroll events, fonts, and the random colours.
- The Win32 file dialog and the wide-string path helpers are foreign calls.
- `WriteNodesGraphToJSON` is JSON output to a file.
- DrawData.Create: requires every parent's value to equal the sum of its children's, which the tree builder guarantees (`DirectoryTree.ReadDirectoryTree`). Without it the greedy loop (`rect_tree_draw_data.cpp:107`) can read past the end of the slice, and the source has no guard.
- Viewer.App.Initialize: requires the tree to be well formed and additive, and the root map to index the root paths. Those are the properties of `ReadDirectoryTreeMulti`'s result that the rest of the app relies on.
- Viewer.App.GetNodeFullPath: requires every root-map value to index `root_paths_`, which the source indexes unchecked.
- Viewer.FullPathIsJoinedComponents: is stated for a node whose own component is non-empty. With an empty name, `"{}"` is used while the path is still empty, so that component and its slash are dropped; `Viewer.FullPath` models this exactly.
- Layout.PlaceCovers: no-gap is stated only when the region's value is positive or it holds a single child. With value 0, the 0/0 split gives NaN rectangles (see `Layout.ZeroCutUndefined`).
- Viewer.PickSizeUnit: the division and the comparison with 1.001 are exact, not `long double`.
