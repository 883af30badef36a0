/**
 * `ReadDirectoryTree` of `read_directory_tree.hpp`: a stack-driven walk that
 * allocates one node per directory entry and prepends it to its parent's
 * child list, followed by one reverse pass that adds every node's value into
 * its parent's.
 *
 * The filesystem is an input value: an entry is a regular file with a byte
 * size, a directory with its enumerated entries, or something else.
 */
module DirectoryTree {
  import opened Wrappers
  import opened Tree

  datatype Kind = RegularFile(size: nat) | Directory(entries: seq<Entry>) | OtherKind

  /** A directory entry: `stem` and `fileName` are what `path().stem()` and
    * `path().filename()` return for it. */
  datatype Entry = Entry(stem: string, fileName: string, kind: Kind)

  /** The number of entries in the subtree of `e`, `e` included. */
  function EntryCount(e: Entry): nat
  {
    1 + match e.kind
        case Directory(es) => EntriesCount(es)
        case _ => 0
  }

  function EntriesCount(es: seq<Entry>): nat
  {
    if es == [] then 0 else EntryCount(es[0]) + EntriesCount(es[1..])
  }

  /** The total size of the regular files in the subtree of `e`. */
  function FileBytes(e: Entry): nat
  {
    match e.kind
    case RegularFile(size) => size
    case Directory(es) => FilesBytes(es)
    case OtherKind => 0
  }

  function FilesBytes(es: seq<Entry>): nat
  {
    if es == [] then 0 else FileBytes(es[0]) + FilesBytes(es[1..])
  }

  function Reversed<T>(s: seq<T>): (r: seq<T>)
    ensures |r| == |s|
  {
    if s == [] then [] else [s[|s| - 1]] + Reversed(s[..|s| - 1])
  }

  /** One element of the walk stack: an entry and the id of its node. */
  datatype WalkEntry = WalkEntry(entry: Entry, id: nat)

  function StackCount(stack: seq<WalkEntry>): nat
  {
    if stack == [] then 0 else StackCount(stack[..|stack| - 1]) + EntryCount(stack[|stack| - 1].entry)
  }

  ghost function StackIds(stack: seq<WalkEntry>): set<nat>
  {
    set k | 0 <= k < |stack| :: stack[k].id
  }

  /** The entries of the children of node `x`, in child-list order. */
  ghost function ChildEntries(nodes: seq<Node>, origin: seq<Entry>, x: nat): seq<Entry>
    requires LinksOk(nodes) && |origin| == |nodes| && x < |nodes|
  {
    EntriesOf(origin, Children(nodes, x))
  }

  /** The entries the nodes listed in `c` were made for. */
  ghost function EntriesOf(origin: seq<Entry>, c: seq<nat>): (r: seq<Entry>)
    requires forall k :: 0 <= k < |c| ==> c[k] < |origin|
    ensures |r| == |c| && forall k :: 0 <= k < |c| ==> r[k] == origin[c[k]]
  {
    seq(|c|, k requires 0 <= k < |c| => origin[c[k]])
  }

  /** Node `x` was made for entry `origin[x]`, which the walk has finished with;
    * its value is its initial one (no propagation yet). */
  ghost predicate Visited(nodes: seq<Node>, origin: seq<Entry>, x: nat)
    requires LinksOk(nodes) && |origin| == |nodes| && x < |nodes|
  {
    var e := origin[x];
    match e.kind
    case RegularFile(size) =>
      nodes[x].name == e.fileName && nodes[x].value == size && nodes[x].firstChild.None?
    case Directory(es) =>
      nodes[x].name == e.stem && nodes[x].value == 0 && ChildEntries(nodes, origin, x) == Reversed(es)
    case OtherKind =>
      nodes[x].name == e.stem && nodes[x].value == 0 && nodes[x].firstChild.None?
  }

  /** Node `x` was allocated for `origin[x]`, which is still on the walk stack. */
  ghost predicate Pending(nodes: seq<Node>, origin: seq<Entry>, x: nat)
    requires |origin| == |nodes| && x < |nodes|
  {
    nodes[x].name == origin[x].stem && nodes[x].value == 0 && nodes[x].firstChild.None?
  }

  /** What holds of the walk state whenever a stack element has been fully handled. */
  ghost predicate WalkBase(root: Entry, nodes: seq<Node>, origin: seq<Entry>, stack: seq<WalkEntry>)
  {
    && |nodes| > 0 && LinksOk(nodes) && ChildListsComplete(nodes)
    && |origin| == |nodes| && origin[0] == root
    && (forall k :: 0 <= k < |stack| ==>
          stack[k].id < |nodes| && origin[stack[k].id] == stack[k].entry && Pending(nodes, origin, stack[k].id))
    && (forall a, b :: 0 <= a < b < |stack| ==> stack[a].id < stack[b].id)
  }

  ghost predicate WalkInvariant(root: Entry, nodes: seq<Node>, origin: seq<Entry>, stack: seq<WalkEntry>)
  {
    && WalkBase(root, nodes, origin, stack)
    && (forall x :: 0 <= x < |nodes| ==> x in StackIds(stack) || Visited(nodes, origin, x))
    && |nodes| + StackCount(stack) == EntryCount(root) + |stack|
  }

  /** The state while directory node `t` with entries `es` is being expanded
    * and its first `j` entries have been given nodes. */
  ghost predicate Expanding(root: Entry, nodes: seq<Node>, origin: seq<Entry>, stack: seq<WalkEntry>,
                            t: nat, es: seq<Entry>, j: nat)
  {
    && WalkBase(root, nodes, origin, stack)
    && t < |nodes| && origin[t].kind == Directory(es) && j <= |es|
    && nodes[t].name == origin[t].stem && nodes[t].value == 0
    && ChildEntries(nodes, origin, t) == Reversed(es[..j])
    && t !in StackIds(stack)
    && (forall x :: 0 <= x < |nodes| ==> x == t || x in StackIds(stack) || Visited(nodes, origin, x))
    && |nodes| + StackCount(stack) + EntriesCount(es[j..]) == EntryCount(root) + |stack|
  }

  /** The node array after allocating node `|nodes|` under `t` and prepending it
    * to `t`'s child list (lines 43-51 of the source). */
  function WithPrependedChild(nodes: seq<Node>, t: nat, name: string): seq<Node>
    requires t < |nodes|
  {
    var withChild := nodes + [Node(name, 0, Some(t), None, nodes[t].firstChild)];
    withChild[t := withChild[t].(firstChild := Some(|nodes|))]
  }

  lemma {:induction false} PrependChildLinks(nodes: seq<Node>, t: nat, name: string)
    requires LinksOk(nodes) && t < |nodes|
    ensures LinksOk(WithPrependedChild(nodes, t, name))
  {
    var nodes' := WithPrependedChild(nodes, t, name);
    assert NodeLinksOk(nodes, t);
    forall i | 0 <= i < |nodes'| ensures NodeLinksOk(nodes', i) {
      if i < |nodes| {
        assert NodeLinksOk(nodes, i);
      }
    }
  }

  lemma {:induction false} PrependChildChildren(nodes: seq<Node>, t: nat, name: string)
    requires LinksOk(nodes) && t < |nodes|
    ensures LinksOk(WithPrependedChild(nodes, t, name))
    ensures Children(WithPrependedChild(nodes, t, name), t) == [|nodes|] + Children(nodes, t)
    ensures Children(WithPrependedChild(nodes, t, name), |nodes|) == []
    ensures forall x :: 0 <= x < |nodes| && x != t ==>
              Children(WithPrependedChild(nodes, t, name), x) == Children(nodes, x)
  {
    var nodes' := WithPrependedChild(nodes, t, name);
    PrependChildLinks(nodes, t, name);
    forall x | 0 <= x < |nodes| && x != t ensures Children(nodes', x) == Children(nodes, x) {
      assert NodeLinksOk(nodes, x);
      ChainFromAfterAppend(nodes, nodes', nodes[x].firstChild);
    }
    assert NodeLinksOk(nodes, t);
    ChainFromAfterAppend(nodes, nodes', nodes[t].firstChild);
    assert Children(nodes', t) == [|nodes|] + ChainFrom(nodes', nodes'[|nodes|].nextSibling);
  }

  lemma {:induction false} PrependChildComplete(nodes: seq<Node>, t: nat, name: string)
    requires LinksOk(nodes) && ChildListsComplete(nodes) && t < |nodes|
    ensures LinksOk(WithPrependedChild(nodes, t, name))
    ensures ChildListsComplete(WithPrependedChild(nodes, t, name))
  {
    var nodes' := WithPrependedChild(nodes, t, name);
    PrependChildChildren(nodes, t, name);
    forall x | 0 < x < |nodes'|
      ensures NodeLinksOk(nodes', x) && x in Children(nodes', nodes'[x].parent.value)
    {
      if x < |nodes| {
        assert NodeLinksOk(nodes, x);
        assert x in Children(nodes, nodes[x].parent.value);
      }
    }
  }

  /** Prepending a child to `t` changes nothing that `Visited` says about another node. */
  lemma {:induction false} VisitedAfterPrepend(nodes: seq<Node>, origin: seq<Entry>, t: nat, e: Entry, x: nat)
    requires LinksOk(nodes) && |origin| == |nodes| && t < |nodes| && x < |nodes| && x != t
    requires Visited(nodes, origin, x)
    ensures LinksOk(WithPrependedChild(nodes, t, e.stem))
    ensures Visited(WithPrependedChild(nodes, t, e.stem), origin + [e], x)
  {
    var nodes' := WithPrependedChild(nodes, t, e.stem);
    var origin' := origin + [e];
    PrependChildChildren(nodes, t, e.stem);
    var c := Children(nodes, x);
    assert Children(nodes', x) == c;
    assert ChildEntries(nodes', origin', x) == ChildEntries(nodes, origin, x);
  }

  /** `Reversed` of a one-longer prefix puts the new element in front. */
  lemma {:induction false} ReversedPrefixStep<T>(s: seq<T>, j: nat)
    requires j < |s|
    ensures Reversed(s[..j + 1]) == [s[j]] + Reversed(s[..j])
  {
    assert s[..j + 1][..j] == s[..j];
  }

  lemma {:induction false} EntriesCountStep(es: seq<Entry>, j: nat)
    requires j < |es|
    ensures EntriesCount(es[j..]) == EntryCount(es[j]) + EntriesCount(es[j + 1..])
  {
    assert es[j..][1..] == es[j + 1..];
  }

  lemma {:induction false} StackCountPush(stack: seq<WalkEntry>, w: WalkEntry)
    ensures StackCount(stack + [w]) == StackCount(stack) + EntryCount(w.entry)
  {
    assert (stack + [w])[..|stack|] == stack;
  }

  lemma {:induction false} ExpandStepBase(root: Entry, nodes: seq<Node>, origin: seq<Entry>, stack: seq<WalkEntry>,
                       t: nat, e: Entry)
    requires WalkBase(root, nodes, origin, stack) && t < |nodes| && t !in StackIds(stack)
    ensures WalkBase(root, WithPrependedChild(nodes, t, e.stem), origin + [e],
                     stack + [WalkEntry(e, |nodes|)])
  {
    var c := |nodes|;
    var nodes' := WithPrependedChild(nodes, t, e.stem);
    var origin' := origin + [e];
    var stack' := stack + [WalkEntry(e, c)];
    PrependChildComplete(nodes, t, e.stem);
    forall k | 0 <= k < |stack'|
      ensures stack'[k].id < |nodes'| && origin'[stack'[k].id] == stack'[k].entry
      ensures Pending(nodes', origin', stack'[k].id)
    {
      if k < |stack| {
        assert stack[k].id in StackIds(stack);
      }
    }
  }

  lemma {:induction false} StackIdsPush(stack: seq<WalkEntry>, w: WalkEntry)
    ensures StackIds(stack + [w]) == StackIds(stack) + {w.id}
  {
    var stack' := stack + [w];
    forall y | y in StackIds(stack) ensures y in StackIds(stack') {
      var k :| 0 <= k < |stack| && stack[k].id == y;
      assert stack'[k].id == y;
    }
    assert stack'[|stack|].id == w.id;
  }

  lemma {:induction false} ExpandStepChildEntries(nodes: seq<Node>, origin: seq<Entry>, t: nat, es: seq<Entry>, j: nat)
    requires LinksOk(nodes) && |origin| == |nodes| && t < |nodes| && j < |es|
    requires ChildEntries(nodes, origin, t) == Reversed(es[..j])
    ensures LinksOk(WithPrependedChild(nodes, t, es[j].stem))
    ensures ChildEntries(WithPrependedChild(nodes, t, es[j].stem), origin + [es[j]], t) == Reversed(es[..j + 1])
  {
    var nodes' := WithPrependedChild(nodes, t, es[j].stem);
    PrependChildChildren(nodes, t, es[j].stem);
    ReversedPrefixStep(es, j);
    assert Children(nodes', t) == [|nodes|] + Children(nodes, t);
  }

  lemma {:induction false} ExpandStepVisited(nodes: seq<Node>, origin: seq<Entry>, ids: set<nat>, t: nat, e: Entry)
    requires LinksOk(nodes) && |origin| == |nodes| && t < |nodes|
    requires forall x :: 0 <= x < |nodes| ==> x == t || x in ids || Visited(nodes, origin, x)
    ensures LinksOk(WithPrependedChild(nodes, t, e.stem))
    ensures forall x :: 0 <= x < |nodes| + 1 ==>
              x == t || x in ids + {|nodes|} || Visited(WithPrependedChild(nodes, t, e.stem), origin + [e], x)
  {
    PrependChildLinks(nodes, t, e.stem);
    forall x | 0 <= x < |nodes| + 1 && x != t && x !in ids + {|nodes|}
      ensures Visited(WithPrependedChild(nodes, t, e.stem), origin + [e], x)
    {
      VisitedAfterPrepend(nodes, origin, t, e, x);
    }
  }

  /** One iteration of the loop over a directory's entries keeps `Expanding`. */
  lemma {:induction false} ExpandStep(root: Entry, nodes: seq<Node>, origin: seq<Entry>, stack: seq<WalkEntry>,
                   t: nat, es: seq<Entry>, j: nat)
    requires Expanding(root, nodes, origin, stack, t, es, j) && j < |es|
    ensures Expanding(root, WithPrependedChild(nodes, t, es[j].stem), origin + [es[j]],
                      stack + [WalkEntry(es[j], |nodes|)], t, es, j + 1)
  {
    ExpandStepBase(root, nodes, origin, stack, t, es[j]);
    ExpandStepChildEntries(nodes, origin, t, es, j);
    ExpandStepVisited(nodes, origin, StackIds(stack), t, es[j]);
    StackIdsPush(stack, WalkEntry(es[j], |nodes|));
    EntriesCountStep(es, j);
    StackCountPush(stack, WalkEntry(es[j], |nodes|));
  }

  /** Popping `w` off the walk stack keeps the stack part of `WalkBase`. */
  lemma {:induction false} PopStack(root: Entry, nodes: seq<Node>, origin: seq<Entry>, stack: seq<WalkEntry>, w: WalkEntry)
    requires WalkBase(root, nodes, origin, stack + [w])
    ensures WalkBase(root, nodes, origin, stack)
    ensures w.id < |nodes| && origin[w.id] == w.entry && Pending(nodes, origin, w.id)
    ensures w.id !in StackIds(stack) && StackIds(stack + [w]) == StackIds(stack) + {w.id}
    ensures StackCount(stack + [w]) == StackCount(stack) + EntryCount(w.entry)
  {
    var stack' := stack + [w];
    assert stack'[|stack|] == w;
    StackIdsPush(stack, w);
    StackCountPush(stack, w);
    forall k | 0 <= k < |stack| ensures stack[k].id != w.id {
      assert stack'[k] == stack[k];
    }
    forall k | 0 <= k < |stack|
      ensures stack[k].id < |nodes| && origin[stack[k].id] == stack[k].entry && Pending(nodes, origin, stack[k].id)
    {
      assert stack'[k] == stack[k];
    }
    forall a, b | 0 <= a < b < |stack| ensures stack[a].id < stack[b].id {
      assert stack'[a] == stack[a] && stack'[b] == stack[b];
    }
  }

  /** The node array after a popped regular file gets its name and size (lines 33-38). */
  function WithFileInfo(nodes: seq<Node>, id: nat, fileName: string, size: nat): seq<Node>
    requires id < |nodes|
  {
    nodes[id := nodes[id].(name := fileName, value := size)]
  }

  lemma {:induction false} FileInfoKeepsBase(root: Entry, nodes: seq<Node>, origin: seq<Entry>, stack: seq<WalkEntry>,
                          id: nat, fileName: string, size: nat)
    requires WalkBase(root, nodes, origin, stack) && id < |nodes| && id !in StackIds(stack)
    ensures WalkBase(root, WithFileInfo(nodes, id, fileName, size), origin, stack)
  {
    var nodes' := WithFileInfo(nodes, id, fileName, size);
    SameLinksKeepShape(nodes, nodes');
    forall k | 0 <= k < |stack| ensures Pending(nodes', origin, stack[k].id) {
      assert stack[k].id in StackIds(stack);
    }
  }

  lemma {:induction false} FileInfoKeepsVisited(nodes: seq<Node>, origin: seq<Entry>, id: nat, fileName: string, size: nat, x: nat)
    requires LinksOk(nodes) && |origin| == |nodes| && id < |nodes| && x < |nodes| && x != id
    requires Visited(nodes, origin, x)
    ensures LinksOk(WithFileInfo(nodes, id, fileName, size))
    ensures Visited(WithFileInfo(nodes, id, fileName, size), origin, x)
  {
    var nodes' := WithFileInfo(nodes, id, fileName, size);
    SameLinksKeepShape(nodes, nodes');
    assert ChildEntries(nodes', origin, x) == ChildEntries(nodes, origin, x);
  }

  /** Handling a popped regular file sets its name and size and finishes it. */
  lemma {:induction false} VisitFile(root: Entry, nodes: seq<Node>, origin: seq<Entry>, stack: seq<WalkEntry>, w: WalkEntry, size: nat)
    requires WalkInvariant(root, nodes, origin, stack + [w]) && w.entry.kind == RegularFile(size)
    ensures w.id < |nodes|
    ensures WalkInvariant(root, WithFileInfo(nodes, w.id, w.entry.fileName, size), origin, stack)
  {
    PopStack(root, nodes, origin, stack, w);
    var nodes' := WithFileInfo(nodes, w.id, w.entry.fileName, size);
    FileInfoKeepsBase(root, nodes, origin, stack, w.id, w.entry.fileName, size);
    forall x | 0 <= x < |nodes'| && x !in StackIds(stack) ensures Visited(nodes', origin, x) {
      if x != w.id {
        FileInfoKeepsVisited(nodes, origin, w.id, w.entry.fileName, size, x);
      }
    }
  }

  /** Popping an entry that is neither a file nor a directory finishes it unchanged. */
  lemma {:induction false} VisitOther(root: Entry, nodes: seq<Node>, origin: seq<Entry>, stack: seq<WalkEntry>, w: WalkEntry)
    requires WalkInvariant(root, nodes, origin, stack + [w]) && w.entry.kind.OtherKind?
    ensures WalkInvariant(root, nodes, origin, stack)
  {
    PopStack(root, nodes, origin, stack, w);
  }

  /** Popping a directory starts the loop over its entries. */
  lemma {:induction false} StartDirectory(root: Entry, nodes: seq<Node>, origin: seq<Entry>, stack: seq<WalkEntry>,
                       w: WalkEntry, es: seq<Entry>)
    requires WalkInvariant(root, nodes, origin, stack + [w]) && w.entry.kind == Directory(es)
    ensures Expanding(root, nodes, origin, stack, w.id, es, 0)
  {
    PopStack(root, nodes, origin, stack, w);
    assert NodeLinksOk(nodes, w.id);
    assert es[..0] == [];
    assert es[0..] == es;
  }

  /** Once every entry of the directory has a node, the directory is finished. */
  lemma {:induction false} FinishDirectory(root: Entry, nodes: seq<Node>, origin: seq<Entry>, stack: seq<WalkEntry>,
                        t: nat, es: seq<Entry>)
    requires Expanding(root, nodes, origin, stack, t, es, |es|)
    ensures WalkInvariant(root, nodes, origin, stack)
  {
    assert es[..|es|] == es;
    assert es[|es|..] == [];
  }

  /** The loop over `fs::directory_iterator` for directory node `id` (lines 41-57):
    * each entry gets the next free id, is prepended to `id`'s child list and is
    * pushed on the walk stack, in enumeration order. */
  method ExpandDirectory(ghost root: Entry, nodes0: seq<Node>, ghost origin0: seq<Entry>,
                         stack0: seq<WalkEntry>, id: nat, es: seq<Entry>)
    returns (nodes: seq<Node>, ghost origin: seq<Entry>, stack: seq<WalkEntry>)
    requires Expanding(root, nodes0, origin0, stack0, id, es, 0)
    ensures Expanding(root, nodes, origin, stack, id, es, |es|)
    ensures |nodes| == |nodes0| + |es|
    ensures |stack| == |stack0| + |es|
  {
    nodes, origin, stack := nodes0, origin0, stack0;
    assert es[..0] == [];
    for j := 0 to |es|
      invariant Expanding(root, nodes, origin, stack, id, es, j)
      invariant |nodes| == |nodes0| + j
      invariant |stack| == |stack0| + j
    {
      ghost var before := nodes;
      var childId := |nodes|;
      ExpandStep(root, nodes, origin, stack, id, es, j);
      nodes := nodes + [Node(es[j].stem, 0, Some(id), None, nodes[id].firstChild)];
      nodes := nodes[id := nodes[id].(firstChild := Some(childId))];
      assert nodes == WithPrependedChild(before, id, es[j].stem);
      origin := origin + [es[j]];
      stack := stack + [WalkEntry(es[j], childId)];
    }
    assert es[..|es|] == es;
  }

  /** The stack-driven walk (lines 19-59): node 0 is made for the root, then every
    * popped file gets its name and size and every popped directory gets one new
    * node per entry. At the end every node is `Visited`, that is, mirrors its entry. */
  method Walk(root: Entry) returns (nodes: seq<Node>, ghost origin: seq<Entry>)
    ensures WellFormed(nodes)
    ensures |nodes| == EntryCount(root) && |origin| == |nodes| && origin[0] == root
    ensures forall x :: 0 <= x < |nodes| ==> Visited(nodes, origin, x)
  {
    nodes := [Node(root.stem, 0, None, None, None)];
    origin := [root];
    var stack := [WalkEntry(root, 0)];
    assert NodeLinksOk(nodes, 0);
    assert StackCount(stack) == EntryCount(root) by {
      assert stack[..0] == [];
    }
    assert 0 in StackIds(stack) by {
      assert stack[0].id == 0;
    }
    while stack != []
      invariant WalkInvariant(root, nodes, origin, stack)
      decreases StackCount(stack)
    {
      ghost var before, before_nodes := stack, nodes;
      var w := stack[|stack| - 1];
      stack := stack[..|stack| - 1];
      assert before == stack + [w];
      StackCountPush(stack, w);
      match w.entry.kind {
        case RegularFile(size) =>
          VisitFile(root, nodes, origin, stack, w, size);
          nodes := nodes[w.id := nodes[w.id].(name := w.entry.fileName, value := size)];
          assert nodes == WithFileInfo(before_nodes, w.id, w.entry.fileName, size);
        case Directory(es) =>
          StartDirectory(root, nodes, origin, stack, w, es);
          nodes, origin, stack := ExpandDirectory(root, nodes, origin, stack, w.id, es);
          FinishDirectory(root, nodes, origin, stack, w.id, es);
        case OtherKind =>
          VisitOther(root, nodes, origin, stack, w);
      }
    }
  }

  /** Appending nodes and changing no `nextSibling` leaves old chains alone. */
  lemma {:induction false} ChainFromAfterAppend(nodes: seq<Node>, nodes': seq<Node>, start: Option<nat>)
    requires LinksOk(nodes) && LinksOk(nodes') && |nodes| <= |nodes'|
    requires forall y :: 0 <= y < |nodes| ==> nodes'[y].nextSibling == nodes[y].nextSibling
    requires start.Some? ==> start.value < |nodes|
    ensures ChainFrom(nodes', start) == ChainFrom(nodes, start)
    decreases if start.Some? then start.value + 1 else 0
  {
    if start.Some? {
      assert NodeLinksOk(nodes, start.value);
      ChainFromAfterAppend(nodes, nodes', nodes[start.value].nextSibling);
    }
  }

  /** The sum of the values of the nodes of `s` whose index is above `k`. */
  ghost function SumAbove(nodes: seq<Node>, s: seq<nat>, k: int): nat
    requires InBounds(nodes, s)
  {
    if s == [] then 0
    else SumAbove(nodes, s[..|s| - 1], k) + (if s[|s| - 1] > k then nodes[s[|s| - 1]].value else 0)
  }

  lemma {:induction false} SumAboveAll(nodes: seq<Node>, s: seq<nat>, k: int)
    requires InBounds(nodes, s) && forall i :: 0 <= i < |s| ==> s[i] > k
    ensures SumAbove(nodes, s, k) == SumValues(nodes, s)
    decreases |s|
  {
    if s != [] {
      SumAboveAll(nodes, s[..|s| - 1], k);
    }
  }

  lemma {:induction false} SumAboveNone(nodes: seq<Node>, s: seq<nat>, k: int)
    requires InBounds(nodes, s) && forall i :: 0 <= i < |s| ==> s[i] <= k
    ensures SumAbove(nodes, s, k) == 0
    decreases |s|
  {
    if s != [] {
      SumAboveNone(nodes, s[..|s| - 1], k);
    }
  }

  lemma {:induction false} SumAboveFrame(nodes: seq<Node>, other: seq<Node>, s: seq<nat>, k: int)
    requires InBounds(nodes, s) && InBounds(other, s)
    requires forall i :: 0 <= i < |s| && s[i] > k ==> nodes[s[i]].value == other[s[i]].value
    ensures SumAbove(nodes, s, k) == SumAbove(other, s, k)
    decreases |s|
  {
    if s != [] {
      SumAboveFrame(nodes, other, s[..|s| - 1], k);
    }
  }

  /** Lowering the bound by one adds the node `k` if it is listed. */
  lemma {:induction false} SumAboveStep(nodes: seq<Node>, s: seq<nat>, k: nat)
    requires InBounds(nodes, s) && Distinct(s)
    ensures SumAbove(nodes, s, k - 1) == SumAbove(nodes, s, k) + (if k in s then nodes[k].value else 0)
    decreases |s|
  {
    if s != [] {
      var init := s[..|s| - 1];
      assert Distinct(init);
      SumAboveStep(nodes, init, k);
      assert s == init + [s[|s| - 1]];
      if s[|s| - 1] == k {
        assert k !in init;
      }
    }
  }

  /** The state of the reverse pass once every node above `i` has been added
    * into its parent: each node holds its initial value plus the values of its
    * children above `i`. */
  ghost predicate Propagated(walked: seq<Node>, nodes: seq<Node>, i: int)
    requires LinksOk(walked)
  {
    && SameLinks(walked, nodes)
    && (forall x :: 0 <= x < |nodes| ==> nodes[x].name == walked[x].name)
    && (forall x {:trigger Children(walked, x)} :: 0 <= x < |nodes| ==>
          nodes[x].value == walked[x].value + SumAbove(nodes, Children(walked, x), i))
  }

  lemma {:induction false} PropagateStepAt(walked: seq<Node>, nodes: seq<Node>, i: nat, p: nat, x: nat)
    requires LinksOk(walked) && |nodes| == |walked| && p < i < |walked| && x < |walked|
    requires x == p <==> i in Children(walked, x)
    requires nodes[x].value == walked[x].value + SumAbove(nodes, Children(walked, x), i)
    ensures var nodes' := nodes[p := nodes[p].(value := nodes[p].value + nodes[i].value)];
            nodes'[x].value == walked[x].value + SumAbove(nodes', Children(walked, x), i - 1)
  {
    var nodes' := nodes[p := nodes[p].(value := nodes[p].value + nodes[i].value)];
    var c := Children(walked, x);
    SumAboveFrame(nodes, nodes', c, i - 1);
    SumAboveStep(nodes, c, i);
  }

  lemma {:induction false} PropagateStepValues(walked: seq<Node>, nodes: seq<Node>, i: nat, p: nat)
    requires LinksOk(walked) && 0 < i < |walked| && walked[i].parent == Some(p) && p < i
    requires i in Children(walked, p)
    requires Propagated(walked, nodes, i)
    ensures var nodes' := nodes[p := nodes[p].(value := nodes[p].value + nodes[i].value)];
            forall x {:trigger Children(walked, x)} :: 0 <= x < |nodes'| ==>
              nodes'[x].value == walked[x].value + SumAbove(nodes', Children(walked, x), i - 1)
  {
    var nodes' := nodes[p := nodes[p].(value := nodes[p].value + nodes[i].value)];
    forall x | 0 <= x < |walked|
      ensures nodes'[x].value == walked[x].value + SumAbove(nodes', Children(walked, x), i - 1)
    {
      assert x == p <==> i in Children(walked, x);
      PropagateStepAt(walked, nodes, i, p, x);
    }
  }

  /** Adding node `i` into its parent moves the cursor from `i` to `i - 1`. */
  lemma {:induction false} PropagateStep(walked: seq<Node>, nodes: seq<Node>, i: nat, p: nat)
    requires LinksOk(walked) && 0 < i < |walked| && walked[i].parent == Some(p) && p < i
    requires i in Children(walked, p)
    requires Propagated(walked, nodes, i)
    ensures nodes[i].parent == Some(p)
    ensures Propagated(walked, nodes[p := nodes[p].(value := nodes[p].value + nodes[i].value)], i - 1)
  {
    PropagateStepValues(walked, nodes, i, p);
    var nodes' := nodes[p := nodes[p].(value := nodes[p].value + nodes[i].value)];
    assert SameLinks(walked, nodes');
    assert forall x :: 0 <= x < |nodes'| ==> nodes'[x].name == walked[x].name;
  }

  /** The reverse pass (lines 61-68): nodes `|nodes| - 1` down to 1 each add their
    * value into their parent's. Afterwards every node holds its initial value
    * plus the final values of its children. */
  method PropagateValues(walked: seq<Node>) returns (nodes: seq<Node>)
    requires WellFormed(walked)
    ensures SameLinks(walked, nodes)
    ensures forall x :: 0 <= x < |nodes| ==> nodes[x].name == walked[x].name
    ensures forall x {:trigger Children(walked, x)} :: 0 <= x < |nodes| ==>
              nodes[x].value == walked[x].value + SumValues(nodes, Children(walked, x))
  {
    nodes := walked;
    var i := |nodes| - 1;
    forall x | 0 <= x < |nodes| ensures SumAbove(nodes, Children(walked, x), i) == 0 {
      SumAboveNone(nodes, Children(walked, x), i);
    }
    while i > 0
      invariant 0 <= i < |nodes|
      invariant Propagated(walked, nodes, i)
    {
      assert NodeLinksOk(walked, i);
      PropagateStep(walked, nodes, i, walked[i].parent.value);
      if nodes[i].parent.Some? {
        var parent := nodes[i].parent.value;
        nodes := nodes[parent := nodes[parent].(value := nodes[parent].value + nodes[i].value)];
      }
      i := i - 1;
    }
    forall x | 0 <= x < |nodes| ensures SumAbove(nodes, Children(walked, x), 0) == SumValues(nodes, Children(walked, x)) {
      SumAboveAll(nodes, Children(walked, x), 0);
    }
  }

  /** Node `x` of the finished tree mirrors its entry `origin[x]`: a regular file
    * has the file name and the size and no children, a directory has the stem,
    * its entries as children in reverse order and the sum of their values, and
    * any other entry has the stem, value 0 and no children. */
  ghost predicate Mirrors(nodes: seq<Node>, origin: seq<Entry>, x: nat)
    requires LinksOk(nodes) && |origin| == |nodes| && x < |nodes|
  {
    var e := origin[x];
    match e.kind
    case RegularFile(size) =>
      nodes[x].name == e.fileName && nodes[x].value == size && nodes[x].firstChild.None?
    case Directory(es) =>
      && nodes[x].name == e.stem && ChildEntries(nodes, origin, x) == Reversed(es)
      && nodes[x].value == SumValues(nodes, Children(nodes, x))
    case OtherKind =>
      nodes[x].name == e.stem && nodes[x].value == 0 && nodes[x].firstChild.None?
  }

  /** `nodes` is a well-formed tree whose node 0 mirrors `root` and whose every
    * node mirrors the entry `origin` assigns it. */
  ghost predicate MirrorsTree(root: Entry, nodes: seq<Node>, origin: seq<Entry>)
  {
    && WellFormed(nodes) && |origin| == |nodes| && origin[0] == root
    && forall x :: 0 <= x < |nodes| ==> Mirrors(nodes, origin, x)
  }

  lemma {:induction false} VisitedThenMirrors(walked: seq<Node>, nodes: seq<Node>, origin: seq<Entry>, x: nat)
    requires LinksOk(walked) && |origin| == |walked| && x < |walked|
    requires Visited(walked, origin, x)
    requires SameLinks(walked, nodes) && nodes[x].name == walked[x].name
    requires nodes[x].value == walked[x].value + SumValues(nodes, Children(walked, x))
    ensures LinksOk(nodes) && Mirrors(nodes, origin, x)
  {
    SameLinksKeepShape(walked, nodes);
    assert Children(nodes, x) == Children(walked, x);
    match origin[x].kind {
      case RegularFile(_) =>
        assert NodeLinksOk(walked, x);
      case Directory(_) =>
        assert ChildEntries(nodes, origin, x) == ChildEntries(walked, origin, x);
      case OtherKind =>
        assert NodeLinksOk(walked, x);
    }
  }

  /** In a mirroring tree every node that has children is a directory, so the
    * tree satisfies `ValuesAdd`. */
  lemma {:induction false} MirrorsValuesAdd(root: Entry, nodes: seq<Node>, origin: seq<Entry>)
    requires MirrorsTree(root, nodes, origin)
    ensures ValuesAdd(nodes)
  {
    forall x | 0 <= x < |nodes| && Children(nodes, x) != []
      ensures nodes[x].value == SumValues(nodes, Children(nodes, x))
    {
      assert Mirrors(nodes, origin, x);
      assert NodeLinksOk(nodes, x);
    }
  }

  lemma {:induction false} FilesBytesAppend(a: seq<Entry>, b: seq<Entry>)
    ensures FilesBytes(a + b) == FilesBytes(a) + FilesBytes(b)
    decreases |a|
  {
    if a != [] {
      assert (a + b)[1..] == a[1..] + b;
      FilesBytesAppend(a[1..], b);
    } else {
      assert a + b == b;
    }
  }

  /** The total size does not depend on the order of the entries. */
  lemma {:induction false} FilesBytesReversed(s: seq<Entry>)
    ensures FilesBytes(Reversed(s)) == FilesBytes(s)
    decreases |s|
  {
    if s != [] {
      var init, last := s[..|s| - 1], s[|s| - 1];
      FilesBytesReversed(init);
      assert ([last] + Reversed(init))[1..] == Reversed(init);
      assert s == init + [last];
      FilesBytesAppend(init, [last]);
      assert [last][1..] == [];
    }
  }

  lemma {:induction false} SumValuesIsFilesBytes(nodes: seq<Node>, origin: seq<Entry>, c: seq<nat>)
    requires InBounds(nodes, c) && |origin| == |nodes|
    requires forall k :: 0 <= k < |c| ==> nodes[c[k]].value == FileBytes(origin[c[k]])
    ensures SumValues(nodes, c) == FilesBytes(EntriesOf(origin, c))
    decreases |c|
  {
    if c != [] {
      var init := c[..|c| - 1];
      SumValuesIsFilesBytes(nodes, origin, init);
      assert EntriesOf(origin, c) == EntriesOf(origin, init) + [origin[c[|c| - 1]]];
      FilesBytesAppend(EntriesOf(origin, init), [origin[c[|c| - 1]]]);
      assert [origin[c[|c| - 1]]][1..] == [];
    }
  }

  /** Every node of a mirroring tree holds the total size of the regular files
    * below its entry; for node 0 that is the total under the root. */
  lemma {:induction false} ValueIsFileBytes(root: Entry, nodes: seq<Node>, origin: seq<Entry>, x: nat)
    requires MirrorsTree(root, nodes, origin) && x < |nodes|
    ensures nodes[x].value == FileBytes(origin[x])
    decreases |nodes| - x
  {
    assert Mirrors(nodes, origin, x);
    match origin[x].kind {
      case RegularFile(size) =>
      case OtherKind =>
      case Directory(es) =>
        var c := Children(nodes, x);
        forall k | 0 <= k < |c| ensures nodes[c[k]].value == FileBytes(origin[c[k]]) {
          ValueIsFileBytes(root, nodes, origin, c[k]);
        }
        SumValuesIsFilesBytes(nodes, origin, c);
        FilesBytesReversed(es);
    }
  }

  /** `ReadDirectoryTree`: the walk followed by the reverse pass. The result is a
    * well-formed tree with one node per entry, mirroring the entries, in which
    * every directory holds the sum of its children and node 0 the total size of
    * all regular files under the root. */
  method ReadDirectoryTree(root: Entry) returns (nodes: seq<Node>)
    ensures WellFormed(nodes) && |nodes| == EntryCount(root)
    ensures exists origin :: MirrorsTree(root, nodes, origin)
    ensures ValuesAdd(nodes)
    ensures nodes[0].value == FileBytes(root)
  {
    var walked;
    ghost var origin;
    walked, origin := Walk(root);
    nodes := PropagateValues(walked);
    SameLinksKeepShape(walked, nodes);
    forall x | 0 <= x < |nodes| ensures Mirrors(nodes, origin, x) {
      VisitedThenMirrors(walked, nodes, origin, x);
    }
    assert MirrorsTree(root, nodes, origin);
    MirrorsValuesAdd(root, nodes, origin);
    ValueIsFileBytes(root, nodes, origin, 0);
  }
}
