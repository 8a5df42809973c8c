/**
 * `SelectionTracker` (src/editing/selection_tracker.js): each end of the
 * selection is remembered relative to a node (before it, after it, before
 * or after all children of a container), so that it can be followed while
 * nodes are removed and turned back into a container and an offset when
 * the command sets its ending selection.
 */
module SelectionTracking {
  import opened NodeForest
  import opened NodeWalks
  import opened Selections
  import opened EditingContexts
  import opened EditingTree

  datatype StartOrEnd = Start | End

  /** `TrackingType`; `AtNode` is `NODE`, the position just before the node. */
  datatype TrackingType = AfterNode | AfterAllChildren | BeforeAllChildren | AtNode

  /** `type_` and `node_` of a `TrackablePosition`; the node is missing when `childNodes[k]` was out of range. */
  datatype Tracked = Tracked(kind: TrackingType, node: Option<NodeId>)

  /** `NodeAndOffset`. */
  datatype NodeAndOffset = NodeAndOffset(node: Option<NodeId>, offset: int)

  // ---------------------------------------------------------------------
  // Classifying a position
  // ---------------------------------------------------------------------

  /**
   * `new TrackablePosition(node, offset, startOrEnd)` as written: its second
   * test calls `editing.nodes.maxOffset`, which `editing.nodes` does not
   * define, so it throws for every container that has children.
   */
  function TrackAsWritten(cs: seq<NodeId>, container: NodeId, offset: int, which: StartOrEnd): Option<Tracked> {
    if cs == [] then Some(Tracked(BeforeAllChildren, Some(container))) else None
  }

  /**
   * `new TrackablePosition(node, offset, startOrEnd)` with the end test
   * reading `maxOffset` of the container (`max`): an empty container is
   * tracked on itself, the end of a container after its last child, a
   * non-zero END offset after the child before it, and anything else
   * before the child at the offset.
   */
  function Track(cs: seq<NodeId>, max: nat, container: NodeId, offset: int, which: StartOrEnd): (t: Tracked)
    ensures t.kind == BeforeAllChildren <==> cs == []
    ensures t.kind == BeforeAllChildren ==> t.node == Some(container)
    ensures t.kind == AfterAllChildren <==> cs != [] && offset == max
    ensures t.kind == AfterAllChildren ==> t.node == Some(cs[|cs| - 1])
    ensures t.kind == AfterNode <==> cs != [] && offset != max && offset != 0 && which == End
    ensures t.kind == AfterNode ==> t.node == ChildAt(cs, offset - 1)
    ensures t.kind == AtNode ==> t.node == ChildAt(cs, offset)
  {
    if cs == [] then Tracked(BeforeAllChildren, Some(container))
    else if offset == max then Tracked(AfterAllChildren, Some(cs[|cs| - 1]))
    else if offset != 0 && which == End then Tracked(AfterNode, ChildAt(cs, offset - 1))
    else Tracked(AtNode, ChildAt(cs, offset))
  }

  /** The constructor as written throws for a container with children; the corrected one does not. */
  lemma TrackAsWrittenThrows(cs: seq<NodeId>, container: NodeId, offset: int, which: StartOrEnd)
    requires cs != []
    ensures TrackAsWritten(cs, container, offset, which).None?
    ensures Track(cs, |cs|, container, offset, which).node.Some? <==> offset == |cs| || 0 <= offset < |cs|
  {
  }

  // ---------------------------------------------------------------------
  // Converting back
  // ---------------------------------------------------------------------

  /**
   * `convertToNodeAndOffset()` as written: the AFTER_ALL_CHILDREN case
   * calls the undefined `editing.nodes.maxOffset` and throws; the others
   * are as in `Convert`.
   */
  ghost function ConvertAsWritten(L: map<NodeId, Links>, C: map<NodeId, seq<NodeId>>, t: Tracked): Option<NodeAndOffset>
    requires Shape(L, C) && (t.node.Some? ==> t.node.value in L)
  {
    if t.kind == AfterAllChildren then None else Convert(L, C, t)
  }

  /**
   * `convertToNodeAndOffset()`, the AFTER_ALL_CHILDREN case giving the
   * parent's child count (its `maxOffset`): the parent and the node's index (plus one after
   * it), or the node itself and 0 for BEFORE_ALL_CHILDREN. A missing node,
   * or a node without a parent, throws (None).
   */
  ghost function Convert(L: map<NodeId, Links>, C: map<NodeId, seq<NodeId>>, t: Tracked): (r: Option<NodeAndOffset>)
    requires Shape(L, C) && (t.node.Some? ==> t.node.value in L)
    ensures t.kind == BeforeAllChildren ==> r == Some(NodeAndOffset(t.node, 0))
    ensures t.kind != BeforeAllChildren ==> (r.Some? <==> t.node.Some? && L[t.node.value].parent.Some?)
    ensures r.Some? && t.kind != BeforeAllChildren ==> r.value.node == L[t.node.value].parent
  {
    if t.kind == BeforeAllChildren then Some(NodeAndOffset(t.node, 0))
    else if t.node.None? || L[t.node.value].parent.None? then None
    else
      var n := t.node.value;
      ChildPosition(L, C, n);
      var p := L[n].parent.value;
      var index := Pos(C[p], n);
      match t.kind
      case AfterNode => Some(NodeAndOffset(Some(p), index + 1))
      case AfterAllChildren => Some(NodeAndOffset(Some(p), |C[p]|))
      case AtNode => Some(NodeAndOffset(Some(p), index))
  }

  /** The k-th child of p has p as its parent and sits at position k. */
  lemma ChildIndex(L: map<NodeId, Links>, C: map<NodeId, seq<NodeId>>, p: NodeId, k: nat)
    requires Shape(L, C) && p in L && k < |C[p]|
    ensures C[p][k] in L && L[C[p][k]].parent == Some(p) && Pos(C[p], C[p][k]) == k
  {
    assert ListOk(L, p, C[p]);
    assert MemberOk(L, p, C[p], k);
  }

  /**
   * Tracking a valid position of an element and converting it back, with
   * nothing removed in between, gives the same container and offset.
   */
  lemma TrackConvert(L: map<NodeId, Links>, C: map<NodeId, seq<NodeId>>, p: NodeId, offset: int, which: StartOrEnd)
    requires Shape(L, C) && p in L && 0 <= offset <= |C[p]|
    ensures var t := Track(C[p], |C[p]|, p, offset, which);
            (t.node.Some? ==> t.node.value in L) && Convert(L, C, t) == Some(NodeAndOffset(Some(p), offset))
  {
    var cs := C[p];
    var t := Track(cs, |cs|, p, offset, which);
    if cs == [] {
    } else if offset == |cs| {
      ChildIndex(L, C, p, |cs| - 1);
      assert t == Tracked(AfterAllChildren, Some(cs[|cs| - 1]));
    } else if offset != 0 && which == End {
      ChildIndex(L, C, p, offset - 1);
      assert t == Tracked(AfterNode, Some(cs[offset - 1]));
    } else {
      ChildIndex(L, C, p, offset);
      assert t == Tracked(AtNode, Some(cs[offset]));
    }
  }

  /** As written, a position tracked after all children cannot be converted back. */
  lemma ConvertAsWrittenThrows(L: map<NodeId, Links>, C: map<NodeId, seq<NodeId>>, p: NodeId)
    requires Shape(L, C) && p in L && C[p] != []
    ensures var t := Track(C[p], |C[p]|, p, |C[p]|, Start);
            t.node.Some? && t.node.value in L && ConvertAsWritten(L, C, t).None? &&
            Convert(L, C, t) == Some(NodeAndOffset(Some(p), |C[p]|))
  {
    TrackConvert(L, C, p, |C[p]|, Start);
  }

  // ---------------------------------------------------------------------
  // Following removals
  // ---------------------------------------------------------------------

  /**
   * `willRemoveNode(node)` on one position: nothing happens unless it
   * tracks that node; then AFTER_ALL_CHILDREN moves before the node that
   * follows the removed one's subtree, and the other kinds move after the
   * node that precedes it.
   */
  ghost function WillRemove(L: map<NodeId, Links>, C: map<NodeId, seq<NodeId>>, R: map<NodeId, nat>, t: Tracked, n: NodeId): Tracked
    requires Wf(L, C, R) && n in L
  {
    if t.node != Some(n) then t
    else
      WfTree(L, C, R);
      match t.kind
      case AfterNode => Tracked(AfterNode, Previous(L, R, n))
      case AfterAllChildren => Tracked(AtNode, Skip(L, R, n))
      case BeforeAllChildren => Tracked(AfterNode, Previous(L, R, n))
      case AtNode => Tracked(AfterNode, Previous(L, R, n))
  }

  /** The node before n in document order is not inside n's subtree. */
  lemma PreviousNotBelow(L: map<NodeId, Links>, R: map<NodeId, nat>, n: NodeId)
    requires Tree(L, R) && n in L && Previous(L, R, n).Some?
    ensures !Under(L, R, Previous(L, R, n).value, n)
  {
    assert NodeOk(L, n);
    var q := Previous(L, R, n).value;
    if L[n].previousSibling.None? {
      if Under(L, R, q, n) {
        UnderRank(L, R, q, n);
      }
    } else {
      var s := L[n].previousSibling.value;
      assert NodeOk(L, s);
      if Under(L, R, q, n) {
        UnderTotal(L, R, q, s, n);
        var p := L[n].parent.value;
        if Under(L, R, s, n) {
          UnderParent(L, R, s, n);
          UnderRank(L, R, p, n);
        } else {
          UnderParent(L, R, n, s);
          UnderRank(L, R, p, s);
        }
      }
    }
  }

  /**
   * After `willRemoveNode(n)` a position that tracked n tracks a node
   * outside n's subtree, so the removal cannot take it away; any other
   * position is left alone.
   */
  lemma WillRemoveLeavesSubtree(L: map<NodeId, Links>, C: map<NodeId, seq<NodeId>>, R: map<NodeId, nat>, t: Tracked, n: NodeId)
    requires Wf(L, C, R) && n in L
    ensures t.node != Some(n) ==> WillRemove(L, C, R, t, n) == t
    ensures var t' := WillRemove(L, C, R, t, n);
            t.node == Some(n) && t'.node.Some? ==> t'.node.value in L && !Under(L, R, t'.node.value, n)
    ensures t.node == Some(n) ==> WillRemove(L, C, R, t, n).kind == if t.kind == AfterAllChildren then AtNode else AfterNode
  {
    WfTree(L, C, R);
    if t.node == Some(n) {
      if t.kind == AfterAllChildren {
        SkipNotBelow(L, R, n);
      } else if Previous(L, R, n).Some? {
        PreviousNotBelow(L, R, n);
      }
    }
  }

  // ---------------------------------------------------------------------
  // The ending selection
  // ---------------------------------------------------------------------

  /**
   * `setEndingSelection()` as written: both branches of the direction test
   * take the start as the anchor and the end as the focus.
   */
  function EndingAsWritten(start: NodeAndOffset, end: NodeAndOffset, direction: Direction): ReadOnlySelection {
    ReadOnlySelection(start.node, start.offset, end.node, end.offset, direction)
  }

  /** `setEndingSelection()` with the FOCUS_IS_START branch taking the end as the anchor. */
  function Ending(start: NodeAndOffset, end: NodeAndOffset, direction: Direction): (s: ReadOnlySelection)
    ensures s.direction == direction
    ensures s.StartContainer() == start.node && s.StartOffset() == start.offset
    ensures s.EndContainer() == end.node && s.EndOffset() == end.offset
  {
    if direction == AnchorIsStart then ReadOnlySelection(start.node, start.offset, end.node, end.offset, direction)
    else ReadOnlySelection(end.node, end.offset, start.node, start.offset, direction)
  }

  /** A selection whose containers are in the tree, with offsets in range. */
  ghost predicate InTree(L: map<NodeId, Links>, C: map<NodeId, seq<NodeId>>, sel: EditingSelection) {
    C.Keys == L.Keys &&
    sel.anchorNode.Some? && sel.anchorNode.value in L && 0 <= sel.anchorOffset <= |C[sel.anchorNode.value]| &&
    sel.focusNode.Some? && sel.focusNode.value in L && 0 <= sel.focusOffset <= |C[sel.focusNode.value]|
  }

  /**
   * With nothing removed, tracking both ends of a selection and setting
   * the ending selection gives back the selection itself.
   */
  lemma EndingKeepsSelection(L: map<NodeId, Links>, C: map<NodeId, seq<NodeId>>, sel: EditingSelection)
    requires Shape(L, C) && InTree(L, C, sel)
    ensures var s, e := sel.StartContainer().value, sel.EndContainer().value;
            var ts, te := Track(C[s], |C[s]|, s, sel.StartOffset(), Start), Track(C[e], |C[e]|, e, sel.EndOffset(), End);
            (ts.node.Some? ==> ts.node.value in L) && (te.node.Some? ==> te.node.value in L) &&
            Convert(L, C, ts).Some? && Convert(L, C, te).Some? &&
            Ending(Convert(L, C, ts).value, Convert(L, C, te).value, sel.Direction()) == sel.Snapshot()
  {
    TrackConvert(L, C, sel.StartContainer().value, sel.StartOffset(), Start);
    TrackConvert(L, C, sel.EndContainer().value, sel.EndOffset(), End);
  }

  /**
   * As written, a FOCUS_IS_START selection comes back with anchor and
   * focus swapped: here focus (p, 0) and anchor (p, 1) become anchor (p, 0)
   * and focus (p, 1).
   */
  lemma EndingAsWrittenSwaps(p: NodeId)
    ensures var sel := EditingSelection(false, Some(p), 1, Some(p), 0, []);
            var start, end := NodeAndOffset(sel.StartContainer(), sel.StartOffset()), NodeAndOffset(sel.EndContainer(), sel.EndOffset());
            EndingAsWritten(start, end, sel.Direction()) != sel.Snapshot() &&
            Ending(start, end, sel.Direction()) == sel.Snapshot()
  {
  }

  // ---------------------------------------------------------------------
  // The objects
  // ---------------------------------------------------------------------

  /** `TrackablePosition`. */
  class TrackablePosition {
    var kind: TrackingType
    var node: Option<NodeId>

    function State(): Tracked
      reads this
    {
      Tracked(kind, node)
    }

    /** `new TrackablePosition(node, offset, startOrEnd)`, with the end test on the container's `maxOffset`. */
    constructor (tree: NodeTree, container: NodeId, offset: int, which: StartOrEnd)
      requires tree.Valid() && container in tree.links
      ensures State() == Track(tree.children[container], MaxOffsetOf(tree.data[container], tree.children[container]),
                               container, offset, which)
    {
      var cs := tree.ChildNodes(container);
      var max := tree.MaxOffset(container);
      assert max == MaxOffsetOf(tree.data[container], cs);
      if cs == [] {
        kind, node := BeforeAllChildren, Some(container);
      } else if max == offset {
        kind, node := AfterAllChildren, Some(cs[|cs| - 1]);
      } else if offset != 0 && which == End {
        kind, node := AfterNode, ChildAt(cs, offset - 1);
      } else {
        kind, node := AtNode, ChildAt(cs, offset);
      }
    }

    /** `convertToNodeAndOffset()`: None when it throws. */
    method ConvertToNodeAndOffset(tree: NodeTree) returns (r: Option<NodeAndOffset>)
      requires tree.Valid() && (node.Some? ==> node.value in tree.links)
      ensures r == Convert(tree.links, tree.children, State())
    {
      if kind == BeforeAllChildren {
        return Some(NodeAndOffset(node, 0));
      }
      if node.None? {
        return None;
      }
      var n := node.value;
      var index := tree.NodeIndex(n);
      if index.None? {
        return None;
      }
      var p := tree.links[n].parent.value;
      ghost var cs := tree.children[p];
      Children(tree.links, tree.children, tree.rank, p);
      assert cs[index.value] == n && Pos(cs, n) < |cs| && cs[Pos(cs, n)] == n;
      if kind == AfterNode {
        r := Some(NodeAndOffset(Some(p), index.value + 1));
      } else if kind == AfterAllChildren {
        var children := tree.ChildNodes(p);
        r := Some(NodeAndOffset(Some(p), |children|));
      } else {
        r := Some(NodeAndOffset(Some(p), index.value));
      }
    }

    /** `willRemoveNode(node, startOrEnd)`. */
    method WillRemoveNode(tree: NodeTree, n: NodeId)
      requires tree.Valid() && n in tree.links
      modifies this
      ensures State() == WillRemove(tree.links, tree.children, tree.rank, old(State()), n)
    {
      if node != Some(n) {
        return;
      }
      WfTree(tree.links, tree.children, tree.rank);
      if kind == AfterAllChildren {
        kind := AtNode;
        node := NextNodeSkippingChildren(tree.links, tree.rank, n);
      } else {
        kind := AfterNode;
        node := PreviousNode(tree.links, tree.rank, n);
      }
    }
  }

  /** `SelectionTracker`: one position for the start of the context's selection and one for its end. */
  class SelectionTracker {
    const context: EditingContext
    const start: TrackablePosition
    const end: TrackablePosition

    /** `new SelectionTracker(context)` for a selection with both containers. */
    constructor (context: EditingContext, tree: NodeTree)
      requires tree.Valid()
      requires context.selection.StartContainer().Some? && context.selection.StartContainer().value in tree.links
      requires context.selection.EndContainer().Some? && context.selection.EndContainer().value in tree.links
      ensures this.context == context && start != end
      ensures var s := context.selection.StartContainer().value;
              start.State() == Track(tree.children[s], MaxOffsetOf(tree.data[s], tree.children[s]), s,
                                     context.selection.StartOffset(), Start)
      ensures var e := context.selection.EndContainer().value;
              end.State() == Track(tree.children[e], MaxOffsetOf(tree.data[e], tree.children[e]), e,
                                   context.selection.EndOffset(), End)
    {
      this.context := context;
      var selection := context.selection;
      start := new TrackablePosition(tree, selection.StartContainer().value, selection.StartOffset(), Start);
      end := new TrackablePosition(tree, selection.EndContainer().value, selection.EndOffset(), End);
    }

    /**
     * `setEndingSelection()`, anchor and focus taken by the direction: it
     * throws when a position cannot be converted or the ending selection
     * is already set.
     */
    method SetEndingSelection(tree: NodeTree) returns (ok: bool)
      requires tree.Valid()
      requires start.node.Some? ==> start.node.value in tree.links
      requires end.node.Some? ==> end.node.value in tree.links
      modifies context
      ensures var s, e := Convert(tree.links, tree.children, start.State()), Convert(tree.links, tree.children, end.State());
              (ok <==> s.Some? && e.Some? && old(context.endingSelection).None?) &&
              (ok ==> context.endingSelection == Some(Ending(s.value, e.value, context.selection.Direction())))
      ensures !ok ==> context.endingSelection == old(context.endingSelection)
      ensures context.instructions == old(context.instructions) && context.hashCode == old(context.hashCode)
      ensures context.startingSelection == old(context.startingSelection) && context.selection == old(context.selection)
    {
      var anchor := start.ConvertToNodeAndOffset(tree);
      var focus := end.ConvertToNodeAndOffset(tree);
      if anchor.None? || focus.None? {
        return false;
      }
      ok := context.SetEndingSelection(Some(Ending(anchor.value, focus.value, context.selection.Direction())));
    }

    /** `willRemoveNode(node)`: both positions follow the removal. */
    method WillRemoveNode(tree: NodeTree, n: NodeId)
      requires tree.Valid() && n in tree.links && start != end
      modifies start, end
      ensures start.State() == WillRemove(tree.links, tree.children, tree.rank, old(start.State()), n)
      ensures end.State() == WillRemove(tree.links, tree.children, tree.rank, old(end.State()), n)
    {
      start.WillRemoveNode(tree, n);
      end.WillRemoveNode(tree, n);
    }
  }

  /**
   * A tracker made and finished with nothing removed in between sets the
   * ending selection to the selection it started from.
   */
  method TrackUnchanged(context: EditingContext, tree: NodeTree) returns (ok: bool)
    requires tree.Valid() && InTree(tree.links, tree.children, context.selection)
    requires tree.data[context.selection.anchorNode.value].kind != TextNode
    requires tree.data[context.selection.focusNode.value].kind != TextNode
    requires context.endingSelection.None?
    modifies context
    ensures ok && context.endingSelection == Some(context.selection.Snapshot())
  {
    var tracker := new SelectionTracker(context, tree);
    EndingKeepsSelection(tree.links, tree.children, context.selection);
    ok := tracker.SetEndingSelection(tree);
  }

  /** `maxOffset` of a node: its text's length for a text node, else its number of children. */
  function MaxOffsetOf(d: NodeData, cs: seq<NodeId>): nat {
    if d.kind == TextNode then |NodeValue(d).value| else |cs|
  }
}
