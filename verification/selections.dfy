/**
 * Selection values of the editing engine: `ReadOnlySelection`
 * (src/editing/read_only_selection.js), the getters of `EditingSelection`
 * (src/editing/editing_selection.js) and `EditingPosition`
 * (src/editing/editing_position.js). A selection names its anchor and
 * focus; the direction says which of the two is the start.
 */
module Selections {
  import opened NodeForest

  datatype Direction = AnchorIsStart | FocusIsStart

  // ---------------------------------------------------------------------
  // ReadOnlySelection
  // ---------------------------------------------------------------------

  /** The five sealed fields of a `ReadOnlySelection`; a null anchor makes it empty. */
  datatype ReadOnlySelection = ReadOnlySelection(anchorNode: Option<NodeId>, anchorOffset: int,
                                                 focusNode: Option<NodeId>, focusOffset: int,
                                                 direction: Direction)
  {
    predicate IsEmpty() {
      anchorNode.None?
    }

    predicate IsCaret() {
      !IsEmpty() && anchorNode == focusNode && anchorOffset == focusOffset
    }

    predicate IsRange() {
      !IsEmpty() && !IsCaret()
    }

    function StartContainer(): Option<NodeId> {
      if direction == AnchorIsStart then anchorNode else focusNode
    }

    function StartOffset(): int {
      if direction == AnchorIsStart then anchorOffset else focusOffset
    }

    function EndContainer(): Option<NodeId> {
      if direction == FocusIsStart then anchorNode else focusNode
    }

    function EndOffset(): int {
      if direction == FocusIsStart then anchorOffset else focusOffset
    }
  }

  /** A selection is exactly one of empty, caret and range. */
  lemma SelectionKinds(s: ReadOnlySelection)
    ensures s.IsEmpty() <==> s.anchorNode.None?
    ensures s.IsEmpty() ==> !s.IsCaret() && !s.IsRange()
    ensures s.IsCaret() ==> !s.IsEmpty() && !s.IsRange()
    ensures s.IsRange() ==> !s.IsEmpty() && !s.IsCaret()
    ensures s.IsEmpty() || s.IsCaret() || s.IsRange()
  {
  }

  /** The start and end are the anchor and the focus, one each, as the direction says. */
  lemma StartAndEnd(s: ReadOnlySelection)
    ensures s.direction == AnchorIsStart ==> (s.StartContainer(), s.StartOffset()) == (s.anchorNode, s.anchorOffset)
    ensures s.direction == AnchorIsStart ==> (s.EndContainer(), s.EndOffset()) == (s.focusNode, s.focusOffset)
    ensures s.direction == FocusIsStart ==> (s.StartContainer(), s.StartOffset()) == (s.focusNode, s.focusOffset)
    ensures s.direction == FocusIsStart ==> (s.EndContainer(), s.EndOffset()) == (s.anchorNode, s.anchorOffset)
    ensures multiset{(s.StartContainer(), s.StartOffset()), (s.EndContainer(), s.EndOffset())}
         == multiset{(s.anchorNode, s.anchorOffset), (s.focusNode, s.focusOffset)}
  {
  }

  /** A caret starts and ends at the same place, whichever way it points. */
  lemma CaretCollapsed(s: ReadOnlySelection)
    requires s.IsCaret()
    ensures s.StartContainer() == s.EndContainer() && s.StartOffset() == s.EndOffset()
  {
  }

  // ---------------------------------------------------------------------
  // EditingSelection, as its getters see it
  // ---------------------------------------------------------------------

  /**
   * The fields of an `EditingSelection` after construction: the containers,
   * offsets, `anchorIsStart_` and the collected `nodes_`.
   */
  datatype EditingSelection = EditingSelection(anchorIsStart: bool, anchorNode: Option<NodeId>, anchorOffset: int,
                                               focusNode: Option<NodeId>, focusOffset: int, nodes: seq<NodeId>)
  {
    function Direction(): Direction {
      if anchorIsStart then AnchorIsStart else FocusIsStart
    }

    predicate IsEmpty() {
      anchorNode.None?
    }

    predicate IsCaret() {
      !IsEmpty() && anchorNode == focusNode && anchorOffset == focusOffset
    }

    predicate IsRange() {
      !IsEmpty() && !IsCaret()
    }

    function StartContainer(): Option<NodeId> {
      if anchorIsStart then anchorNode else focusNode
    }

    function StartOffset(): int {
      if anchorIsStart then anchorOffset else focusOffset
    }

    function EndContainer(): Option<NodeId> {
      if anchorIsStart then focusNode else anchorNode
    }

    function EndOffset(): int {
      if anchorIsStart then focusOffset else anchorOffset
    }

    /** The `ReadOnlySelection` with the same anchor, focus and direction. */
    function Snapshot(): ReadOnlySelection {
      ReadOnlySelection(anchorNode, anchorOffset, focusNode, focusOffset, Direction())
    }
  }

  /**
   * The getters of `EditingSelection` agree with those of the
   * `ReadOnlySelection` taken from it.
   */
  lemma SnapshotAgrees(s: EditingSelection)
    ensures s.Snapshot().IsEmpty() == s.IsEmpty()
    ensures s.Snapshot().IsCaret() == s.IsCaret()
    ensures s.Snapshot().IsRange() == s.IsRange()
    ensures s.Snapshot().StartContainer() == s.StartContainer() && s.Snapshot().StartOffset() == s.StartOffset()
    ensures s.Snapshot().EndContainer() == s.EndContainer() && s.Snapshot().EndOffset() == s.EndOffset()
  {
  }

  // ---------------------------------------------------------------------
  // EditingPosition
  // ---------------------------------------------------------------------

  datatype Position = Position(containerNode: NodeId, offsetInContainer: int)

  /**
   * `new EditingPosition(container, offset)`. The bounds are only checked
   * by `console.assert`, which logs; but evaluating the text bound reads
   * `nodeValue.length`, which throws for a container with neither children
   * nor a value (an empty element).
   */
  function NewPosition(container: NodeId, hasChildren: bool, nodeValue: Option<string>, offset: int): (r: Option<Position>)
    ensures r.Some? <==> hasChildren || nodeValue.Some?
    ensures r.Some? ==> r.value.containerNode == container && r.value.offsetInContainer == offset
  {
    if hasChildren || nodeValue.Some? then Some(Position(container, offset)) else None
  }

  /** What the constructor asserts about the offset. */
  predicate InBounds(childCount: nat, nodeValue: Option<string>, offset: int) {
    0 <= offset &&
    (childCount > 0 ==> offset <= childCount) &&
    (childCount == 0 && nodeValue.Some? ==> offset <= |nodeValue.value|)
  }

  /** `equals`: same container and same offset. */
  function Equals(p: Position, q: Position): (r: bool)
    ensures r <==> p == q
  {
    p.containerNode == q.containerNode && p.offsetInContainer == q.offsetInContainer
  }

  /**
   * `nodeAtPosition`: null at the end of the child list, the child at the
   * offset inside it, and undefined beyond it.
   */
  function NodeAtPosition(childNodes: seq<NodeId>, p: Position): (r: Option<NodeId>)
    ensures p.offsetInContainer == |childNodes| ==> r.None?
    ensures 0 <= p.offsetInContainer < |childNodes| ==> r == Some(childNodes[p.offsetInContainer])
    ensures r.Some? ==> r.value in childNodes
  {
    if p.offsetInContainer == |childNodes| then None
    else if 0 <= p.offsetInContainer < |childNodes| then Some(childNodes[p.offsetInContainer])
    else None
  }

  /** Within the bounds, a position has a node exactly when it is not at the end. */
  lemma NodeAtPositionInBounds(childNodes: seq<NodeId>, p: Position)
    requires |childNodes| > 0 && InBounds(|childNodes|, None, p.offsetInContainer)
    ensures NodeAtPosition(childNodes, p).None? <==> p.offsetInContainer == |childNodes|
  {
  }
}
