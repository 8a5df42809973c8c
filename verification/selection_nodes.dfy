/**
 * The node walks of `EditingSelection` (src/editing/editing_selection.js):
 * `collectNodesInSelection` follows the `NextNodes` iterator in document
 * order from the start boundary up to the end boundary, and
 * `splitTextAndInsert` splits a text node at a selection end and puts the
 * second half right after it.
 */
module SelectionNodes {
  import opened NodeForest
  import opened NodeWalks
  import opened Selections
  import opened EditingTree
  import opened EditingContexts
  import opened NodeMoves

  // ---------------------------------------------------------------------
  // What is left of a pre-order walk
  // ---------------------------------------------------------------------

  /** Two children of one parent that both lie above m are the same child. */
  lemma SiblingsApart(L: map<NodeId, Links>, R: map<NodeId, nat>, m: NodeId, a: NodeId, b: NodeId)
    requires Ranked(L, R) && m in L && a in L && b in L && Under(L, R, m, a) && Under(L, R, m, b)
    requires L[a].parent.Some? && L[a].parent == L[b].parent
    ensures a == b
  {
    UnderTotal(L, R, m, a, b);
    if a != b {
      if Under(L, R, a, b) {
        UnderRank(L, R, L[a].parent.value, b);
      } else {
        UnderRank(L, R, L[b].parent.value, a);
      }
    }
  }

  /** The nodes at or below the siblings that follow n. */
  ghost function Later(L: map<NodeId, Links>, C: map<NodeId, seq<NodeId>>, R: map<NodeId, nat>, n: NodeId): set<NodeId>
    requires Wf(L, C, R) && n in L
  {
    if L[n].parent.None? then {}
    else
      ChildPosition(L, C, n);
      var cs := C[L[n].parent.value];
      var i := Pos(cs, n);
      set m | m in L && exists j | i < j < |cs| :: Under(L, R, m, cs[j])
  }

  /** The nodes a pre-order walk reaches after leaving n's subtree. */
  ghost function Pending(L: map<NodeId, Links>, C: map<NodeId, seq<NodeId>>, R: map<NodeId, nat>, n: NodeId): set<NodeId>
    requires Wf(L, C, R) && n in L
    decreases R[n]
  {
    if L[n].parent.None? then {} else Later(L, C, R, n) + Pending(L, C, R, L[n].parent.value)
  }

  /** The nodes a pre-order walk from n still visits, n included. */
  ghost function ToVisit(L: map<NodeId, Links>, C: map<NodeId, seq<NodeId>>, R: map<NodeId, nat>, n: NodeId): set<NodeId>
    requires Wf(L, C, R) && n in L
  {
    Desc(L, R, n) + Pending(L, C, R, n)
  }

  /** Nothing in n's subtree is pending after it. */
  lemma {:induction false} PendingApart(L: map<NodeId, Links>, C: map<NodeId, seq<NodeId>>, R: map<NodeId, nat>, n: NodeId, m: NodeId)
    requires Wf(L, C, R) && n in L && m in L && Under(L, R, m, n)
    ensures m !in Pending(L, C, R, n)
    decreases R[n]
  {
    if L[n].parent.Some? {
      var p := L[n].parent.value;
      ChildPosition(L, C, n);
      var cs := C[p];
      var i := Pos(cs, n);
      if m in Later(L, C, R, n) {
        var j :| i < j < |cs| && Under(L, R, m, cs[j]);
        ListMembers(L, C, p, cs[j]);
        SiblingsApart(L, R, m, n, cs[j]);
      }
      UnderParent(L, R, m, n);
      PendingApart(L, C, R, p, m);
    }
  }

  /** Stepping to the first child visits n and nothing new. */
  lemma FirstChildShrinks(L: map<NodeId, Links>, C: map<NodeId, seq<NodeId>>, R: map<NodeId, nat>, n: NodeId)
    requires Wf(L, C, R) && n in L && L[n].firstChild.Some?
    ensures L[n].firstChild.value in L
    ensures ToVisit(L, C, R, L[n].firstChild.value) < ToVisit(L, C, R, n)
    ensures n in ToVisit(L, C, R, n) && n !in ToVisit(L, C, R, L[n].firstChild.value)
  {
    var cs := C[n];
    assert ListOk(L, n, cs);
    var c := cs[0];
    assert MemberOk(L, n, cs, 0);
    ChildPosition(L, C, c);
    assert Pos(cs, c) == 0;
    forall m | m in Desc(L, R, c)
      ensures m in Desc(L, R, n)
    {
      UnderParent(L, R, m, c);
    }
    forall m | m in Later(L, C, R, c)
      ensures m in Desc(L, R, n)
    {
      var j :| 0 < j < |cs| && Under(L, R, m, cs[j]);
      assert MemberOk(L, n, cs, j);
      UnderParent(L, R, m, cs[j]);
    }
    assert Pending(L, C, R, c) == Later(L, C, R, c) + Pending(L, C, R, n);
    assert Under(L, R, n, n);
    PendingApart(L, C, R, n, n);
    if n in Desc(L, R, c) {
      UnderRank(L, R, n, c);
    }
    if n in Later(L, C, R, c) {
      var j :| 0 < j < |cs| && Under(L, R, n, cs[j]);
      assert MemberOk(L, n, cs, j);
      UnderRank(L, R, n, cs[j]);
    }
    assert n in ToVisit(L, C, R, n) && n !in ToVisit(L, C, R, c);
  }

  /** Everything a walk visits from Skip(n) on is pending after n. */
  lemma {:induction false} SkipWithin(L: map<NodeId, Links>, C: map<NodeId, seq<NodeId>>, R: map<NodeId, nat>, n: NodeId)
    requires Wf(L, C, R) && Tree(L, R) && n in L && Skip(L, R, n).Some?
    ensures ToVisit(L, C, R, Skip(L, R, n).value) <= Pending(L, C, R, n)
    decreases R[n]
  {
    assert NodeOk(L, n);
    if L[n].nextSibling.Some? {
      var p := L[n].parent.value;
      ChildPosition(L, C, n);
      var cs := C[p];
      var i := Pos(cs, n);
      var s := cs[i + 1];
      assert ListOk(L, p, cs);
      assert MemberOk(L, p, cs, i + 1);
      ChildPosition(L, C, s);
      assert Pos(cs, s) == i + 1;
      forall m | m in Desc(L, R, s)
        ensures m in Later(L, C, R, n)
      {
      }
      forall m | m in Later(L, C, R, s)
        ensures m in Later(L, C, R, n)
      {
        var j :| i + 1 < j < |cs| && Under(L, R, m, cs[j]);
      }
    } else {
      SkipWithin(L, C, R, L[n].parent.value);
    }
  }

  /** Each pre-order step leaves fewer nodes to visit. */
  lemma NextShrinks(L: map<NodeId, Links>, C: map<NodeId, seq<NodeId>>, R: map<NodeId, nat>, n: NodeId)
    requires Wf(L, C, R) && Tree(L, R) && n in L && Next(L, R, n).Some?
    ensures ToVisit(L, C, R, Next(L, R, n).value) < ToVisit(L, C, R, n)
    ensures n in ToVisit(L, C, R, n) && n !in ToVisit(L, C, R, Next(L, R, n).value)
  {
    if L[n].firstChild.Some? {
      FirstChildShrinks(L, C, R, n);
    } else {
      SkipWithin(L, C, R, n);
      assert Under(L, R, n, n);
      PendingApart(L, C, R, n, n);
      assert n in ToVisit(L, C, R, n);
    }
  }

  // ---------------------------------------------------------------------
  // The run of nodes between two boundaries
  // ---------------------------------------------------------------------

  /** The nodes from n on in document order, up to and without stop, or to the end. */
  ghost function Run(L: map<NodeId, Links>, C: map<NodeId, seq<NodeId>>, R: map<NodeId, nat>, n: NodeId, stop: Option<NodeId>)
    : seq<NodeId>
    requires Wf(L, C, R) && n in L
    decreases ToVisit(L, C, R, n)
  {
    if stop == Some(n) then []
    else
      WfTree(L, C, R);
      var next := Next(L, R, n);
      if next.None? then [n]
      else
        NextShrinks(L, C, R, n);
        [n] + Run(L, C, R, next.value, stop)
  }

  /** The run from an optional start: none without a start node. */
  ghost function RunFrom(L: map<NodeId, Links>, C: map<NodeId, seq<NodeId>>, R: map<NodeId, nat>, start: Option<NodeId>,
                         stop: Option<NodeId>): seq<NodeId>
    requires Wf(L, C, R) && (start.Some? ==> start.value in L)
  {
    if start.None? then [] else Run(L, C, R, start.value, stop)
  }

  /**
   * A run starts at n unless n is the stop, steps from each node to the
   * next in document order, and ends where the document ends or just
   * before the stop.
   */
  lemma {:induction false} RunSteps(L: map<NodeId, Links>, C: map<NodeId, seq<NodeId>>, R: map<NodeId, nat>, n: NodeId,
                                    stop: Option<NodeId>)
    requires Wf(L, C, R) && Tree(L, R) && n in L
    ensures Run(L, C, R, n, stop) == [] <==> stop == Some(n)
    ensures Run(L, C, R, n, stop) != [] ==> Run(L, C, R, n, stop)[0] == n
    ensures forall i | 0 <= i < |Run(L, C, R, n, stop)| :: Run(L, C, R, n, stop)[i] in L
    ensures forall i | 0 <= i < |Run(L, C, R, n, stop)| - 1 ::
              Next(L, R, Run(L, C, R, n, stop)[i]) == Some(Run(L, C, R, n, stop)[i + 1])
    ensures Run(L, C, R, n, stop) != [] ==>
              var last := Run(L, C, R, n, stop)[|Run(L, C, R, n, stop)| - 1];
              Next(L, R, last).None? || Next(L, R, last) == stop
    decreases ToVisit(L, C, R, n)
  {
    var next := Next(L, R, n);
    if stop != Some(n) && next.Some? {
      NextShrinks(L, C, R, n);
      RunSteps(L, C, R, next.value, stop);
      var rest := Run(L, C, R, next.value, stop);
      assert Run(L, C, R, n, stop) == [n] + rest;
      if rest == [] {
        assert Next(L, R, n) == stop;
      }
    }
  }

  /** A run visits only nodes still to be visited from its start, and never the stop. */
  lemma {:induction false} RunWithin(L: map<NodeId, Links>, C: map<NodeId, seq<NodeId>>, R: map<NodeId, nat>, n: NodeId,
                                     stop: Option<NodeId>)
    requires Wf(L, C, R) && Tree(L, R) && n in L
    ensures forall m | m in Run(L, C, R, n, stop) :: m in ToVisit(L, C, R, n) && Some(m) != stop
    decreases ToVisit(L, C, R, n)
  {
    var next := Next(L, R, n);
    if stop != Some(n) {
      assert Under(L, R, n, n);
      if next.Some? {
        NextShrinks(L, C, R, n);
        RunWithin(L, C, R, next.value, stop);
      }
    }
  }

  /** A run visits every node at most once. */
  lemma {:induction false} RunDistinct(L: map<NodeId, Links>, C: map<NodeId, seq<NodeId>>, R: map<NodeId, nat>, n: NodeId,
                                       stop: Option<NodeId>)
    requires Wf(L, C, R) && Tree(L, R) && n in L
    ensures Distinct(Run(L, C, R, n, stop))
    decreases ToVisit(L, C, R, n)
  {
    var next := Next(L, R, n);
    if stop != Some(n) && next.Some? {
      NextShrinks(L, C, R, n);
      RunDistinct(L, C, R, next.value, stop);
      RunWithin(L, C, R, next.value, stop);
      var rest := Run(L, C, R, next.value, stop);
      assert Run(L, C, R, n, stop) == [n] + rest;
      DistinctCons(n, rest);
    }
  }

  lemma DistinctCons(n: NodeId, rest: seq<NodeId>)
    requires Distinct(rest) && n !in rest
    ensures Distinct([n] + rest)
  {
    var r := [n] + rest;
    forall i, j | 0 <= i < j < |r|
      ensures r[i] != r[j]
    {
      if i == 0 {
        assert r[j] == rest[j - 1];
      } else {
        assert r[i] == rest[i - 1] && r[j] == rest[j - 1];
      }
    }
  }

  /**
   * The `NextNodes` iterator loop of `collectNodesInSelection`: push each
   * node until the end node comes up or the walk runs out.
   */
  method Walk(L: map<NodeId, Links>, ghost C: map<NodeId, seq<NodeId>>, ghost R: map<NodeId, nat>, start: NodeId,
              stop: Option<NodeId>) returns (nodes: seq<NodeId>)
    requires Wf(L, C, R) && start in L
    ensures nodes == Run(L, C, R, start, stop)
  {
    WfTree(L, C, R);
    nodes := [];
    var current := Some(start);
    while current.Some?
      invariant current.Some? ==> current.value in L
      invariant nodes + RunFrom(L, C, R, current, stop) == Run(L, C, R, start, stop)
      decreases if current.Some? then ToVisit(L, C, R, current.value) else {}
    {
      var n := current.value;
      if Some(n) == stop {
        break;
      }
      WalkStep(L, C, R, start, stop, nodes, n);
      nodes := nodes + [n];
      current := NextNode(L, R, n);
    }
  }

  /** One turn of `Walk`'s loop keeps what is pushed plus what remains equal to the run. */
  lemma WalkStep(L: map<NodeId, Links>, C: map<NodeId, seq<NodeId>>, R: map<NodeId, nat>, start: NodeId,
                 stop: Option<NodeId>, nodes: seq<NodeId>, n: NodeId)
    requires Wf(L, C, R) && Tree(L, R) && start in L && n in L && stop != Some(n)
    requires nodes + Run(L, C, R, n, stop) == Run(L, C, R, start, stop)
    ensures (nodes + [n]) + RunFrom(L, C, R, Next(L, R, n), stop) == Run(L, C, R, start, stop)
    ensures Next(L, R, n).Some? ==> ToVisit(L, C, R, Next(L, R, n).value) < ToVisit(L, C, R, n)
  {
    RunUnfold(L, C, R, n, stop);
    PushOne(nodes, n, RunFrom(L, C, R, Next(L, R, n), stop), Run(L, C, R, start, stop));
  }

  /** Moving one node from the remainder to the pushed part keeps the whole. */
  lemma PushOne(nodes: seq<NodeId>, n: NodeId, rest: seq<NodeId>, whole: seq<NodeId>)
    requires nodes + ([n] + rest) == whole
    ensures (nodes + [n]) + rest == whole
  {
    assert (nodes + [n]) + rest == nodes + ([n] + rest);
  }

  /** Away from the stop, a run is its first node followed by the run from the next one. */
  lemma RunUnfold(L: map<NodeId, Links>, C: map<NodeId, seq<NodeId>>, R: map<NodeId, nat>, n: NodeId, stop: Option<NodeId>)
    requires Wf(L, C, R) && Tree(L, R) && n in L && stop != Some(n)
    ensures Run(L, C, R, n, stop) == [n] + RunFrom(L, C, R, Next(L, R, n), stop)
    ensures Next(L, R, n).Some? ==> ToVisit(L, C, R, Next(L, R, n).value) < ToVisit(L, C, R, n)
  {
    if Next(L, R, n).Some? {
      NextShrinks(L, C, R, n);
    }
  }

  // ---------------------------------------------------------------------
  // collectNodesInSelection
  // ---------------------------------------------------------------------

  /** A non-empty selection names an anchor and a focus of the tree. */
  predicate Placed(L: map<NodeId, Links>, sel: EditingSelection) {
    sel.anchorNode.Some? ==> sel.anchorNode.value in L && sel.focusNode.Some? && sel.focusNode.value in L
  }

  /**
   * What `collectNodesInSelection` returns as written, or None where it
   * throws: a start offset past the children starts at
   * `nextNode(startContainer.lastChild)`, which throws for a container
   * without children, and an end offset past the children ends at null.
   */
  ghost function CollectedAsWritten(L: map<NodeId, Links>, C: map<NodeId, seq<NodeId>>, R: map<NodeId, nat>,
                                    sel: EditingSelection): Option<seq<NodeId>>
    requires Wf(L, C, R) && Placed(L, sel)
  {
    if sel.IsEmpty() then Some([])
    else
      var sc, ec := sel.StartContainer().value, sel.EndContainer().value;
      var first := ChildAt(C[sc], sel.StartOffset());
      ListMembersAll(L, C, sc);
      ListMembersAll(L, C, ec);
      if first.None? && L[sc].lastChild.None? then None
      else
        WfTree(L, C, R);
        var start := if first.Some? then first else Next(L, R, L[sc].lastChild.value);
        Some(RunFrom(L, C, R, start, ChildAt(C[ec], sel.EndOffset())))
  }

  /** The members of p's list are nodes, and p's last child is one of them. */
  lemma ListMembersAll(L: map<NodeId, Links>, C: map<NodeId, seq<NodeId>>, p: NodeId)
    requires Shape(L, C) && p in L
    ensures forall m | m in C[p] :: m in L
    ensures L[p].lastChild.Some? ==> L[p].lastChild.value in L
  {
    assert ListOk(L, p, C[p]);
    assert Within(L[p], L);
    forall m | m in C[p]
      ensures m in L
    {
      ListMembers(L, C, p, m);
    }
  }

  /**
   * The first node at or after the boundary (container, offset): the
   * child at the offset, or past the end of the list the node that follows
   * the container's subtree.
   */
  ghost function Boundary(L: map<NodeId, Links>, C: map<NodeId, seq<NodeId>>, R: map<NodeId, nat>,
                          container: NodeId, offset: int): (b: Option<NodeId>)
    requires Wf(L, C, R) && container in L
    ensures b.Some? ==> b.value in L
  {
    ListMembersAll(L, C, container);
    WfTree(L, C, R);
    if 0 <= offset < |C[container]| then Some(C[container][offset]) else Skip(L, R, container)
  }

  /** The nodes from the start boundary up to the end boundary, as intended. */
  ghost function Collected(L: map<NodeId, Links>, C: map<NodeId, seq<NodeId>>, R: map<NodeId, nat>,
                           sel: EditingSelection): seq<NodeId>
    requires Wf(L, C, R) && Placed(L, sel)
  {
    if sel.IsEmpty() then []
    else
      RunFrom(L, C, R, Boundary(L, C, R, sel.StartContainer().value, sel.StartOffset()),
              Boundary(L, C, R, sel.EndContainer().value, sel.EndOffset()))
  }

  /** `collectNodesInSelection(selection)` as written. */
  method CollectNodesAsWritten(tree: NodeTree, sel: EditingSelection) returns (r: Option<seq<NodeId>>)
    requires tree.Valid() && Placed(tree.links, sel)
    ensures r == CollectedAsWritten(tree.links, tree.children, tree.rank, sel)
  {
    if sel.IsEmpty() {
      return Some([]);
    }
    var sc, ec := sel.StartContainer().value, sel.EndContainer().value;
    var startNodes := tree.ChildNodes(sc);
    var startNode := ChildAt(startNodes, sel.StartOffset());
    ListMembersAll(tree.links, tree.children, sc);
    ListMembersAll(tree.links, tree.children, ec);
    WfTree(tree.links, tree.children, tree.rank);
    if startNode.None? {
      var last := tree.links[sc].lastChild;
      if last.None? {
        return None;
      }
      startNode := NextNode(tree.links, tree.rank, last.value);
    }
    var endNodes := tree.ChildNodes(ec);
    var endNode := ChildAt(endNodes, sel.EndOffset());
    if startNode.None? {
      return Some([]);
    }
    var nodes := Walk(tree.links, tree.children, tree.rank, startNode.value, endNode);
    return Some(nodes);
  }

  /** `collectNodesInSelection(selection)` with both boundaries resolved by `Boundary`. */
  method CollectNodes(tree: NodeTree, sel: EditingSelection) returns (nodes: seq<NodeId>)
    requires tree.Valid() && Placed(tree.links, sel)
    ensures nodes == Collected(tree.links, tree.children, tree.rank, sel)
    ensures sel.IsEmpty() ==> nodes == []
    ensures sel.IsCaret() ==> nodes == []
    ensures Distinct(nodes)
  {
    if sel.IsEmpty() {
      return [];
    }
    var sc, ec := sel.StartContainer().value, sel.EndContainer().value;
    var startNode := BoundaryNode(tree, sc, sel.StartOffset());
    var endNode := BoundaryNode(tree, ec, sel.EndOffset());
    if startNode.None? {
      return [];
    }
    nodes := Walk(tree.links, tree.children, tree.rank, startNode.value, endNode);
    WfTree(tree.links, tree.children, tree.rank);
    RunDistinct(tree.links, tree.children, tree.rank, startNode.value, endNode);
  }

  /** The child at the offset, or else `nextNodeSkippingChildren(container)`. */
  method BoundaryNode(tree: NodeTree, container: NodeId, offset: int) returns (b: Option<NodeId>)
    requires tree.Valid() && container in tree.links
    ensures b == Boundary(tree.links, tree.children, tree.rank, container, offset)
  {
    var cs := tree.ChildNodes(container);
    b := ChildAt(cs, offset);
    if b.None? {
      WfTree(tree.links, tree.children, tree.rank);
      b := NextNodeSkippingChildren(tree.links, tree.rank, container);
    }
  }

  /**
   * The collected nodes are the document-order run from the start
   * boundary: each is followed by the next, none is the end boundary, none
   * repeats, and the run stops at the end boundary or the end of the tree.
   */
  lemma CollectedIsRun(L: map<NodeId, Links>, C: map<NodeId, seq<NodeId>>, R: map<NodeId, nat>, sel: EditingSelection)
    requires Wf(L, C, R) && Placed(L, sel) && !sel.IsEmpty()
    ensures Tree(L, R)
    ensures var nodes := Collected(L, C, R, sel);
            var start := Boundary(L, C, R, sel.StartContainer().value, sel.StartOffset());
            var stop := Boundary(L, C, R, sel.EndContainer().value, sel.EndOffset());
            && (nodes != [] ==> Some(nodes[0]) == start)
            && (nodes == [] <==> start.None? || start == stop)
            && (forall i | 0 <= i < |nodes| :: nodes[i] in L && Some(nodes[i]) != stop)
            && (forall i | 0 <= i < |nodes| - 1 :: Next(L, R, nodes[i]) == Some(nodes[i + 1]))
            && (nodes != [] ==> Next(L, R, nodes[|nodes| - 1]).None? || Next(L, R, nodes[|nodes| - 1]) == stop)
            && Distinct(nodes)
  {
    WfTree(L, C, R);
    var start := Boundary(L, C, R, sel.StartContainer().value, sel.StartOffset());
    var stop := Boundary(L, C, R, sel.EndContainer().value, sel.EndOffset());
    if start.Some? {
      RunSteps(L, C, R, start.value, stop);
      RunWithin(L, C, R, start.value, stop);
      RunDistinct(L, C, R, start.value, stop);
    }
  }

  /** Where both boundaries name a child, the code as written collects the intended nodes. */
  lemma CollectedAgreeInside(L: map<NodeId, Links>, C: map<NodeId, seq<NodeId>>, R: map<NodeId, nat>, sel: EditingSelection)
    requires Wf(L, C, R) && Placed(L, sel) && !sel.IsEmpty()
    requires 0 <= sel.StartOffset() < |C[sel.StartContainer().value]| && 0 <= sel.EndOffset() < |C[sel.EndContainer().value]|
    ensures CollectedAsWritten(L, C, R, sel) == Some(Collected(L, C, R, sel))
  {
  }

  // ---------------------------------------------------------------------
  // A tree that shows the difference: 1[2, 3[4]], 2 without children
  // ---------------------------------------------------------------------

  const SampleLinks: map<NodeId, Links> :=
    map[1 := Links(None, Some(2), Some(3), None, None),
        2 := Links(Some(1), None, None, None, Some(3)),
        3 := Links(Some(1), Some(4), Some(4), Some(2), None),
        4 := Links(Some(3), None, None, None, None)]
  const SampleChildren: map<NodeId, seq<NodeId>> := map[1 := [2, 3], 2 := [], 3 := [4], 4 := []]
  const SampleRanks: map<NodeId, nat> := map[1 := 0, 2 := 1, 3 := 1, 4 := 2]

  lemma SampleShape()
    ensures Shape(SampleLinks, SampleChildren)
  {
    var L, C := SampleLinks, SampleChildren;
    assert L.Keys == {1, 2, 3, 4} && C.Keys == {1, 2, 3, 4};
    assert ListOk(L, 1, C[1]) by {
      assert MemberOk(L, 1, C[1], 0) && MemberOk(L, 1, C[1], 1);
    }
    assert ListOk(L, 3, C[3]) by {
      assert MemberOk(L, 3, C[3], 0);
    }
    assert ListOk(L, 2, C[2]) && ListOk(L, 4, C[4]);
    assert ParentOk(L, C, 1) && ParentOk(L, C, 2) && ParentOk(L, C, 3) && ParentOk(L, C, 4);
  }

  lemma SampleWf()
    ensures Wf(SampleLinks, SampleChildren, SampleRanks) && Tree(SampleLinks, SampleRanks)
  {
    SampleShape();
    assert SampleLinks.Keys == {1, 2, 3, 4};
    WfTree(SampleLinks, SampleChildren, SampleRanks);
  }

  /**
   * Three selections over the sample tree where the code as written and
   * the intended boundaries part: a caret in the empty node 2 throws; a
   * caret after the last child of 1 collects node 4, which lies before it;
   * and the range from (1, 0) to (2, 0) runs on past node 2 to the end.
   */
  lemma CollectAsWrittenOverruns()
    ensures var caretInEmpty := EditingSelection(true, Some(2), 0, Some(2), 0, []);
            Wf(SampleLinks, SampleChildren, SampleRanks) && caretInEmpty.IsCaret() &&
            CollectedAsWritten(SampleLinks, SampleChildren, SampleRanks, caretInEmpty).None? &&
            Collected(SampleLinks, SampleChildren, SampleRanks, caretInEmpty) == []
    ensures var caretAtEnd := EditingSelection(true, Some(1), 2, Some(1), 2, []);
            Wf(SampleLinks, SampleChildren, SampleRanks) && caretAtEnd.IsCaret() &&
            CollectedAsWritten(SampleLinks, SampleChildren, SampleRanks, caretAtEnd) == Some([4]) &&
            Collected(SampleLinks, SampleChildren, SampleRanks, caretAtEnd) == []
    ensures var range := EditingSelection(true, Some(1), 0, Some(2), 0, []);
            Wf(SampleLinks, SampleChildren, SampleRanks) &&
            CollectedAsWritten(SampleLinks, SampleChildren, SampleRanks, range) == Some([2, 3, 4]) &&
            Collected(SampleLinks, SampleChildren, SampleRanks, range) == [2]
  {
    SampleWf();
    var L, C, R := SampleLinks, SampleChildren, SampleRanks;
    assert Skip(L, R, 1) == None;
    assert Skip(L, R, 3) == None;
    assert Skip(L, R, 4) == None;
    assert Skip(L, R, 2) == Some(3);
    assert Next(L, R, 2) == Some(3);
    assert Next(L, R, 3) == Some(4);
    assert Next(L, R, 4) == None;
    assert Run(L, C, R, 4, None) == [4];
    assert Run(L, C, R, 3, None) == [3, 4];
    assert Run(L, C, R, 2, None) == [2, 3, 4];
    assert Run(L, C, R, 2, Some(3)) == [2] + Run(L, C, R, 3, Some(3));
    assert Run(L, C, R, 3, Some(3)) == [];
  }

  // ---------------------------------------------------------------------
  // isNeedSplit and splitTextAndInsert
  // ---------------------------------------------------------------------

  /** `isNeedSplit(node, offset)`: a text node and a non-zero offset before the end of its text. */
  predicate IsNeedSplit(d: NodeData, offset: int) {
    d.kind == TextNode && offset != 0 && offset < |NodeValue(d).value|
  }

  /** For the offsets a selection holds, a split is needed exactly when `splitText` accepts it. */
  lemma NeedSplitSplits(d: NodeData, offset: int)
    requires TextOk(d) && 0 <= offset
    ensures IsNeedSplit(d, offset) <==> SplitTextData(d, offset).Some?
  {
  }

  /** A node without children lies above no other node. */
  lemma {:induction false} ChildlessAboveNone(L: map<NodeId, Links>, C: map<NodeId, seq<NodeId>>, R: map<NodeId, nat>,
                                              n: NodeId, x: NodeId)
    requires Wf(L, C, R) && n in L && x in L && C[x] == [] && n != x
    ensures !Under(L, R, n, x)
    decreases R[n]
  {
    if L[n].parent.Some? {
      var q := L[n].parent.value;
      assert ParentOk(L, C, n);
      if q != x {
        ChildlessAboveNone(L, C, R, q, x);
      }
    }
  }

  /** cs with x just after n; cs itself when n is not in it. */
  function Spliced(cs: seq<NodeId>, n: NodeId, x: NodeId): seq<NodeId> {
    if n in cs then cs[..Pos(cs, n) + 1] + [x] + cs[Pos(cs, n) + 1..] else cs
  }

  /** No list of a forest holds a node outside it. */
  lemma NotListed(L: map<NodeId, Links>, C: map<NodeId, seq<NodeId>>, x: NodeId)
    requires Shape(L, C) && x !in L
    ensures forall q | q in C :: x !in C[q]
  {
    forall q | q in C
      ensures x !in C[q]
    {
      ListMembersAll(L, C, q);
    }
  }

  /** Inserting before n's successor, or appending after a last n, splices x in after n. */
  lemma SpliceList(cs: seq<NodeId>, i: nat, x: NodeId)
    requires Distinct(cs) && i < |cs| && x !in cs
    ensures Without(cs, x) == cs
    ensures i + 1 < |cs| ==> InsertAt(cs, x, cs[i + 1]) == Spliced(cs, cs[i], x)
    ensures i + 1 == |cs| ==> cs + [x] == Spliced(cs, cs[i], x)
    ensures i + 1 < |Spliced(cs, cs[i], x)| && Spliced(cs, cs[i], x)[i] == cs[i] && Spliced(cs, cs[i], x)[i + 1] == x
  {
    assert Pos(cs, cs[i]) == i;
    if i + 1 < |cs| {
      assert Pos(cs, cs[i + 1]) == i + 1;
    }
  }

  /** The list-map half of `SpliceStep`, stated without the links. */
  lemma SpliceMaps(C: map<NodeId, seq<NodeId>>, p: NodeId, i: nat, x: NodeId, C': map<NodeId, seq<NodeId>>)
    requires p in C && p != x && Distinct(C[p]) && i < |C[p]|
    requires forall q | q in C :: x !in C[q]
    requires i + 1 < |C[p]| ==> C' == Dropped(C[x := []], x)[p := InsertAt(Without(C[x := []][p], x), x, C[p][i + 1])]
    requires i + 1 == |C[p]| ==> C' == Dropped(C[x := []], x)[p := Without(C[x := []][p], x) + [x]]
    ensures C' == C[x := []][p := Spliced(C[p], C[p][i], x)]
  {
    var C1 := C[x := []];
    forall q | q in C1
      ensures Without(C1[q], x) == C1[q]
    {
      assert x !in C1[q];
    }
    assert Dropped(C1, x) == C1;
    SpliceList(C[p], i, x);
  }

  /**
   * Putting a new node x just after the child n, before n's next sibling or
   * at the end of the list, splices x into the parent's list right after n
   * and leaves every other list alone.
   */
  lemma SpliceStep(L: map<NodeId, Links>, C: map<NodeId, seq<NodeId>>, n: NodeId, x: NodeId, C': map<NodeId, seq<NodeId>>)
    requires Shape(L, C) && n in L && L[n].parent.Some? && x !in L
    requires var p := L[n].parent.value;
             var next := L[n].nextSibling;
             var C1 := C[x := []];
             (next.Some? ==> C' == Dropped(C1, x)[p := InsertAt(Without(C1[p], x), x, next.value)]) &&
             (next.None? ==> C' == Dropped(C1, x)[p := Without(C1[p], x) + [x]])
    ensures L[n].parent.value in C && n in C[L[n].parent.value]
    ensures C' == C[x := []][L[n].parent.value := Spliced(C[L[n].parent.value], n, x)]
    ensures var cs := C[L[n].parent.value];
            Pos(cs, n) + 1 < |C'[L[n].parent.value]| &&
            C'[L[n].parent.value][Pos(cs, n)] == n && C'[L[n].parent.value][Pos(cs, n) + 1] == x
  {
    ChildPosition(L, C, n);
    var p := L[n].parent.value;
    var cs := C[p];
    var i := Pos(cs, n);
    NotListed(L, C, x);
    assert Distinct(cs) by {
      assert ListOk(L, p, cs);
    }
    SpliceMaps(C, p, i, x, C');
    SpliceList(cs, i, x);
  }

  /** Two neighbours in a child list are linked as siblings. */
  lemma Adjacent(L: map<NodeId, Links>, C: map<NodeId, seq<NodeId>>, p: NodeId, i: nat)
    requires Shape(L, C) && p in L && i + 1 < |C[p]|
    ensures C[p][i] in L && C[p][i + 1] in L
    ensures L[C[p][i]].nextSibling == Some(C[p][i + 1]) && L[C[p][i + 1]].previousSibling == Some(C[p][i])
  {
    assert ListOk(L, p, C[p]);
    assert MemberOk(L, p, C[p], i) && MemberOk(L, p, C[p], i + 1);
  }

  /**
   * x sits right after n under n's old parent, with no children of its own,
   * and no other child list changed.
   */
  ghost predicate InsertedAfter(L0: map<NodeId, Links>, C0: map<NodeId, seq<NodeId>>, n: NodeId, x: NodeId,
                                L: map<NodeId, Links>, C: map<NodeId, seq<NodeId>>)
  {
    n in L0 && L0[n].parent.Some? && L0[n].parent.value in C0 && n in L && x in L &&
    L[n].nextSibling == Some(x) && L[x].previousSibling == Some(n) && L[x].parent == L0[n].parent &&
    C == C0[x := []][L0[n].parent.value := Spliced(C0[L0[n].parent.value], n, x)]
  }

  /** The list-map step of `insertAfter` on a fresh node gives `InsertedAfter`. */
  lemma InsertedAfterStep(L0: map<NodeId, Links>, C0: map<NodeId, seq<NodeId>>, n: NodeId, x: NodeId,
                          L: map<NodeId, Links>, C: map<NodeId, seq<NodeId>>)
    requires Shape(L0, C0) && n in L0 && L0[n].parent.Some? && x !in L0
    requires Shape(L, C) && n in L && x in L && L[x].parent == L0[n].parent
    requires var p := L0[n].parent.value;
             var next := L0[n].nextSibling;
             var C1 := C0[x := []];
             (next.Some? ==> C == Dropped(C1, x)[p := InsertAt(Without(C1[p], x), x, next.value)]) &&
             (next.None? ==> C == Dropped(C1, x)[p := Without(C1[p], x) + [x]])
    ensures InsertedAfter(L0, C0, n, x, L, C)
  {
    var p := L0[n].parent.value;
    SpliceStep(L0, C0, n, x, C);
    Adjacent(L, C, p, Pos(C0[p], n));
  }

  /**
   * `splitTextAndInsert(node, offset)`: an offset outside (0, length)
   * throws before anything changes; otherwise the text after the offset
   * moves to a new node, which becomes node's next sibling. When node is
   * the last child of a parent that is neither an element nor a document,
   * `insertAfter` throws after the split (None, with the split done).
   */
  method SplitTextAndInsert(tree: NodeTree, n: NodeId, offset: int) returns (r: Option<NodeId>)
    requires tree.Valid() && n in tree.links && tree.links[n].parent.Some?
    modifies tree, tree.context
    ensures tree.Valid()
    ensures r.Some? <==> SplitTextData(old(tree.data)[n], offset).Some? &&
                         (old(tree.links)[n].nextSibling.Some? || IsContainer(old(tree.data)[old(tree.links)[n].parent.value]))
    ensures SplitTextData(old(tree.data)[n], offset).None? ==>
              tree.links == old(tree.links) && tree.data == old(tree.data) && tree.children == old(tree.children) &&
              tree.context.Changed(0, [])
    ensures r.Some? ==> r.value == old(tree.context.hashCode) + 1 && r.value !in old(tree.links)
    ensures r.Some? ==> tree.data == old(tree.data)[n := SplitTextData(old(tree.data)[n], offset).value.0]
                                                   [r.value := SplitTextData(old(tree.data)[n], offset).value.1]
    ensures r.Some? ==> InsertedAfter(old(tree.links), old(tree.children), n, r.value, tree.links, tree.children)
    ensures r.Some? ==> tree.context.Changed(1, [SplitTextRecord(n, offset, r.value), AfterRecord(old(tree.links), n, r.value)])
  {
    ghost var L0, C0, D0, I0 := tree.links, tree.children, tree.data, tree.context.instructions;
    var p := tree.links[n].parent.value;
    assert Within(L0[n], L0) && p != n && p in D0;
    var made := tree.SplitText(n, offset);
    if made.None? {
      return None;
    }
    var x := made.value;
    assert tree.links[n] == L0[n] && x != n && x != p && L0[n].nextSibling != Some(x);
    assert tree.data[p] == D0[p];
    ghost var a, b := SplitTextRecord(n, offset, x), AfterRecord(L0, n, x);
    assert tree.context.instructions == I0 + [a];
    ChildlessAboveNone(tree.links, tree.children, tree.rank, p, x);
    var ok := tree.InsertAfter(p, x, n);
    if !ok {
      return None;
    }
    assert tree.context.instructions == I0 + [a] + [b];
    LogTwo(I0, a, b);
    InsertedAfterStep(L0, C0, n, x, tree.links, tree.children);
    return Some(x);
  }

  /** Two single appends to the log are one append of both. */
  lemma LogTwo(I: seq<Instruction>, a: Instruction, b: Instruction)
    ensures I + [a] + [b] == I + [a, b]
  {
  }

  /** What `insertAfter(x, n)` logs: an insertion before n's next sibling, or an append. */
  function AfterRecord(L: map<NodeId, Links>, n: NodeId, x: NodeId): Instruction
    requires n in L && L[n].parent.Some?
  {
    var next := L[n].nextSibling;
    if next.Some? then InsertBeforeRecord(L[n].parent.value, x, next.value) else AppendChildRecord(L[n].parent.value, x)
  }
}
