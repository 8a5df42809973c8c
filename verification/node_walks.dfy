/**
 * The read-only walks over editing nodes of src/editing/nodes.js and
 * src/editing/editing_library.js (with the copies in editing_node.js and
 * editing_selection.js): ancestor tests, the common ancestor, pre-order
 * steps forwards and backwards, the content-editable lookup and the
 * white-space test. Each loop of the source is a method proved equal to a
 * recursive ghost definition; the lemmas relate the definitions.
 */
module NodeWalks {
  import opened NodeForest

  // ---------------------------------------------------------------------
  // Links that agree with each other
  // ---------------------------------------------------------------------

  /** The links of n and of the nodes they name agree. */
  ghost predicate NodeOk(L: map<NodeId, Links>, n: NodeId)
    requires n in L
  {
    var l := L[n];
    (l.firstChild.None? <==> l.lastChild.None?) &&
    (l.parent.None? ==> l.previousSibling.None? && l.nextSibling.None?) &&
    (l.parent.Some? ==> l.parent.value in L) &&
    (l.firstChild.Some? ==> l.firstChild.value in L && L[l.firstChild.value].parent == Some(n)) &&
    (l.firstChild.Some? ==> L[l.firstChild.value].previousSibling.None?) &&
    (l.lastChild.Some? ==> l.lastChild.value in L && L[l.lastChild.value].parent == Some(n)) &&
    (l.lastChild.Some? ==> L[l.lastChild.value].nextSibling.None?) &&
    (l.nextSibling.Some? ==> l.nextSibling.value in L && l.nextSibling.value != n) &&
    (l.nextSibling.Some? ==> L[l.nextSibling.value].parent == l.parent) &&
    (l.nextSibling.Some? ==> L[l.nextSibling.value].previousSibling == Some(n)) &&
    (l.previousSibling.Some? ==> l.previousSibling.value in L && l.previousSibling.value != n) &&
    (l.previousSibling.Some? ==> L[l.previousSibling.value].parent == l.parent) &&
    (l.previousSibling.Some? ==> L[l.previousSibling.value].nextSibling == Some(n)) &&
    (l.parent.Some? && l.previousSibling.None? ==> L[l.parent.value].firstChild == Some(n)) &&
    (l.parent.Some? && l.nextSibling.None? ==> L[l.parent.value].lastChild == Some(n))
  }

  /** Ranked links that agree everywhere: what the walks rely on. */
  ghost predicate Tree(L: map<NodeId, Links>, R: map<NodeId, nat>) {
    Ranked(L, R) && forall n {:trigger NodeOk(L, n)} | n in L :: NodeOk(L, n)
  }

  /** A forest with child lists has links that agree. */
  lemma WfTree(L: map<NodeId, Links>, C: map<NodeId, seq<NodeId>>, R: map<NodeId, nat>)
    requires Wf(L, C, R)
    ensures Tree(L, R)
  {
    forall n | n in L
      ensures NodeOk(L, n)
    {
      ListNodeOk(L, C, R, n);
      if L[n].parent.Some? {
        SiblingsOk(L, C, R, n);
      } else {
        assert ParentOk(L, C, n);
      }
    }
  }

  /** The first and last child links of n. */
  lemma ListNodeOk(L: map<NodeId, Links>, C: map<NodeId, seq<NodeId>>, R: map<NodeId, nat>, n: NodeId)
    requires Wf(L, C, R) && n in L
    ensures L[n].firstChild.None? <==> L[n].lastChild.None?
    ensures L[n].firstChild.Some? ==> L[n].firstChild.value in L && L[L[n].firstChild.value].parent == Some(n)
    ensures L[n].firstChild.Some? ==> L[L[n].firstChild.value].previousSibling.None?
    ensures L[n].lastChild.Some? ==> L[n].lastChild.value in L && L[L[n].lastChild.value].parent == Some(n)
    ensures L[n].lastChild.Some? ==> L[L[n].lastChild.value].nextSibling.None?
  {
    var cs := C[n];
    assert ListOk(L, n, cs);
    if cs != [] {
      assert MemberOk(L, n, cs, 0);
      assert MemberOk(L, n, cs, |cs| - 1);
    }
  }

  /** The sibling links of a node with a parent. */
  lemma SiblingsOk(L: map<NodeId, Links>, C: map<NodeId, seq<NodeId>>, R: map<NodeId, nat>, n: NodeId)
    requires Wf(L, C, R) && n in L && L[n].parent.Some?
    ensures NodeOk(L, n)
  {
    ListNodeOk(L, C, R, n);
    ChildPosition(L, C, n);
    var p := L[n].parent.value;
    var cs := C[p];
    var i := Pos(cs, n);
    assert ListOk(L, p, cs);
    if i > 0 {
      assert MemberOk(L, p, cs, i - 1);
    }
    if i + 1 < |cs| {
      assert MemberOk(L, p, cs, i + 1);
    }
  }

  // ---------------------------------------------------------------------
  // Parent chains
  // ---------------------------------------------------------------------

  /** The number of ancestors of n. */
  ghost function Depth(L: map<NodeId, Links>, R: map<NodeId, nat>, n: NodeId): nat
    requires Ranked(L, R) && n in L
    decreases R[n]
  {
    if L[n].parent.None? then 0 else 1 + Depth(L, R, L[n].parent.value)
  }

  /** Lying below a lies below a's parent too. */
  lemma {:induction false} UnderParent(L: map<NodeId, Links>, R: map<NodeId, nat>, n: NodeId, a: NodeId)
    requires Ranked(L, R) && n in L && a in L && Under(L, R, n, a) && L[a].parent.Some?
    ensures Under(L, R, n, L[a].parent.value)
    decreases R[n]
  {
    if n != a {
      UnderParent(L, R, L[n].parent.value, a);
    }
  }

  lemma {:induction false} UnderTrans(L: map<NodeId, Links>, R: map<NodeId, nat>, n: NodeId, a: NodeId, b: NodeId)
    requires Ranked(L, R) && n in L && a in L && Under(L, R, n, a) && Under(L, R, a, b)
    ensures Under(L, R, n, b)
    decreases R[n]
  {
    if n != a {
      UnderTrans(L, R, L[n].parent.value, a, b);
    }
  }

  /** Two inclusive ancestors of one node lie one below the other. */
  lemma {:induction false} UnderTotal(L: map<NodeId, Links>, R: map<NodeId, nat>, n: NodeId, a: NodeId, b: NodeId)
    requires Ranked(L, R) && n in L && Under(L, R, n, a) && Under(L, R, n, b)
    ensures a in L && b in L
    ensures Under(L, R, a, b) || Under(L, R, b, a)
    decreases R[n]
  {
    if n != a && n != b {
      UnderTotal(L, R, L[n].parent.value, a, b);
    } else if n == a {
      UnderIn(L, R, n, b);
    } else {
      UnderIn(L, R, n, a);
    }
  }

  lemma {:induction false} UnderIn(L: map<NodeId, Links>, R: map<NodeId, nat>, n: NodeId, a: NodeId)
    requires Ranked(L, R) && n in L && Under(L, R, n, a)
    ensures a in L
    decreases R[n]
  {
    if n != a {
      UnderIn(L, R, L[n].parent.value, a);
    }
  }

  /** An ancestor is shallower; at the same depth it is the node itself. */
  lemma {:induction false} UnderDepth(L: map<NodeId, Links>, R: map<NodeId, nat>, n: NodeId, a: NodeId)
    requires Ranked(L, R) && n in L && a in L && Under(L, R, n, a)
    ensures Depth(L, R, a) <= Depth(L, R, n)
    ensures Depth(L, R, a) == Depth(L, R, n) ==> n == a
    decreases R[n]
  {
    if n != a {
      UnderDepth(L, R, L[n].parent.value, a);
    }
  }

  /** `isDescendantOf(node, other)`: other is a proper ancestor of node. */
  method IsDescendantOf(L: map<NodeId, Links>, ghost R: map<NodeId, nat>, node: NodeId, other: NodeId)
    returns (r: bool)
    requires Ranked(L, R) && node in L
    ensures r <==> node != other && Under(L, R, node, other)
  {
    var runner := L[node].parent;
    if runner.Some? && Under(L, R, runner.value, node) {
      UnderRank(L, R, runner.value, node);
    }
    while runner.Some?
      invariant runner.Some? ==> runner.value in L
      invariant (node != other && Under(L, R, node, other)) <==> (runner.Some? && Under(L, R, runner.value, other))
      decreases if runner.Some? then R[runner.value] + 1 else 0
    {
      if runner.value == other {
        return true;
      }
      runner := L[runner.value].parent;
    }
    return false;
  }

  // ---------------------------------------------------------------------
  // commonAncestor
  // ---------------------------------------------------------------------

  /** The first inclusive ancestor of a that is an inclusive ancestor of b. */
  ghost function Shared(L: map<NodeId, Links>, R: map<NodeId, nat>, a: NodeId, b: NodeId): (c: Option<NodeId>)
    requires Ranked(L, R) && a in L && b in L
    ensures c.Some? ==> c.value in L
    decreases R[a]
  {
    if Under(L, R, b, a) then Some(a)
    else if L[a].parent.None? then None
    else Shared(L, R, L[a].parent.value, b)
  }

  /** What `Shared` finds lies above both nodes. */
  lemma {:induction false} SharedAboveBoth(L: map<NodeId, Links>, R: map<NodeId, nat>, a: NodeId, b: NodeId)
    requires Ranked(L, R) && a in L && b in L && Shared(L, R, a, b).Some?
    ensures Under(L, R, a, Shared(L, R, a, b).value) && Under(L, R, b, Shared(L, R, a, b).value)
    decreases R[a]
  {
    if !Under(L, R, b, a) {
      var q := L[a].parent.value;
      SharedAboveBoth(L, R, q, b);
      UnderTrans(L, R, a, q, Shared(L, R, a, b).value);
    }
  }

  /** Every common ancestor lies above what `Shared` finds: it is the deepest. */
  lemma {:induction false} SharedDeepest(L: map<NodeId, Links>, R: map<NodeId, nat>, a: NodeId, b: NodeId, d: NodeId)
    requires Ranked(L, R) && a in L && b in L && Under(L, R, a, d) && Under(L, R, b, d)
    ensures Shared(L, R, a, b).Some? && Under(L, R, Shared(L, R, a, b).value, d)
    decreases R[a]
  {
    if !Under(L, R, b, a) {
      SharedDeepest(L, R, L[a].parent.value, b, d);
    }
  }

  /** When b lies above a, b is the shared ancestor. */
  lemma {:induction false} SharedOfAncestor(L: map<NodeId, Links>, R: map<NodeId, nat>, a: NodeId, b: NodeId)
    requires Ranked(L, R) && a in L && b in L && Under(L, R, a, b)
    ensures Shared(L, R, a, b) == Some(b)
    decreases R[a]
  {
    if a != b {
      if Under(L, R, b, a) {
        UnderDepth(L, R, a, b);
        UnderDepth(L, R, b, a);
      }
      SharedOfAncestor(L, R, L[a].parent.value, b);
    }
  }

  /** A node deeper than b is not above b, so the search moves on to its parent. */
  lemma SharedSkipLeft(L: map<NodeId, Links>, R: map<NodeId, nat>, a: NodeId, b: NodeId)
    requires Ranked(L, R) && a in L && b in L && Depth(L, R, a) > Depth(L, R, b)
    ensures L[a].parent.Some? && Shared(L, R, a, b) == Shared(L, R, L[a].parent.value, b)
  {
    if Under(L, R, b, a) {
      UnderDepth(L, R, b, a);
    }
  }

  /** A node b deeper than every candidate can be replaced by its parent. */
  lemma {:induction false} SharedSkipRight(L: map<NodeId, Links>, R: map<NodeId, nat>, a: NodeId, b: NodeId)
    requires Ranked(L, R) && a in L && b in L && Depth(L, R, b) > Depth(L, R, a)
    ensures L[b].parent.Some? && Shared(L, R, a, b) == Shared(L, R, a, L[b].parent.value)
    decreases R[a]
  {
    if L[a].parent.Some? {
      SharedSkipRight(L, R, L[a].parent.value, b);
    }
  }

  /** Two different nodes at one depth: the search moves to both parents. */
  lemma SharedStep(L: map<NodeId, Links>, R: map<NodeId, nat>, a: NodeId, b: NodeId)
    requires Ranked(L, R) && a in L && b in L && Depth(L, R, a) == Depth(L, R, b) && a != b
    ensures L[a].parent.None? <==> L[b].parent.None?
    ensures L[a].parent.None? ==> Shared(L, R, a, b).None?
    ensures L[a].parent.Some? ==> Shared(L, R, a, b) == Shared(L, R, L[a].parent.value, L[b].parent.value)
  {
    if Under(L, R, b, a) {
      UnderDepth(L, R, b, a);
    }
    if L[a].parent.Some? {
      SharedSkipRight(L, R, L[a].parent.value, b);
    }
  }

  /**
   * `commonAncestor(node1, node2)`: count both depths, lift the deeper node
   * to the other's depth, then climb in step until the runners meet.
   */
  method CommonAncestor(L: map<NodeId, Links>, ghost R: map<NodeId, nat>, node1: NodeId, node2: NodeId)
    returns (r: Option<NodeId>)
    requires Ranked(L, R) && node1 in L && node2 in L
    ensures r == Shared(L, R, node1, node2)
  {
    if node1 == node2 {
      return Some(node1);
    }
    var depth1 := 0;
    var node := Some(node1);
    while node.Some?
      invariant node.Some? ==> node.value in L && depth1 + Depth(L, R, node.value) == Depth(L, R, node1)
      invariant node.Some? ==> Under(L, R, node1, node.value)
      invariant node.None? ==> depth1 == Depth(L, R, node1) + 1
      invariant Under(L, R, node1, node2) ==> node.Some? && Under(L, R, node.value, node2)
      decreases if node.Some? then R[node.value] + 1 else 0
    {
      if node.value == node2 {
        SharedOfAncestor(L, R, node1, node2);
        return node;
      }
      depth1 := depth1 + 1;
      if L[node.value].parent.Some? {
        UnderParent(L, R, node1, node.value);
      }
      node := L[node.value].parent;
    }
    var depth2 := 0;
    node := Some(node2);
    while node.Some?
      invariant node.Some? ==> node.value in L && depth2 + Depth(L, R, node.value) == Depth(L, R, node2)
      invariant node.Some? ==> Under(L, R, node2, node.value)
      invariant node.None? ==> depth2 == Depth(L, R, node2) + 1
      invariant Under(L, R, node2, node1) ==> node.Some? && Under(L, R, node.value, node1)
      decreases if node.Some? then R[node.value] + 1 else 0
    {
      if node.value == node1 {
        return node;
      }
      depth2 := depth2 + 1;
      if L[node.value].parent.Some? {
        UnderParent(L, R, node2, node.value);
      }
      node := L[node.value].parent;
    }
    var runner1, runner2 := node1, node2;
    if depth1 > depth2 {
      var depth := depth1;
      while depth > depth2
        invariant depth2 <= depth && runner1 in L && Depth(L, R, runner1) + 1 == depth
        invariant Shared(L, R, runner1, node2) == Shared(L, R, node1, node2)
      {
        SharedSkipLeft(L, R, runner1, node2);
        runner1 := L[runner1].parent.value;
        depth := depth - 1;
      }
    } else if depth2 > depth1 {
      var depth := depth2;
      while depth > depth1
        invariant depth1 <= depth && runner2 in L && Depth(L, R, runner2) + 1 == depth
        invariant Shared(L, R, node1, runner2) == Shared(L, R, node1, node2)
      {
        SharedSkipRight(L, R, node1, runner2);
        runner2 := L[runner2].parent.value;
        depth := depth - 1;
      }
    }
    var r1, r2 := Some(runner1), Some(runner2);
    while r1.Some?
      invariant r1.Some? <==> r2.Some?
      invariant r1.Some? ==> r1.value in L && r2.value in L && Depth(L, R, r1.value) == Depth(L, R, r2.value)
      invariant r1.Some? ==> Shared(L, R, r1.value, r2.value) == Shared(L, R, node1, node2)
      invariant r1.None? ==> Shared(L, R, node1, node2).None?
      decreases if r1.Some? then R[r1.value] + 1 else 0
    {
      if r1 == r2 {
        return r1;
      }
      SharedStep(L, R, r1.value, r2.value);
      r1, r2 := L[r1.value].parent, L[r2.value].parent;
    }
    return None;
  }

  /** The common ancestor is above both nodes and below every other common ancestor. */
  lemma CommonAncestorDeepest(L: map<NodeId, Links>, R: map<NodeId, nat>, a: NodeId, b: NodeId)
    requires Ranked(L, R) && a in L && b in L
    ensures Shared(L, R, a, b).Some? ==> Under(L, R, a, Shared(L, R, a, b).value) && Under(L, R, b, Shared(L, R, a, b).value)
    ensures forall d | Under(L, R, a, d) && Under(L, R, b, d) :: Shared(L, R, a, b).Some? && Under(L, R, Shared(L, R, a, b).value, d)
  {
    if Shared(L, R, a, b).Some? {
      SharedAboveBoth(L, R, a, b);
    }
    forall d | Under(L, R, a, d) && Under(L, R, b, d)
      ensures Shared(L, R, a, b).Some? && Under(L, R, Shared(L, R, a, b).value, d)
    {
      SharedDeepest(L, R, a, b, d);
    }
  }

  // ---------------------------------------------------------------------
  // Walking down the last children
  // ---------------------------------------------------------------------

  /** The nodes at or below n. */
  ghost function Desc(L: map<NodeId, Links>, R: map<NodeId, nat>, n: NodeId): set<NodeId>
    requires Ranked(L, R)
  {
    set m | m in L && Under(L, R, m, n)
  }

  /** A child has fewer nodes at or below it than its parent. */
  lemma DescShrinks(L: map<NodeId, Links>, R: map<NodeId, nat>, c: NodeId, n: NodeId)
    requires Ranked(L, R) && c in L && n in L && L[c].parent == Some(n)
    ensures |Desc(L, R, c)| < |Desc(L, R, n)|
  {
    forall m | m in Desc(L, R, c)
      ensures m in Desc(L, R, n)
    {
      UnderParent(L, R, m, c);
    }
    assert R[n] < R[c];
    if Under(L, R, n, c) {
      UnderRank(L, R, n, c);
    }
    assert Under(L, R, n, n);
    assert n in Desc(L, R, n) && n !in Desc(L, R, c);
    var dc, dn := Desc(L, R, c), Desc(L, R, n);
    assert dn == dc + (dn - dc);
    assert |dn - dc| >= |{n}|;
  }

  /** The end of the chain of last children from n. */
  ghost function Deepest(L: map<NodeId, Links>, R: map<NodeId, nat>, n: NodeId): (d: NodeId)
    requires Tree(L, R) && n in L
    ensures d in L && Under(L, R, d, n) && L[d].lastChild.None?
    decreases |Desc(L, R, n)|
  {
    if L[n].lastChild.None? then n
    else
      assert NodeOk(L, n);
      var c := L[n].lastChild.value;
      DescShrinks(L, R, c, n);
      var d := Deepest(L, R, c);
      UnderParent(L, R, d, c);
      d
  }

  /** `lastWithIn(current)`: the deepest last descendant, or null without children. */
  method LastWithIn(L: map<NodeId, Links>, ghost R: map<NodeId, nat>, current: NodeId) returns (r: Option<NodeId>)
    requires Tree(L, R) && current in L
    ensures r.None? <==> L[current].lastChild.None?
    ensures r.Some? ==> r.value == Deepest(L, R, current) && r.value != current
  {
    var descendant := L[current].lastChild;
    var child := descendant;
    assert NodeOk(L, current);
    while child.Some?
      invariant descendant.None? <==> L[current].lastChild.None?
      invariant child.Some? ==> child.value in L && R[current] < R[child.value]
      invariant child.Some? ==> Deepest(L, R, child.value) == Deepest(L, R, current)
      invariant descendant.Some? ==> descendant.value in L && R[current] < R[descendant.value]
      invariant descendant.Some? && child.None? ==> Deepest(L, R, descendant.value) == Deepest(L, R, current)
      invariant descendant.Some? && child.None? ==> L[descendant.value].lastChild.None?
      decreases if child.Some? then |Desc(L, R, child.value)| + 1 else 0
    {
      assert NodeOk(L, child.value);
      var next := L[child.value].lastChild;
      if next.Some? {
        DescShrinks(L, R, next.value, child.value);
      }
      descendant := child;
      child := next;
    }
    return descendant;
  }

  // ---------------------------------------------------------------------
  // Pre-order steps
  // ---------------------------------------------------------------------

  /** The next sibling of the nearest inclusive ancestor that has one. */
  ghost function Skip(L: map<NodeId, Links>, R: map<NodeId, nat>, n: NodeId): (s: Option<NodeId>)
    requires Tree(L, R) && n in L
    ensures s.Some? ==> s.value in L
    decreases R[n]
  {
    assert NodeOk(L, n);
    if L[n].nextSibling.Some? then L[n].nextSibling
    else if L[n].parent.None? then None
    else Skip(L, R, L[n].parent.value)
  }

  /** What `nextAncestorOrSibling` looks for: Skip from the parent. */
  ghost function AfterAncestors(L: map<NodeId, Links>, R: map<NodeId, nat>, n: NodeId): (s: Option<NodeId>)
    requires Tree(L, R) && n in L
  {
    assert NodeOk(L, n);
    if L[n].parent.None? then None else Skip(L, R, L[n].parent.value)
  }

  /** The node after n in document order. */
  ghost function Next(L: map<NodeId, Links>, R: map<NodeId, nat>, n: NodeId): (s: Option<NodeId>)
    requires Tree(L, R) && n in L
    ensures s.Some? ==> s.value in L
  {
    assert NodeOk(L, n);
    if L[n].firstChild.Some? then L[n].firstChild else Skip(L, R, n)
  }

  /** The node before n in document order. */
  ghost function Previous(L: map<NodeId, Links>, R: map<NodeId, nat>, n: NodeId): (s: Option<NodeId>)
    requires Tree(L, R) && n in L
    ensures s.Some? ==> s.value in L
  {
    assert NodeOk(L, n);
    if L[n].previousSibling.None? then L[n].parent
    else Some(Deepest(L, R, L[n].previousSibling.value))
  }

  /** The previous sibling of the nearest inclusive ancestor that has one. */
  ghost function SkipBack(L: map<NodeId, Links>, R: map<NodeId, nat>, n: NodeId): (s: Option<NodeId>)
    requires Tree(L, R) && n in L
    ensures s.Some? ==> s.value in L
    decreases R[n]
  {
    assert NodeOk(L, n);
    if L[n].previousSibling.Some? then L[n].previousSibling
    else if L[n].parent.None? then None
    else SkipBack(L, R, L[n].parent.value)
  }

  /** `nextAncestorOrSibling(current)`: the first parent up the chain with a next sibling. */
  method NextAncestorOrSibling(L: map<NodeId, Links>, ghost R: map<NodeId, nat>, current: NodeId)
    returns (r: Option<NodeId>)
    requires Tree(L, R) && current in L
    ensures r == AfterAncestors(L, R, current)
  {
    assert NodeOk(L, current);
    var parent := L[current].parent;
    while parent.Some?
      invariant parent.Some? ==> parent.value in L && Skip(L, R, parent.value) == AfterAncestors(L, R, current)
      invariant parent.None? ==> AfterAncestors(L, R, current).None?
      decreases if parent.Some? then R[parent.value] + 1 else 0
    {
      assert NodeOk(L, parent.value);
      if L[parent.value].nextSibling.Some? {
        return L[parent.value].nextSibling;
      }
      parent := L[parent.value].parent;
    }
    return None;
  }

  /** `nextNode(current)`: the first child, else the next sibling, else an ancestor's next sibling. */
  method NextNode(L: map<NodeId, Links>, ghost R: map<NodeId, nat>, current: NodeId) returns (r: Option<NodeId>)
    requires Tree(L, R) && current in L
    ensures r == Next(L, R, current)
  {
    if L[current].firstChild.Some? {
      return L[current].firstChild;
    }
    if L[current].nextSibling.Some? {
      return L[current].nextSibling;
    }
    r := NextAncestorOrSibling(L, R, current);
  }

  /** `nextNodeSkippingChildren(current)`: never enters current's subtree. */
  method NextNodeSkippingChildren(L: map<NodeId, Links>, ghost R: map<NodeId, nat>, current: NodeId)
    returns (r: Option<NodeId>)
    requires Tree(L, R) && current in L
    ensures r == Skip(L, R, current)
    ensures r.Some? ==> !Under(L, R, r.value, current)
    ensures L[current].firstChild.None? ==> r == Next(L, R, current)
  {
    SkipNotBelow(L, R, current);
    if L[current].nextSibling.Some? {
      return L[current].nextSibling;
    }
    r := NextAncestorOrSibling(L, R, current);
  }

  /** `previousNode(current)`: the deepest last descendant of the previous sibling, else the parent. */
  method PreviousNode(L: map<NodeId, Links>, ghost R: map<NodeId, nat>, current: NodeId) returns (r: Option<NodeId>)
    requires Tree(L, R) && current in L
    ensures r == Previous(L, R, current)
  {
    assert NodeOk(L, current);
    var previous := L[current].previousSibling;
    if previous.None? {
      return L[current].parent;
    }
    var p := previous.value;
    while L[p].lastChild.Some?
      invariant p in L && Deepest(L, R, p) == Deepest(L, R, previous.value)
      decreases |Desc(L, R, p)|
    {
      assert NodeOk(L, p);
      DescShrinks(L, R, L[p].lastChild.value, p);
      p := L[p].lastChild.value;
    }
    return Some(p);
  }

  /** `previousNodeSkippingChildren(current)`: the previous sibling of the nearest inclusive ancestor. */
  method PreviousNodeSkippingChildren(L: map<NodeId, Links>, ghost R: map<NodeId, nat>, current: NodeId)
    returns (r: Option<NodeId>)
    requires Tree(L, R) && current in L
    ensures r == SkipBack(L, R, current)
    ensures r.Some? ==> !Under(L, R, current, r.value)
  {
    SkipBackNotAbove(L, R, current, current);
    assert NodeOk(L, current);
    if L[current].previousSibling.Some? {
      return L[current].previousSibling;
    }
    var parent := L[current].parent;
    while parent.Some?
      invariant parent.Some? ==> parent.value in L && SkipBack(L, R, parent.value) == SkipBack(L, R, current)
      invariant parent.None? ==> SkipBack(L, R, current).None?
      decreases if parent.Some? then R[parent.value] + 1 else 0
    {
      assert NodeOk(L, parent.value);
      if L[parent.value].previousSibling.Some? {
        return L[parent.value].previousSibling;
      }
      parent := L[parent.value].parent;
    }
    return None;
  }

  // ---------------------------------------------------------------------
  // The steps undo each other
  // ---------------------------------------------------------------------

  /** After the deepest last descendant of m comes what follows m's subtree. */
  lemma {:induction false} NextOfDeepest(L: map<NodeId, Links>, R: map<NodeId, nat>, m: NodeId)
    requires Tree(L, R) && m in L
    ensures Next(L, R, Deepest(L, R, m)) == Skip(L, R, m)
    decreases |Desc(L, R, m)|
  {
    assert NodeOk(L, m);
    if L[m].lastChild.Some? {
      var c := L[m].lastChild.value;
      DescShrinks(L, R, c, m);
      NextOfDeepest(L, R, c);
      assert NodeOk(L, c);
    }
  }

  /** Going back from n and then forward returns to n. */
  lemma NextOfPrevious(L: map<NodeId, Links>, R: map<NodeId, nat>, n: NodeId)
    requires Tree(L, R) && n in L && Previous(L, R, n).Some?
    ensures Next(L, R, Previous(L, R, n).value) == Some(n)
  {
    assert NodeOk(L, n);
    if L[n].previousSibling.Some? {
      var s := L[n].previousSibling.value;
      NextOfDeepest(L, R, s);
      assert NodeOk(L, s);
    }
  }

  /** What follows m's subtree is preceded by the deepest last descendant of m. */
  lemma {:induction false} SkipPrevious(L: map<NodeId, Links>, R: map<NodeId, nat>, m: NodeId)
    requires Tree(L, R) && m in L && Skip(L, R, m).Some?
    ensures Previous(L, R, Skip(L, R, m).value) == Some(Deepest(L, R, m))
    decreases R[m]
  {
    assert NodeOk(L, m);
    if L[m].nextSibling.None? {
      var q := L[m].parent.value;
      assert NodeOk(L, q);
      SkipPrevious(L, R, q);
    } else {
      assert NodeOk(L, L[m].nextSibling.value);
    }
  }

  /** Going forward from n and then back returns to n. */
  lemma PreviousOfNext(L: map<NodeId, Links>, R: map<NodeId, nat>, n: NodeId)
    requires Tree(L, R) && n in L && Next(L, R, n).Some?
    ensures Previous(L, R, Next(L, R, n).value) == Some(n)
  {
    assert NodeOk(L, n);
    if L[n].firstChild.Some? {
      assert NodeOk(L, L[n].firstChild.value);
    } else {
      SkipPrevious(L, R, n);
    }
  }

  /** Skipping m's children leaves m's subtree. */
  lemma {:induction false} SkipNotBelow(L: map<NodeId, Links>, R: map<NodeId, nat>, m: NodeId)
    requires Tree(L, R) && m in L
    ensures Skip(L, R, m).Some? ==> !Under(L, R, Skip(L, R, m).value, m)
    decreases R[m]
  {
    assert NodeOk(L, m);
    if L[m].nextSibling.Some? {
      var s := L[m].nextSibling.value;
      if Under(L, R, s, m) {
        UnderParent(L, R, s, m);
        UnderRank(L, R, L[s].parent.value, m);
      }
    } else if L[m].parent.Some? {
      var q := L[m].parent.value;
      SkipNotBelow(L, R, q);
      if Skip(L, R, q).Some? && Under(L, R, Skip(L, R, q).value, m) {
        UnderParent(L, R, Skip(L, R, q).value, m);
      }
    }
  }

  /** Skipping back from an inclusive ancestor a of n never reaches an ancestor of n. */
  lemma {:induction false} SkipBackNotAbove(L: map<NodeId, Links>, R: map<NodeId, nat>, n: NodeId, a: NodeId)
    requires Tree(L, R) && n in L && a in L && Under(L, R, n, a)
    ensures SkipBack(L, R, a).Some? ==> !Under(L, R, n, SkipBack(L, R, a).value)
    decreases R[a]
  {
    assert NodeOk(L, a);
    if L[a].previousSibling.Some? {
      var s := L[a].previousSibling.value;
      assert NodeOk(L, s);
      if Under(L, R, n, s) {
        UnderTotal(L, R, n, a, s);
        if Under(L, R, a, s) {
          UnderParent(L, R, a, s);
          UnderRank(L, R, L[a].parent.value, s);
        } else {
          UnderParent(L, R, s, a);
          UnderRank(L, R, L[s].parent.value, a);
        }
      }
    } else if L[a].parent.Some? {
      UnderParent(L, R, n, a);
      SkipBackNotAbove(L, R, n, L[a].parent.value);
    }
  }

  // ---------------------------------------------------------------------
  // Content-editable
  // ---------------------------------------------------------------------

  /** `toLowerCase` on one character, for the ASCII letters. */
  function LowerChar(c: char): (r: char)
    ensures 'A' <= c <= 'Z' ==> 'a' <= r <= 'z' && r as int - c as int == 32
    ensures !('A' <= c <= 'Z') ==> r == c
  {
    if 'A' <= c <= 'Z' then (c as int + 32) as char else c
  }

  /** `toLowerCase`: every character lowered. */
  function Lower(s: string): (r: string)
    ensures |r| == |s| && forall i | 0 <= i < |s| :: r[i] == LowerChar(s[i])
  {
    seq(|s|, i requires 0 <= i < |s| => LowerChar(s[i]))
  }

  /** Lowering twice is lowering once. */
  lemma LowerIdempotent(s: string)
    ensures Lower(Lower(s)) == Lower(s)
  {
    var t := Lower(s);
    forall i | 0 <= i < |s|
      ensures Lower(t)[i] == t[i]
    {
      assert t[i] == LowerChar(s[i]);
    }
  }

  /**
   * `isContentEditable` as a walk up the parents: `ce` holds the values of
   * the `contenteditable` attribute and `dom` the nodes the browser itself
   * reports as editable. The first node with either decides.
   */
  ghost function Editable(L: map<NodeId, Links>, R: map<NodeId, nat>, ce: map<NodeId, string>, dom: set<NodeId>, n: NodeId): bool
    requires Ranked(L, R) && n in L
    decreases R[n]
  {
    if n in ce then Lower(ce[n]) != "false"
    else if n in dom then true
    else if L[n].parent.None? then false
    else Editable(L, R, ce, dom, L[n].parent.value)
  }

  /** No node from n up to, but not including, a carries a mark. */
  ghost predicate Unmarked(L: map<NodeId, Links>, R: map<NodeId, nat>, ce: map<NodeId, string>, dom: set<NodeId>, n: NodeId, a: NodeId)
    requires Ranked(L, R) && n in L
  {
    forall m | m in L && Under(L, R, n, m) && m != a && Under(L, R, m, a) :: m !in ce && m !in dom
  }

  /** The nearest node with a `contenteditable` attribute or an editable DOM node decides. */
  lemma {:induction false} NearestDecides(L: map<NodeId, Links>, R: map<NodeId, nat>, ce: map<NodeId, string>, dom: set<NodeId>, n: NodeId, a: NodeId)
    requires Ranked(L, R) && n in L && a in L && Under(L, R, n, a) && Unmarked(L, R, ce, dom, n, a)
    ensures a in ce ==> (Editable(L, R, ce, dom, n) <==> Lower(ce[a]) != "false")
    ensures a !in ce && a in dom ==> Editable(L, R, ce, dom, n)
    decreases R[n]
  {
    if n != a {
      assert Under(L, R, a, a);
      var p := L[n].parent.value;
      forall m | m in L && Under(L, R, p, m) && m != a && Under(L, R, m, a)
        ensures m !in ce && m !in dom
      {
        assert Under(L, R, n, m);
      }
      NearestDecides(L, R, ce, dom, p, a);
    }
  }

  /** Without any mark on the way up, a node is not editable. */
  lemma {:induction false} UnmarkedNotEditable(L: map<NodeId, Links>, R: map<NodeId, nat>, ce: map<NodeId, string>, dom: set<NodeId>, n: NodeId)
    requires Ranked(L, R) && n in L
    requires forall m | m in L && Under(L, R, n, m) :: m !in ce && m !in dom
    ensures !Editable(L, R, ce, dom, n)
    decreases R[n]
  {
    if L[n].parent.Some? {
      var p := L[n].parent.value;
      forall m | m in L && Under(L, R, p, m)
        ensures m !in ce && m !in dom
      {
        assert Under(L, R, n, m);
      }
      UnmarkedNotEditable(L, R, ce, dom, p);
    }
  }

  /** `isContentEditable(node)`. */
  method IsContentEditable(L: map<NodeId, Links>, ghost R: map<NodeId, nat>, ce: map<NodeId, string>, dom: set<NodeId>, node: NodeId)
    returns (r: bool)
    requires Ranked(L, R) && node in L
    ensures r == Editable(L, R, ce, dom, node)
  {
    var runner := Some(node);
    while runner.Some?
      invariant runner.Some? ==> runner.value in L && Editable(L, R, ce, dom, runner.value) == Editable(L, R, ce, dom, node)
      invariant runner.None? ==> !Editable(L, R, ce, dom, node)
      decreases if runner.Some? then R[runner.value] + 1 else 0
    {
      var n := runner.value;
      if n in ce {
        return Lower(ce[n]) != "false";
      }
      if n in dom {
        return true;
      }
      runner := L[n].parent;
    }
    return false;
  }

  /** `isEditable(node)`: a node without a parent is never editable. */
  method IsEditable(L: map<NodeId, Links>, ghost R: map<NodeId, nat>, ce: map<NodeId, string>, dom: set<NodeId>, node: NodeId)
    returns (r: bool)
    requires Ranked(L, R) && node in L
    ensures r <==> L[node].parent.Some? && Editable(L, R, ce, dom, L[node].parent.value)
  {
    var container := L[node].parent;
    if container.None? {
      return false;
    }
    r := IsContentEditable(L, R, ce, dom, container.value);
  }

  /** The top of n's parent chain. */
  ghost function Root(L: map<NodeId, Links>, R: map<NodeId, nat>, n: NodeId): (t: NodeId)
    requires Ranked(L, R) && n in L
    ensures t in L && L[t].parent.None?
    decreases R[n]
  {
    if L[n].parent.None? then n else Root(L, R, L[n].parent.value)
  }

  /** The root lies above n, and every ancestor of n has the same root. */
  lemma {:induction false} RootAbove(L: map<NodeId, Links>, R: map<NodeId, nat>, n: NodeId, a: NodeId)
    requires Ranked(L, R) && n in L && a in L && Under(L, R, n, a)
    ensures Under(L, R, n, Root(L, R, n))
    ensures Root(L, R, a) == Root(L, R, n)
    decreases R[n]
  {
    if L[n].parent.Some? {
      var p := L[n].parent.value;
      if n == a {
        RootAbove(L, R, p, p);
      } else {
        RootAbove(L, R, p, a);
      }
    }
  }

  /** `inDocument(node)`: whether the root of node's tree is content-editable. */
  method InDocument(L: map<NodeId, Links>, ghost R: map<NodeId, nat>, ce: map<NodeId, string>, dom: set<NodeId>, node: NodeId)
    returns (r: bool)
    requires Ranked(L, R) && node in L
    ensures r == Editable(L, R, ce, dom, Root(L, R, node))
  {
    var runner := node;
    while L[runner].parent.Some?
      invariant runner in L && Root(L, R, runner) == Root(L, R, node)
      decreases R[runner]
    {
      runner := L[runner].parent.value;
    }
    r := IsContentEditable(L, R, ce, dom, runner);
  }

  // ---------------------------------------------------------------------
  // White space
  // ---------------------------------------------------------------------

  /** The characters of the class `[ \t\r\n]`. */
  predicate IsBlank(c: char) {
    c == ' ' || c == '\t' || c == '\r' || c == '\n'
  }

  /** `replace(/[ \t\r\n]/g, '')`: s without its blanks, in order. */
  function Stripped(s: string): (r: string)
    ensures |r| <= |s|
    ensures forall i | 0 <= i < |r| :: !IsBlank(r[i])
  {
    if s == [] then []
    else (if IsBlank(s[0]) then [] else [s[0]]) + Stripped(s[1..])
  }

  /** Nothing is left after stripping exactly when every character is blank. */
  lemma {:induction false} StrippedEmpty(s: string)
    ensures Stripped(s) == [] <==> forall i | 0 <= i < |s| :: IsBlank(s[i])
  {
    if s != [] {
      StrippedEmpty(s[1..]);
      assert forall i | 1 <= i < |s| :: s[i] == s[1..][i - 1];
    }
  }

  /** Stripping keeps every other character: stripping twice changes nothing. */
  lemma {:induction false} StrippedIdempotent(s: string)
    ensures Stripped(Stripped(s)) == Stripped(s)
  {
    if s != [] {
      StrippedIdempotent(s[1..]);
      StrippedAppend(if IsBlank(s[0]) then [] else [s[0]], Stripped(s[1..]));
    }
  }

  lemma {:induction false} StrippedAppend(a: string, b: string)
    ensures Stripped(a + b) == Stripped(a) + Stripped(b)
  {
    if a != [] {
      assert (a + b)[1..] == a[1..] + b;
      StrippedAppend(a[1..], b);
    } else {
      assert a + b == b;
    }
  }

  /** `isWhitespaceNode(node)`: a text node whose value is all blanks. */
  function IsWhitespaceNode(isText: bool, value: string): (r: bool)
    ensures r <==> isText && forall i | 0 <= i < |value| :: IsBlank(value[i])
  {
    StrippedEmpty(value);
    if !isText then false else Stripped(value) == []
  }
}
