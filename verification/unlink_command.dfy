/**
 * The `Unlink` command (src/editing/commands/unlink_command.js): every
 * editable A element that holds a selected node is unwrapped, its children
 * moved in front of it and the element removed. A caret unwraps the A
 * element around it. The selection follows through a small tracker that
 * moves an end sitting directly on an unwrapped element to its parent.
 */
module UnlinkCommands {
  import opened NodeForest
  import opened NodeMoves
  import opened NodeWalks
  import opened Selections
  import opened EditingContexts
  import opened EditingTree

  // ---------------------------------------------------------------------
  // The nearest A element
  // ---------------------------------------------------------------------

  /** The first node named `A` on the way up from n, n included. */
  ghost function NearestAnchor(L: map<NodeId, Links>, R: map<NodeId, nat>, D: map<NodeId, NodeData>, n: NodeId)
    : (r: Option<NodeId>)
    requires Ranked(L, R) && n in L && L.Keys <= D.Keys
    ensures r.Some? ==> r.value in L && D[r.value].nodeName == "A" && Under(L, R, n, r.value)
    decreases R[n]
  {
    if D[n].nodeName == "A" then Some(n)
    else if L[n].parent.None? then None
    else NearestAnchor(L, R, D, L[n].parent.value)
  }

  /**
   * Every A element above n (n included) lies above the one the walk
   * finds: the walk stops at the nearest, and finds nothing only when
   * there is none.
   */
  lemma {:induction false} NearestAnchorIsNearest(L: map<NodeId, Links>, R: map<NodeId, nat>, D: map<NodeId, NodeData>, n: NodeId, m: NodeId)
    requires Ranked(L, R) && n in L && L.Keys <= D.Keys
    requires m in L && Under(L, R, n, m) && D[m].nodeName == "A"
    ensures NearestAnchor(L, R, D, n).Some? && Under(L, R, NearestAnchor(L, R, D, n).value, m)
    decreases R[n]
  {
    if D[n].nodeName != "A" {
      NearestAnchorIsNearest(L, R, D, L[n].parent.value, m);
    }
  }

  /** `while (anchorElement && anchorElement.nodeName != 'A') anchorElement = anchorElement.parentNode`. */
  method FindAnchor(tree: NodeTree, start: Option<NodeId>) returns (r: Option<NodeId>)
    requires tree.Valid() && (start.Some? ==> start.value in tree.links)
    ensures r == if start.None? then None else NearestAnchor(tree.links, tree.rank, tree.data, start.value)
  {
    r := start;
    while r.Some? && tree.data[r.value].nodeName != "A"
      invariant r.Some? ==> r.value in tree.links
      invariant (if start.None? then None else NearestAnchor(tree.links, tree.rank, tree.data, start.value)) ==
                (if r.None? then None else NearestAnchor(tree.links, tree.rank, tree.data, r.value))
      decreases if r.Some? then tree.rank[r.value] + 1 else 0
    {
      r := tree.links[r.value].parent;
    }
  }

  // ---------------------------------------------------------------------
  // Moving the children of an element in front of it
  // ---------------------------------------------------------------------

  /** s with the nodes xs put just before ref. */
  function Spliced(s: seq<NodeId>, xs: seq<NodeId>, ref: NodeId): (r: seq<NodeId>)
    requires ref in s
    ensures |r| == |s| + |xs|
  {
    s[..Pos(s, ref)] + xs + s[Pos(s, ref)..]
  }

  /** The position of x in a + b when x is not in a and starts b. */
  lemma PosAfter(a: seq<NodeId>, b: seq<NodeId>, x: NodeId)
    requires x !in a && b != [] && b[0] == x
    ensures x in a + b && Pos(a + b, x) == |a|
  {
    var s := a + b;
    assert s[|a|] == x;
    var i := Pos(s, x);
    assert forall j | 0 <= j < |a| :: s[j] == a[j];
    assert forall j | 0 <= j < i :: s[..i][j] == s[j];
  }

  /** Removing a from a list where it follows u. */
  lemma WithoutFound(u: seq<NodeId>, a: NodeId, post: seq<NodeId>)
    requires a !in u
    ensures Without(u + [a] + post, a) == u + post
  {
    PosAfter(u, [a] + post, a);
    assert u + [a] + post == u + ([a] + post);
    var s := u + [a] + post;
    assert s[..|u|] == u && s[|u| + 1..] == post;
  }

  /** Inserting x before a in a list where a follows u. */
  lemma InsertBeforeFound(u: seq<NodeId>, a: NodeId, post: seq<NodeId>, x: NodeId)
    requires a !in u
    ensures InsertAt(u + [a] + post, x, a) == u + [x] + [a] + post
  {
    PosAfter(u, [a] + post, a);
    assert u + [a] + post == u + ([a] + post);
    var s := u + [a] + post;
    assert s[..|u|] == u && s[|u|..] == [a] + post;
  }

  /** Splicing before a in a list where a follows u. */
  lemma SplicedFound(u: seq<NodeId>, a: NodeId, post: seq<NodeId>, xs: seq<NodeId>)
    requires a !in u
    ensures Spliced(u + [a] + post, xs, a) == u + xs + [a] + post
  {
    PosAfter(u, [a] + post, a);
    assert u + [a] + post == u + ([a] + post);
    var s := u + [a] + post;
    assert s[..|u|] == u && s[|u|..] == [a] + post;
  }

  /** A list around the first occurrence of ref. */
  lemma AroundPos(s: seq<NodeId>, ref: NodeId)
    requires ref in s
    ensures s == s[..Pos(s, ref)] + [ref] + s[Pos(s, ref) + 1..] && ref !in s[..Pos(s, ref)]
  {
  }

  /**
   * Unwrapping: once ref is removed from the spliced list, ref's old place
   * holds xs, and every other entry of s keeps its order around them.
   */
  lemma SplicedThenRemoved(s: seq<NodeId>, xs: seq<NodeId>, ref: NodeId)
    requires ref in s && ref !in xs
    ensures Without(Spliced(s, xs, ref), ref) == s[..Pos(s, ref)] + xs + s[Pos(s, ref) + 1..]
  {
    var k := Pos(s, ref);
    AroundPos(s, ref);
    SplicedFound(s[..k], ref, s[k + 1..], xs);
    WithoutFound(s[..k] + xs, ref, s[k + 1..]);
  }

  /**
   * The offset k inside ref, moved to ref's parent at ref's position plus
   * k, names the same boundary: the children before it are ref's elder
   * siblings and then ref's first k children, before and after ref is
   * removed.
   */
  lemma RelocatedBoundary(s: seq<NodeId>, xs: seq<NodeId>, ref: NodeId, k: nat)
    requires ref in s && ref !in xs && k <= |xs|
    ensures Spliced(s, xs, ref)[..Pos(s, ref) + k] == s[..Pos(s, ref)] + xs[..k]
  {
    var i := Pos(s, ref);
    PrefixAcross(s[..i], xs, s[i..], k);
  }

  /** The same prefix once ref itself is gone. */
  lemma RemovedBoundary(s: seq<NodeId>, xs: seq<NodeId>, ref: NodeId, k: nat)
    requires ref in s && ref !in xs && k <= |xs|
    ensures Without(Spliced(s, xs, ref), ref)[..Pos(s, ref) + k] == s[..Pos(s, ref)] + xs[..k]
  {
    var i := Pos(s, ref);
    SplicedThenRemoved(s, xs, ref);
    PrefixAcross(s[..i], xs, s[i + 1..], k);
  }

  /** A prefix that ends inside the middle part of a three-part sequence. */
  lemma PrefixAcross(u: seq<NodeId>, v: seq<NodeId>, w: seq<NodeId>, k: nat)
    requires k <= |v|
    ensures (u + v + w)[..|u| + k] == u + v[..k]
  {
    assert u + v + w == u + (v + w);
  }

  /** The instructions logged by moving xs one by one before ref in p. */
  function Moves(p: NodeId, xs: seq<NodeId>, ref: NodeId): (r: seq<Instruction>)
    ensures |r| == |xs| && forall j | 0 <= j < |xs| :: r[j] == InsertBeforeRecord(p, xs[j], ref)
  {
    seq(|xs|, j requires 0 <= j < |xs| => InsertBeforeRecord(p, xs[j], ref))
  }

  lemma MovesStep(p: NodeId, xs: seq<NodeId>, ref: NodeId, k: nat)
    requires k < |xs|
    ensures Moves(p, xs[..k + 1], ref) == Moves(p, xs[..k], ref) + [InsertBeforeRecord(p, xs[k], ref)]
  {
    assert Moves(p, xs[..k + 1], ref) == Moves(p, xs[..k], ref) + [InsertBeforeRecord(p, xs[k], ref)];
  }

  /**
   * One turn of the loop of `moveChildNodesBeforeParentNode(a)`: the k-th
   * of a's original children is a's first child now; it is a proper child
   * and not above g, and its next sibling is the next of the children.
   */
  lemma MoveStepChild(L: map<NodeId, Links>, C: map<NodeId, seq<NodeId>>, R: map<NodeId, nat>, g: NodeId, a: NodeId,
                      cs: seq<NodeId>, k: nat)
    requires Wf(L, C, R) && a in L && L[a].parent == Some(g)
    requires k < |cs| && C[a] == cs[k..]
    ensures cs[k] in L && g in L && cs[k] != a && L[cs[k]].parent == Some(a) && !Under(L, R, g, cs[k])
    ensures L[a].firstChild == Some(cs[k])
    ensures L[cs[k]].nextSibling == if k + 1 < |cs| then Some(cs[k + 1]) else None
  {
    var x := cs[k];
    assert ListOk(L, a, C[a]);
    assert MemberOk(L, a, C[a], 0);
    assert x in L && L[x].parent == Some(a);
    assert g in L && R[g] < R[a] < R[x];
    if Under(L, R, g, x) {
      UnderRank(L, R, g, x);
    }
  }

  /** Moving the k-th child before a gives the next pair of lists. */
  lemma MoveStepLists(L: map<NodeId, Links>, C: map<NodeId, seq<NodeId>>, g: NodeId, a: NodeId,
                      cs: seq<NodeId>, pre: seq<NodeId>, post: seq<NodeId>, k: nat)
    requires Shape(L, C) && a in L && g in L
    requires k < |cs| && C[a] == cs[k..] && C[g] == pre + cs[..k] + [a] + post
    requires cs[k] in L && L[cs[k]].parent == Some(a) && g != a
    ensures Dropped(C, cs[k])[g := InsertAt(Without(C[g], cs[k]), cs[k], a)] ==
            C[a := cs[k + 1..]][g := pre + cs[..k + 1] + [a] + post]
  {
    var x := cs[k];
    DroppedFirst(L, C, a, cs, k);
    NotInOtherList(L, C, g, x);
    OnceInList(L, C, g, pre + cs[..k], a, post);
    ListsAfterMove(C, Dropped(C, x), g, a, cs, pre, post, k);
  }

  /** The child-list equation of one move, from the facts about each list. */
  lemma ListsAfterMove(C: map<NodeId, seq<NodeId>>, D: map<NodeId, seq<NodeId>>, g: NodeId, a: NodeId,
                       cs: seq<NodeId>, pre: seq<NodeId>, post: seq<NodeId>, k: nat)
    requires k < |cs| && D == C[a := cs[k + 1..]] && g in C
    requires C[g] == pre + cs[..k] + [a] + post && Without(C[g], cs[k]) == C[g] && a !in pre + cs[..k]
    ensures D[g := InsertAt(Without(C[g], cs[k]), cs[k], a)] == C[a := cs[k + 1..]][g := pre + cs[..k + 1] + [a] + post]
  {
    var u := pre + cs[..k];
    InsertBeforeFound(u, a, post, cs[k]);
    assert u + [cs[k]] == pre + cs[..k + 1];
  }

  /** Dropping the first child of a from every list shortens a's list alone. */
  lemma DroppedFirst(L: map<NodeId, Links>, C: map<NodeId, seq<NodeId>>, a: NodeId, cs: seq<NodeId>, k: nat)
    requires Shape(L, C) && a in L && k < |cs| && C[a] == cs[k..] && cs[k] in L && L[cs[k]].parent == Some(a)
    ensures Dropped(C, cs[k]) == C[a := cs[k + 1..]]
  {
    DroppedParent(L, C, cs[k]);
    WithoutFirst(C[a]);
    assert cs[k..][1..] == cs[k + 1..];
  }

  /** A node is in no list but its parent's. */
  lemma NotInOtherList(L: map<NodeId, Links>, C: map<NodeId, seq<NodeId>>, g: NodeId, x: NodeId)
    requires Shape(L, C) && g in L && x in L && L[x].parent != Some(g)
    ensures Without(C[g], x) == C[g]
  {
    if x in C[g] {
      ListMembers(L, C, g, x);
    }
  }

  /** A child list holds a once: nothing before it is a. */
  lemma OnceInList(L: map<NodeId, Links>, C: map<NodeId, seq<NodeId>>, g: NodeId, u: seq<NodeId>, a: NodeId, post: seq<NodeId>)
    requires Shape(L, C) && g in L && C[g] == u + [a] + post
    ensures a !in u
  {
    assert ListOk(L, g, C[g]);
    assert Distinct(C[g]) && C[g][|u|] == a;
    assert forall j | 0 <= j < |u| :: u[j] == C[g][j];
  }

  /** Updating two keys again forgets the first updates. */
  lemma Reupdate(M0: map<NodeId, seq<NodeId>>, M1: map<NodeId, seq<NodeId>>, a: NodeId, g: NodeId,
                 u: seq<NodeId>, v: seq<NodeId>, u': seq<NodeId>, v': seq<NodeId>)
    requires M1 == M0[a := u][g := v]
    ensures M1[a := u'][g := v'] == M0[a := u'][g := v']
  {
  }

  /** One more move appended to the log. */
  lemma LogStep(base: seq<Instruction>, log: seq<Instruction>, g: NodeId, cs: seq<NodeId>, a: NodeId, k: nat)
    requires k < |cs| && log == base + Moves(g, cs[..k], a)
    ensures log + [InsertBeforeRecord(g, cs[k], a)] == base + Moves(g, cs[..k + 1], a)
  {
    MovesStep(g, cs, a, k);
  }

  /** Removing the first entry. */
  lemma WithoutFirst(s: seq<NodeId>)
    requires s != []
    ensures Without(s, s[0]) == s[1..]
  {
  }

  /**
   * `moveChildNodesBeforeParentNode(a, stopNode)`: each child of a in turn
   * is inserted before a in a's parent, which leaves a empty and its
   * children, in order, just before it. The stop node is not used. A
   * parentless a with children throws at once (`null.insertBefore`).
   */
  method MoveChildNodesBeforeParentNode(tree: NodeTree, a: NodeId) returns (ok: bool)
    requires tree.Valid() && a in tree.links
    modifies tree, tree.context
    ensures tree.Valid() && tree.data == old(tree.data)
    ensures ok <==> old(tree.links[a].parent).Some? || old(tree.children[a]) == []
    ensures old(tree.links[a].parent).None? ==>
              tree.links == old(tree.links) && tree.children == old(tree.children) && tree.context.Changed(0, [])
    ensures old(tree.links[a].parent).Some? ==>
              var g := old(tree.links[a].parent.value);
              g in old(tree.children) && a in old(tree.children[g]) &&
              tree.children == old(tree.children)[a := []][g := Spliced(old(tree.children[g]), old(tree.children[a]), a)] &&
              tree.links[a].parent == Some(g) &&
              tree.context.Changed(0, Moves(g, old(tree.children[a]), a))
    ensures forall m | m in old(tree.links) && m !in old(tree.children[a]) :: tree.links[m].parent == old(tree.links[m].parent)
  {
    ghost var C0, L0 := tree.children, tree.links;
    ghost var cs := C0[a];
    assert ListOk(tree.links, a, cs);
    var g := tree.links[a].parent;
    if g.None? {
      // the first `parentNode.parentNode.insertBefore` throws
      return tree.links[a].firstChild.None?;
    }
    ghost var pre, post := SpliceStart(tree.links, tree.children, a);
    MoveAll(tree, g.value, a, cs, pre, post, C0);
    SplicedFound(pre, a, post, cs);
    return true;
  }

  /** The loop of `moveChildNodesBeforeParentNode`, from a's first child to its last. */
  method MoveAll(tree: NodeTree, g: NodeId, a: NodeId, ghost cs: seq<NodeId>, ghost pre: seq<NodeId>,
                 ghost post: seq<NodeId>, ghost C0: map<NodeId, seq<NodeId>>)
    requires tree.Valid() && a in tree.links && tree.links[a].parent == Some(g) && ListOk(tree.links, a, cs)
    requires tree.children == C0[a := cs[0..]][g := pre + cs[..0] + [a] + post]
    modifies tree, tree.context
    ensures tree.Valid() && tree.data == old(tree.data) && tree.links.Keys == old(tree.links).Keys
    ensures tree.links[a].parent == Some(g)
    ensures tree.children == C0[a := []][g := pre + cs + [a] + post]
    ensures tree.context.Changed(0, Moves(g, cs, a))
    ensures forall m | m in old(tree.links) && m !in cs :: tree.links[m].parent == old(tree.links)[m].parent
  {
    ghost var L0 := tree.links;
    ghost var k := 0;
    var child := tree.links[a].firstChild;
    while child.Some?
      invariant tree.Valid() && tree.data == old(tree.data) && tree.links.Keys == L0.Keys
      invariant k <= |cs| && child == if k < |cs| then Some(cs[k]) else None
      invariant tree.links[a].parent == Some(g)
      invariant tree.children == C0[a := cs[k..]][g := pre + cs[..k] + [a] + post]
      invariant tree.context.Changed(0, Moves(g, cs[..k], a))
      invariant forall m | m in L0 && m !in cs :: tree.links[m].parent == L0[m].parent
      decreases |cs| - k
    {
      child := MoveBefore(tree, g, a, child.value, cs, pre, post, k, C0, L0, old(tree.context.instructions));
      k := k + 1;
    }
    assert cs[k..] == [] && cs[..k] == cs;
  }

  /** Where a sits among its parent's children, before any child has moved. */
  lemma SpliceStart(L: map<NodeId, Links>, C: map<NodeId, seq<NodeId>>, a: NodeId) returns (pre: seq<NodeId>, post: seq<NodeId>)
    requires Shape(L, C) && a in L && L[a].parent.Some?
    ensures L[a].parent.value in C && a in C[L[a].parent.value]
    ensures C[L[a].parent.value] == pre + [a] + post && a !in pre
    ensures C[a := C[a][0..]][L[a].parent.value := pre + C[a][..0] + [a] + post] == C
  {
    ChildPosition(L, C, a);
    var G0 := C[L[a].parent.value];
    pre, post := G0[..Pos(G0, a)], G0[Pos(G0, a) + 1..];
    AroundPos(G0, a);
    assert C[a][0..] == C[a] && pre + C[a][..0] + [a] + post == G0;
  }

  /**
   * `parentNode.parentNode.insertBefore(child, parentNode)` for the k-th of
   * a's original children, a's first child now.
   */
  method MoveBefore(tree: NodeTree, g: NodeId, a: NodeId, x: NodeId, ghost cs: seq<NodeId>, ghost pre: seq<NodeId>,
                    ghost post: seq<NodeId>, ghost k: nat, ghost C0: map<NodeId, seq<NodeId>>,
                    ghost L0: map<NodeId, Links>, ghost I0: seq<Instruction>)
    returns (next: Option<NodeId>)
    requires tree.Valid() && a in tree.links && tree.links[a].parent == Some(g)
    requires k < |cs| && x == cs[k] && tree.children == C0[a := cs[k..]][g := pre + cs[..k] + [a] + post]
    requires tree.links.Keys == L0.Keys && forall m | m in L0 && m !in cs :: tree.links[m].parent == L0[m].parent
    requires tree.context.instructions == I0 + Moves(g, cs[..k], a)
    modifies tree, tree.context
    ensures tree.Valid() && tree.data == old(tree.data) && tree.links.Keys == old(tree.links).Keys
    ensures tree.links[a].parent == Some(g)
    ensures tree.children == C0[a := cs[k + 1..]][g := pre + cs[..k + 1] + [a] + post]
    ensures tree.context.Changed(0, [InsertBeforeRecord(g, cs[k], a)])
    ensures forall m | m in old(tree.links) && m != cs[k] :: tree.links[m].parent == old(tree.links[m].parent)
    ensures forall m | m in L0 && m !in cs :: tree.links[m].parent == L0[m].parent
    ensures tree.context.instructions == I0 + Moves(g, cs[..k + 1], a)
    ensures next == if k + 1 < |cs| then Some(cs[k + 1]) else None
  {
    LogStep(I0, tree.context.instructions, g, cs, a, k);
    MoveStepChild(tree.links, tree.children, tree.rank, g, a, cs, k);
    next := tree.links[x].nextSibling;
    MoveStepLists(tree.links, tree.children, g, a, cs, pre, post, k);
    ghost var L1, C1 := tree.links, tree.children;
    InsertKeepsParents(tree.links, tree.children, tree.rank, g, cs[k], a);
    var moved := tree.InsertBefore(g, x, Some(a));
    assert moved;
    Reupdate(C0, C1, a, g, cs[k..], pre + cs[..k] + [a] + post, cs[k + 1..], pre + cs[..k + 1] + [a] + post);
    assert tree.links == InsertBeforeLinks(L1, g, cs[k], a);
    assert cs[k] in cs;
  }

  /** Inserting x before ref changes the parent of x alone. */
  lemma InsertKeepsParents(L: map<NodeId, Links>, C: map<NodeId, seq<NodeId>>, R: map<NodeId, nat>, p: NodeId, x: NodeId, ref: NodeId)
    requires Wf(L, C, R) && p in L && x in L && ref in L
    ensures forall m | m in L && m != x :: InsertBeforeLinks(L, p, x, ref)[m].parent == L[m].parent
  {
    DetachWf(L, C, R, x);
  }

  // ---------------------------------------------------------------------
  // Unlink at a caret
  // ---------------------------------------------------------------------

  /** The values of the `contenteditable` attributes, node by node. */
  function ContentEditables(D: map<NodeId, NodeData>): (ce: map<NodeId, string>)
    ensures forall n | n in D :: n in ce <==> GetAttribute(D[n], "contenteditable").Some?
    ensures forall n | n in ce :: n in D && GetAttribute(D[n], "contenteditable") == Some(ce[n])
  {
    map n | n in D && GetAttribute(D[n], "contenteditable").Some? :: GetAttribute(D[n], "contenteditable").value
  }

  /**
   * The A element the command unwraps for a node f (the focus of a caret,
   * or a node of the range): the nearest one around f, when it is
   * editable (which needs a parent).
   */
  ghost function UnwrapTarget(L: map<NodeId, Links>, R: map<NodeId, nat>, D: map<NodeId, NodeData>, dom: set<NodeId>,
                             f: Option<NodeId>): (r: Option<NodeId>)
    requires Ranked(L, R) && L.Keys <= D.Keys && (f.Some? ==> f.value in L)
    ensures r.Some? ==> f.Some? && r == NearestAnchor(L, R, D, f.value) && L[r.value].parent.Some?
  {
    if f.None? then None
    else
      var found := NearestAnchor(L, R, D, f.value);
      if found.Some? && L[found.value].parent.Some? &&
         Editable(L, R, ContentEditables(D), dom, L[found.value].parent.value)
      then found else None
  }

  /** Detaching a, which is not above n, leaves the nearest A element above n where it was. */
  lemma {:induction false} NearestAnchorFrame(L: map<NodeId, Links>, L': map<NodeId, Links>, R: map<NodeId, nat>,
                                              D: map<NodeId, NodeData>, n: NodeId, a: NodeId)
    requires Ranked(L, R) && Ranked(L', R) && L.Keys == L'.Keys && L.Keys <= D.Keys && n in L
    requires forall m | m in L && m != a :: L'[m].parent == L[m].parent
    requires !Under(L, R, n, a)
    ensures NearestAnchor(L', R, D, n) == NearestAnchor(L, R, D, n)
    decreases R[n]
  {
    if D[n].nodeName != "A" && L[n].parent.Some? {
      NearestAnchorFrame(L, L', R, D, L[n].parent.value, a);
    }
  }

  /** Detaching a, which is not above n, leaves n as editable as it was. */
  lemma {:induction false} EditableFrame(L: map<NodeId, Links>, L': map<NodeId, Links>, R: map<NodeId, nat>,
                                         ce: map<NodeId, string>, dom: set<NodeId>, n: NodeId, a: NodeId)
    requires Ranked(L, R) && Ranked(L', R) && L.Keys == L'.Keys && n in L
    requires forall m | m in L && m != a :: L'[m].parent == L[m].parent
    requires !Under(L, R, n, a)
    ensures Editable(L', R, ce, dom, n) == Editable(L, R, ce, dom, n)
    decreases R[n]
  {
    if n !in ce && n !in dom && L[n].parent.Some? {
      EditableFrame(L, L', R, ce, dom, L[n].parent.value, a);
    }
  }

  /** A parentless node has no A element to unwrap: the walk finds it or nothing. */
  lemma DetachedTargetNone(L: map<NodeId, Links>, R: map<NodeId, nat>, D: map<NodeId, NodeData>, dom: set<NodeId>,
                           n: NodeId)
    requires Ranked(L, R) && L.Keys <= D.Keys && n in L && L[n].parent.None?
    ensures UnwrapTarget(L, R, D, dom, Some(n)).None?
  {
    assert NearestAnchor(L, R, D, n) == if D[n].nodeName == "A" then Some(n) else None;
  }

  /**
   * Detaching an A element a that is not above n (the current element
   * removed by the loop of lines 121-134) does not change the element the
   * command unwraps for n.
   */
  lemma UnwrapTargetFrame(L: map<NodeId, Links>, L': map<NodeId, Links>, R: map<NodeId, nat>, D: map<NodeId, NodeData>,
                          dom: set<NodeId>, n: NodeId, a: NodeId)
    requires Ranked(L, R) && Ranked(L', R) && L.Keys == L'.Keys && L.Keys <= D.Keys && n in L
    requires forall m | m in L && m != a :: L'[m].parent == L[m].parent
    requires !Under(L, R, n, a)
    ensures UnwrapTarget(L', R, D, dom, Some(n)) == UnwrapTarget(L, R, D, dom, Some(n))
  {
    NearestAnchorFrame(L, L', R, D, n, a);
    var found := NearestAnchor(L, R, D, n);
    if found.Some? {
      var f := found.value;
      assert f != a;
      if L[f].parent.Some? {
        var g := L[f].parent.value;
        assert Under(L, R, f, g) by { assert Under(L, R, g, g); }
        UnderTrans(L, R, n, f, g);
        if Under(L, R, g, a) {
          UnderIn(L, R, n, g);
          UnderTrans(L, R, n, g, a);
        }
        EditableFrame(L, L', R, ContentEditables(D), dom, g, a);
      }
    }
  }

  /**
   * Where the caret must be once a has been unwrapped: a focus below a
   * stays where it was; a focus on a itself moves into a's parent g, with
   * the same nodes before it as before: the elder siblings of a, then the
   * first fo children of a.
   */
  ghost predicate CaretKept(C0: map<NodeId, seq<NodeId>>, C2: map<NodeId, seq<NodeId>>, a: NodeId, g: NodeId,
                            f: NodeId, fo: int, caret: ReadOnlySelection)
    requires a in C0 && g in C0 && a in C0[g] && g in C2
  {
    caret.IsCaret() && caret.direction == AnchorIsStart &&
    (f != a ==> caret.focusNode == Some(f) && caret.focusOffset == fo) &&
    (f == a ==> (caret.focusNode == Some(g) &&
                 (0 <= fo <= |C0[a]| ==> (0 <= caret.focusOffset <= |C2[g]| &&
                                          C2[g][..caret.focusOffset] == C0[g][..Pos(C0[g], a)] + C0[a][..fo]))))
  }

  /** The entry at ref's old position plus k, once xs is spliced in before ref. */
  lemma SplicedAt(s: seq<NodeId>, xs: seq<NodeId>, ref: NodeId, k: nat)
    requires ref in s && k <= |xs|
    ensures Spliced(s, xs, ref)[Pos(s, ref) + k] == if k < |xs| then xs[k] else ref
  {
    var i := Pos(s, ref);
    assert Spliced(s, xs, ref) == (s[..i] + xs) + s[i..];
  }

  /** In a list without repetitions an entry has one index. */
  lemma IndexInDistinct(s: seq<NodeId>, i: nat, j: nat)
    requires Distinct(s) && i < |s| && j < |s| && s[i] == s[j]
    ensures i == j
  {
  }

  /** No node is its own child. */
  lemma NotOwnChild(L: map<NodeId, Links>, C: map<NodeId, seq<NodeId>>, R: map<NodeId, nat>, a: NodeId)
    requires Wf(L, C, R) && a in L
    ensures a !in C[a]
  {
    assert ListOk(L, a, C[a]);
    forall i | 0 <= i < |C[a]|
      ensures C[a][i] != a
    {
      assert MemberOk(L, a, C[a], i);
    }
  }

  /** A child list has no repetitions. */
  lemma ListDistinct(L: map<NodeId, Links>, C: map<NodeId, seq<NodeId>>, p: NodeId)
    requires Shape(L, C) && p in L
    ensures Distinct(C[p])
  {
    assert ListOk(L, p, C[p]);
  }

  /**
   * The index the caret gets in g after a's children moved in front of a
   * leaves behind it the nodes that were behind the caret inside a.
   */
  lemma CaretIndex(G: seq<NodeId>, xs: seq<NodeId>, a: NodeId, fo: nat, r: nat)
    requires a in G && a !in xs && Distinct(Spliced(G, xs, a)) && fo <= |xs|
    requires r < |Spliced(G, xs, a)| && Spliced(G, xs, a)[r] == if fo < |xs| then xs[fo] else a
    ensures r == Pos(G, a) + fo && r <= |Without(Spliced(G, xs, a), a)|
    ensures Without(Spliced(G, xs, a), a)[..r] == G[..Pos(G, a)] + xs[..fo]
  {
    SplicedAt(G, xs, a, fo);
    IndexInDistinct(Spliced(G, xs, a), r, Pos(G, a) + fo);
    SplicedThenRemoved(G, xs, a);
    RemovedBoundary(G, xs, a, fo);
  }

  /**
   * Where `unlinkForCaret` puts the caret as written, given the tree after
   * the children of the A element have moved: just before the node that
   * was at the caret, or else at the focus offset inside the focus node's
   * parent.
   */
  ghost function CaretAsWritten(L: map<NodeId, Links>, C: map<NodeId, seq<NodeId>>, f: NodeId, fo: int,
                                atCaret: Option<NodeId>): (r: (Option<NodeId>, int))
    requires f in L && (atCaret.Some? ==> Shape(L, C) && atCaret.value in L && L[atCaret.value].parent.Some?)
    ensures atCaret.Some? ==> r.0 == L[atCaret.value].parent && r.0.value in C && 0 <= r.1 < |C[r.0.value]| && C[r.0.value][r.1] == atCaret.value
    ensures atCaret.None? ==> r == (L[f].parent, fo)
  {
    if atCaret.Some? then
      var n := atCaret.value;
      ChildPosition(L, C, n);
      (L[n].parent, Pos(C[L[n].parent.value], n))
    else (L[f].parent, fo)
  }

  /**
   * `<p>x<a>bar|</a></p>`: node 1 is the P with children x (2) and the A
   * (3), whose one child is the text (4); the caret is at offset 1 in the
   * A. After the move the children of 1 are [2, 4, 3]; as written the
   * caret goes to offset 1 in 1, which once the A is gone has only x
   * before it, where the text was before the caret. The corrected caret
   * goes to the A's index, 2, and has x and the text before it.
   */
  lemma CaretAsWrittenMisplaced()
    ensures var C0 := map[1 := [2, 3], 2 := [], 3 := [4], 4 := []];
            var L1 := map[1 := Links(None, Some(2), Some(3), None, None),
                          2 := Links(Some(1), None, None, None, Some(4)),
                          3 := Links(Some(1), None, None, Some(4), None),
                          4 := Links(Some(1), None, None, Some(2), Some(3))];
            var C1 := C0[3 := []][1 := Spliced(C0[1], C0[3], 3)];
            var C2 := C1[1 := Without(C1[1], 3)];
            ChildAt(C0[3], 1).None? &&
            CaretAsWritten(L1, C1, 3, 1, None) == (Some(1), 1) &&
            C2[1][..1] == [2] && C0[1][..Pos(C0[1], 3)] + C0[3][..1] == [2, 4] &&
            Pos(C1[1], 3) == 2 && C2[1][..2] == [2, 4]
  {
    var C0 := map[1 := [2, 3], 2 := [], 3 := [4], 4 := []];
    var L1 := map[1 := Links(None, Some(2), Some(3), None, None),
                  2 := Links(Some(1), None, None, None, Some(4)),
                  3 := Links(Some(1), None, None, Some(4), None),
                  4 := Links(Some(1), None, None, Some(2), Some(3))];
    assert Pos(C0[1], 3) == 1;
    assert Spliced(C0[1], C0[3], 3) == [2, 4, 3];
    var C1 := C0[3 := []][1 := [2, 4, 3]];
    assert Pos(C1[1], 3) == 2;
    assert Without(C1[1], 3) == [2, 4];
  }

  /** The focus of the selection, when there is one, is a node of the tree. */
  predicate FocusIn(L: map<NodeId, Links>, sel: EditingSelection) {
    sel.focusNode.Some? ==> sel.focusNode.value in L
  }

  /**
   * `unlinkForCaret(context)` with the caret placement corrected: the
   * nearest editable A element around the focus is unwrapped, its
   * children moved in front of it and the element removed, and the caret
   * keeps its place. Without such an element the ending selection is the
   * starting one. The result is false where the source throws: the ending
   * selection was already set.
   */
  method UnlinkForCaret(tree: NodeTree, dom: set<NodeId>) returns (ok: bool)
    requires tree.Valid() && FocusIn(tree.links, tree.context.selection)
    modifies tree, tree.context
    ensures tree.Valid() && tree.data == old(tree.data)
    ensures tree.context.hashCode == old(tree.context.hashCode) && tree.context.selection == old(tree.context.selection)
    ensures tree.context.startingSelection == old(tree.context.startingSelection)
    ensures ok <==> old(tree.context.endingSelection).None?
    ensures !ok ==> tree.context.endingSelection == old(tree.context.endingSelection)
    ensures var t := UnwrapTarget(old(tree.links), old(tree.rank), old(tree.data), dom, old(tree.context.selection).focusNode);
            t.None? ==> tree.links == old(tree.links) && tree.children == old(tree.children) &&
                        tree.context.instructions == old(tree.context.instructions) &&
                        (ok ==> tree.context.endingSelection == old(tree.context.startingSelection))
    ensures var t := UnwrapTarget(old(tree.links), old(tree.rank), old(tree.data), dom, old(tree.context.selection).focusNode);
            t.Some? ==>
              var a := t.value;
              var g := old(tree.links)[a].parent.value;
              g in old(tree.children) && a in old(tree.children)[g] && g in tree.children &&
              tree.children == old(tree.children)[a := []][g := Without(Spliced(old(tree.children)[g], old(tree.children)[a], a), a)] &&
              tree.links[a].parent.None? && Kept(old(tree.links), tree.links, tree.data, {a}, []) &&
              LogOk(old(tree.context.instructions), tree.context.instructions, {a}) &&
              tree.context.instructions == old(tree.context.instructions) + (Moves(g, old(tree.children)[a], a) + [RemoveChildRecord(g, a)]) &&
              (ok ==> tree.context.endingSelection.Some? &&
                      CaretKept(old(tree.children), tree.children, a, g, old(tree.context.selection).focusNode.value,
                                old(tree.context.selection).focusOffset, tree.context.endingSelection.value))
  {
    var sel := tree.context.selection;
    var found := FindAnchor(tree, sel.focusNode);
    var editable := false;
    if found.Some? {
      editable := IsEditable(tree.links, tree.rank, ContentEditables(tree.data), dom, found.value);
    }
    if !editable {
      ok := tree.context.SetEndingSelection(tree.context.startingSelection);
      return;
    }
    ok := UnwrapAtCaret(tree, found.value, sel.focusNode.value, sel.focusOffset);
  }

  /** Lines 86-94 of `unlinkForCaret`: a is unwrapped and the caret set where the focus (f, fo) was. */
  method UnwrapAtCaret(tree: NodeTree, a: NodeId, f: NodeId, fo: int) returns (ok: bool)
    requires tree.Valid() && a in tree.links && tree.links[a].parent.Some? && f in tree.links
    requires Under(tree.links, tree.rank, f, a) && tree.data[a].nodeName == "A"
    modifies tree, tree.context
    ensures tree.Valid() && tree.data == old(tree.data)
    ensures tree.context.hashCode == old(tree.context.hashCode) && tree.context.selection == old(tree.context.selection)
    ensures tree.context.startingSelection == old(tree.context.startingSelection)
    ensures ok <==> old(tree.context.endingSelection).None?
    ensures !ok ==> tree.context.endingSelection == old(tree.context.endingSelection)
    ensures var g := old(tree.links)[a].parent.value;
            g in old(tree.children) && a in old(tree.children)[g] && g in tree.children &&
            tree.children == old(tree.children)[a := []][g := Without(Spliced(old(tree.children)[g], old(tree.children)[a], a), a)] &&
            tree.links[a].parent.None? && Kept(old(tree.links), tree.links, tree.data, {a}, []) &&
            tree.context.instructions == old(tree.context.instructions) + (Moves(g, old(tree.children)[a], a) + [RemoveChildRecord(g, a)]) &&
            (ok ==> tree.context.endingSelection.Some? &&
                    CaretKept(old(tree.children), tree.children, a, g, f, fo, tree.context.endingSelection.value))
    ensures LogOk(old(tree.context.instructions), tree.context.instructions, {a})
  {
    ghost var L0, C0, I0 := tree.links, tree.children, tree.context.instructions;
    ghost var g := L0[a].parent.value;
    var container, offset := Unwrap(tree, a, f, fo);
    KeptUnwrapped(L0, tree.links, tree.data, a);
    UnwrapLogged(I0, g, C0[a], a);
    ok := tree.context.SetEndingSelection(Some(ReadOnlySelection(container, offset, container, offset, AnchorIsStart)));
  }

  /** Unwrapping a logs moves and the removal of a. */
  lemma UnwrapLogged(I0: seq<Instruction>, g: NodeId, xs: seq<NodeId>, a: NodeId)
    ensures LogOk(I0, I0 + (Moves(g, xs, a) + [RemoveChildRecord(g, a)]), {a})
  {
    MovesAllowed(g, xs, a, {a});
    LogAppend(I0, Moves(g, xs, a), {a});
    LogAppend(I0 + Moves(g, xs, a), [RemoveChildRecord(g, a)], {a});
    LogTrans(I0, I0 + Moves(g, xs, a), I0 + Moves(g, xs, a) + [RemoveChildRecord(g, a)], {a}, {a});
    assert I0 + Moves(g, xs, a) + [RemoveChildRecord(g, a)] == I0 + (Moves(g, xs, a) + [RemoveChildRecord(g, a)]);
  }

  /** A node at or below a is not a's parent. */
  lemma AboveParent(L: map<NodeId, Links>, R: map<NodeId, nat>, f: NodeId, a: NodeId)
    requires Ranked(L, R) && f in L && a in L && L[a].parent.Some? && Under(L, R, f, a)
    ensures f != L[a].parent.value
  {
    UnderRank(L, R, f, a);
    assert R[L[a].parent.value] < R[a];
  }

  /** A log that grew by ms and then by r grew by ms + [r]. */
  lemma AppendLog(I0: seq<Instruction>, ms: seq<Instruction>, r: Instruction, I1: seq<Instruction>, I2: seq<Instruction>)
    requires I1 == I0 + ms && I2 == I1 + [r]
    ensures I2 == I0 + (ms + [r])
  {
  }

  /** Replacing an entry twice keeps the second value. */
  lemma UpdateTwice(M: map<NodeId, seq<NodeId>>, g: NodeId, u: seq<NodeId>, v: seq<NodeId>)
    ensures M[g := u][g := v] == M[g := v]
  {
  }

  /**
   * Lines 86-91 of `unlinkForCaret`: with a the A element around the focus
   * (f, fo), take the node at the caret, move a's children in front of a,
   * place the caret and remove a from its parent g.
   */
  method Unwrap(tree: NodeTree, a: NodeId, f: NodeId, fo: int) returns (container: Option<NodeId>, offset: int)
    requires tree.Valid() && a in tree.links && tree.links[a].parent.Some? && f in tree.links
    requires Under(tree.links, tree.rank, f, a)
    modifies tree, tree.context
    ensures tree.Valid() && tree.data == old(tree.data)
    ensures var g := old(tree.links)[a].parent.value;
            g in old(tree.children) && a in old(tree.children)[g] && g in tree.children &&
            tree.children == old(tree.children)[a := []][g := Without(Spliced(old(tree.children)[g], old(tree.children)[a], a), a)] &&
            tree.links[a].parent.None? &&
            tree.context.Changed(0, Moves(g, old(tree.children)[a], a) + [RemoveChildRecord(g, a)])
    ensures tree.links.Keys == old(tree.links).Keys
    ensures forall m | m in old(tree.links) && m != a :: tree.links[m].parent.Some? == old(tree.links)[m].parent.Some?
    ensures f != a ==> container == Some(f) && offset == fo
    ensures var g := old(tree.links)[a].parent.value;
            f == a ==> container == Some(g) &&
                       (0 <= fo <= |old(tree.children)[a]| ==>
                          (0 <= offset <= |tree.children[g]| &&
                           tree.children[g][..offset] == old(tree.children)[g][..Pos(old(tree.children)[g], a)] + old(tree.children)[a][..fo]))
  {
    ghost var L0, C0, R0, I0 := tree.links, tree.children, tree.rank, tree.context.instructions;
    ghost var g := L0[a].parent.value;
    ghost var G, xs := C0[g], C0[a];
    AboveParent(L0, R0, f, a);
    NotOwnChild(L0, C0, R0, a);
    var fcs := tree.ChildNodes(f);
    var atCaret := ChildAt(fcs, fo);
    UnwrapChildren(tree, a);
    ghost var L1, I1, C1 := tree.links, tree.context.instructions, tree.children;
    assert C1 == C0[a := []][g := Spliced(G, xs, a)];
    assert f != a ==> C1[f] == C0[f];
    container, offset := CaretPlace(tree, a, f, fo, atCaret, g, G, xs, C0[f]);
    RemoveAnchor(tree, a);
    UpdateTwice(C0[a := []], g, Spliced(G, xs, a), Without(Spliced(G, xs, a), a));
    AppendLog(I0, Moves(g, xs, a), RemoveChildRecord(g, a), I1, tree.context.instructions);
  }

  /**
   * Lines 88-90 of `unlinkForCaret` corrected, run once the children of a
   * stand in front of it in its parent g: the container and offset of the
   * caret, given the node that was at the caret before the move.
   */
  method CaretPlace(tree: NodeTree, a: NodeId, f: NodeId, fo: int, atCaret: Option<NodeId>, ghost g: NodeId,
                    ghost G: seq<NodeId>, ghost xs: seq<NodeId>, ghost Cf: seq<NodeId>)
    returns (container: Option<NodeId>, offset: int)
    requires tree.Valid() && a in tree.links && f in tree.links && tree.links[a].parent == Some(g)
    requires a in G && a !in xs && tree.children[g] == Spliced(G, xs, a)
    requires f == a ==> atCaret == ChildAt(xs, fo)
    requires f != a ==> f != g && tree.children[f] == Cf && atCaret == ChildAt(Cf, fo)
    ensures f != a ==> container == Some(f) && offset == fo
    ensures f == a ==> container == Some(g)
    ensures f == a && 0 <= fo <= |xs| ==>
              0 <= offset <= |Without(Spliced(G, xs, a), a)| &&
              Without(Spliced(G, xs, a), a)[..offset] == G[..Pos(G, a)] + xs[..fo]
  {
    ListDistinct(tree.links, tree.children, g);
    if atCaret.Some? {
      if f == a {
        SplicedAt(G, xs, a, fo);
        ListMembers(tree.links, tree.children, g, atCaret.value);
      } else {
        ListMembers(tree.links, tree.children, f, atCaret.value);
      }
      container := tree.links[atCaret.value].parent;
      var index := tree.NodeIndex(atCaret.value);
      offset := index.value;
      if f == a {
        CaretIndex(G, xs, a, fo, offset);
      } else {
        ListDistinct(tree.links, tree.children, f);
        IndexInDistinct(Cf, offset, fo);
      }
    } else if f == a {
      container := tree.links[a].parent;
      var index := tree.NodeIndex(a);
      offset := index.value;
      if 0 <= fo <= |xs| {
        CaretIndex(G, xs, a, fo, offset);
      }
    } else {
      container, offset := Some(f), fo;
    }
  }

  // ---------------------------------------------------------------------
  // SelectionTrackerForUnlink
  // ---------------------------------------------------------------------

  /**
   * `SelectionTrackerForUnlink`: the anchor and focus of the selection,
   * each moved to the parent of an A element the command is about to
   * unwrap when it sits directly on that element.
   */
  class UnlinkTracker {
    var anchorNode: Option<NodeId>
    var anchorOffset: int
    var focusNode: Option<NodeId>
    var focusOffset: int
    const selection: EditingSelection

    /** `new SelectionTrackerForUnlink(selection)`. */
    constructor (selection: EditingSelection)
      ensures anchorNode == selection.anchorNode && anchorOffset == selection.anchorOffset
      ensures focusNode == selection.focusNode && focusOffset == selection.focusOffset
      ensures this.selection == selection
    {
      anchorNode := selection.anchorNode;
      anchorOffset := selection.anchorOffset;
      focusNode := selection.focusNode;
      focusOffset := selection.focusOffset;
      this.selection := selection;
    }

    /**
     * `relocateIfNeeded(anchorElement)`: an end on a moves to a's parent,
     * its offset shifted by a's index there. False where the source
     * throws: an end on a parentless a (`nodeIndex` reads the null
     * parent's first child), the node already set to null.
     */
    method RelocateIfNeeded(tree: NodeTree, a: NodeId) returns (ok: bool)
      requires tree.Valid() && a in tree.links
      modifies this
      ensures ok <==> tree.links[a].parent.Some? || (old(anchorNode) != Some(a) && old(focusNode) != Some(a))
      ensures ok && old(anchorNode) == Some(a) ==>
                anchorNode == tree.links[a].parent &&
                anchorOffset == old(anchorOffset) + IndexInParent(tree.links, tree.children, a)
      ensures ok && old(focusNode) == Some(a) ==>
                focusNode == tree.links[a].parent &&
                focusOffset == old(focusOffset) + IndexInParent(tree.links, tree.children, a)
      ensures old(anchorNode) != Some(a) ==> anchorNode == old(anchorNode) && anchorOffset == old(anchorOffset)
      ensures old(focusNode) != Some(a) && ok ==> focusNode == old(focusNode) && focusOffset == old(focusOffset)
      ensures !ok ==> (anchorNode == None || focusNode == None)
    {
      if anchorNode == Some(a) {
        anchorNode := tree.links[a].parent;
        var index := tree.NodeIndex(a);
        if index.None? {
          return false;
        }
        IndexIsPos(tree, a, index.value);
        anchorOffset := anchorOffset + index.value;
      }
      if focusNode == Some(a) {
        focusNode := tree.links[a].parent;
        var index := tree.NodeIndex(a);
        if index.None? {
          return false;
        }
        IndexIsPos(tree, a, index.value);
        focusOffset := focusOffset + index.value;
      }
      return true;
    }

    /**
     * `finish()`: the tracked ends, in the direction of the selection,
     * become the ending selection; false where that throws (already set).
     */
    method Finish(context: EditingContext) returns (ok: bool)
      modifies context
      ensures ok <==> old(context.endingSelection).None?
      ensures ok ==> context.endingSelection ==
                     Some(ReadOnlySelection(anchorNode, anchorOffset, focusNode, focusOffset, selection.Direction()))
      ensures !ok ==> context.endingSelection == old(context.endingSelection)
      ensures context.instructions == old(context.instructions) && context.hashCode == old(context.hashCode)
      ensures context.startingSelection == old(context.startingSelection) && context.selection == old(context.selection)
    {
      ok := context.SetEndingSelection(Some(ReadOnlySelection(anchorNode, anchorOffset, focusNode, focusOffset,
                                                              selection.Direction())));
    }
  }

  /** a's index among its parent's children. */
  ghost function IndexInParent(L: map<NodeId, Links>, C: map<NodeId, seq<NodeId>>, a: NodeId): (i: nat)
    requires Shape(L, C) && a in L && L[a].parent.Some?
    ensures L[a].parent.value in C && i < |C[L[a].parent.value]| && C[L[a].parent.value][i] == a
  {
    ChildPosition(L, C, a);
    Pos(C[L[a].parent.value], a)
  }

  /** The index `nodeIndex` finds is the only one. */
  lemma IndexIsPos(tree: NodeTree, a: NodeId, i: nat)
    requires tree.Valid() && a in tree.links && tree.links[a].parent.Some?
    requires i < |tree.children[tree.links[a].parent.value]| && tree.children[tree.links[a].parent.value][i] == a
    ensures i == IndexInParent(tree.links, tree.children, a)
  {
    var cs := tree.children[tree.links[a].parent.value];
    ListDistinct(tree.links, tree.children, tree.links[a].parent.value);
    IndexInDistinct(cs, i, IndexInParent(tree.links, tree.children, a));
  }

  /**
   * The point the tracker moves to names the same place once the
   * children of a stand in front of it and a is gone: offset k inside a
   * becomes a's index plus k in its parent, with a's elder siblings and
   * its first k children before it, as before.
   */
  lemma RelocationKeepsPlace(G: seq<NodeId>, xs: seq<NodeId>, a: NodeId, k: nat)
    requires a in G && a !in xs && k <= |xs|
    ensures Pos(G, a) + k <= |Without(Spliced(G, xs, a), a)|
    ensures Without(Spliced(G, xs, a), a)[..Pos(G, a) + k] == G[..Pos(G, a)] + xs[..k]
  {
    SplicedThenRemoved(G, xs, a);
    RemovedBoundary(G, xs, a, k);
  }

  // ---------------------------------------------------------------------
  // Unlink over a range: the bookkeeping
  // ---------------------------------------------------------------------

  /** A record the command may log: a move, or the removal of an A element it unwraps. */
  predicate Allowed(r: Instruction, pushed: set<NodeId>) {
    r.InsertBeforeRecord? || (r.RemoveChildRecord? && r.oldChild in pushed)
  }

  /** I is I0 followed by allowed records only. */
  predicate LogOk(I0: seq<Instruction>, I: seq<Instruction>, pushed: set<NodeId>) {
    |I0| <= |I| && I[..|I0|] == I0 && forall j | |I0| <= j < |I| :: Allowed(I[j], pushed)
  }

  /** Two stretches of allowed records make one; more unwrapped elements allow more. */
  lemma LogTrans(I0: seq<Instruction>, I1: seq<Instruction>, I2: seq<Instruction>, p1: set<NodeId>, p2: set<NodeId>)
    requires LogOk(I0, I1, p1) && LogOk(I1, I2, p2) && p1 <= p2
    ensures LogOk(I0, I2, p2)
  {
    assert I2[..|I0|] == I2[..|I1|][..|I0|];
    forall j | |I0| <= j < |I2|
      ensures Allowed(I2[j], p2)
    {
      if j < |I1| {
        assert I2[j] == I2[..|I1|][j];
      }
    }
  }

  /** Appending allowed records keeps a log allowed. */
  lemma LogAppend(I0: seq<Instruction>, extra: seq<Instruction>, pushed: set<NodeId>)
    requires forall j | 0 <= j < |extra| :: Allowed(extra[j], pushed)
    ensures LogOk(I0, I0 + extra, pushed)
  {
    assert (I0 + extra)[..|I0|] == I0;
  }

  /** Moves are insertions. */
  lemma MovesAllowed(g: NodeId, xs: seq<NodeId>, a: NodeId, pushed: set<NodeId>)
    ensures forall j | 0 <= j < |Moves(g, xs, a)| :: Allowed(Moves(g, xs, a)[j], pushed)
  {
  }

  /** Nothing else of the context changes. */
  twostate predicate Quiet(c: EditingContext)
    reads c
  {
    c.hashCode == old(c.hashCode) && c.endingSelection == old(c.endingSelection) &&
    c.startingSelection == old(c.startingSelection) && c.selection == old(c.selection)
  }

  /** L1 and L2 give a parent to the same nodes. */
  ghost predicate SameAttached(L1: map<NodeId, Links>, L2: map<NodeId, Links>) {
    L1.Keys == L2.Keys && forall n | n in L1 :: L1[n].parent.Some? == L2[n].parent.Some?
  }

  /**
   * What the command keeps against the links L0 it started from: a node
   * that had a parent still has one unless it is an A element the command
   * unwrapped, and a node without one still has none; every unwrapped
   * element had a parent, and is detached once it is off the stack.
   */
  ghost predicate Kept(L0: map<NodeId, Links>, L: map<NodeId, Links>, D: map<NodeId, NodeData>, pushed: set<NodeId>,
                       stack: seq<NodeId>)
  {
    L.Keys == L0.Keys && pushed <= L.Keys &&
    (forall n | n in L0 && L0[n].parent.Some? && n !in pushed :: L[n].parent.Some?) &&
    (forall n | n in L0 && L0[n].parent.None? :: L[n].parent.None?) &&
    (forall n | n in pushed :: L0[n].parent.Some?) &&
    (forall n | n in pushed && n !in stack :: L[n].parent.None?) &&
    (forall n | n in pushed :: n in D && D[n].nodeName == "A")
  }

  /** The stack holds distinct, attached A elements the command unwraps. */
  ghost predicate Live(L: map<NodeId, Links>, stack: seq<NodeId>, pushed: set<NodeId>) {
    Distinct(stack) && forall i | 0 <= i < |stack| :: stack[i] in pushed && stack[i] in L && L[stack[i]].parent.Some?
  }

  /** The top of a stack, if any. */
  function Last(stack: seq<NodeId>): (r: Option<NodeId>)
    ensures r.None? <==> stack == []
    ensures r.Some? ==> r.value == stack[|stack| - 1] && r.value in stack
  {
    if stack == [] then None else Some(stack[|stack| - 1])
  }

  /**
   * `anchorElement` is the top of `anchorElements`, or null when it is
   * empty; an element is pushed only once the stack is empty, so it never
   * holds more than one.
   */
  ghost predicate Current(L: map<NodeId, Links>, anchor: Option<NodeId>, stack: seq<NodeId>, pushed: set<NodeId>) {
    anchor == Last(stack) && |stack| <= 1 && Live(L, stack, pushed)
  }

  /** A step that attaches the same nodes keeps what the command keeps. */
  lemma KeptAttached(L0: map<NodeId, Links>, L1: map<NodeId, Links>, L2: map<NodeId, Links>, D: map<NodeId, NodeData>,
                     pushed: set<NodeId>, stack: seq<NodeId>)
    requires Kept(L0, L1, D, pushed, stack) && Live(L1, stack, pushed) && SameAttached(L1, L2)
    ensures Kept(L0, L2, D, pushed, stack) && Live(L2, stack, pushed)
  {
    forall n | n in L0
      ensures L2[n].parent.Some? == L1[n].parent.Some?
    {
      assert n in L1;
    }
  }

  /** One A element unwrapped on its own, as `unlinkForCaret` does. */
  lemma KeptUnwrapped(L0: map<NodeId, Links>, L: map<NodeId, Links>, D: map<NodeId, NodeData>, a: NodeId)
    requires L.Keys == L0.Keys && a in L0 && a in D && D[a].nodeName == "A"
    requires L0[a].parent.Some? && L[a].parent.None?
    requires forall m | m in L0 && m != a :: L[m].parent.Some? == L0[m].parent.Some?
    ensures Kept(L0, L, D, {a}, [])
  {
  }

  /** Detaching the top of the stack and popping it. */
  lemma KeptRemoved(L0: map<NodeId, Links>, L1: map<NodeId, Links>, L2: map<NodeId, Links>, D: map<NodeId, NodeData>,
                    pushed: set<NodeId>, stack: seq<NodeId>)
    requires Kept(L0, L1, D, pushed, stack) && Live(L1, stack, pushed) && stack != []
    requires L2.Keys == L1.Keys && L2[stack[|stack| - 1]].parent.None?
    requires forall m | m in L1 && m != stack[|stack| - 1] :: L2[m].parent == L1[m].parent
    ensures Kept(L0, L2, D, pushed, stack[..|stack| - 1]) && Live(L2, stack[..|stack| - 1], pushed)
  {
    var a, rest := stack[|stack| - 1], stack[..|stack| - 1];
    assert stack == rest + [a];
    forall i | 0 <= i < |rest|
      ensures rest[i] != a
    {
      assert rest[i] == stack[i];
    }
  }

  /** An attached A element pushed on the empty stack. */
  lemma KeptPushed(L0: map<NodeId, Links>, L: map<NodeId, Links>, D: map<NodeId, NodeData>, pushed: set<NodeId>, a: NodeId)
    requires Kept(L0, L, D, pushed, []) && a in L && a in D && D[a].nodeName == "A" && L[a].parent.Some?
    ensures Kept(L0, L, D, pushed + {a}, [a]) && Live(L, [a], pushed + {a})
  {
  }

  /** The rank bound of `Under`, as an implication. */
  lemma UnderRankIf(L: map<NodeId, Links>, R: map<NodeId, nat>, n: NodeId, a: NodeId)
    requires Ranked(L, R) && n in L
    ensures Under(L, R, n, a) ==> a in R && R[a] <= R[n]
  {
    if Under(L, R, n, a) {
      UnderRank(L, R, n, a);
    }
  }

  /** The children of p have p for parent. */
  lemma ChildrenOf(L: map<NodeId, Links>, C: map<NodeId, seq<NodeId>>, p: NodeId)
    requires Shape(L, C) && p in L
    ensures forall m | m in C[p] :: m in L && L[m].parent == Some(p)
  {
    forall m | m in C[p]
      ensures m in L && L[m].parent == Some(p)
    {
      ListMembers(L, C, p, m);
    }
  }

  /** The nodes spliced into g's list now have g for parent. */
  lemma SplicedMembers(L: map<NodeId, Links>, C: map<NodeId, seq<NodeId>>, g: NodeId, G: seq<NodeId>, xs: seq<NodeId>, a: NodeId)
    requires Shape(L, C) && g in L && a in G && C[g] == Spliced(G, xs, a)
    ensures forall m | m in xs :: m in L && L[m].parent == Some(g)
  {
    forall m | m in xs
      ensures m in L && L[m].parent == Some(g)
    {
      ListMembers(L, C, g, m);
    }
  }

  // ---------------------------------------------------------------------
  // Unlink over a range: the steps
  // ---------------------------------------------------------------------

  /** Line 125: `anchorElement.parentNode.insertBefore(node, anchorElement)` for a child of a. */
  method TakeOut(tree: NodeTree, node: NodeId, a: NodeId)
    requires tree.Valid() && a in tree.links && node in tree.links
    requires tree.links[a].parent.Some? && tree.links[node].parent == Some(a)
    modifies tree, tree.context
    ensures tree.Valid() && tree.data == old(tree.data) && SameAttached(old(tree.links), tree.links)
    ensures tree.links[a].parent == old(tree.links[a].parent) && tree.links[node].parent == old(tree.links[a].parent)
    ensures tree.context.Changed(0, [InsertBeforeRecord(old(tree.links[a].parent.value), node, a)])
  {
    var g := tree.links[a].parent.value;
    ghost var L := tree.links;
    TakeOutLinks(tree.links, tree.children, tree.rank, node, a);
    var moved := tree.InsertBefore(g, node, Some(a));
    assert moved;
    assert tree.links == InsertBeforeLinks(L, g, node, a);
  }

  /** Moving a child of a in front of a keeps every node attached as it was. */
  lemma TakeOutLinks(L: map<NodeId, Links>, C: map<NodeId, seq<NodeId>>, R: map<NodeId, nat>, node: NodeId, a: NodeId)
    requires Wf(L, C, R) && a in L && node in L && L[a].parent.Some? && L[node].parent == Some(a)
    ensures L[a].parent.value in L && !Under(L, R, L[a].parent.value, node) && node != a
    ensures var L' := InsertBeforeLinks(L, L[a].parent.value, node, a);
            SameAttached(L, L') && L'[a].parent == L[a].parent && L'[node].parent == L[a].parent
  {
    var g := L[a].parent.value;
    UnderRankIf(L, R, g, node);
    assert R[g] < R[a] < R[node];
    InsertBeforeWf(L, C, R, g, node, a);
  }

  /** Lines 128 and 157: `anchorElement.parentNode.removeChild(anchorElement)`. */
  method RemoveAnchor(tree: NodeTree, a: NodeId)
    requires tree.Valid() && a in tree.links && tree.links[a].parent.Some?
    modifies tree, tree.context
    ensures tree.Valid() && tree.data == old(tree.data) && tree.links.Keys == old(tree.links).Keys
    ensures tree.rank == old(tree.rank) && tree.links[a].parent.None?
    ensures forall m | m in old(tree.links) && m != a :: tree.links[m].parent == old(tree.links)[m].parent
    ensures var g := old(tree.links)[a].parent.value;
            g in old(tree.children) && tree.children == old(tree.children)[g := Without(old(tree.children)[g], a)]
    ensures tree.context.Changed(0, [RemoveChildRecord(old(tree.links)[a].parent.value, a)])
  {
    var parent := tree.links[a].parent.value;
    UnlinkShape(tree.links, tree.children, tree.rank, a);
    var removed := tree.RemoveChild(parent, a);
    assert removed;
  }

  /** Lines 151 and 156: every child of a, which has a parent, goes in front of it. */
  method UnwrapChildren(tree: NodeTree, a: NodeId)
    requires tree.Valid() && a in tree.links && tree.links[a].parent.Some?
    modifies tree, tree.context
    ensures tree.Valid() && tree.data == old(tree.data) && SameAttached(old(tree.links), tree.links)
    ensures tree.links[a].parent == old(tree.links[a].parent) && tree.children[a] == []
    ensures var g := old(tree.links[a].parent.value);
            g in old(tree.children) && a in old(tree.children[g]) &&
            tree.children == old(tree.children)[a := []][g := Spliced(old(tree.children[g]), old(tree.children[a]), a)]
    ensures tree.context.Changed(0, Moves(old(tree.links[a].parent.value), old(tree.children[a]), a))
  {
    ghost var L0, C0, R0 := tree.links, tree.children, tree.rank;
    ghost var g := L0[a].parent.value;
    var moved := MoveChildNodesBeforeParentNode(tree, a);
    ChildrenOf(L0, C0, a);
    SplicedMembers(tree.links, tree.children, g, C0[g], C0[a], a);
  }

  /** TakeOut inside the range loop: a child of the current element goes in front of it. */
  method TakeOutKept(tree: NodeTree, node: NodeId, a: NodeId, ghost L0: map<NodeId, Links>, ghost pushed: set<NodeId>,
                     ghost stack: seq<NodeId>)
    requires tree.Valid() && a in tree.links && node in tree.links
    requires tree.links[a].parent.Some? && tree.links[node].parent == Some(a)
    requires Kept(L0, tree.links, tree.data, pushed, stack) && Live(tree.links, stack, pushed)
    modifies tree, tree.context
    ensures tree.Valid() && tree.data == old(tree.data) && Quiet(tree.context)
    ensures Kept(L0, tree.links, tree.data, pushed, stack) && Live(tree.links, stack, pushed)
    ensures LogOk(old(tree.context.instructions), tree.context.instructions, pushed)
    ensures tree.links[node].parent == old(tree.links[a].parent)
  {
    ghost var L1, I1 := tree.links, tree.context.instructions;
    TakeOut(tree, node, a);
    KeptAttached(L0, L1, tree.links, tree.data, pushed, stack);
    LogAppend(I1, [InsertBeforeRecord(L1[a].parent.value, node, a)], pushed);
  }

  /** L' is L with a detached and every other parent link kept, under the same ranks. */
  ghost predicate Detached(L: map<NodeId, Links>, R: map<NodeId, nat>, L': map<NodeId, Links>, R': map<NodeId, nat>, a: NodeId) {
    R' == R && L'.Keys == L.Keys && a in L' && L'[a].parent.None? &&
    forall m | m in L && m != a :: L'[m].parent == L[m].parent
  }

  /** RemoveAnchor inside the range loop: the current element is removed and popped. */
  method PopAnchor(tree: NodeTree, stack: seq<NodeId>, ghost L0: map<NodeId, Links>, ghost pushed: set<NodeId>)
    returns (stack': seq<NodeId>)
    requires tree.Valid() && stack != [] && Live(tree.links, stack, pushed)
    requires Kept(L0, tree.links, tree.data, pushed, stack)
    modifies tree, tree.context
    ensures stack' == stack[..|stack| - 1]
    ensures tree.Valid() && tree.data == old(tree.data) && Quiet(tree.context)
    ensures Kept(L0, tree.links, tree.data, pushed, stack') && Live(tree.links, stack', pushed)
    ensures LogOk(old(tree.context.instructions), tree.context.instructions, pushed)
    ensures Detached(old(tree.links), old(tree.rank), tree.links, tree.rank, stack[|stack| - 1])
  {
    var a := stack[|stack| - 1];
    ghost var L1, I1 := tree.links, tree.context.instructions;
    RemoveAnchor(tree, a);
    KeptRemoved(L0, L1, tree.links, tree.data, pushed, stack);
    LogAppend(I1, [RemoveChildRecord(L1[a].parent.value, a)], pushed);
    stack' := stack[..|stack| - 1];
  }

  // ---------------------------------------------------------------------
  // Unlink over a range: the command
  // ---------------------------------------------------------------------

  /**
   * Each tracked end is still the selection's own, or the selection's end
   * sat on an A element the command unwraps.
   */
  predicate Tracking(t: UnlinkTracker, sel: EditingSelection, pushed: set<NodeId>)
    reads t
  {
    t.selection == sel &&
    ((t.anchorNode == sel.anchorNode && t.anchorOffset == sel.anchorOffset) ||
     (sel.anchorNode.Some? && sel.anchorNode.value in pushed)) &&
    ((t.focusNode == sel.focusNode && t.focusOffset == sel.focusOffset) ||
     (sel.focusNode.Some? && sel.focusNode.value in pushed))
  }

  /**
   * One turn of the loop of lines 121-134, with a the current element on
   * top of the stack: a node below a ends the visit, and is taken out in
   * front of a when it is a child of it; otherwise a is removed and popped.
   */
  method SettleOnce(tree: NodeTree, node: NodeId, stack: seq<NodeId>, ghost L0: map<NodeId, Links>, ghost pushed: set<NodeId>)
    returns (done: bool, stack': seq<NodeId>)
    requires tree.Valid() && node in tree.links && stack != [] && Live(tree.links, stack, pushed)
    requires Kept(L0, tree.links, tree.data, pushed, stack)
    modifies tree, tree.context
    ensures tree.Valid() && tree.data == old(tree.data) && Quiet(tree.context)
    ensures Live(tree.links, stack', pushed) && Kept(L0, tree.links, tree.data, pushed, stack')
    ensures LogOk(old(tree.context.instructions), tree.context.instructions, pushed)
    ensures var a := stack[|stack| - 1];
            done <==> a != node && Under(old(tree.links), old(tree.rank), node, a)
    ensures stack' == if done then stack else stack[..|stack| - 1]
    ensures !done ==> Detached(old(tree.links), old(tree.rank), tree.links, tree.rank, stack[|stack| - 1])
    ensures var a := stack[|stack| - 1];
            done && old(tree.links)[node].parent == Some(a) ==> tree.links[node].parent == old(tree.links)[a].parent
    ensures var a := stack[|stack| - 1];
            done && old(tree.links)[node].parent != Some(a) ==>
              tree.links == old(tree.links) && tree.children == old(tree.children)
  {
    var a := stack[|stack| - 1];
    var below := IsDescendantOf(tree.links, tree.rank, node, a);
    if below {
      if tree.links[node].parent == Some(a) {
        TakeOutKept(tree, node, a, L0, pushed, stack);
      }
      return true, stack;
    }
    stack' := PopAnchor(tree, stack, L0, pushed);
    return false, stack';
  }

  /**
   * Lines 121-134, the loop at the head of the `forEach` callback: while
   * there is a current A element, a node below it ends the visit, taken
   * out in front of the element when it is a child of it and left where
   * it is when deeper; otherwise the element is removed and popped.
   */
  method Settle(tree: NodeTree, node: NodeId, anchor: Option<NodeId>, stack: seq<NodeId>,
                ghost L0: map<NodeId, Links>, ghost pushed: set<NodeId>)
    returns (done: bool, anchor': Option<NodeId>, stack': seq<NodeId>)
    requires tree.Valid() && node in tree.links && Current(tree.links, anchor, stack, pushed)
    requires Kept(L0, tree.links, tree.data, pushed, stack)
    modifies tree, tree.context
    ensures tree.Valid() && tree.data == old(tree.data) && Quiet(tree.context)
    ensures Current(tree.links, anchor', stack', pushed) && Kept(L0, tree.links, tree.data, pushed, stack')
    ensures LogOk(old(tree.context.instructions), tree.context.instructions, pushed)
    ensures done ==> anchor' == anchor && stack' == stack
    ensures !done ==> anchor'.None?
    ensures done <==> anchor.Some? && anchor.value != node && Under(old(tree.links), old(tree.rank), node, anchor.value)
    ensures done && old(tree.links)[node].parent == anchor ==>
              tree.links[node].parent == old(tree.links)[anchor.value].parent
    ensures done && old(tree.links)[node].parent != anchor ==> tree.links == old(tree.links) && tree.children == old(tree.children)
    ensures anchor.None? ==> tree.links == old(tree.links) && tree.rank == old(tree.rank)
    ensures !done && anchor.Some? ==> Detached(old(tree.links), old(tree.rank), tree.links, tree.rank, anchor.value)
  {
    anchor', stack' := anchor, stack;
    ghost var first := true;
    while anchor'.Some?
      invariant tree.Valid() && tree.data == old(tree.data) && Quiet(tree.context)
      invariant Current(tree.links, anchor', stack', pushed) && Kept(L0, tree.links, tree.data, pushed, stack')
      invariant LogOk(old(tree.context.instructions), tree.context.instructions, pushed)
      invariant first ==> anchor' == anchor && stack' == stack && tree.links == old(tree.links) &&
                          tree.children == old(tree.children) && tree.rank == old(tree.rank)
      invariant !first ==> anchor'.None? && anchor.Some? && !(anchor.value != node && Under(old(tree.links), old(tree.rank), node, anchor.value))
      invariant !first ==> Detached(old(tree.links), old(tree.rank), tree.links, tree.rank, anchor.value)
      decreases |stack'|
    {
      ghost var I1 := tree.context.instructions;
      var done;
      done, stack' := SettleOnce(tree, node, stack', L0, pushed);
      LogTrans(old(tree.context.instructions), I1, tree.context.instructions, pushed, pushed);
      if done {
        return true, anchor', stack';
      }
      anchor' := Last(stack');
      first := false;
    }
    return false, anchor', stack';
  }

  /**
   * Lines 136-151 of the `forEach` callback, once no A element is
   * current: the A element to unwrap for node is found; the tracked ends
   * on it move to its parent; it is pushed and, unless it is node itself,
   * all its children are moved in front of it (`stopNode` is not used).
   */
  method Enter(tree: NodeTree, tracker: UnlinkTracker, dom: set<NodeId>, node: NodeId,
               ghost L0: map<NodeId, Links>, ghost pushed: set<NodeId>)
    returns (anchor: Option<NodeId>, stack: seq<NodeId>, ghost pushed': set<NodeId>)
    requires tree.Valid() && node in tree.links && Kept(L0, tree.links, tree.data, pushed, [])
    requires Tracking(tracker, tree.context.selection, pushed)
    modifies tree, tree.context, tracker
    ensures tree.Valid() && tree.data == old(tree.data) && Quiet(tree.context)
    ensures Current(tree.links, anchor, stack, pushed') && Kept(L0, tree.links, tree.data, pushed', stack)
    ensures LogOk(old(tree.context.instructions), tree.context.instructions, pushed')
    ensures Tracking(tracker, tree.context.selection, pushed')
    ensures var t := UnwrapTarget(old(tree.links), old(tree.rank), tree.data, dom, Some(node));
            anchor == t && pushed' == pushed + (if t.Some? then {t.value} else {})
    ensures var t := UnwrapTarget(old(tree.links), old(tree.rank), tree.data, dom, Some(node));
            t.None? || t.value == node ==>
              tree.links == old(tree.links) && tree.children == old(tree.children) &&
              tree.context.instructions == old(tree.context.instructions)
    ensures var t := UnwrapTarget(old(tree.links), old(tree.rank), tree.data, dom, Some(node));
            t.Some? && t.value != node ==>
              tree.children[t.value] == [] &&
              tree.context.instructions ==
                old(tree.context.instructions) + Moves(old(tree.links)[t.value].parent.value, old(tree.children)[t.value], t.value)
    ensures var t := UnwrapTarget(old(tree.links), old(tree.rank), tree.data, dom, Some(node));
            if t.Some? && old(tracker.anchorNode) == t then
              tracker.anchorNode == old(tree.links)[t.value].parent &&
              tracker.anchorOffset == old(tracker.anchorOffset) + IndexInParent(old(tree.links), old(tree.children), t.value)
            else tracker.anchorNode == old(tracker.anchorNode) && tracker.anchorOffset == old(tracker.anchorOffset)
    ensures var t := UnwrapTarget(old(tree.links), old(tree.rank), tree.data, dom, Some(node));
            if t.Some? && old(tracker.focusNode) == t then
              tracker.focusNode == old(tree.links)[t.value].parent &&
              tracker.focusOffset == old(tracker.focusOffset) + IndexInParent(old(tree.links), old(tree.children), t.value)
            else tracker.focusNode == old(tracker.focusNode) && tracker.focusOffset == old(tracker.focusOffset)
  {
    var found := FindAnchor(tree, Some(node));
    var editable := false;
    if found.Some? {
      editable := IsEditable(tree.links, tree.rank, ContentEditables(tree.data), dom, found.value);
    }
    if !editable {
      return None, [], pushed;
    }
    anchor, stack, pushed' := PushAnchor(tree, tracker, node, found.value, L0, pushed);
  }

  /** Lines 145-151: the tracker relocates, a is pushed and, unless it is node, its children are moved out. */
  method PushAnchor(tree: NodeTree, tracker: UnlinkTracker, node: NodeId, a: NodeId,
                    ghost L0: map<NodeId, Links>, ghost pushed: set<NodeId>)
    returns (anchor: Option<NodeId>, stack: seq<NodeId>, ghost pushed': set<NodeId>)
    requires tree.Valid() && a in tree.links && tree.links[a].parent.Some? && tree.data[a].nodeName == "A"
    requires Kept(L0, tree.links, tree.data, pushed, []) && Tracking(tracker, tree.context.selection, pushed)
    modifies tree, tree.context, tracker
    ensures anchor == Some(a) && stack == [a] && pushed' == pushed + {a}
    ensures tree.Valid() && tree.data == old(tree.data) && Quiet(tree.context)
    ensures Current(tree.links, anchor, stack, pushed') && Kept(L0, tree.links, tree.data, pushed', stack)
    ensures LogOk(old(tree.context.instructions), tree.context.instructions, pushed')
    ensures Tracking(tracker, tree.context.selection, pushed')
    ensures a == node ==>
              tree.links == old(tree.links) && tree.children == old(tree.children) &&
              tree.context.instructions == old(tree.context.instructions)
    ensures a != node ==>
              tree.children[a] == [] &&
              tree.context.instructions == old(tree.context.instructions) + Moves(old(tree.links)[a].parent.value, old(tree.children)[a], a)
    ensures if old(tracker.anchorNode) == Some(a) then
              tracker.anchorNode == old(tree.links)[a].parent &&
              tracker.anchorOffset == old(tracker.anchorOffset) + IndexInParent(old(tree.links), old(tree.children), a)
            else tracker.anchorNode == old(tracker.anchorNode) && tracker.anchorOffset == old(tracker.anchorOffset)
    ensures if old(tracker.focusNode) == Some(a) then
              tracker.focusNode == old(tree.links)[a].parent &&
              tracker.focusOffset == old(tracker.focusOffset) + IndexInParent(old(tree.links), old(tree.children), a)
            else tracker.focusNode == old(tracker.focusNode) && tracker.focusOffset == old(tracker.focusOffset)
  {
    var relocated := tracker.RelocateIfNeeded(tree, a);
    assert relocated;
    KeptPushed(L0, tree.links, tree.data, pushed, a);
    anchor, stack, pushed' := Some(a), [a], pushed + {a};
    if a == node {
      return;
    }
    ghost var L1, I1 := tree.links, tree.context.instructions;
    UnwrapChildren(tree, a);
    KeptAttached(L0, L1, tree.links, tree.data, pushed', stack);
    MovesAllowed(L1[a].parent.value, old(tree.children)[a], a, pushed');
    LogAppend(I1, Moves(L1[a].parent.value, old(tree.children)[a], a), pushed');
  }

  /** The `forEach` callback of lines 120-152, for one node of the range. */
  method VisitNode(tree: NodeTree, tracker: UnlinkTracker, dom: set<NodeId>, node: NodeId, anchor: Option<NodeId>,
                   stack: seq<NodeId>, ghost L0: map<NodeId, Links>, ghost pushed: set<NodeId>)
    returns (anchor': Option<NodeId>, stack': seq<NodeId>, ghost pushed': set<NodeId>)
    requires tree.Valid() && node in tree.links && Current(tree.links, anchor, stack, pushed)
    requires Kept(L0, tree.links, tree.data, pushed, stack) && Tracking(tracker, tree.context.selection, pushed)
    modifies tree, tree.context, tracker
    ensures tree.Valid() && tree.data == old(tree.data) && Quiet(tree.context) && pushed <= pushed'
    ensures Current(tree.links, anchor', stack', pushed') && Kept(L0, tree.links, tree.data, pushed', stack')
    ensures LogOk(old(tree.context.instructions), tree.context.instructions, pushed')
    ensures Tracking(tracker, tree.context.selection, pushed')
    ensures anchor.Some? && anchor.value != node && Under(old(tree.links), old(tree.rank), node, anchor.value) ==>
              anchor' == anchor && pushed' == pushed
    ensures anchor == Some(node) ==> anchor'.None? && pushed' == pushed
    ensures anchor.None? || !Under(old(tree.links), old(tree.rank), node, anchor.value) ==>
              var t := UnwrapTarget(old(tree.links), old(tree.rank), old(tree.data), dom, Some(node));
              anchor' == t && pushed' == pushed + (if t.Some? then {t.value} else {})
  {
    var done;
    done, anchor', stack' := Settle(tree, node, anchor, stack, L0, pushed);
    if done {
      pushed' := pushed;
      return;
    }
    ghost var I1 := tree.context.instructions;
    anchor', stack', pushed' := EnterSettled(tree, tracker, dom, node, anchor, L0, pushed, old(tree.links), old(tree.rank));
    LogTrans(old(tree.context.instructions), I1, tree.context.instructions, pushed, pushed');
  }

  /**
   * The rest of a visit once no element is current: the A element unwrapped
   * for the node is the one it would have had before the current element,
   * if any, was popped (L and R are the tree before the pop).
   */
  method EnterSettled(tree: NodeTree, tracker: UnlinkTracker, dom: set<NodeId>, node: NodeId, anchor: Option<NodeId>,
                      ghost L0: map<NodeId, Links>, ghost pushed: set<NodeId>,
                      ghost L: map<NodeId, Links>, ghost R: map<NodeId, nat>)
    returns (anchor': Option<NodeId>, stack': seq<NodeId>, ghost pushed': set<NodeId>)
    requires tree.Valid() && node in tree.links && Kept(L0, tree.links, tree.data, pushed, [])
    requires Tracking(tracker, tree.context.selection, pushed)
    requires Ranked(L, R) && L.Keys == tree.links.Keys
    requires anchor.None? ==> tree.links == L && tree.rank == R
    requires anchor.Some? ==> Detached(L, R, tree.links, tree.rank, anchor.value) &&
                              (anchor.value == node || !Under(L, R, node, anchor.value))
    modifies tree, tree.context, tracker
    ensures tree.Valid() && tree.data == old(tree.data) && Quiet(tree.context) && pushed <= pushed'
    ensures Current(tree.links, anchor', stack', pushed') && Kept(L0, tree.links, tree.data, pushed', stack')
    ensures LogOk(old(tree.context.instructions), tree.context.instructions, pushed')
    ensures Tracking(tracker, tree.context.selection, pushed')
    ensures anchor == Some(node) ==> anchor'.None? && pushed' == pushed
    ensures anchor != Some(node) ==>
              var t := UnwrapTarget(L, R, tree.data, dom, Some(node));
              anchor' == t && pushed' == pushed + (if t.Some? then {t.value} else {})
  {
    if anchor == Some(node) {
      DetachedTargetNone(tree.links, tree.rank, tree.data, dom, node);
      anchor', stack', pushed' := Enter(tree, tracker, dom, node, L0, pushed);
      assert pushed' == pushed + {};
      assert pushed + {} == pushed;
    } else {
      if anchor.Some? {
        UnwrapTargetFrame(L, tree.links, tree.rank, tree.data, dom, node, anchor.value);
      }
      anchor', stack', pushed' := Enter(tree, tracker, dom, node, L0, pushed);
    }
  }

  /** Lines 154-158: each A element left on the stack is unwrapped and removed. */
  method DrainStack(tree: NodeTree, stack: seq<NodeId>, ghost L0: map<NodeId, Links>, ghost pushed: set<NodeId>)
    requires tree.Valid() && Live(tree.links, stack, pushed) && Kept(L0, tree.links, tree.data, pushed, stack)
    modifies tree, tree.context
    ensures tree.Valid() && tree.data == old(tree.data) && Quiet(tree.context)
    ensures Kept(L0, tree.links, tree.data, pushed, []) && LogOk(old(tree.context.instructions), tree.context.instructions, pushed)
  {
    var rest := stack;
    while rest != []
      invariant tree.Valid() && tree.data == old(tree.data) && Quiet(tree.context)
      invariant Live(tree.links, rest, pushed) && Kept(L0, tree.links, tree.data, pushed, rest)
      invariant LogOk(old(tree.context.instructions), tree.context.instructions, pushed)
      decreases |rest|
    {
      var a := rest[|rest| - 1];
      ghost var L1, C1, I1 := tree.links, tree.children, tree.context.instructions;
      UnwrapChildren(tree, a);
      KeptAttached(L0, L1, tree.links, tree.data, pushed, rest);
      MovesAllowed(L1[a].parent.value, C1[a], a, pushed);
      LogAppend(I1, Moves(L1[a].parent.value, C1[a], a), pushed);
      ghost var I2 := tree.context.instructions;
      rest := PopAnchor(tree, rest, L0, pushed);
      LogTrans(I1, I2, tree.context.instructions, pushed, pushed);
      LogTrans(old(tree.context.instructions), I1, tree.context.instructions, pushed, pushed);
    }
  }

  /** Every node the range names is a node of the tree. */
  predicate NodesIn(L: map<NodeId, Links>, sel: EditingSelection) {
    forall i | 0 <= i < |sel.nodes| :: sel.nodes[i] in L
  }

  /**
   * `unlinkCommand(context)`. An empty selection only sets the ending
   * selection to the starting one; a caret, or a range without nodes, is
   * `unlinkForCaret`. Otherwise the A elements of the range are unwrapped
   * node by node and the tracked ends become the ending selection. In
   * every case the nodes the command detaches are exactly the A elements
   * it unwraps (`removed`), and it logs moves and their removals only.
   * The result is false where the source throws: the ending selection was
   * already set.
   */
  method UnlinkCommand(tree: NodeTree, dom: set<NodeId>) returns (ok: bool, ghost removed: set<NodeId>)
    requires tree.Valid() && FocusIn(tree.links, tree.context.selection) && NodesIn(tree.links, tree.context.selection)
    modifies tree, tree.context
    ensures tree.Valid() && tree.data == old(tree.data)
    ensures tree.context.hashCode == old(tree.context.hashCode) && tree.context.selection == old(tree.context.selection)
    ensures tree.context.startingSelection == old(tree.context.startingSelection)
    ensures ok <==> old(tree.context.endingSelection).None?
    ensures !ok ==> tree.context.endingSelection == old(tree.context.endingSelection)
    ensures Kept(old(tree.links), tree.links, tree.data, removed, [])
    ensures LogOk(old(tree.context.instructions), tree.context.instructions, removed)
    ensures var sel := old(tree.context.selection);
            sel.IsEmpty() ==>
              removed == {} && tree.links == old(tree.links) && tree.children == old(tree.children) &&
              tree.context.instructions == old(tree.context.instructions) &&
              (ok ==> tree.context.endingSelection == old(tree.context.startingSelection))
    ensures var sel := old(tree.context.selection);
            var t := UnwrapTarget(old(tree.links), old(tree.rank), old(tree.data), dom, sel.focusNode);
            !sel.IsEmpty() && (sel.IsCaret() || sel.nodes == []) ==> removed == if t.Some? then {t.value} else {}
    ensures var sel := old(tree.context.selection);
            !sel.IsEmpty() && !sel.IsCaret() && sel.nodes != [] ==>
              var t := UnwrapTarget(old(tree.links), old(tree.rank), old(tree.data), dom, Some(sel.nodes[0]));
              t.Some? ==> t.value in removed
    ensures var sel := old(tree.context.selection);
            !sel.IsEmpty() && !sel.IsCaret() && sel.nodes != [] && ok ==>
              tree.context.endingSelection.Some? && tree.context.endingSelection.value.direction == sel.Direction() &&
              ((tree.context.endingSelection.value.anchorNode == sel.anchorNode &&
                tree.context.endingSelection.value.anchorOffset == sel.anchorOffset) ||
               (sel.anchorNode.Some? && sel.anchorNode.value in removed)) &&
              ((tree.context.endingSelection.value.focusNode == sel.focusNode &&
                tree.context.endingSelection.value.focusOffset == sel.focusOffset) ||
               (sel.focusNode.Some? && sel.focusNode.value in removed))
  {
    var sel := tree.context.selection;
    if sel.IsEmpty() {
      ok := tree.context.SetEndingSelection(tree.context.startingSelection);
      LogAppend(tree.context.instructions, [], {});
      return ok, {};
    }
    var nodes := sel.nodes;
    if sel.IsCaret() || |nodes| == 0 {
      ghost var t := UnwrapTarget(tree.links, tree.rank, tree.data, dom, sel.focusNode);
      ok := UnlinkForCaret(tree, dom);
      return ok, if t.Some? then {t.value} else {};
    }
    ok, removed := UnlinkRange(tree, dom);
  }

  /** Lines 111 and 115-161: the A elements of a range of nodes unwrapped one by one. */
  method UnlinkRange(tree: NodeTree, dom: set<NodeId>) returns (ok: bool, ghost removed: set<NodeId>)
    requires tree.Valid() && NodesIn(tree.links, tree.context.selection)
    modifies tree, tree.context
    ensures tree.Valid() && tree.data == old(tree.data)
    ensures tree.context.hashCode == old(tree.context.hashCode) && tree.context.selection == old(tree.context.selection)
    ensures tree.context.startingSelection == old(tree.context.startingSelection)
    ensures ok <==> old(tree.context.endingSelection).None?
    ensures !ok ==> tree.context.endingSelection == old(tree.context.endingSelection)
    ensures Kept(old(tree.links), tree.links, tree.data, removed, [])
    ensures LogOk(old(tree.context.instructions), tree.context.instructions, removed)
    ensures var sel := old(tree.context.selection);
            ok ==>
              tree.context.endingSelection.Some? && tree.context.endingSelection.value.direction == sel.Direction() &&
              ((tree.context.endingSelection.value.anchorNode == sel.anchorNode &&
                tree.context.endingSelection.value.anchorOffset == sel.anchorOffset) ||
               (sel.anchorNode.Some? && sel.anchorNode.value in removed)) &&
              ((tree.context.endingSelection.value.focusNode == sel.focusNode &&
                tree.context.endingSelection.value.focusOffset == sel.focusOffset) ||
               (sel.focusNode.Some? && sel.focusNode.value in removed))
    ensures var nodes := old(tree.context.selection).nodes;
            nodes != [] ==>
              var t := UnwrapTarget(old(tree.links), old(tree.rank), old(tree.data), dom, Some(nodes[0]));
              t.Some? ==> t.value in removed
  {
    var sel := tree.context.selection;
    var nodes := sel.nodes;
    ghost var L0 := tree.links;
    var anchor: Option<NodeId> := None;
    var stack: seq<NodeId> := [];
    removed := {};
    var tracker := new UnlinkTracker(sel);
    for i := 0 to |nodes|
      invariant tree.Valid() && tree.data == old(tree.data) && Quiet(tree.context)
      invariant Current(tree.links, anchor, stack, removed) && Kept(L0, tree.links, tree.data, removed, stack)
      invariant LogOk(old(tree.context.instructions), tree.context.instructions, removed)
      invariant Tracking(tracker, sel, removed)
      invariant i == 0 ==> anchor.None? && tree.links == old(tree.links) && tree.rank == old(tree.rank)
      invariant i > 0 ==>
                  var t := UnwrapTarget(old(tree.links), old(tree.rank), old(tree.data), dom, Some(nodes[0]));
                  t.Some? ==> t.value in removed
    {
      ghost var I1, p1 := tree.context.instructions, removed;
      anchor, stack, removed := VisitNode(tree, tracker, dom, nodes[i], anchor, stack, L0, removed);
      LogTrans(old(tree.context.instructions), I1, tree.context.instructions, p1, removed);
    }
    ghost var I1 := tree.context.instructions;
    DrainStack(tree, stack, L0, removed);
    LogTrans(old(tree.context.instructions), I1, tree.context.instructions, removed, removed);
    ok := tracker.Finish(tree.context);
  }
}
