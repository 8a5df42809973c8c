/**
 * The whole internal tree operations of src/editing/editing_node.js:
 * `internalAppendChild`, `internalInsertBefore` and `internalReplaceChild`
 * first detach the new child from its old parent, then link it in; the
 * operation classes of src/editing/operations.js undo them with the
 * opposite operation. Child lists are the ghost lists of NodeForest.
 */
module NodeMoves {
  import opened NodeForest

  // ---------------------------------------------------------------------
  // Detaching
  // ---------------------------------------------------------------------

  /** `internalRemoveChild` keeps every link inside the map. */
  lemma UnlinkClosed(L: map<NodeId, Links>, x: NodeId)
    requires Closed(L) && x in L && L[x].parent.Some?
    ensures Unlink(L, x).Keys == L.Keys && Closed(Unlink(L, x))
  {
    var L' := Unlink(L, x);
    assert Within(L[x], L);
    forall n | n in L'
      ensures Within(L'[n], L')
    {
      assert Within(L[n], L);
    }
  }

  /** `if (newChild.parentNode_) internalRemoveChild(newChild)`. */
  function Detached(L: map<NodeId, Links>, x: NodeId): (D: map<NodeId, Links>)
    requires Closed(L) && x in L
    ensures D.Keys == L.Keys && Closed(D) && D[x].parent.None?
  {
    if L[x].parent.Some? then UnlinkClosed(L, x); Unlink(L, x) else L
  }

  /** Every child list without x. */
  ghost function Dropped(C: map<NodeId, seq<NodeId>>, x: NodeId): (C': map<NodeId, seq<NodeId>>)
    ensures C'.Keys == C.Keys
  {
    map q | q in C :: Without(C[q], x)
  }

  /** Only the parent's list holds x, so dropping x from every list changes that one. */
  lemma DroppedParent(L: map<NodeId, Links>, C: map<NodeId, seq<NodeId>>, x: NodeId)
    requires Shape(L, C) && x in L
    ensures L[x].parent.None? ==> Dropped(C, x) == C
    ensures L[x].parent.Some? ==> L[x].parent.value in C
    ensures L[x].parent.Some? ==> Dropped(C, x) == C[L[x].parent.value := Without(C[L[x].parent.value], x)]
  {
    forall q | q in C && L[x].parent != Some(q)
      ensures Without(C[q], x) == C[q]
    {
      if x in C[q] {
        ListMembers(L, C, q, x);
      }
    }
    if L[x].parent.Some? {
      ChildPosition(L, C, x);
    }
  }

  /** Detaching keeps a forest: x becomes a root and leaves its parent's list. */
  lemma DetachWf(L: map<NodeId, Links>, C: map<NodeId, seq<NodeId>>, R: map<NodeId, nat>, x: NodeId)
    requires Wf(L, C, R) && x in L
    ensures Wf(Detached(L, x), Dropped(C, x), R)
    ensures Detached(L, x)[x] == L[x].(parent := None, previousSibling := None, nextSibling := None)
    ensures forall m | m in L && m != x :: Detached(L, x)[m].parent == L[m].parent
  {
    DroppedParent(L, C, x);
    if L[x].parent.Some? {
      UnlinkShape(L, C, R, x);
      DetachRanked(L, Unlink(L, x), R, x);
    } else {
      assert ParentOk(L, C, x);
    }
  }

  /** Whether p lies below x does not depend on x's own parent. */
  lemma DetachUnder(L: map<NodeId, Links>, C: map<NodeId, seq<NodeId>>, R: map<NodeId, nat>, p: NodeId, x: NodeId)
    requires Wf(L, C, R) && x in L && p in L
    ensures Ranked(Detached(L, x), R) && Under(Detached(L, x), R, p, x) == Under(L, R, p, x)
  {
    DetachWf(L, C, R, x);
    UnderFrame(L, Detached(L, x), R, p, x);
  }

  // ---------------------------------------------------------------------
  // internalAppendChild, internalInsertBefore, internalReplaceChild
  // ---------------------------------------------------------------------

  /** The links after `internalAppendChild(p, x)` on an element p. */
  function AppendChildLinks(L: map<NodeId, Links>, p: NodeId, x: NodeId): map<NodeId, Links>
    requires Closed(L) && p in L && x in L
  {
    Append(Detached(L, x), p, x)
  }

  /** The links after `internalInsertBefore(p, x, ref)` for a child ref of p other than x. */
  function InsertBeforeLinks(L: map<NodeId, Links>, p: NodeId, x: NodeId, ref: NodeId): map<NodeId, Links>
    requires Closed(L) && p in L && x in L && ref in L
  {
    Insert(Detached(L, x), p, x, ref)
  }

  /** The links after `internalReplaceChild(p, x, y)` for a child y of p other than x. */
  function ReplaceChildLinks(L: map<NodeId, Links>, p: NodeId, x: NodeId, y: NodeId): map<NodeId, Links>
    requires Closed(L) && p in L && x in L && y in L
  {
    Replace(Detached(L, x), p, x, y)
  }

  /** s with x put just before ref; s itself when ref is not in it. */
  function InsertAt(s: seq<NodeId>, x: NodeId, ref: NodeId): seq<NodeId> {
    if ref in s then s[..Pos(s, ref)] + [x] + s[Pos(s, ref)..] else s
  }

  /** s with x in the place of y; s itself when y is not in it. */
  function ReplaceAt(s: seq<NodeId>, x: NodeId, y: NodeId): seq<NodeId> {
    if y in s then s[Pos(s, y) := x] else s
  }

  /**
   * `internalAppendChild(p, x)` keeps a forest when x is not p and not above
   * it: x leaves its old list and ends p's list.
   */
  lemma AppendChildWf(L: map<NodeId, Links>, C: map<NodeId, seq<NodeId>>, R: map<NodeId, nat>, p: NodeId, x: NodeId)
    requires Wf(L, C, R) && p in L && x in L && !Under(L, R, p, x)
    ensures Ranked(Detached(L, x), R) && p in R
    ensures Wf(AppendChildLinks(L, p, x), Dropped(C, x)[p := Without(C[p], x) + [x]],
               Shifted(Detached(L, x), R, x, R[p] + 1))
    ensures AppendChildLinks(L, p, x)[x].parent == Some(p)
    ensures forall m | m in L && m != x :: AppendChildLinks(L, p, x)[m].parent == L[m].parent
  {
    var D := Detached(L, x);
    DetachWf(L, C, R, x);
    DetachUnder(L, C, R, p, x);
    assert Under(L, R, p, p);
    AppendShape(D, Dropped(C, x), R, p, x);
    AttachRanked(D, Append(D, p, x), R, x, p);
  }

  /**
   * `internalInsertBefore(p, x, ref)` keeps a forest: x leaves its old list
   * and comes just before ref in p's list.
   */
  lemma InsertBeforeWf(L: map<NodeId, Links>, C: map<NodeId, seq<NodeId>>, R: map<NodeId, nat>,
                       p: NodeId, x: NodeId, ref: NodeId)
    requires Wf(L, C, R) && p in L && x in L && !Under(L, R, p, x)
    requires ref in L && L[ref].parent == Some(p) && ref != x
    ensures Ranked(Detached(L, x), R) && p in R && ref in Without(C[p], x)
    ensures Wf(InsertBeforeLinks(L, p, x, ref), Dropped(C, x)[p := InsertAt(Without(C[p], x), x, ref)],
               Shifted(Detached(L, x), R, x, R[p] + 1))
    ensures InsertBeforeLinks(L, p, x, ref)[x].parent == Some(p)
    ensures forall m | m in L && m != x :: InsertBeforeLinks(L, p, x, ref)[m].parent == L[m].parent
  {
    var D := Detached(L, x);
    DetachWf(L, C, R, x);
    DetachUnder(L, C, R, p, x);
    assert Under(L, R, p, p);
    InsertShape(D, Dropped(C, x), R, p, x, ref);
    AttachRanked(D, Insert(D, p, x, ref), R, x, p);
  }

  /**
   * `internalReplaceChild(p, x, y)` keeps a forest: x leaves its old list
   * and takes y's place in p's list, and y becomes a root.
   */
  lemma ReplaceChildWf(L: map<NodeId, Links>, C: map<NodeId, seq<NodeId>>, R: map<NodeId, nat>,
                       p: NodeId, x: NodeId, y: NodeId)
    requires Wf(L, C, R) && p in L && x in L && !Under(L, R, p, x)
    requires y in L && L[y].parent == Some(p) && y != x
    ensures Ranked(Detached(L, x), R) && p in R && y in Without(C[p], x)
    ensures Wf(ReplaceChildLinks(L, p, x, y), Dropped(C, x)[p := ReplaceAt(Without(C[p], x), x, y)],
               Shifted(Detached(L, x), R, x, R[p] + 1))
    ensures ReplaceChildLinks(L, p, x, y)[x].parent == Some(p)
    ensures ReplaceChildLinks(L, p, x, y)[y].parent.None?
    ensures forall m | m in L && m != x && m != y :: ReplaceChildLinks(L, p, x, y)[m].parent == L[m].parent
  {
    var D := Detached(L, x);
    DetachWf(L, C, R, x);
    DetachUnder(L, C, R, p, x);
    assert Under(L, R, p, p);
    ReplaceShape(D, Dropped(C, x), R, p, x, y);
    AttachRanked(D, Replace(D, p, x, y), R, x, p);
  }

  // ---------------------------------------------------------------------
  // Undo restores the links
  // ---------------------------------------------------------------------

  /** The links one node of a closed map points to are in the map. */
  lemma Linked(L: map<NodeId, Links>, n: NodeId)
    requires Closed(L) && n in L
    ensures Within(L[n], L)
  {
  }

  lemma AppendClosed(L: map<NodeId, Links>, p: NodeId, x: NodeId)
    requires Closed(L) && p in L && x in L
    ensures Append(L, p, x).Keys == L.Keys && Closed(Append(L, p, x))
  {
    Linked(L, p);
    var L' := Append(L, p, x);
    forall n | n in L'
      ensures Within(L'[n], L')
    {
      Linked(L, n);
    }
  }

  lemma InsertClosed(L: map<NodeId, Links>, p: NodeId, x: NodeId, ref: NodeId)
    requires Closed(L) && p in L && x in L && ref in L
    ensures Insert(L, p, x, ref).Keys == L.Keys && Closed(Insert(L, p, x, ref))
  {
    Linked(L, ref);
    var L' := Insert(L, p, x, ref);
    forall n | n in L'
      ensures Within(L'[n], L')
    {
      Linked(L, n);
    }
  }

  lemma ReplaceClosed(L: map<NodeId, Links>, p: NodeId, x: NodeId, y: NodeId)
    requires Closed(L) && p in L && x in L && y in L
    ensures Replace(L, p, x, y).Keys == L.Keys && Closed(Replace(L, p, x, y))
  {
    Linked(L, y);
    var L' := Replace(L, p, x, y);
    forall n | n in L'
      ensures Within(L'[n], L')
    {
      Linked(L, n);
    }
  }

  /** The links of the root x, which sits nowhere. */
  predicate Loose(L: map<NodeId, Links>, x: NodeId)
    requires x in L
  {
    L[x].parent.None? && L[x].previousSibling.None? && L[x].nextSibling.None?
  }

  /** Appending then unlinking the root x, given the links that matter. */
  lemma AppendUnlink(L: map<NodeId, Links>, p: NodeId, x: NodeId)
    requires Closed(L) && p in L && x in L && x != p && Loose(L, x)
    requires L[p].lastChild.None? ==> L[p].firstChild.None?
    requires L[p].lastChild.Some? ==> L[p].lastChild.value != x && L[p].lastChild.value != p &&
                                      L[L[p].lastChild.value].nextSibling.None? && L[p].firstChild.Some?
    ensures Closed(Append(L, p, x)) && Append(L, p, x)[x].parent == Some(p)
    ensures Unlink(Append(L, p, x), x) == L
  {
    AppendClosed(L, p, x);
    var L' := Unlink(Append(L, p, x), x);
    forall k | k in L
      ensures L'[k] == L[k]
    {
    }
  }

  /** Inserting the root x before ref then unlinking it, given the links that matter. */
  lemma InsertUnlink(L: map<NodeId, Links>, p: NodeId, x: NodeId, ref: NodeId)
    requires Closed(L) && p in L && x in L && ref in L && x != p && ref != x && ref != p && Loose(L, x)
    requires L[ref].previousSibling.None? ==> L[p].firstChild == Some(ref)
    requires L[ref].previousSibling.Some? ==> L[ref].previousSibling.value !in {x, p, ref} &&
                                              L[L[ref].previousSibling.value].nextSibling == Some(ref)
    ensures Closed(Insert(L, p, x, ref)) && Insert(L, p, x, ref)[x].parent == Some(p)
    ensures Unlink(Insert(L, p, x, ref), x) == L
  {
    InsertClosed(L, p, x, ref);
    var L' := Unlink(Insert(L, p, x, ref), x);
    forall k | k in L
      ensures L'[k] == L[k]
    {
    }
  }

  /** Unlinking the child y then inserting it before its old next sibling. */
  lemma UnlinkInsert(L: map<NodeId, Links>, p: NodeId, y: NodeId, r: NodeId)
    requires Closed(L) && p in L && y in L && r in L && y != p && r != y && r != p
    requires L[y].parent == Some(p) && L[y].nextSibling == Some(r) && L[r].previousSibling == Some(y)
    requires L[y].previousSibling.None? ==> L[p].firstChild == Some(y)
    requires L[y].previousSibling.Some? ==> L[y].previousSibling.value !in {y, p, r} &&
                                            L[L[y].previousSibling.value].nextSibling == Some(y)
    ensures Closed(Unlink(L, y)) && Unlink(L, y)[y].parent.None?
    ensures Insert(Unlink(L, y), p, y, r) == L
  {
    UnlinkClosed(L, y);
    var L' := Insert(Unlink(L, y), p, y, r);
    forall k | k in L
      ensures L'[k] == L[k]
    {
    }
  }

  /** Unlinking the last child y then appending it again. */
  lemma UnlinkAppend(L: map<NodeId, Links>, p: NodeId, y: NodeId)
    requires Closed(L) && p in L && y in L && y != p
    requires L[y].parent == Some(p) && L[y].nextSibling.None? && L[p].lastChild == Some(y) && L[p].firstChild.Some?
    requires L[y].previousSibling.None? ==> L[p].firstChild == Some(y)
    requires L[y].previousSibling.Some? ==> L[y].previousSibling.value !in {y, p} &&
                                            L[L[y].previousSibling.value].nextSibling == Some(y)
    ensures Closed(Unlink(L, y)) && Unlink(L, y)[y].parent.None?
    ensures Append(Unlink(L, y), p, y) == L
  {
    UnlinkClosed(L, y);
    var L' := Append(Unlink(L, y), p, y);
    forall k | k in L
      ensures L'[k] == L[k]
    {
    }
  }

  /** Replacing the child y by the root x, then x by y. */
  lemma ReplaceReplace(L: map<NodeId, Links>, p: NodeId, x: NodeId, y: NodeId)
    requires Closed(L) && p in L && x in L && y in L && x != p && y != p && x != y && Loose(L, x)
    requires L[y].parent == Some(p)
    requires L[y].previousSibling.None? ==> L[p].firstChild == Some(y)
    requires L[y].previousSibling.Some? ==> L[y].previousSibling.value !in {x, y, p} &&
                                            L[L[y].previousSibling.value].nextSibling == Some(y)
    requires L[y].nextSibling.None? ==> L[p].lastChild == Some(y)
    requires L[y].nextSibling.Some? ==> L[y].nextSibling.value !in {x, y, p} &&
                                        L[L[y].nextSibling.value].previousSibling == Some(y)
    requires L[y].previousSibling.Some? && L[y].nextSibling.Some? ==> L[y].previousSibling != L[y].nextSibling
    ensures Closed(Replace(L, p, x, y))
    ensures Replace(Replace(L, p, x, y), p, y, x) == L
  {
    ReplaceClosed(L, p, x, y);
    var L' := Replace(Replace(L, p, x, y), p, y, x);
    forall k | k in L
      ensures L'[k] == L[k]
    {
    }
  }

  /** What a forest says about the neighbours of the child y of p. */
  lemma Neighbours(L: map<NodeId, Links>, C: map<NodeId, seq<NodeId>>, R: map<NodeId, nat>, p: NodeId, y: NodeId)
    requires Wf(L, C, R) && y in L && L[y].parent == Some(p)
    ensures p in L && p != y && L[p].firstChild.Some? && L[p].lastChild.Some?
    ensures L[y].previousSibling.None? ==> L[p].firstChild == Some(y)
    ensures L[y].nextSibling.None? ==> L[p].lastChild == Some(y)
    ensures L[y].previousSibling.Some? ==> L[y].previousSibling.value in L && L[y].previousSibling.value != p
    ensures L[y].previousSibling.Some? ==> L[y].previousSibling.value != y
    ensures L[y].previousSibling.Some? ==> L[L[y].previousSibling.value].parent == Some(p)
    ensures L[y].previousSibling.Some? ==> L[L[y].previousSibling.value].nextSibling == Some(y)
    ensures L[y].nextSibling.Some? ==> L[y].nextSibling.value in L && L[y].nextSibling.value != p
    ensures L[y].nextSibling.Some? ==> L[y].nextSibling.value != y
    ensures L[y].nextSibling.Some? ==> L[L[y].nextSibling.value].parent == Some(p)
    ensures L[y].nextSibling.Some? ==> L[L[y].nextSibling.value].previousSibling == Some(y)
    ensures L[y].previousSibling.Some? && L[y].nextSibling.Some? ==> L[y].previousSibling != L[y].nextSibling
  {
    ChildPosition(L, C, y);
    Children(L, C, R, p);
    var cs := C[p];
    var i := Pos(cs, y);
    assert MemberOk(L, p, cs, i);
    if i > 0 {
      assert MemberOk(L, p, cs, i - 1);
    }
    if i + 1 < |cs| {
      assert MemberOk(L, p, cs, i + 1);
    }
  }

  /** A node without a parent has no siblings either. */
  lemma RootLoose(L: map<NodeId, Links>, C: map<NodeId, seq<NodeId>>, x: NodeId)
    requires Shape(L, C) && x in L && L[x].parent.None?
    ensures Loose(L, x)
  {
    assert ParentOk(L, C, x);
  }

  /** `AppendChild.undo`: removing a root appended to p gives back the links. */
  lemma AppendChildUndone(L: map<NodeId, Links>, C: map<NodeId, seq<NodeId>>, R: map<NodeId, nat>, p: NodeId, x: NodeId)
    requires Wf(L, C, R) && p in L && x in L && L[x].parent.None? && p != x
    ensures Closed(AppendChildLinks(L, p, x)) && AppendChildLinks(L, p, x)[x].parent == Some(p)
    ensures Unlink(AppendChildLinks(L, p, x), x) == L
  {
    RootLoose(L, C, x);
    Children(L, C, R, p);
    var cs := C[p];
    if cs != [] {
      assert MemberOk(L, p, cs, |cs| - 1);
    }
    AppendUnlink(L, p, x);
  }

  /** `InsertBefore.undo`: removing a root inserted before ref gives back the links. */
  lemma InsertBeforeUndone(L: map<NodeId, Links>, C: map<NodeId, seq<NodeId>>, R: map<NodeId, nat>,
                           p: NodeId, x: NodeId, ref: NodeId)
    requires Wf(L, C, R) && p in L && x in L && L[x].parent.None? && p != x
    requires ref in L && L[ref].parent == Some(p)
    ensures Closed(InsertBeforeLinks(L, p, x, ref)) && InsertBeforeLinks(L, p, x, ref)[x].parent == Some(p)
    ensures Unlink(InsertBeforeLinks(L, p, x, ref), x) == L
  {
    RootLoose(L, C, x);
    Neighbours(L, C, R, p, ref);
    InsertUnlink(L, p, x, ref);
  }

  /** `RemoveChild.undo` for a child with a next sibling: inserting it back before that sibling. */
  lemma RemoveChildUndoneBefore(L: map<NodeId, Links>, C: map<NodeId, seq<NodeId>>, R: map<NodeId, nat>, p: NodeId, y: NodeId)
    requires Wf(L, C, R) && y in L && L[y].parent == Some(p) && L[y].nextSibling.Some?
    ensures p in L && L[y].nextSibling.value in L && Closed(Unlink(L, y))
    ensures InsertBeforeLinks(Unlink(L, y), p, y, L[y].nextSibling.value) == L
  {
    Neighbours(L, C, R, p, y);
    UnlinkInsert(L, p, y, L[y].nextSibling.value);
  }

  /** `RemoveChild.undo` for the last child: appending it back. */
  lemma RemoveChildUndoneLast(L: map<NodeId, Links>, C: map<NodeId, seq<NodeId>>, R: map<NodeId, nat>, p: NodeId, y: NodeId)
    requires Wf(L, C, R) && y in L && L[y].parent == Some(p) && L[y].nextSibling.None?
    ensures p in L && Closed(Unlink(L, y))
    ensures AppendChildLinks(Unlink(L, y), p, y) == L
  {
    Neighbours(L, C, R, p, y);
    UnlinkAppend(L, p, y);
  }

  /** `ReplaceChild.undo`: putting y back in the place of the root x that replaced it. */
  lemma ReplaceChildUndone(L: map<NodeId, Links>, C: map<NodeId, seq<NodeId>>, R: map<NodeId, nat>,
                           p: NodeId, x: NodeId, y: NodeId)
    requires Wf(L, C, R) && p in L && x in L && L[x].parent.None? && p != x
    requires y in L && L[y].parent == Some(p)
    ensures Closed(ReplaceChildLinks(L, p, x, y))
    ensures ReplaceChildLinks(ReplaceChildLinks(L, p, x, y), p, y, x) == L
  {
    RootLoose(L, C, x);
    Neighbours(L, C, R, p, y);
    ReplaceReplace(L, p, x, y);
  }
}
