/**
 * The sibling and parent links of editing nodes (src/editing/editing_node.js).
 * Every node carries `parentNode_`, `firstChild_`, `lastChild_`,
 * `previousSibling_` and `nextSibling_`; the internal operations rewrite
 * them. Here a node is its hash code, the links of all nodes form a map, and
 * the ghost child lists and ranks say when the links describe a forest.
 */
module NodeForest {

  /** A node, named by the hash code its context handed out. */
  type NodeId = int

  datatype Option<T> = None | Some(value: T)

  /** The five link fields of one node. */
  datatype Links = Links(parent: Option<NodeId>, firstChild: Option<NodeId>, lastChild: Option<NodeId>,
                         previousSibling: Option<NodeId>, nextSibling: Option<NodeId>)

  /** The links of a node just constructed: all null. */
  const Unlinked := Links(None, None, None, None, None)

  // ---------------------------------------------------------------------
  // Child lists
  // ---------------------------------------------------------------------

  function First(s: seq<NodeId>): Option<NodeId> {
    if s == [] then None else Some(s[0])
  }

  function Final(s: seq<NodeId>): Option<NodeId> {
    if s == [] then None else Some(s[|s| - 1])
  }

  /** `childNodes[k]`: undefined outside the list. */
  function ChildAt(cs: seq<NodeId>, k: int): (r: Option<NodeId>)
    ensures r.Some? <==> 0 <= k < |cs|
    ensures r.Some? ==> r.value == cs[k]
  {
    if 0 <= k < |cs| then Some(cs[k]) else None
  }

  /** The sibling before position i, or none at the front. */
  function Before(s: seq<NodeId>, i: nat): Option<NodeId>
    requires i < |s|
  {
    if i == 0 then None else Some(s[i - 1])
  }

  /** The sibling after position i, or none at the end. */
  function After(s: seq<NodeId>, i: nat): Option<NodeId>
    requires i < |s|
  {
    if i + 1 == |s| then None else Some(s[i + 1])
  }

  predicate Distinct(s: seq<NodeId>) {
    forall i, j | 0 <= i < j < |s| :: s[i] != s[j]
  }

  /** The position of x in s. */
  function Pos(s: seq<NodeId>, x: NodeId): (i: nat)
    requires x in s
    ensures i < |s| && s[i] == x && x !in s[..i]
  {
    if s[0] == x then 0 else
      assert x in s[1..];
      var k := Pos(s[1..], x);
      assert s[..k + 1] == [s[0]] + s[1..][..k];
      k + 1
  }

  /** s without x. */
  function Without(s: seq<NodeId>, x: NodeId): seq<NodeId> {
    if x in s then s[..Pos(s, x)] + s[Pos(s, x) + 1..] else s
  }

  lemma WithoutDistinct(s: seq<NodeId>, x: NodeId)
    requires Distinct(s)
    ensures Distinct(Without(s, x)) && x !in Without(s, x)
    ensures forall y :: y in Without(s, x) <==> y in s && y != x
    ensures |Without(s, x)| == if x in s then |s| - 1 else |s|
  {
    if x in s {
      var i := Pos(s, x);
      var w := s[..i] + s[i + 1..];
      assert forall k | 0 <= k < |w| :: w[k] == if k < i then s[k] else s[k + 1];
      forall y
        ensures y in w <==> y in s && y != x
      {
        if y in s && y != x {
          var k :| 0 <= k < |s| && s[k] == y;
          assert k != i;
          assert w[if k < i then k else k - 1] == y;
        }
      }
    }
  }

  // ---------------------------------------------------------------------
  // Well-formed links
  // ---------------------------------------------------------------------

  /** The node an optional link names, if any, is in the map. */
  predicate InMap(o: Option<NodeId>, L: map<NodeId, Links>) {
    o.None? || o.value in L
  }

  /** Every link of l names a node of L. */
  predicate Within(l: Links, L: map<NodeId, Links>) {
    InMap(l.parent, L) && InMap(l.firstChild, L) && InMap(l.lastChild, L) &&
    InMap(l.previousSibling, L) && InMap(l.nextSibling, L)
  }

  /** Every link points to a node of the map. */
  ghost predicate Closed(L: map<NodeId, Links>) {
    forall n {:trigger L[n]} | n in L :: Within(L[n], L)
  }

  /** The i-th child of p points back to p and to its neighbours in the list. */
  ghost predicate MemberOk(L: map<NodeId, Links>, p: NodeId, cs: seq<NodeId>, i: nat)
    requires i < |cs|
  {
    cs[i] in L && L[cs[i]].parent == Some(p) &&
    L[cs[i]].previousSibling == Before(cs, i) && L[cs[i]].nextSibling == After(cs, i)
  }

  /** The links of p and of its children spell out the child list cs. */
  ghost predicate ListOk(L: map<NodeId, Links>, p: NodeId, cs: seq<NodeId>)
    requires p in L
  {
    L[p].firstChild == First(cs) && L[p].lastChild == Final(cs) && Distinct(cs) &&
    forall i | 0 <= i < |cs| :: MemberOk(L, p, cs, i)
  }

  /** A node is in its parent's list; a node without a parent has no siblings. */
  ghost predicate ParentOk(L: map<NodeId, Links>, C: map<NodeId, seq<NodeId>>, n: NodeId)
    requires n in L
  {
    match L[n].parent
    case None => L[n].previousSibling == None && L[n].nextSibling == None
    case Some(p) => p in C && n in C[p]
  }

  /** The links describe the child lists C. */
  ghost predicate Shape(L: map<NodeId, Links>, C: map<NodeId, seq<NodeId>>) {
    C.Keys == L.Keys && Closed(L) && ListsOk(L, C) && ParentsOk(L, C)
  }

  ghost predicate ListsOk(L: map<NodeId, Links>, C: map<NodeId, seq<NodeId>>)
    requires C.Keys == L.Keys
  {
    forall p {:trigger C[p]} | p in L :: ListOk(L, p, C[p])
  }

  ghost predicate ParentsOk(L: map<NodeId, Links>, C: map<NodeId, seq<NodeId>>) {
    forall n {:trigger ParentOk(L, C, n)} | n in L :: ParentOk(L, C, n)
  }

  /** Parents rank strictly below their children: the parent chains end. */
  ghost predicate Ranked(L: map<NodeId, Links>, R: map<NodeId, nat>) {
    L.Keys <= R.Keys &&
    forall n {:trigger L[n]} | n in L && L[n].parent.Some? :: L[n].parent.value in L && R[L[n].parent.value] < R[n]
  }

  /** The links form a forest with child lists C. */
  ghost predicate Wf(L: map<NodeId, Links>, C: map<NodeId, seq<NodeId>>, R: map<NodeId, nat>) {
    Shape(L, C) && Ranked(L, R)
  }

  /** n is a or lies below a. */
  ghost predicate Under(L: map<NodeId, Links>, R: map<NodeId, nat>, n: NodeId, a: NodeId)
    requires Ranked(L, R) && n in L
    decreases R[n]
  {
    n == a || (L[n].parent.Some? && Under(L, R, L[n].parent.value, a))
  }

  /** The parent of a node lists it, at a position whose neighbours are its siblings. */
  lemma ChildPosition(L: map<NodeId, Links>, C: map<NodeId, seq<NodeId>>, x: NodeId)
    requires Shape(L, C) && x in L && L[x].parent.Some?
    ensures L[x].parent.value in L && x in C[L[x].parent.value]
    ensures (var cs := C[L[x].parent.value]; L[x].previousSibling == Before(cs, Pos(cs, x)) && L[x].nextSibling == After(cs, Pos(cs, x)))
  {
    var p := L[x].parent.value;
    assert ParentOk(L, C, x);
    assert ListOk(L, p, C[p]);
    assert MemberOk(L, p, C[p], Pos(C[p], x));
  }

  /** A node without a parent is in no child list. */
  lemma RootInNoList(L: map<NodeId, Links>, C: map<NodeId, seq<NodeId>>, x: NodeId, q: NodeId)
    requires Shape(L, C) && x in L && L[x].parent.None? && q in L
    ensures x !in C[q]
  {
    assert ListOk(L, q, C[q]);
    forall i | 0 <= i < |C[q]|
      ensures C[q][i] != x
    {
      assert MemberOk(L, q, C[q], i);
    }
  }

  /** The members of p's list have p as parent. */
  lemma ListMembers(L: map<NodeId, Links>, C: map<NodeId, seq<NodeId>>, p: NodeId, m: NodeId)
    requires Shape(L, C) && p in L && m in C[p]
    ensures m in L && L[m].parent == Some(p)
  {
    assert ListOk(L, p, C[p]);
    assert MemberOk(L, p, C[p], Pos(C[p], m));
  }

  // ---------------------------------------------------------------------
  // Frames
  // ---------------------------------------------------------------------

  /** The fields a child-list entry depends on. */
  function Sib(l: Links): (Option<NodeId>, Option<NodeId>, Option<NodeId>) {
    (l.parent, l.previousSibling, l.nextSibling)
  }

  lemma ListOkFrame(L: map<NodeId, Links>, L': map<NodeId, Links>, p: NodeId, cs: seq<NodeId>)
    requires p in L && p in L' && ListOk(L, p, cs)
    requires L'[p].firstChild == L[p].firstChild && L'[p].lastChild == L[p].lastChild
    requires forall m | m in cs :: m in L && m in L' && Sib(L'[m]) == Sib(L[m])
    ensures ListOk(L', p, cs)
  {
    forall i | 0 <= i < |cs|
      ensures MemberOk(L', p, cs, i)
    {
      assert MemberOk(L, p, cs, i);
      assert cs[i] in cs;
    }
  }

  /** Whether n lies below a depends only on the parent links, and not on a's own. */
  lemma {:induction false} UnderFrame(L: map<NodeId, Links>, L': map<NodeId, Links>, R: map<NodeId, nat>,
                                      n: NodeId, a: NodeId)
    requires Ranked(L, R) && Ranked(L', R) && L.Keys == L'.Keys && n in L
    requires forall m | m in L && m != a :: L'[m].parent == L[m].parent
    ensures Under(L, R, n, a) == Under(L', R, n, a)
    decreases R[n]
  {
    if n != a && L[n].parent.Some? {
      UnderFrame(L, L', R, L[n].parent.value, a);
    }
  }

  /** Under a ranked map, a node lies below only nodes of no greater rank. */
  lemma {:induction false} UnderRank(L: map<NodeId, Links>, R: map<NodeId, nat>, n: NodeId, a: NodeId)
    requires Ranked(L, R) && n in L && Under(L, R, n, a)
    ensures a in R && R[a] <= R[n]
    decreases R[n]
  {
    if n != a {
      UnderRank(L, R, L[n].parent.value, a);
    }
  }

  // ---------------------------------------------------------------------
  // Ranks after a node changes parent
  // ---------------------------------------------------------------------

  /** The ranks of the nodes below x raised by k: x's subtree moves down as a whole. */
  ghost function Shifted(L: map<NodeId, Links>, R: map<NodeId, nat>, x: NodeId, k: nat): (R': map<NodeId, nat>)
    requires Ranked(L, R)
    ensures R'.Keys == R.Keys
  {
    map n | n in R :: if n in L && Under(L, R, n, x) then R[n] + k else R[n]
  }

  /** Detaching x leaves every other parent link, so the ranks stay good. */
  lemma DetachRanked(L: map<NodeId, Links>, L': map<NodeId, Links>, R: map<NodeId, nat>, x: NodeId)
    requires Ranked(L, R) && L'.Keys == L.Keys && x in L && L'[x].parent.None?
    requires forall m | m in L && m != x :: L'[m].parent == L[m].parent
    ensures Ranked(L', R)
  {
  }

  /**
   * Giving the root x the parent p, where p does not lie below x, keeps the
   * parent chains finite once x's subtree is ranked below p; other nodes
   * keep their parent or lose it.
   */
  lemma AttachRanked(L: map<NodeId, Links>, L': map<NodeId, Links>, R: map<NodeId, nat>, x: NodeId, p: NodeId)
    requires Ranked(L, R) && L'.Keys == L.Keys && x in L && p in L
    requires L[x].parent.None? && L'[x].parent == Some(p) && !Under(L, R, p, x)
    requires forall m | m in L && m != x :: L'[m].parent == L[m].parent || L'[m].parent.None?
    ensures Ranked(L', Shifted(L, R, x, R[p] + 1))
  {
    var R' := Shifted(L, R, x, R[p] + 1);
    forall n | n in L' && L'[n].parent.Some?
      ensures L'[n].parent.value in L' && R'[L'[n].parent.value] < R'[n]
    {
      var q := L'[n].parent.value;
      if n == x {
        assert Under(L, R, x, x);
      } else {
        assert Under(L, R, n, x) == Under(L, R, q, x);
      }
    }
  }

  // ---------------------------------------------------------------------
  // internalRemoveChild
  // ---------------------------------------------------------------------

  /** The links after `internalRemoveChild(x)`, field assignment by field assignment. */
  function Unlink(L: map<NodeId, Links>, x: NodeId): map<NodeId, Links>
    requires Closed(L) && x in L && L[x].parent.Some?
  {
    var p := L[x].parent.value;
    var next, prev := L[x].nextSibling, L[x].previousSibling;
    var L1 := if next.Some? then L[next.value := L[next.value].(previousSibling := prev)]
              else L[p := L[p].(lastChild := prev)];
    var L2 := if prev.Some? then L1[prev.value := L1[prev.value].(nextSibling := next)]
              else L1[p := L1[p].(firstChild := next)];
    L2[x := L2[x].(nextSibling := None, previousSibling := None, parent := None)]
  }

  // ---------------------------------------------------------------------
  // Child lists after one entry is removed, inserted or replaced
  // ---------------------------------------------------------------------

  /**
   * Removing the i-th child: its neighbours point to each other, and p's
   * first or last link moves when the child was at an end.
   */
  lemma RemoveFromList(L: map<NodeId, Links>, L': map<NodeId, Links>, p: NodeId, cs: seq<NodeId>, i: nat)
    requires p in L && p in L' && ListOk(L, p, cs) && i < |cs|
    requires forall j | 0 <= j < |cs| :: cs[j] in L && cs[j] in L'
    requires forall j | 0 <= j < |cs| && j != i :: L'[cs[j]].parent == Some(p)
    requires forall j | 0 <= j < |cs| && j + 1 != i && j != i && j != i + 1 :: Sib(L'[cs[j]]) == Sib(L[cs[j]])
    requires i > 0 ==> L'[cs[i - 1]].previousSibling == L[cs[i - 1]].previousSibling && L'[cs[i - 1]].nextSibling == After(cs, i)
    requires i + 1 < |cs| ==> L'[cs[i + 1]].nextSibling == L[cs[i + 1]].nextSibling && L'[cs[i + 1]].previousSibling == Before(cs, i)
    requires L'[p].firstChild == (if i == 0 then After(cs, 0) else L[p].firstChild)
    requires L'[p].lastChild == (if i + 1 == |cs| then Before(cs, i) else L[p].lastChild)
    ensures ListOk(L', p, cs[..i] + cs[i + 1..])
  {
    var cs' := cs[..i] + cs[i + 1..];
    assert forall k | 0 <= k < |cs'| :: cs'[k] == if k < i then cs[k] else cs[k + 1];
    forall j | 0 <= j < |cs'|
      ensures MemberOk(L', p, cs', j)
    {
      var k := if j < i then j else j + 1;
      assert MemberOk(L, p, cs, k);
    }
  }

  /** Inserting x as the i-th child: x points to its new neighbours and they to x. */
  lemma InsertIntoList(L: map<NodeId, Links>, L': map<NodeId, Links>, p: NodeId, cs: seq<NodeId>, i: nat, x: NodeId)
    requires p in L && p in L' && ListOk(L, p, cs) && i <= |cs| && x !in cs
    requires forall j | 0 <= j < |cs| :: cs[j] in L && cs[j] in L'
    requires forall j | 0 <= j < |cs| :: L'[cs[j]].parent == Some(p)
    requires forall j | 0 <= j < |cs| && j + 1 != i && j != i :: Sib(L'[cs[j]]) == Sib(L[cs[j]])
    requires i > 0 ==> L'[cs[i - 1]].previousSibling == L[cs[i - 1]].previousSibling && L'[cs[i - 1]].nextSibling == Some(x)
    requires i < |cs| ==> L'[cs[i]].nextSibling == L[cs[i]].nextSibling && L'[cs[i]].previousSibling == Some(x)
    requires x in L' && L'[x].parent == Some(p)
    requires L'[x].previousSibling == (if i == 0 then None else Some(cs[i - 1]))
    requires L'[x].nextSibling == (if i == |cs| then None else Some(cs[i]))
    requires L'[p].firstChild == (if i == 0 then Some(x) else L[p].firstChild)
    requires L'[p].lastChild == (if i == |cs| then Some(x) else L[p].lastChild)
    ensures ListOk(L', p, cs[..i] + [x] + cs[i..])
  {
    var cs' := cs[..i] + [x] + cs[i..];
    assert forall k | 0 <= k < |cs'| :: cs'[k] == if k < i then cs[k] else if k == i then x else cs[k - 1];
    forall j | 0 <= j < |cs'|
      ensures MemberOk(L', p, cs', j)
    {
      if j < i {
        assert MemberOk(L, p, cs, j);
      } else if j > i {
        assert MemberOk(L, p, cs, j - 1);
      }
    }
    assert Distinct(cs') by {
      forall a, b | 0 <= a < b < |cs'|
        ensures cs'[a] != cs'[b]
      {
        if a != i && b != i {
          assert cs'[a] == cs[if a < i then a else a - 1];
          assert cs'[b] == cs[if b < i then b else b - 1];
        } else if a == i {
          assert cs'[b] in cs;
        } else {
          assert cs'[a] in cs;
        }
      }
    }
  }

  /** Putting x in the place of the i-th child. */
  lemma ReplaceInList(L: map<NodeId, Links>, L': map<NodeId, Links>, p: NodeId, cs: seq<NodeId>, i: nat, x: NodeId)
    requires p in L && p in L' && ListOk(L, p, cs) && i < |cs| && x !in cs
    requires forall j | 0 <= j < |cs| :: cs[j] in L && cs[j] in L'
    requires forall j | 0 <= j < |cs| && j != i :: L'[cs[j]].parent == Some(p)
    requires forall j | 0 <= j < |cs| && j + 1 != i && j != i && j != i + 1 :: Sib(L'[cs[j]]) == Sib(L[cs[j]])
    requires i > 0 ==> L'[cs[i - 1]].previousSibling == L[cs[i - 1]].previousSibling && L'[cs[i - 1]].nextSibling == Some(x)
    requires i + 1 < |cs| ==> L'[cs[i + 1]].nextSibling == L[cs[i + 1]].nextSibling && L'[cs[i + 1]].previousSibling == Some(x)
    requires x in L' && L'[x].parent == Some(p)
    requires L'[x].previousSibling == Before(cs, i) && L'[x].nextSibling == After(cs, i)
    requires L'[p].firstChild == (if i == 0 then Some(x) else L[p].firstChild)
    requires L'[p].lastChild == (if i + 1 == |cs| then Some(x) else L[p].lastChild)
    ensures ListOk(L', p, cs[i := x])
  {
    var cs' := cs[i := x];
    forall j | 0 <= j < |cs'|
      ensures MemberOk(L', p, cs', j)
    {
      if j != i {
        assert MemberOk(L, p, cs, j);
      }
    }
    assert Distinct(cs') by {
      forall a, b | 0 <= a < b < |cs'|
        ensures cs'[a] != cs'[b]
      {
        if a == i {
          assert cs'[b] == cs[b];
        } else if b == i {
          assert cs'[a] == cs[a];
        }
      }
    }
  }

  /**
   * The lists of parents other than p keep their links when only p's first
   * and last links change and only nodes that are roots or children of p
   * change their sibling links.
   */
  lemma OtherLists(L: map<NodeId, Links>, L': map<NodeId, Links>, C: map<NodeId, seq<NodeId>>,
                   C': map<NodeId, seq<NodeId>>, p: NodeId)
    requires Shape(L, C) && L'.Keys == L.Keys && C'.Keys == C.Keys
    requires forall q | q in L && q != p :: C'[q] == C[q]
    requires forall q | q in L && q != p :: L'[q].firstChild == L[q].firstChild && L'[q].lastChild == L[q].lastChild
    requires forall m | m in L && L[m].parent.Some? && L[m].parent != Some(p) :: Sib(L'[m]) == Sib(L[m])
    ensures forall q | q in L && q != p :: ListOk(L', q, C'[q])
  {
    forall q | q in L && q != p
      ensures ListOk(L', q, C'[q])
    {
      assert ListOk(L, q, C[q]);
      forall m | m in C[q]
        ensures m in L && m in L' && Sib(L'[m]) == Sib(L[m])
      {
        ListMembers(L, C, q, m);
      }
      ListOkFrame(L, L', q, C[q]);
    }
  }

  // ---------------------------------------------------------------------
  // A change confined to one child list
  // ---------------------------------------------------------------------

  /**
   * L' differs from L only around p's list, which now spells cs': every
   * other list keeps its links, nodes join or leave p only, and a node that
   * becomes a root has no siblings.
   */
  ghost predicate Confined(L: map<NodeId, Links>, L': map<NodeId, Links>, p: NodeId, cs': seq<NodeId>) {
    L'.Keys == L.Keys && Closed(L') && p in L' && ListOk(L', p, cs') && OthersKept(L, L', p) && MovesOk(L, L', p, cs')
  }

  /** The lists of parents other than p keep their links. */
  ghost predicate OthersKept(L: map<NodeId, Links>, L': map<NodeId, Links>, p: NodeId)
    requires L'.Keys == L.Keys
  {
    (forall q | q in L && q != p :: L'[q].firstChild == L[q].firstChild && L'[q].lastChild == L[q].lastChild) &&
    (forall m | m in L && L[m].parent.Some? && L[m].parent != Some(p) :: Sib(L'[m]) == Sib(L[m]))
  }

  /** Nodes join or leave p only, and a node that becomes a root has no siblings. */
  ghost predicate MovesOk(L: map<NodeId, Links>, L': map<NodeId, Links>, p: NodeId, cs': seq<NodeId>)
    requires L'.Keys == L.Keys
  {
    (forall n | n in L && L'[n].parent.Some? && L'[n].parent != Some(p) :: L'[n].parent == L[n].parent) &&
    (forall n | n in L && L'[n].parent == Some(p) :: n in cs') &&
    (forall n | n in L && L'[n].parent.None? ::
       Sib(L'[n]) == Sib(L[n]) || (L'[n].previousSibling == None && L'[n].nextSibling == None))
  }

  /** A change confined to p's list leaves a forest whose list for p is cs'. */
  lemma Reshape(L: map<NodeId, Links>, L': map<NodeId, Links>, C: map<NodeId, seq<NodeId>>, p: NodeId, cs': seq<NodeId>)
    requires Shape(L, C) && p in L && Confined(L, L', p, cs')
    ensures Shape(L', C[p := cs'])
  {
    ReshapeLists(L, L', C, p, cs');
    ReshapeParents(L, L', C, p, cs');
  }

  lemma ReshapeLists(L: map<NodeId, Links>, L': map<NodeId, Links>, C: map<NodeId, seq<NodeId>>, p: NodeId, cs': seq<NodeId>)
    requires Shape(L, C) && p in L && L'.Keys == L.Keys && p in L' && ListOk(L', p, cs') && OthersKept(L, L', p)
    ensures ListsOk(L', C[p := cs'])
  {
    var C' := C[p := cs'];
    OtherLists(L, L', C, C, p);
    forall q | q in L'
      ensures ListOk(L', q, C'[q])
    {
      if q != p {
        assert C'[q] == C[q];
      }
    }
  }

  lemma ReshapeParents(L: map<NodeId, Links>, L': map<NodeId, Links>, C: map<NodeId, seq<NodeId>>, p: NodeId, cs': seq<NodeId>)
    requires Shape(L, C) && p in L && L'.Keys == L.Keys && MovesOk(L, L', p, cs')
    ensures ParentsOk(L', C[p := cs'])
  {
    var C' := C[p := cs'];
    forall n | n in L'
      ensures ParentOk(L', C', n)
    {
      assert ParentOk(L, C, n);
    }
  }

  /** What a well-formed forest says about p's children. */
  lemma Children(L: map<NodeId, Links>, C: map<NodeId, seq<NodeId>>, R: map<NodeId, nat>, p: NodeId)
    requires Wf(L, C, R) && p in L
    ensures ListOk(L, p, C[p]) && p !in C[p]
    ensures forall j | 0 <= j < |C[p]| :: C[p][j] in L
    ensures forall n | n in L && L[n].parent == Some(p) :: n in C[p]
  {
    var cs := C[p];
    assert ListOk(L, p, cs);
    forall j | 0 <= j < |cs|
      ensures cs[j] in L && cs[j] != p
    {
      assert MemberOk(L, p, cs, j);
    }
    forall n | n in L && L[n].parent == Some(p)
      ensures n in cs
    {
      assert ParentOk(L, C, n);
    }
  }

  /** The members of a well-formed list are children of p, and p is not one of them. */
  lemma Members(L: map<NodeId, Links>, p: NodeId, cs: seq<NodeId>)
    requires p in L && ListOk(L, p, cs) && p !in cs
    ensures forall m | m in cs :: m in L && L[m].parent == Some(p) && m != p && cs[Pos(cs, m)] == m
  {
    forall m | m in cs
      ensures m in L && L[m].parent == Some(p)
    {
      assert MemberOk(L, p, cs, Pos(cs, m));
    }
  }

  // ---------------------------------------------------------------------
  // internalRemoveChild
  // ---------------------------------------------------------------------

  /** L' is L after the i-th child of p is removed, described node by node. */
  ghost predicate Removed(L: map<NodeId, Links>, L': map<NodeId, Links>, p: NodeId, cs: seq<NodeId>, i: nat)
    requires p in L && i < |cs| && forall j | 0 <= j < |cs| :: cs[j] in L
  {
    L'.Keys == L.Keys &&
    (forall m | m in L && m != p && m !in cs :: L'[m] == L[m]) &&
    (forall j | 0 <= j < |cs| && j + 1 != i && j != i && j != i + 1 :: L'[cs[j]] == L[cs[j]]) &&
    RemovedNear(L, L', p, cs, i)
  }

  /** The nodes whose links the removal rewrites. */
  ghost predicate RemovedNear(L: map<NodeId, Links>, L': map<NodeId, Links>, p: NodeId, cs: seq<NodeId>, i: nat)
    requires p in L && i < |cs| && forall j | 0 <= j < |cs| :: cs[j] in L
    requires L'.Keys == L.Keys
  {
    L'[cs[i]] == L[cs[i]].(parent := None, previousSibling := None, nextSibling := None) &&
    (i > 0 ==> L'[cs[i - 1]] == L[cs[i - 1]].(nextSibling := After(cs, i))) &&
    (i + 1 < |cs| ==> L'[cs[i + 1]] == L[cs[i + 1]].(previousSibling := Before(cs, i))) &&
    L'[p] == L[p].(firstChild := if i == 0 then After(cs, i) else L[p].firstChild,
                   lastChild := if i + 1 == |cs| then Before(cs, i) else L[p].lastChild)
  }

  /** `Unlink` removes x from its parent's list. */
  lemma UnlinkFacts(L: map<NodeId, Links>, p: NodeId, cs: seq<NodeId>, i: nat)
    requires Closed(L) && p in L && ListOk(L, p, cs) && p !in cs && i < |cs|
    requires forall j | 0 <= j < |cs| :: cs[j] in L
    ensures L[cs[i]].parent == Some(p)
    ensures Removed(L, Unlink(L, cs[i]), p, cs, i)
  {
    assert MemberOk(L, p, cs, i);
    UnlinkFar(L, p, cs, i);
    UnlinkNear(L, p, cs, i);
  }

  lemma UnlinkFar(L: map<NodeId, Links>, p: NodeId, cs: seq<NodeId>, i: nat)
    requires Closed(L) && p in L && ListOk(L, p, cs) && p !in cs && i < |cs|
    requires forall j | 0 <= j < |cs| :: cs[j] in L
    ensures L[cs[i]].parent.Some? && Unlink(L, cs[i]).Keys == L.Keys
    ensures forall m | m in L && m != p && m !in cs :: Unlink(L, cs[i])[m] == L[m]
    ensures forall j | 0 <= j < |cs| && j + 1 != i && j != i && j != i + 1 :: Unlink(L, cs[i])[cs[j]] == L[cs[j]]
  {
    assert MemberOk(L, p, cs, i);
    var L' := Unlink(L, cs[i]);
    assert i > 0 ==> cs[i - 1] in cs;
    assert i + 1 < |cs| ==> cs[i + 1] in cs;
    forall j | 0 <= j < |cs| && j + 1 != i && j != i && j != i + 1
      ensures L'[cs[j]] == L[cs[j]]
    {
      assert cs[j] in cs;
      assert cs[j] != cs[i] && (i > 0 ==> cs[j] != cs[i - 1]) && (i + 1 < |cs| ==> cs[j] != cs[i + 1]);
    }
  }

  lemma UnlinkNear(L: map<NodeId, Links>, p: NodeId, cs: seq<NodeId>, i: nat)
    requires Closed(L) && p in L && ListOk(L, p, cs) && p !in cs && i < |cs|
    requires forall j | 0 <= j < |cs| :: cs[j] in L
    ensures L[cs[i]].parent.Some? && Unlink(L, cs[i]).Keys == L.Keys
    ensures RemovedNear(L, Unlink(L, cs[i]), p, cs, i)
  {
    assert MemberOk(L, p, cs, i);
    assert cs[i] in cs;
    assert i > 0 ==> cs[i - 1] != cs[i] && cs[i - 1] in cs;
    assert i + 1 < |cs| ==> cs[i + 1] != cs[i] && cs[i + 1] in cs && (i > 0 ==> cs[i + 1] != cs[i - 1]);
  }

  /** Removing the i-th child is confined to p's list, and only that child changes parent. */
  lemma RemovedFrame(L: map<NodeId, Links>, L': map<NodeId, Links>, p: NodeId, cs: seq<NodeId>, i: nat)
    requires Closed(L) && p in L && ListOk(L, p, cs) && p !in cs && i < |cs|
    requires forall j | 0 <= j < |cs| :: cs[j] in L
    requires forall n | n in L && L[n].parent == Some(p) :: n in cs
    requires Removed(L, L', p, cs, i)
    ensures Confined(L, L', p, cs[..i] + cs[i + 1..])
    ensures forall m | m in L && m != cs[i] :: L'[m].parent == L[m].parent
  {
    RemovedList(L, L', p, cs, i);
    RemovedClosed(L, L', p, cs, i);
    RemovedOthers(L, L', p, cs, i);
    RemovedMoves(L, L', p, cs, i);
  }

  lemma RemovedList(L: map<NodeId, Links>, L': map<NodeId, Links>, p: NodeId, cs: seq<NodeId>, i: nat)
    requires p in L && ListOk(L, p, cs) && p !in cs && i < |cs|
    requires forall j | 0 <= j < |cs| :: cs[j] in L
    requires Removed(L, L', p, cs, i)
    ensures p in L' && ListOk(L', p, cs[..i] + cs[i + 1..])
  {
    forall j | 0 <= j < |cs|
      ensures j != i ==> L'[cs[j]].parent == Some(p)
      ensures j + 1 != i && j != i && j != i + 1 ==> Sib(L'[cs[j]]) == Sib(L[cs[j]])
    {
      assert MemberOk(L, p, cs, j);
    }
    RemoveFromList(L, L', p, cs, i);
  }

  lemma RemovedClosed(L: map<NodeId, Links>, L': map<NodeId, Links>, p: NodeId, cs: seq<NodeId>, i: nat)
    requires Closed(L) && p in L && ListOk(L, p, cs) && p !in cs && i < |cs|
    requires forall j | 0 <= j < |cs| :: cs[j] in L
    requires Removed(L, L', p, cs, i)
    ensures Closed(L')
  {
    var x := cs[i];
    assert MemberOk(L, p, cs, i);
    assert Within(L[x], L);
    forall n | n in L'
      ensures Within(L'[n], L')
    {
      assert Within(L[n], L);
      if n in cs {
        var j := Pos(cs, n);
      }
    }
  }

  lemma RemovedOthers(L: map<NodeId, Links>, L': map<NodeId, Links>, p: NodeId, cs: seq<NodeId>, i: nat)
    requires p in L && ListOk(L, p, cs) && p !in cs && i < |cs|
    requires forall j | 0 <= j < |cs| :: cs[j] in L
    requires Removed(L, L', p, cs, i)
    ensures OthersKept(L, L', p)
  {
    Members(L, p, cs);
    forall q | q in L && q != p
      ensures L'[q].firstChild == L[q].firstChild && L'[q].lastChild == L[q].lastChild
    {
      if q in cs {
        var j := Pos(cs, q);
      }
    }
  }

  lemma RemovedMoves(L: map<NodeId, Links>, L': map<NodeId, Links>, p: NodeId, cs: seq<NodeId>, i: nat)
    requires p in L && ListOk(L, p, cs) && p !in cs && i < |cs|
    requires forall j | 0 <= j < |cs| :: cs[j] in L
    requires forall n | n in L && L[n].parent == Some(p) :: n in cs
    requires Removed(L, L', p, cs, i)
    ensures MovesOk(L, L', p, cs[..i] + cs[i + 1..])
    ensures forall m | m in L && m != cs[i] :: L'[m].parent == L[m].parent
  {
    var x := cs[i];
    var cs' := cs[..i] + cs[i + 1..];
    Members(L, p, cs);
    DropMembers(cs, i);
    forall n | n in cs
      ensures L'[n].parent == (if n == x then None else Some(p))
      ensures n == x ==> L'[n].previousSibling == None && L'[n].nextSibling == None
    {
      var j := Pos(cs, n);
      assert MemberOk(L, p, cs, j);
    }
    forall n | n in L && L'[n].parent == Some(p)
      ensures n in cs'
    {
      assert n in cs;
    }
    forall n | n in L && n !in cs
      ensures Sib(L'[n]) == Sib(L[n])
    {
    }
  }

  /** Dropping the i-th entry keeps every other member. */
  lemma DropMembers(cs: seq<NodeId>, i: nat)
    requires i < |cs|
    ensures forall n | n in cs && n != cs[i] :: n in cs[..i] + cs[i + 1..]
  {
    var cs' := cs[..i] + cs[i + 1..];
    forall n | n in cs && n != cs[i]
      ensures n in cs'
    {
      var j := Pos(cs, n);
      assert cs'[if j < i then j else j - 1] == n;
    }
  }

  /** Inserting x keeps every member and adds x. */
  lemma InsertMembers(cs: seq<NodeId>, i: nat, x: NodeId)
    requires i <= |cs|
    ensures x in cs[..i] + [x] + cs[i..]
    ensures forall n | n in cs :: n in cs[..i] + [x] + cs[i..]
  {
    var cs' := cs[..i] + [x] + cs[i..];
    assert cs'[i] == x;
    forall n | n in cs
      ensures n in cs'
    {
      var j := Pos(cs, n);
      assert cs'[if j < i then j else j + 1] == n;
    }
  }

  /** Replacing the i-th entry by x keeps every other member and adds x. */
  lemma ReplaceMembers(cs: seq<NodeId>, i: nat, x: NodeId)
    requires i < |cs|
    ensures x in cs[i := x]
    ensures forall n | n in cs && n != cs[i] :: n in cs[i := x]
  {
    var cs' := cs[i := x];
    assert cs'[i] == x;
    forall n | n in cs && n != cs[i]
      ensures n in cs'
    {
      assert cs'[Pos(cs, n)] == n;
    }
  }

  /** `internalRemoveChild` leaves a forest in which x is a root and its parent lists one child fewer. */
  lemma UnlinkShape(L: map<NodeId, Links>, C: map<NodeId, seq<NodeId>>, R: map<NodeId, nat>, x: NodeId)
    requires Wf(L, C, R) && x in L && L[x].parent.Some?
    ensures Unlink(L, x).Keys == L.Keys
    ensures Shape(Unlink(L, x), C[L[x].parent.value := Without(C[L[x].parent.value], x)])
    ensures Unlink(L, x)[x] == L[x].(parent := None, previousSibling := None, nextSibling := None)
    ensures forall m | m in L && m != x :: Unlink(L, x)[m].parent == L[m].parent
  {
    var p := L[x].parent.value;
    ChildPosition(L, C, x);
    Children(L, C, R, p);
    var cs := C[p];
    var i := Pos(cs, x);
    UnlinkFacts(L, p, cs, i);
    RemovedFrame(L, Unlink(L, x), p, cs, i);
    Reshape(L, Unlink(L, x), C, p, cs[..i] + cs[i + 1..]);
  }

  // ---------------------------------------------------------------------
  // internalAppendChild and internalInsertBefore
  // ---------------------------------------------------------------------

  /** L' is L after the root x is inserted as the i-th child of p, node by node. */
  ghost predicate Inserted(L: map<NodeId, Links>, L': map<NodeId, Links>, p: NodeId, cs: seq<NodeId>, i: nat, x: NodeId)
    requires p in L && x in L && i <= |cs| && forall j | 0 <= j < |cs| :: cs[j] in L
  {
    L'.Keys == L.Keys &&
    (forall m | m in L && m != p && m != x && m !in cs :: L'[m] == L[m]) &&
    (forall j | 0 <= j < |cs| && j + 1 != i && j != i :: L'[cs[j]] == L[cs[j]]) &&
    InsertedNear(L, L', p, cs, i, x)
  }

  /** The nodes whose links the insertion rewrites. */
  ghost predicate InsertedNear(L: map<NodeId, Links>, L': map<NodeId, Links>, p: NodeId, cs: seq<NodeId>, i: nat, x: NodeId)
    requires p in L && x in L && i <= |cs| && forall j | 0 <= j < |cs| :: cs[j] in L
    requires L'.Keys == L.Keys
  {
    (i < |cs| ==> L'[cs[i]] == L[cs[i]].(previousSibling := Some(x))) &&
    (i > 0 ==> L'[cs[i - 1]] == L[cs[i - 1]].(nextSibling := Some(x))) &&
    L'[x] == L[x].(parent := Some(p), previousSibling := if i == 0 then None else Some(cs[i - 1]),
                   nextSibling := if i == |cs| then None else Some(cs[i])) &&
    L'[p] == L[p].(firstChild := if i == 0 then Some(x) else L[p].firstChild,
                   lastChild := if i == |cs| then Some(x) else L[p].lastChild)
  }

  /** The links after the tail of `internalAppendChild(p, x)`, once x has no parent. */
  function Append(L: map<NodeId, Links>, p: NodeId, x: NodeId): map<NodeId, Links>
    requires Closed(L) && p in L && x in L
  {
    var L1 := if L[p].firstChild.None? then L[p := L[p].(firstChild := Some(x))] else L;
    var last := L1[p].lastChild;
    var L2 := if last.Some? then L1[last.value := L1[last.value].(nextSibling := Some(x))] else L1;
    var L3 := L2[x := L2[x].(parent := Some(p), nextSibling := None, previousSibling := last)];
    L3[p := L3[p].(lastChild := Some(x))]
  }

  /** `Append` puts x at the end of p's list. */
  lemma AppendFacts(L: map<NodeId, Links>, p: NodeId, cs: seq<NodeId>, x: NodeId)
    requires Closed(L) && p in L && x in L && ListOk(L, p, cs) && p !in cs && x !in cs && x != p
    requires forall j | 0 <= j < |cs| :: cs[j] in L
    ensures Inserted(L, Append(L, p, x), p, cs, |cs|, x)
  {
    forall j | 0 <= j < |cs| && j + 1 != |cs|
      ensures cs[j] != cs[|cs| - 1]
    {
    }
  }

  /** The links after the tail of `internalInsertBefore(p, x, ref)`, once x has no parent. */
  function Insert(L: map<NodeId, Links>, p: NodeId, x: NodeId, ref: NodeId): map<NodeId, Links>
    requires Closed(L) && p in L && x in L && ref in L
  {
    var prev := L[ref].previousSibling;
    var L1 := L[x := L[x].(parent := Some(p), nextSibling := Some(ref), previousSibling := prev)];
    var L2 := L1[ref := L1[ref].(previousSibling := Some(x))];
    if prev.Some? then L2[prev.value := L2[prev.value].(nextSibling := Some(x))]
    else L2[p := L2[p].(firstChild := Some(x))]
  }

  /** `Insert` puts x just before the i-th child of p. */
  lemma InsertFacts(L: map<NodeId, Links>, p: NodeId, cs: seq<NodeId>, i: nat, x: NodeId)
    requires Closed(L) && p in L && x in L && ListOk(L, p, cs) && p !in cs && x !in cs && x != p && i < |cs|
    requires forall j | 0 <= j < |cs| :: cs[j] in L
    ensures Inserted(L, Insert(L, p, x, cs[i]), p, cs, i, x)
  {
    InsertFar(L, p, cs, i, x);
    InsertNear(L, p, cs, i, x);
  }

  lemma InsertFar(L: map<NodeId, Links>, p: NodeId, cs: seq<NodeId>, i: nat, x: NodeId)
    requires Closed(L) && p in L && x in L && ListOk(L, p, cs) && p !in cs && x !in cs && x != p && i < |cs|
    requires forall j | 0 <= j < |cs| :: cs[j] in L
    ensures Insert(L, p, x, cs[i]).Keys == L.Keys
    ensures forall m | m in L && m != p && m != x && m !in cs :: Insert(L, p, x, cs[i])[m] == L[m]
    ensures forall j | 0 <= j < |cs| && j + 1 != i && j != i :: Insert(L, p, x, cs[i])[cs[j]] == L[cs[j]]
  {
    assert MemberOk(L, p, cs, i);
    var L' := Insert(L, p, x, cs[i]);
    assert i > 0 ==> cs[i - 1] in cs;
    forall j | 0 <= j < |cs| && j + 1 != i && j != i
      ensures L'[cs[j]] == L[cs[j]]
    {
      assert cs[j] in cs;
      assert cs[j] != cs[i] && (i > 0 ==> cs[j] != cs[i - 1]);
    }
  }

  lemma InsertNear(L: map<NodeId, Links>, p: NodeId, cs: seq<NodeId>, i: nat, x: NodeId)
    requires Closed(L) && p in L && x in L && ListOk(L, p, cs) && p !in cs && x !in cs && x != p && i < |cs|
    requires forall j | 0 <= j < |cs| :: cs[j] in L
    ensures Insert(L, p, x, cs[i]).Keys == L.Keys
    ensures InsertedNear(L, Insert(L, p, x, cs[i]), p, cs, i, x)
  {
    assert MemberOk(L, p, cs, i);
    assert i > 0 ==> cs[i - 1] != cs[i] && cs[i - 1] in cs;
    assert cs[i] in cs;
  }

  /** Inserting a root into p's list is confined to that list, and only x changes parent. */
  lemma InsertedFrame(L: map<NodeId, Links>, L': map<NodeId, Links>, p: NodeId, cs: seq<NodeId>, i: nat, x: NodeId)
    requires Closed(L) && p in L && x in L && ListOk(L, p, cs) && p !in cs && x !in cs && x != p && i <= |cs|
    requires L[x].parent.None? && L[x].previousSibling.None? && L[x].nextSibling.None?
    requires forall j | 0 <= j < |cs| :: cs[j] in L
    requires forall n | n in L && L[n].parent == Some(p) :: n in cs
    requires Inserted(L, L', p, cs, i, x)
    ensures Confined(L, L', p, cs[..i] + [x] + cs[i..])
    ensures forall m | m in L && m != x :: L'[m].parent == L[m].parent
  {
    InsertedList(L, L', p, cs, i, x);
    InsertedClosed(L, L', p, cs, i, x);
    InsertedOthers(L, L', p, cs, i, x);
    InsertedMoves(L, L', p, cs, i, x);
  }

  lemma InsertedList(L: map<NodeId, Links>, L': map<NodeId, Links>, p: NodeId, cs: seq<NodeId>, i: nat, x: NodeId)
    requires p in L && x in L && ListOk(L, p, cs) && p !in cs && x !in cs && x != p && i <= |cs|
    requires forall j | 0 <= j < |cs| :: cs[j] in L
    requires Inserted(L, L', p, cs, i, x)
    ensures p in L' && ListOk(L', p, cs[..i] + [x] + cs[i..])
  {
    forall j | 0 <= j < |cs|
      ensures L'[cs[j]].parent == Some(p)
      ensures j + 1 != i && j != i ==> Sib(L'[cs[j]]) == Sib(L[cs[j]])
    {
      assert MemberOk(L, p, cs, j);
    }
    InsertIntoList(L, L', p, cs, i, x);
  }

  lemma InsertedClosed(L: map<NodeId, Links>, L': map<NodeId, Links>, p: NodeId, cs: seq<NodeId>, i: nat, x: NodeId)
    requires Closed(L) && p in L && x in L && ListOk(L, p, cs) && p !in cs && x !in cs && x != p && i <= |cs|
    requires forall j | 0 <= j < |cs| :: cs[j] in L
    requires Inserted(L, L', p, cs, i, x)
    ensures Closed(L')
  {
    forall n | n in L'
      ensures Within(L'[n], L')
    {
      assert Within(L[n], L);
      if n in cs {
        var j := Pos(cs, n);
      } else if n == x {
        assert i > 0 ==> cs[i - 1] in L;
        assert i < |cs| ==> cs[i] in L;
      }
    }
  }

  lemma InsertedOthers(L: map<NodeId, Links>, L': map<NodeId, Links>, p: NodeId, cs: seq<NodeId>, i: nat, x: NodeId)
    requires p in L && x in L && ListOk(L, p, cs) && p !in cs && x !in cs && x != p && i <= |cs|
    requires L[x].parent.None?
    requires forall j | 0 <= j < |cs| :: cs[j] in L
    requires Inserted(L, L', p, cs, i, x)
    ensures OthersKept(L, L', p)
  {
    Members(L, p, cs);
    forall q | q in L && q != p
      ensures L'[q].firstChild == L[q].firstChild && L'[q].lastChild == L[q].lastChild
    {
      if q in cs {
        var j := Pos(cs, q);
      }
    }
  }

  lemma InsertedMoves(L: map<NodeId, Links>, L': map<NodeId, Links>, p: NodeId, cs: seq<NodeId>, i: nat, x: NodeId)
    requires p in L && x in L && ListOk(L, p, cs) && p !in cs && x !in cs && x != p && i <= |cs|
    requires forall j | 0 <= j < |cs| :: cs[j] in L
    requires forall n | n in L && L[n].parent == Some(p) :: n in cs
    requires Inserted(L, L', p, cs, i, x)
    ensures MovesOk(L, L', p, cs[..i] + [x] + cs[i..])
    ensures forall m | m in L && m != x :: L'[m].parent == L[m].parent
  {
    var cs' := cs[..i] + [x] + cs[i..];
    Members(L, p, cs);
    InsertMembers(cs, i, x);
    forall n | n in cs
      ensures L'[n].parent == Some(p)
    {
      var j := Pos(cs, n);
    }
    forall n | n in L && L'[n].parent == Some(p)
      ensures n in cs'
    {
      if n != x {
        assert n in cs;
      }
    }
    forall n | n in L && n !in cs && n != x
      ensures Sib(L'[n]) == Sib(L[n])
    {
    }
  }

  /** Appending the root x to p: p lists x last. */
  lemma AppendShape(L: map<NodeId, Links>, C: map<NodeId, seq<NodeId>>, R: map<NodeId, nat>, p: NodeId, x: NodeId)
    requires Wf(L, C, R) && p in L && x in L && L[x].parent.None? && p != x
    ensures Append(L, p, x).Keys == L.Keys
    ensures Shape(Append(L, p, x), C[p := C[p] + [x]])
    ensures Append(L, p, x)[x].parent == Some(p)
    ensures forall m | m in L && m != x :: Append(L, p, x)[m].parent == L[m].parent
  {
    Children(L, C, R, p);
    RootInNoList(L, C, x, p);
    assert ParentOk(L, C, x);
    var cs := C[p];
    AppendFacts(L, p, cs, x);
    InsertedFrame(L, Append(L, p, x), p, cs, |cs|, x);
    assert cs[..|cs|] + [x] + cs[|cs|..] == cs + [x];
    Reshape(L, Append(L, p, x), C, p, cs + [x]);
  }

  /** Inserting the root x before the child ref of p: p lists x just before ref. */
  lemma InsertShape(L: map<NodeId, Links>, C: map<NodeId, seq<NodeId>>, R: map<NodeId, nat>,
                    p: NodeId, x: NodeId, ref: NodeId)
    requires Wf(L, C, R) && p in L && x in L && L[x].parent.None? && p != x
    requires ref in L && L[ref].parent == Some(p)
    ensures ref in C[p] && Insert(L, p, x, ref).Keys == L.Keys
    ensures Shape(Insert(L, p, x, ref), C[p := C[p][..Pos(C[p], ref)] + [x] + C[p][Pos(C[p], ref)..]])
    ensures Insert(L, p, x, ref)[x].parent == Some(p)
    ensures forall m | m in L && m != x :: Insert(L, p, x, ref)[m].parent == L[m].parent
  {
    Children(L, C, R, p);
    RootInNoList(L, C, x, p);
    assert ParentOk(L, C, x);
    var cs := C[p];
    var i := Pos(cs, ref);
    InsertFacts(L, p, cs, i, x);
    InsertedFrame(L, Insert(L, p, x, ref), p, cs, i, x);
    Reshape(L, Insert(L, p, x, ref), C, p, cs[..i] + [x] + cs[i..]);
  }

  // ---------------------------------------------------------------------
  // internalReplaceChild
  // ---------------------------------------------------------------------

  /** L' is L after the root x takes the place of the i-th child of p, node by node. */
  ghost predicate Replaced(L: map<NodeId, Links>, L': map<NodeId, Links>, p: NodeId, cs: seq<NodeId>, i: nat, x: NodeId)
    requires p in L && x in L && i < |cs| && forall j | 0 <= j < |cs| :: cs[j] in L
  {
    L'.Keys == L.Keys &&
    (forall m | m in L && m != p && m != x && m !in cs :: L'[m] == L[m]) &&
    (forall j | 0 <= j < |cs| && j + 1 != i && j != i && j != i + 1 :: L'[cs[j]] == L[cs[j]]) &&
    ReplacedNear(L, L', p, cs, i, x)
  }

  /** The nodes whose links the replacement rewrites. */
  ghost predicate ReplacedNear(L: map<NodeId, Links>, L': map<NodeId, Links>, p: NodeId, cs: seq<NodeId>, i: nat, x: NodeId)
    requires p in L && x in L && i < |cs| && forall j | 0 <= j < |cs| :: cs[j] in L
    requires L'.Keys == L.Keys
  {
    L'[cs[i]] == L[cs[i]].(parent := None, previousSibling := None, nextSibling := None) &&
    (i > 0 ==> L'[cs[i - 1]] == L[cs[i - 1]].(nextSibling := Some(x))) &&
    (i + 1 < |cs| ==> L'[cs[i + 1]] == L[cs[i + 1]].(previousSibling := Some(x))) &&
    L'[x] == L[x].(parent := Some(p), previousSibling := Before(cs, i), nextSibling := After(cs, i)) &&
    L'[p] == L[p].(firstChild := if i == 0 then Some(x) else L[p].firstChild,
                   lastChild := if i + 1 == |cs| then Some(x) else L[p].lastChild)
  }

  /** The links after the tail of `internalReplaceChild(p, x, y)`, once x has no parent. */
  function Replace(L: map<NodeId, Links>, p: NodeId, x: NodeId, y: NodeId): map<NodeId, Links>
    requires Closed(L) && p in L && x in L && y in L
  {
    var next, prev := L[y].nextSibling, L[y].previousSibling;
    var L1 := if next.Some? then L[next.value := L[next.value].(previousSibling := Some(x))]
              else L[p := L[p].(lastChild := Some(x))];
    var L2 := if prev.Some? then L1[prev.value := L1[prev.value].(nextSibling := Some(x))]
              else L1[p := L1[p].(firstChild := Some(x))];
    var L3 := L2[y := L2[y].(nextSibling := None, parent := None, previousSibling := None)];
    L3[x := L3[x].(nextSibling := next, parent := Some(p), previousSibling := prev)]
  }

  /** `Replace` puts x in the place of the i-th child of p. */
  lemma ReplaceFacts(L: map<NodeId, Links>, p: NodeId, cs: seq<NodeId>, i: nat, x: NodeId)
    requires Closed(L) && p in L && x in L && ListOk(L, p, cs) && p !in cs && x !in cs && x != p && i < |cs|
    requires forall j | 0 <= j < |cs| :: cs[j] in L
    ensures Replaced(L, Replace(L, p, x, cs[i]), p, cs, i, x)
  {
    ReplaceFar(L, p, cs, i, x);
    ReplaceNear(L, p, cs, i, x);
  }

  lemma ReplaceFar(L: map<NodeId, Links>, p: NodeId, cs: seq<NodeId>, i: nat, x: NodeId)
    requires Closed(L) && p in L && x in L && ListOk(L, p, cs) && p !in cs && x !in cs && x != p && i < |cs|
    requires forall j | 0 <= j < |cs| :: cs[j] in L
    ensures Replace(L, p, x, cs[i]).Keys == L.Keys
    ensures forall m | m in L && m != p && m != x && m !in cs :: Replace(L, p, x, cs[i])[m] == L[m]
    ensures forall j | 0 <= j < |cs| && j + 1 != i && j != i && j != i + 1 :: Replace(L, p, x, cs[i])[cs[j]] == L[cs[j]]
  {
    assert MemberOk(L, p, cs, i);
    var L' := Replace(L, p, x, cs[i]);
    assert i > 0 ==> cs[i - 1] in cs;
    assert i + 1 < |cs| ==> cs[i + 1] in cs;
    forall j | 0 <= j < |cs| && j + 1 != i && j != i && j != i + 1
      ensures L'[cs[j]] == L[cs[j]]
    {
      assert cs[j] in cs;
      assert cs[j] != cs[i] && (i > 0 ==> cs[j] != cs[i - 1]) && (i + 1 < |cs| ==> cs[j] != cs[i + 1]);
    }
  }

  lemma ReplaceNear(L: map<NodeId, Links>, p: NodeId, cs: seq<NodeId>, i: nat, x: NodeId)
    requires Closed(L) && p in L && x in L && ListOk(L, p, cs) && p !in cs && x !in cs && x != p && i < |cs|
    requires forall j | 0 <= j < |cs| :: cs[j] in L
    ensures Replace(L, p, x, cs[i]).Keys == L.Keys
    ensures ReplacedNear(L, Replace(L, p, x, cs[i]), p, cs, i, x)
  {
    assert MemberOk(L, p, cs, i);
    assert cs[i] in cs;
    assert i > 0 ==> cs[i - 1] != cs[i] && cs[i - 1] in cs;
    assert i + 1 < |cs| ==> cs[i + 1] != cs[i] && cs[i + 1] in cs && (i > 0 ==> cs[i + 1] != cs[i - 1]);
  }

  /** Replacing a child by a root is confined to p's list; only x and the old child change parent. */
  lemma ReplacedFrame(L: map<NodeId, Links>, L': map<NodeId, Links>, p: NodeId, cs: seq<NodeId>, i: nat, x: NodeId)
    requires Closed(L) && p in L && x in L && ListOk(L, p, cs) && p !in cs && x !in cs && x != p && i < |cs|
    requires L[x].parent.None? && L[x].previousSibling.None? && L[x].nextSibling.None?
    requires forall j | 0 <= j < |cs| :: cs[j] in L
    requires forall n | n in L && L[n].parent == Some(p) :: n in cs
    requires Replaced(L, L', p, cs, i, x)
    ensures Confined(L, L', p, cs[i := x])
    ensures forall m | m in L && m != x && m != cs[i] :: L'[m].parent == L[m].parent
  {
    ReplacedList(L, L', p, cs, i, x);
    ReplacedClosed(L, L', p, cs, i, x);
    ReplacedOthers(L, L', p, cs, i, x);
    ReplacedMoves(L, L', p, cs, i, x);
  }

  lemma ReplacedList(L: map<NodeId, Links>, L': map<NodeId, Links>, p: NodeId, cs: seq<NodeId>, i: nat, x: NodeId)
    requires p in L && x in L && ListOk(L, p, cs) && p !in cs && x !in cs && x != p && i < |cs|
    requires forall j | 0 <= j < |cs| :: cs[j] in L
    requires Replaced(L, L', p, cs, i, x)
    ensures p in L' && ListOk(L', p, cs[i := x])
  {
    forall j | 0 <= j < |cs|
      ensures j != i ==> L'[cs[j]].parent == Some(p)
      ensures j + 1 != i && j != i && j != i + 1 ==> Sib(L'[cs[j]]) == Sib(L[cs[j]])
    {
      assert MemberOk(L, p, cs, j);
    }
    ReplaceInList(L, L', p, cs, i, x);
  }

  lemma ReplacedClosed(L: map<NodeId, Links>, L': map<NodeId, Links>, p: NodeId, cs: seq<NodeId>, i: nat, x: NodeId)
    requires Closed(L) && p in L && x in L && ListOk(L, p, cs) && p !in cs && x !in cs && x != p && i < |cs|
    requires forall j | 0 <= j < |cs| :: cs[j] in L
    requires Replaced(L, L', p, cs, i, x)
    ensures Closed(L')
  {
    var y := cs[i];
    assert MemberOk(L, p, cs, i);
    assert Within(L[y], L);
    forall n | n in L'
      ensures Within(L'[n], L')
    {
      assert Within(L[n], L);
      if n in cs {
        var j := Pos(cs, n);
      }
    }
  }

  lemma ReplacedOthers(L: map<NodeId, Links>, L': map<NodeId, Links>, p: NodeId, cs: seq<NodeId>, i: nat, x: NodeId)
    requires p in L && x in L && ListOk(L, p, cs) && p !in cs && x !in cs && x != p && i < |cs|
    requires L[x].parent.None?
    requires forall j | 0 <= j < |cs| :: cs[j] in L
    requires Replaced(L, L', p, cs, i, x)
    ensures OthersKept(L, L', p)
  {
    Members(L, p, cs);
    forall q | q in L && q != p
      ensures L'[q].firstChild == L[q].firstChild && L'[q].lastChild == L[q].lastChild
    {
      if q in cs {
        var j := Pos(cs, q);
      }
    }
  }

  lemma ReplacedMoves(L: map<NodeId, Links>, L': map<NodeId, Links>, p: NodeId, cs: seq<NodeId>, i: nat, x: NodeId)
    requires p in L && x in L && ListOk(L, p, cs) && p !in cs && x !in cs && x != p && i < |cs|
    requires forall j | 0 <= j < |cs| :: cs[j] in L
    requires forall n | n in L && L[n].parent == Some(p) :: n in cs
    requires Replaced(L, L', p, cs, i, x)
    ensures MovesOk(L, L', p, cs[i := x])
    ensures forall m | m in L && m != x && m != cs[i] :: L'[m].parent == L[m].parent
  {
    var y := cs[i];
    var cs' := cs[i := x];
    Members(L, p, cs);
    ReplaceMembers(cs, i, x);
    forall n | n in cs
      ensures L'[n].parent == (if n == y then None else Some(p))
      ensures n == y ==> L'[n].previousSibling == None && L'[n].nextSibling == None
    {
      var j := Pos(cs, n);
      assert MemberOk(L, p, cs, j);
    }
    forall n | n in L && L'[n].parent == Some(p)
      ensures n in cs'
    {
      if n != x {
        assert n in cs;
      }
    }
    forall n | n in L && n !in cs && n != x
      ensures Sib(L'[n]) == Sib(L[n])
    {
    }
  }

  /** Replacing the child y of p by the root x: x takes y's place and y becomes a root. */
  lemma ReplaceShape(L: map<NodeId, Links>, C: map<NodeId, seq<NodeId>>, R: map<NodeId, nat>,
                     p: NodeId, x: NodeId, y: NodeId)
    requires Wf(L, C, R) && p in L && x in L && L[x].parent.None? && p != x
    requires y in L && L[y].parent == Some(p)
    ensures y in C[p] && Replace(L, p, x, y).Keys == L.Keys
    ensures Shape(Replace(L, p, x, y), C[p := C[p][Pos(C[p], y) := x]])
    ensures Replace(L, p, x, y)[x].parent == Some(p)
    ensures Replace(L, p, x, y)[y] == L[y].(parent := None, previousSibling := None, nextSibling := None)
    ensures forall m | m in L && m != x && m != y :: Replace(L, p, x, y)[m].parent == L[m].parent
  {
    Children(L, C, R, p);
    RootInNoList(L, C, x, p);
    assert ParentOk(L, C, x);
    var cs := C[p];
    var i := Pos(cs, y);
    ReplaceFacts(L, p, cs, i, x);
    ReplacedFrame(L, Replace(L, p, x, y), p, cs, i, x);
    Reshape(L, Replace(L, p, x, y), C, p, cs[i := x]);
  }
}
