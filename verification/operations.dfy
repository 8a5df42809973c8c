/**
 * The undoable operations of editing/operations.js and
 * src/editing/operations.js. Each operation keeps the nodes and values its
 * constructor was given or read, `redo` applies it to the DOM and `undo`
 * applies the inverse DOM calls. The two files share the child list
 * operations; editing/operations.js adds the attribute, style and
 * text-splitting ones and `console.assert`s on the arguments.
 */
module Operations {
  import opened NodeForest
  import opened NodeMoves
  import opened EditingTree
  import opened Dom

  /** One operation object with the fields its constructor sets. */
  datatype Operation =
    | AppendChildOp(parentNode: NodeId, newChild: NodeId)
    | InsertBeforeOp(parentNode: NodeId, newChild: NodeId, refChild: Option<NodeId>)
    | RemoveChildOp(parentNode: NodeId, oldChild: NodeId, refChild: Option<NodeId>)
    | ReplaceChildOp(parentNode: NodeId, newChild: NodeId, oldChild: NodeId)
    | RemoveAttributeOp(element: NodeId, attrName: string, removedValue: string)
    | SetAttributeOp(element: NodeId, attrName: string, newValue: string, priorValue: Option<string>)
    | SetStyleOp(element: NodeId, propertyName: string, newValue: string, priorStyle: string)
    | SplitTextOp(textNode: NodeId, newNode: NodeId)

  /** The `name` (and `operationName`) getter; `SetStyle` passes 'setAttribute' to the base constructor. */
  function Name(op: Operation): string {
    match op
    case AppendChildOp(_, _) => "appendChild"
    case InsertBeforeOp(_, _, _) => "insertBefore"
    case RemoveChildOp(_, _, _) => "removeChild"
    case ReplaceChildOp(_, _, _) => "replaceChild"
    case RemoveAttributeOp(_, _, _) => "removeAttribute"
    case SetAttributeOp(_, _, _, _) => "setAttribute"
    case SetStyleOp(_, _, _, _) => "setAttribute"
    case SplitTextOp(_, _) => "splitText"
  }

  /** Operations of different kinds have different names, except that a style change is named like an attribute change. */
  lemma NamesTell(a: Operation, b: Operation)
    requires Name(a) == Name(b)
    ensures a.AppendChildOp? == b.AppendChildOp? && a.InsertBeforeOp? == b.InsertBeforeOp?
    ensures a.RemoveChildOp? == b.RemoveChildOp? && a.ReplaceChildOp? == b.ReplaceChildOp?
    ensures a.RemoveAttributeOp? == b.RemoveAttributeOp? && a.SplitTextOp? == b.SplitTextOp?
    ensures (a.SetAttributeOp? || a.SetStyleOp?) == (b.SetAttributeOp? || b.SetStyleOp?)
  {
  }

  // ---------------------------------------------------------------------
  // Construction
  // ---------------------------------------------------------------------

  /** The nodes an operation refers to. */
  function Refs(op: Operation): set<NodeId> {
    match op
    case AppendChildOp(p, x) => {p, x}
    case InsertBeforeOp(p, x, ref) => {p, x} + (if ref.Some? then {ref.value} else {})
    case RemoveChildOp(p, y, ref) => {p, y} + (if ref.Some? then {ref.value} else {})
    case ReplaceChildOp(p, x, y) => {p, x, y}
    case RemoveAttributeOp(e, _, _) => {e}
    case SetAttributeOp(e, _, _, _) => {e}
    case SetStyleOp(e, _, _, _) => {e}
    case SplitTextOp(t, s) => {t, s}
  }

  /**
   * The new child has no parent: what `console.assert(!newChild.parentNode)`
   * checks in the constructors of AppendChild, InsertBefore and
   * ReplaceChild, and what SplitText expects of its new node.
   */
  predicate Fresh(L: map<NodeId, Links>, op: Operation)
    requires Refs(op) <= L.Keys
  {
    match op
    case AppendChildOp(_, x) => L[x].parent.None?
    case InsertBeforeOp(_, x, _) => L[x].parent.None?
    case ReplaceChildOp(_, x, _) => L[x].parent.None?
    case SplitTextOp(_, s) => L[s].parent.None?
    case _ => true
  }

  /** The links a constructor read are still the document's: RemoveChild's ref is the old child's next sibling. */
  predicate LinksCaptured(L: map<NodeId, Links>, op: Operation)
    requires Refs(op) <= L.Keys
  {
    op.RemoveChildOp? ==> op.refChild == L[op.oldChild].nextSibling
  }

  /** `s` ends with `tail`. */
  predicate EndsWith(s: string, tail: string) {
    |tail| <= |s| && s[|s| - |tail|..] == tail
  }

  /**
   * The values a constructor read are still the document's: the old
   * attribute value and old style value, and, for SplitText, two distinct
   * text nodes where the new one holds the end of the old one's text.
   */
  predicate NodesCaptured(N: map<NodeId, DomNode>, op: Operation)
    requires Refs(op) <= N.Keys
  {
    match op
    case RemoveAttributeOp(e, name, v) => GetAttr(N[e].attributes, name) == Some(v)
    case SetAttributeOp(e, name, _, prior) => GetAttr(N[e].attributes, name) == prior
    case SetStyleOp(e, prop, _, prior) => StyleGet(N[e].style, prop) == prior
    case SplitTextOp(t, s) =>
      t != s && N[t].kind == TextNode && N[s].kind == TextNode && EndsWith(N[t].data, N[s].data)
    case _ => true
  }

  /**
   * `new InsertBefore(parentNode, newChild, refChild)` of
   * editing/operations.js: the assertion reads `refChild.parentNode`, so a
   * null ref throws.
   */
  function NewInsertBefore(p: NodeId, x: NodeId, ref: Option<NodeId>): (r: Option<Operation>)
    ensures r.None? <==> ref.None?
    ensures r.Some? ==> r.value.InsertBeforeOp? && Refs(r.value) == {p, x, ref.value}
  {
    if ref.None? then None else Some(InsertBeforeOp(p, x, ref))
  }

  /** `new RemoveChild(parentNode, oldChild)`: the ref to put it back before is its next sibling. */
  function NewRemoveChild(L: map<NodeId, Links>, p: NodeId, y: NodeId): (op: Operation)
    requires y in L && Closed(L) && p in L
    ensures op.RemoveChildOp? && Refs(op) <= L.Keys && LinksCaptured(L, op)
  {
    assert Within(L[y], L);
    RemoveChildOp(p, y, L[y].nextSibling)
  }

  /** `new RemoveAttribute(element, attrName)`: throws when there is no such attribute. */
  function NewRemoveAttribute(N: map<NodeId, DomNode>, e: NodeId, name: string): (r: Option<Operation>)
    requires e in N
    ensures r.None? <==> name !in N[e].attributes
    ensures r.Some? ==> r.value.RemoveAttributeOp? && Refs(r.value) == {e} && NodesCaptured(N, r.value)
  {
    var v := GetAttr(N[e].attributes, name);
    if v.None? then None else Some(RemoveAttributeOp(e, name, v.value))
  }

  /** `new SetAttribute(element, attrName, newValue)`: a null value throws. */
  function NewSetAttribute(N: map<NodeId, DomNode>, e: NodeId, name: string, value: Option<string>): (r: Option<Operation>)
    requires e in N
    ensures r.None? <==> value.None?
    ensures r.Some? ==> r.value.SetAttributeOp? && Refs(r.value) == {e} && NodesCaptured(N, r.value)
  {
    if value.None? then None else Some(SetAttributeOp(e, name, value.value, GetAttr(N[e].attributes, name)))
  }

  /** `new SetStyle(element, propertyName, newValue)`. */
  function NewSetStyle(N: map<NodeId, DomNode>, e: NodeId, prop: string, value: string): (op: Operation)
    requires e in N
    ensures op.SetStyleOp? && Refs(op) == {e} && NodesCaptured(N, op)
  {
    SetStyleOp(e, prop, value, StyleGet(N[e].style, prop))
  }

  // ---------------------------------------------------------------------
  // What redo and undo do to the document
  // ---------------------------------------------------------------------

  /** `s.substr(0, length)`: a negative length gives the empty string, a long one the whole string. */
  function Prefix(s: string, length: int): (r: string)
    ensures |r| == Clamp(length, |s|) && r == s[..|r|]
  {
    s[..Clamp(length, |s|)]
  }

  /** A string operand of `+`: null reads as "null". */
  function JsString(v: Option<string>): string {
    if v.Some? then v.value else "null"
  }

  /** Both nodes of a SplitText are text nodes, so `nodeValue.length` can be read. */
  predicate Texts(N: map<NodeId, DomNode>, t: NodeId, s: NodeId)
    requires t in N && s in N
  {
    N[t].kind == TextNode && N[s].kind == TextNode
  }

  /** Whether `redo` finishes without throwing. */
  predicate RedoOk(L: map<NodeId, Links>, N: map<NodeId, DomNode>, op: Operation)
    requires Closed(L) && Refs(op) <= L.Keys && N.Keys == L.Keys
  {
    match op
    case AppendChildOp(p, _) => Container(N, p)
    case InsertBeforeOp(p, _, ref) => InsertOk(L, N, p, ref)
    case RemoveChildOp(p, y, _) => L[y].parent == Some(p)
    case ReplaceChildOp(p, _, y) => ReplaceOk(L, N, p, y)
    case RemoveAttributeOp(_, _, _) => true
    case SetAttributeOp(_, _, _, _) => true
    case SetStyleOp(_, _, _, _) => true
    case SplitTextOp(t, _) =>
      assert Within(L[t], L);
      Texts(N, op.textNode, op.newNode) && L[t].parent.Some? && InsertOk(L, N, L[t].parent.value, L[t].nextSibling)
  }

  /** The links after a `redo` that did not throw. */
  function RedoLinks(L: map<NodeId, Links>, N: map<NodeId, DomNode>, op: Operation): map<NodeId, Links>
    requires Closed(L) && Refs(op) <= L.Keys && N.Keys == L.Keys && RedoOk(L, N, op)
  {
    match op
    case AppendChildOp(p, x) => AppendChildLinks(L, p, x)
    case InsertBeforeOp(p, x, ref) => InsertLinks(L, p, x, ref)
    case RemoveChildOp(_, y, _) => Unlink(L, y)
    case ReplaceChildOp(p, x, y) => ReplaceLinks(L, p, x, y)
    case RemoveAttributeOp(_, _, _) => L
    case SetAttributeOp(_, _, _, _) => L
    case SetStyleOp(_, _, _, _) => L
    case SplitTextOp(t, s) =>
      assert Within(L[t], L);
      InsertLinks(L, L[t].parent.value, s, L[t].nextSibling)
  }

  /**
   * The nodes after `redo`, whether or not it throws later: SplitText cuts
   * the new node's length off the end of the text before it inserts the
   * new node.
   */
  function RedoNodes(N: map<NodeId, DomNode>, op: Operation): (N': map<NodeId, DomNode>)
    requires Refs(op) <= N.Keys
    ensures N'.Keys == N.Keys
  {
    match op
    case AppendChildOp(_, _) => N
    case InsertBeforeOp(_, _, _) => N
    case RemoveChildOp(_, _, _) => N
    case ReplaceChildOp(_, _, _) => N
    case RemoveAttributeOp(e, name, _) => N[e := N[e].(attributes := N[e].attributes - {name})]
    case SetAttributeOp(e, name, v, _) => N[e := N[e].(attributes := N[e].attributes[name := v])]
    case SetStyleOp(e, prop, v, _) => N[e := N[e].(style := StyleSet(N[e].style, prop, v))]
    case SplitTextOp(t, s) =>
      if Texts(N, t, s) then SetValue(N, t, Prefix(N[t].data, |N[t].data| - |N[s].data|)) else N
  }

  /** Whether `undo` finishes without throwing. */
  predicate UndoOk(L: map<NodeId, Links>, N: map<NodeId, DomNode>, op: Operation)
    requires Refs(op) <= L.Keys && N.Keys == L.Keys
  {
    match op
    case AppendChildOp(p, x) => L[x].parent == Some(p)
    case InsertBeforeOp(p, x, _) => L[x].parent == Some(p)
    case RemoveChildOp(p, _, ref) => InsertOk(L, N, p, ref)
    case ReplaceChildOp(p, x, _) => ReplaceOk(L, N, p, x)
    case RemoveAttributeOp(_, _, _) => true
    case SetAttributeOp(_, _, _, _) => true
    case SetStyleOp(_, _, _, _) => true
    case SplitTextOp(_, s) => L[s].parent.Some?
  }

  /** The links after an `undo` that did not throw. */
  function UndoLinks(L: map<NodeId, Links>, N: map<NodeId, DomNode>, op: Operation): map<NodeId, Links>
    requires Closed(L) && Refs(op) <= L.Keys && N.Keys == L.Keys && UndoOk(L, N, op)
  {
    match op
    case AppendChildOp(_, x) => Unlink(L, x)
    case InsertBeforeOp(_, x, _) => Unlink(L, x)
    case RemoveChildOp(p, y, ref) => InsertLinks(L, p, y, ref)
    case ReplaceChildOp(p, x, y) => ReplaceLinks(L, p, y, x)
    case RemoveAttributeOp(_, _, _) => L
    case SetAttributeOp(_, _, _, _) => L
    case SetStyleOp(_, _, _, _) => L
    case SplitTextOp(_, s) => Unlink(L, s)
  }

  /**
   * The nodes after `undo`, whether or not it throws later: SplitText
   * appends the new node's value to the text node's value first.
   */
  function UndoNodes(N: map<NodeId, DomNode>, op: Operation): (N': map<NodeId, DomNode>)
    requires Refs(op) <= N.Keys
    ensures N'.Keys == N.Keys
  {
    match op
    case AppendChildOp(_, _) => N
    case InsertBeforeOp(_, _, _) => N
    case RemoveChildOp(_, _, _) => N
    case ReplaceChildOp(_, _, _) => N
    case RemoveAttributeOp(e, name, v) => N[e := N[e].(attributes := N[e].attributes[name := v])]
    case SetAttributeOp(e, name, _, prior) =>
      if prior.None? then N[e := N[e].(attributes := N[e].attributes - {name})]
      else N[e := N[e].(attributes := N[e].attributes[name := prior.value])]
    case SetStyleOp(e, prop, _, prior) => N[e := N[e].(style := StyleSet(N[e].style, prop, prior))]
    case SplitTextOp(t, s) => SetValue(N, t, JsString(ValueOf(N[t])) + JsString(ValueOf(N[s])))
  }

  /** The DOM accepts the nodes `redo` inserts: none is an inclusive ancestor of its new parent. */
  ghost predicate RedoInsertable(L: map<NodeId, Links>, R: map<NodeId, nat>, op: Operation)
    requires Ranked(L, R) && Refs(op) <= L.Keys
  {
    match op
    case AppendChildOp(p, x) => !Under(L, R, p, x)
    case InsertBeforeOp(p, x, _) => !Under(L, R, p, x)
    case ReplaceChildOp(p, x, _) => !Under(L, R, p, x)
    case SplitTextOp(t, s) => L[t].parent.Some? ==> !Under(L, R, L[t].parent.value, s)
    case _ => true
  }

  /** The DOM accepts the nodes `undo` inserts. */
  ghost predicate UndoInsertable(L: map<NodeId, Links>, R: map<NodeId, nat>, op: Operation)
    requires Ranked(L, R) && Refs(op) <= L.Keys
  {
    match op
    case RemoveChildOp(p, y, _) => !Under(L, R, p, y)
    case ReplaceChildOp(p, _, y) => !Under(L, R, p, y)
    case _ => true
  }

  // ---------------------------------------------------------------------
  // redo and undo
  // ---------------------------------------------------------------------

  /** `op.redo()` (and `op.execute()`). */
  method Redo(d: Document, op: Operation) returns (ok: bool)
    requires d.Valid() && Refs(op) <= d.links.Keys && RedoInsertable(d.links, d.rank, op)
    modifies d
    ensures d.Valid() && Refs(op) <= d.links.Keys
    ensures ok <==> RedoOk(old(d.links), old(d.nodes), op)
    ensures d.nodes == RedoNodes(old(d.nodes), op)
    ensures d.links == if ok then RedoLinks(old(d.links), old(d.nodes), op) else old(d.links)
  {
    match op
    case AppendChildOp(p, x) =>
      ok := d.AppendChild(p, x);
    case InsertBeforeOp(p, x, ref) =>
      ok := d.InsertBefore(p, x, ref);
    case RemoveChildOp(p, y, _) =>
      ok := d.RemoveChild(p, y);
    case ReplaceChildOp(p, x, y) =>
      ok := d.ReplaceChild(p, x, y);
    case RemoveAttributeOp(e, name, _) =>
      d.RemoveAttribute(e, name);
      ok := true;
    case SetAttributeOp(e, name, v, _) =>
      d.SetAttribute(e, name, v);
      ok := true;
    case SetStyleOp(e, prop, v, _) =>
      d.SetStyle(e, prop, v);
      ok := true;
    case SplitTextOp(t, s) =>
      ok := RedoSplitText(d, t, s);
  }

  /**
   * `SplitText.prototype.redo`: reading the length of a null value
   * throws; the text loses as many characters as the new node holds; a
   * text node without a parent throws after that; otherwise the new node
   * goes just after the text node.
   */
  method RedoSplitText(d: Document, t: NodeId, s: NodeId) returns (ok: bool)
    requires d.Valid() && t in d.links && s in d.links && RedoInsertable(d.links, d.rank, SplitTextOp(t, s))
    modifies d
    ensures d.Valid()
    ensures ok <==> RedoOk(old(d.links), old(d.nodes), SplitTextOp(t, s))
    ensures d.nodes == RedoNodes(old(d.nodes), SplitTextOp(t, s))
    ensures d.links == if ok then RedoLinks(old(d.links), old(d.nodes), SplitTextOp(t, s)) else old(d.links)
  {
    var text, tail := ValueOf(d.nodes[t]), ValueOf(d.nodes[s]);
    if text.None? || tail.None? {
      return false;
    }
    ghost var L, N := d.links, d.nodes;
    d.SetNodeValue(t, Prefix(text.value, |text.value| - |tail.value|));
    assert d.nodes == RedoNodes(N, SplitTextOp(t, s));
    assert forall q :: Container(d.nodes, q) == Container(N, q);
    ok := InsertAfter(d, t, s);
  }

  /** The end of `SplitText.prototype.redo`: s goes just after t, which must have a parent. */
  method InsertAfter(d: Document, t: NodeId, s: NodeId) returns (ok: bool)
    requires d.Valid() && t in d.links && s in d.links
    requires d.links[t].parent.Some? ==> !Under(d.links, d.rank, d.links[t].parent.value, s)
    modifies d
    ensures d.Valid() && d.nodes == old(d.nodes)
    ensures old(d.links)[t].parent.Some? ==> old(d.links)[t].parent.value in old(d.links)
    ensures ok <==> old(d.links)[t].parent.Some? &&
                    InsertOk(old(d.links), old(d.nodes), old(d.links)[t].parent.value, old(d.links)[t].nextSibling)
    ensures d.links == if ok then InsertLinks(old(d.links), old(d.links)[t].parent.value, s, old(d.links)[t].nextSibling)
                       else old(d.links)
  {
    var parent, next := d.links[t].parent, d.links[t].nextSibling;
    if parent.None? {
      return false;
    }
    assert Within(d.links[t], d.links);
    ok := d.InsertBefore(parent.value, s, next);
  }

  /** `op.undo()`. */
  method Undo(d: Document, op: Operation) returns (ok: bool)
    requires d.Valid() && Refs(op) <= d.links.Keys && UndoInsertable(d.links, d.rank, op)
    modifies d
    ensures d.Valid()
    ensures ok <==> UndoOk(old(d.links), old(d.nodes), op)
    ensures d.nodes == UndoNodes(old(d.nodes), op)
    ensures d.links == if ok then UndoLinks(old(d.links), old(d.nodes), op) else old(d.links)
  {
    match op
    case AppendChildOp(p, x) =>
      ok := d.RemoveChild(p, x);
    case InsertBeforeOp(p, x, _) =>
      ok := d.RemoveChild(p, x);
    case RemoveChildOp(p, y, ref) =>
      ok := d.InsertBefore(p, y, ref);
    case ReplaceChildOp(p, x, y) =>
      ok := d.ReplaceChild(p, y, x);
    case RemoveAttributeOp(e, name, v) =>
      d.SetAttribute(e, name, v);
      ok := true;
    case SetAttributeOp(e, name, v, prior) =>
      if prior.None? {
        d.RemoveAttribute(e, name);
      } else {
        d.SetAttribute(e, name, prior.value);
      }
      ok := true;
    case SetStyleOp(e, prop, _, prior) =>
      d.SetStyle(e, prop, prior);
      ok := true;
    case SplitTextOp(t, s) =>
      ok := UndoSplitText(d, t, s);
  }

  /**
   * `SplitText.prototype.undo`: the new node's value is appended to the
   * text node's value; a new node without a parent throws after that;
   * otherwise the new node is removed.
   */
  method UndoSplitText(d: Document, t: NodeId, s: NodeId) returns (ok: bool)
    requires d.Valid() && t in d.links && s in d.links
    modifies d
    ensures d.Valid()
    ensures ok <==> UndoOk(old(d.links), old(d.nodes), SplitTextOp(t, s))
    ensures d.nodes == UndoNodes(old(d.nodes), SplitTextOp(t, s))
    ensures d.links == if ok then UndoLinks(old(d.links), old(d.nodes), SplitTextOp(t, s)) else old(d.links)
  {
    d.SetNodeValue(t, JsString(ValueOf(d.nodes[t])) + JsString(ValueOf(d.nodes[s])));
    var parent := d.links[s].parent;
    if parent.None? {
      return false;
    }
    ok := d.RemoveChild(parent.value, s);
  }

  // ---------------------------------------------------------------------
  // undo after redo
  // ---------------------------------------------------------------------

  /** Whether a is an inclusive ancestor of n depends only on the parents along n's chain. */
  lemma {:induction false} UnderChain(L: map<NodeId, Links>, R: map<NodeId, nat>, L': map<NodeId, Links>, R': map<NodeId, nat>,
                                      n: NodeId, a: NodeId)
    requires Ranked(L, R) && Ranked(L', R') && L'.Keys == L.Keys && n in L
    requires forall m | m in L && Under(L, R, n, m) :: L'[m].parent == L[m].parent
    ensures Under(L', R', n, a) == Under(L, R, n, a)
    decreases R[n]
  {
    assert Under(L, R, n, n);
    if n != a && L[n].parent.Some? {
      var q := L[n].parent.value;
      forall m | m in L && Under(L, R, q, m)
        ensures L'[m].parent == L[m].parent
      {
        assert Under(L, R, n, m);
      }
      UnderChain(L, R, L', R', q, a);
    }
  }

  /**
   * After a child y of p is moved, y is still not an ancestor of p, when
   * only x and y changed parents and x (if another node) was no ancestor of p.
   */
  lemma StillNotAbove(L: map<NodeId, Links>, R: map<NodeId, nat>, L': map<NodeId, Links>, R': map<NodeId, nat>,
                      p: NodeId, x: NodeId, y: NodeId)
    requires Ranked(L, R) && Ranked(L', R') && L'.Keys == L.Keys && p in L && y in L
    requires L[y].parent == Some(p) && (x == y || !Under(L, R, p, x))
    requires forall m | m in L && m != x && m != y :: L'[m].parent == L[m].parent
    ensures !Under(L', R', p, y)
  {
    forall m | m in L && Under(L, R, p, m)
      ensures L'[m].parent == L[m].parent
    {
      if m == y {
        UnderRank(L, R, p, y);
      }
    }
    if Under(L, R, p, y) {
      UnderRank(L, R, p, y);
    }
    UnderChain(L, R, L', R', p, y);
  }

  /** `AppendChild` and `InsertBefore`: a root x put into p, before ref or at the end, comes out again by unlinking it. */
  lemma InsertRoundTrip(L: map<NodeId, Links>, C: map<NodeId, seq<NodeId>>, R: map<NodeId, nat>,
                        p: NodeId, x: NodeId, ref: Option<NodeId>)
    requires Wf(L, C, R) && p in L && x in L && L[x].parent.None? && p != x
    requires ref.Some? ==> ref.value in L && L[ref.value].parent == Some(p)
    ensures InsertLinks(L, p, x, ref).Keys == L.Keys && Closed(InsertLinks(L, p, x, ref))
    ensures InsertLinks(L, p, x, ref)[x].parent == Some(p)
    ensures Unlink(InsertLinks(L, p, x, ref), x) == L
  {
    if ref.None? {
      AppendChildUndone(L, C, R, p, x);
    } else {
      InsertBeforeUndone(L, C, R, p, x, ref.value);
    }
    UnlinkClosed(InsertLinks(L, p, x, ref), x);
  }

  /** `RemoveChild`: taking y out of p and putting it back before its old next sibling (or at the end) restores the links. */
  lemma RemoveChildRoundTrip(L: map<NodeId, Links>, C: map<NodeId, seq<NodeId>>, R: map<NodeId, nat>, N: map<NodeId, DomNode>,
                             p: NodeId, y: NodeId, C1: map<NodeId, seq<NodeId>>, R1: map<NodeId, nat>)
    requires Wf(L, C, R) && N.Keys == L.Keys && ParentsContain(L, N) && y in L && L[y].parent == Some(p)
    requires Wf(Unlink(L, y), C1, R1)
    ensures p in L && Unlink(L, y).Keys == L.Keys
    ensures L[y].nextSibling.Some? ==> L[y].nextSibling.value in L
    ensures !Under(Unlink(L, y), R1, p, y)
    ensures InsertOk(Unlink(L, y), N, p, L[y].nextSibling)
    ensures InsertLinks(Unlink(L, y), p, y, L[y].nextSibling) == L
  {
    Neighbours(L, C, R, p, y);
    DetachWf(L, C, R, y);
    assert Container(N, p);
    if L[y].nextSibling.None? {
      RemoveChildUndoneLast(L, C, R, p, y);
    } else {
      RemoveChildUndoneBefore(L, C, R, p, y);
    }
    StillNotAbove(L, R, Unlink(L, y), R1, p, y, y);
  }

  /** `ReplaceChild`: putting y back in the place of the root x that replaced it restores the links. */
  lemma ReplaceChildRoundTrip(L: map<NodeId, Links>, C: map<NodeId, seq<NodeId>>, R: map<NodeId, nat>, N: map<NodeId, DomNode>,
                              p: NodeId, x: NodeId, y: NodeId, C1: map<NodeId, seq<NodeId>>, R1: map<NodeId, nat>)
    requires Wf(L, C, R) && p in L && x in L && y in L && L[x].parent.None? && !Under(L, R, p, x)
    requires ReplaceOk(L, N, p, y) && Wf(ReplaceLinks(L, p, x, y), C1, R1)
    ensures ReplaceLinks(L, p, x, y).Keys == L.Keys
    ensures !Under(ReplaceLinks(L, p, x, y), R1, p, y)
    ensures ReplaceOk(ReplaceLinks(L, p, x, y), N, p, x)
    ensures ReplaceLinks(ReplaceLinks(L, p, x, y), p, y, x) == L
  {
    ReplaceChildUndone(L, C, R, p, x, y);
    ReplaceChildWf(L, C, R, p, x, y);
    StillNotAbove(L, R, ReplaceLinks(L, p, x, y), R1, p, x, y);
  }

  /** `SplitText`: the new node goes in just after the text node, and unlinking it restores the links. */
  lemma SplitTextRoundTrip(L: map<NodeId, Links>, C: map<NodeId, seq<NodeId>>, R: map<NodeId, nat>, N: map<NodeId, DomNode>,
                           t: NodeId, s: NodeId)
    requires Wf(L, C, R) && t in L && s in L && L[s].parent.None? && L[t].parent.Some?
    requires !Under(L, R, L[t].parent.value, s)
    ensures L[t].nextSibling.Some? ==> L[t].nextSibling.value in L
    ensures L[t].parent.value in L
    ensures Closed(InsertLinks(L, L[t].parent.value, s, L[t].nextSibling))
    ensures InsertLinks(L, L[t].parent.value, s, L[t].nextSibling).Keys == L.Keys
    ensures InsertLinks(L, L[t].parent.value, s, L[t].nextSibling)[s].parent.Some?
    ensures Unlink(InsertLinks(L, L[t].parent.value, s, L[t].nextSibling), s) == L
  {
    var p := L[t].parent.value;
    Neighbours(L, C, R, p, t);
    InsertRoundTrip(L, C, R, p, s, L[t].nextSibling);
  }

  /**
   * On the links, `undo` right after a successful `redo` succeeds and gives
   * back the links, provided the new child had no parent (what the
   * constructors assert) and RemoveChild's ref was read from these links.
   */
  lemma RedoUndoLinks(L: map<NodeId, Links>, C: map<NodeId, seq<NodeId>>, R: map<NodeId, nat>, N: map<NodeId, DomNode>,
                      op: Operation, C1: map<NodeId, seq<NodeId>>, R1: map<NodeId, nat>)
    requires Wf(L, C, R) && N.Keys == L.Keys && ParentsContain(L, N) && Refs(op) <= L.Keys
    requires RedoInsertable(L, R, op) && Fresh(L, op) && LinksCaptured(L, op) && RedoOk(L, N, op)
    requires Wf(RedoLinks(L, N, op), C1, R1)
    ensures RedoLinks(L, N, op).Keys == L.Keys
    ensures UndoInsertable(RedoLinks(L, N, op), R1, op)
    ensures UndoOk(RedoLinks(L, N, op), RedoNodes(N, op), op)
    ensures UndoLinks(RedoLinks(L, N, op), RedoNodes(N, op), op) == L
  {
    match op
    case AppendChildOp(p, x) =>
      InsertRoundTrip(L, C, R, p, x, None);
    case InsertBeforeOp(p, x, ref) =>
      InsertRoundTrip(L, C, R, p, x, ref);
    case RemoveChildOp(p, y, _) =>
      RemoveChildRoundTrip(L, C, R, N, p, y, C1, R1);
    case ReplaceChildOp(p, x, y) =>
      ReplaceChildRoundTrip(L, C, R, N, p, x, y, C1, R1);
    case RemoveAttributeOp(_, _, _) =>
    case SetAttributeOp(_, _, _, _) =>
    case SetStyleOp(_, _, _, _) =>
    case SplitTextOp(t, s) =>
      SplitTextRoundTrip(L, C, R, N, t, s);
  }

  /**
   * On the node values, `undo` after `redo` gives back what the
   * constructor read: the attribute, the style property, and for SplitText
   * the text, when the new node holds its end.
   */
  lemma RedoUndoNodes(N: map<NodeId, DomNode>, op: Operation)
    requires Refs(op) <= N.Keys && NodesCaptured(N, op) && forall n | n in N :: StyleOk(N[n].style)
    ensures UndoNodes(RedoNodes(N, op), op) == N
  {
    match op
    case RemoveAttributeOp(e, name, v) =>
      assert N[e].attributes[name := v] == N[e].attributes;
      assert (N[e].attributes - {name})[name := v] == N[e].attributes;
    case SetAttributeOp(e, name, v, prior) =>
      if prior.None? {
        assert N[e].attributes[name := v] - {name} == N[e].attributes;
      } else {
        assert N[e].attributes[name := v][name := prior.value] == N[e].attributes;
      }
    case SetStyleOp(e, prop, v, prior) =>
      StyleRestored(N[e].style, prop, v);
    case SplitTextOp(t, s) =>
      SplitTextRestores(N, t, s);
    case _ =>
  }

  /** SplitText's `undo` after `redo` gives the text back exactly when the new node's value is the end of it. */
  lemma SplitTextRestores(N: map<NodeId, DomNode>, t: NodeId, s: NodeId)
    requires t in N && s in N && t != s && Texts(N, t, s)
    ensures UndoNodes(RedoNodes(N, SplitTextOp(t, s)), SplitTextOp(t, s)) == N <==> EndsWith(N[t].data, N[s].data)
  {
    var text, tail := N[t].data, N[s].data;
    var cut := Prefix(text, |text| - |tail|);
    var N' := UndoNodes(RedoNodes(N, SplitTextOp(t, s)), SplitTextOp(t, s));
    assert N'[t].data == cut + tail;
    if EndsWith(text, tail) {
      assert cut + tail == text;
      assert N'[t] == N[t];
    }
    if N' == N {
      assert (cut + tail)[|cut|..] == tail;
    }
  }

  /**
   * `op.redo()` then `op.undo()`: when redo succeeds, so does undo, and the
   * document is as before, for an operation built on this document whose
   * new child had no parent.
   */
  method RedoUndo(d: Document, op: Operation) returns (redone: bool, undone: bool)
    requires d.Valid() && Refs(op) <= d.links.Keys && RedoInsertable(d.links, d.rank, op)
    requires Fresh(d.links, op) && LinksCaptured(d.links, op) && NodesCaptured(d.nodes, op)
    modifies d
    ensures redone <==> RedoOk(old(d.links), old(d.nodes), op)
    ensures redone ==> undone && d.links == old(d.links) && d.nodes == old(d.nodes)
  {
    ghost var L, N, C, R := d.links, d.nodes, d.children, d.rank;
    redone := Redo(d, op);
    if !redone {
      return redone, false;
    }
    RedoUndoLinks(L, C, R, N, op, d.children, d.rank);
    RedoUndoNodes(N, op);
    undone := Undo(d, op);
  }
}
