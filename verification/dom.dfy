/**
 * The part of the browser DOM that the undoable operations of
 * editing/operations.js and src/editing/operations.js drive: the child
 * links of a document's nodes, the attributes and inline style of its
 * elements and the value of its text nodes. Node objects are named by
 * ids; the ghost child lists and ranks of NodeForest say the links form a
 * forest.
 */
module Dom {
  import opened NodeForest
  import opened NodeMoves
  import opened EditingTree

  /** The state of one DOM node that the operations read or write. */
  datatype DomNode = DomNode(kind: NodeKind, attributes: map<string, string>, style: map<string, string>, data: string)

  /** Parents that accept children: elements and documents. */
  predicate Container(N: map<NodeId, DomNode>, p: NodeId) {
    p in N && (N[p].kind == ElementNode || N[p].kind == DocumentNode)
  }

  /** `getAttribute(name)`: null when the element has no such attribute. */
  function GetAttr(attrs: map<string, string>, name: string): (r: Option<string>)
    ensures r.Some? <==> name in attrs
    ensures r.Some? ==> r.value == attrs[name]
  {
    if name in attrs then Some(attrs[name]) else None
  }

  /** `nodeValue`: the data of a text node, null for elements and documents. */
  function ValueOf(d: DomNode): (r: Option<string>)
    ensures r.Some? <==> d.kind == TextNode
    ensures r.Some? ==> r.value == d.data
  {
    if d.kind == TextNode then Some(d.data) else None
  }

  // ---------------------------------------------------------------------
  // Inline style
  // ---------------------------------------------------------------------

  /** A declaration block never stores an empty value. */
  predicate StyleOk(style: map<string, string>) {
    forall prop | prop in style :: style[prop] != ""
  }

  /** Reading `style[prop]`: the empty string for a property that is not set. */
  function StyleGet(style: map<string, string>, prop: string): string {
    if prop in style then style[prop] else ""
  }

  /** Writing `style[prop] = value`: the empty string removes the property. */
  function StyleSet(style: map<string, string>, prop: string, value: string): (r: map<string, string>)
    ensures StyleOk(style) ==> StyleOk(r)
  {
    if value == "" then style - {prop} else style[prop := value]
  }

  /** A property reads back as written, and the others read as before. */
  lemma StyleSetGet(style: map<string, string>, prop: string, value: string)
    ensures StyleGet(StyleSet(style, prop, value), prop) == value
    ensures forall q | q != prop :: StyleGet(StyleSet(style, prop, value), q) == StyleGet(style, q)
  {
  }

  /** Writing back the value read before a write gives back the declarations. */
  lemma StyleRestored(style: map<string, string>, prop: string, value: string)
    requires StyleOk(style)
    ensures StyleSet(StyleSet(style, prop, value), prop, StyleGet(style, prop)) == style
  {
    var r := StyleSet(StyleSet(style, prop, value), prop, StyleGet(style, prop));
    if prop in style {
      assert r == style[prop := style[prop]];
    } else {
      assert r.Keys == style.Keys;
    }
  }

  // ---------------------------------------------------------------------
  // Child list mutations as functions of the links
  // ---------------------------------------------------------------------

  /** Whether `insertBefore(x, ref)` on p succeeds: p takes children and ref, when given, is p's child. */
  predicate InsertOk(L: map<NodeId, Links>, N: map<NodeId, DomNode>, p: NodeId, ref: Option<NodeId>)
    requires ref.Some? ==> ref.value in L
  {
    Container(N, p) && (ref.Some? ==> L[ref.value].parent == Some(p))
  }

  /**
   * The links after `insertBefore(x, ref)` on p: a null ref appends, a ref
   * equal to x leaves x where it is, and otherwise x moves before ref.
   */
  function InsertLinks(L: map<NodeId, Links>, p: NodeId, x: NodeId, ref: Option<NodeId>): map<NodeId, Links>
    requires Closed(L) && p in L && x in L && (ref.Some? ==> ref.value in L)
  {
    if ref.None? then AppendChildLinks(L, p, x)
    else if ref.value == x then L
    else InsertBeforeLinks(L, p, x, ref.value)
  }

  /** Whether `replaceChild(x, y)` on p succeeds: p takes children and y is p's child. */
  predicate ReplaceOk(L: map<NodeId, Links>, N: map<NodeId, DomNode>, p: NodeId, y: NodeId)
    requires y in L
  {
    Container(N, p) && L[y].parent == Some(p)
  }

  /** The links after `replaceChild(x, y)` on p: x takes y's place, and replacing a node by itself changes nothing. */
  function ReplaceLinks(L: map<NodeId, Links>, p: NodeId, x: NodeId, y: NodeId): map<NodeId, Links>
    requires Closed(L) && p in L && x in L && y in L
  {
    if x == y then L else ReplaceChildLinks(L, p, x, y)
  }

  /** The nodes after setting a text node's value; other nodes ignore the write. */
  function SetValue(N: map<NodeId, DomNode>, n: NodeId, value: string): (N': map<NodeId, DomNode>)
    requires n in N
    ensures N'.Keys == N.Keys
    ensures ValueOf(N'[n]) == if N[n].kind == TextNode then Some(value) else None
  {
    if N[n].kind == TextNode then N[n := N[n].(data := value)] else N
  }

  // ---------------------------------------------------------------------
  // The document
  // ---------------------------------------------------------------------

  /** Only elements and documents have children. */
  ghost predicate ParentsContain(L: map<NodeId, Links>, N: map<NodeId, DomNode>) {
    forall n | n in L && L[n].parent.Some? :: Container(N, L[n].parent.value)
  }

  /**
   * The links form a forest whose parents are elements or documents,
   * every node has state, ids are below next, and no style value is empty.
   */
  ghost predicate DocOk(L: map<NodeId, Links>, N: map<NodeId, DomNode>, next: nat,
                        C: map<NodeId, seq<NodeId>>, R: map<NodeId, nat>) {
    Wf(L, C, R) && N.Keys == L.Keys && ParentsContain(L, N) && (forall n | n in L :: n < next) &&
    (forall n | n in N :: StyleOk(N[n].style))
  }

  /** Relinking without adding or removing nodes or giving a child to a non-container keeps a document. */
  lemma Relinked(L: map<NodeId, Links>, N: map<NodeId, DomNode>, next: nat, C: map<NodeId, seq<NodeId>>, R: map<NodeId, nat>,
                 L': map<NodeId, Links>, C': map<NodeId, seq<NodeId>>, R': map<NodeId, nat>)
    requires DocOk(L, N, next, C, R) && Wf(L', C', R') && L'.Keys == L.Keys && ParentsContain(L', N)
    ensures DocOk(L', N, next, C', R')
  {
  }

  /** A node that moves under a container, all others keeping their parents, keeps parents containers. */
  lemma Reparented(L: map<NodeId, Links>, L': map<NodeId, Links>, N: map<NodeId, DomNode>, x: NodeId, p: Option<NodeId>)
    requires ParentsContain(L, N) && L'.Keys == L.Keys && x in L'
    requires L'[x].parent == p && (p.Some? ==> Container(N, p.value))
    requires forall m | m in L && m != x && L'[m].parent.Some? :: L'[m].parent == L[m].parent
    ensures ParentsContain(L', N)
  {
    forall n | n in L' && L'[n].parent.Some?
      ensures Container(N, L'[n].parent.value)
    {
      if n != x {
        assert L'[n].parent == L[n].parent;
      }
    }
  }

  /** A change to one node's attributes, style or data keeps a document. */
  lemma Restated(L: map<NodeId, Links>, N: map<NodeId, DomNode>, next: nat, C: map<NodeId, seq<NodeId>>, R: map<NodeId, nat>,
                 n: NodeId, d: DomNode)
    requires DocOk(L, N, next, C, R) && n in N && StyleOk(d.style) && d.kind == N[n].kind
    ensures DocOk(L, N[n := d], next, C, R)
  {
    forall m | m in L && L[m].parent.Some?
      ensures Container(N[n := d], L[m].parent.value)
    {
      assert Container(N, L[m].parent.value);
    }
  }

  /** `insertBefore` on a document that accepts it keeps a document. */
  lemma InsertDoc(L: map<NodeId, Links>, N: map<NodeId, DomNode>, next: nat, C: map<NodeId, seq<NodeId>>, R: map<NodeId, nat>,
                  p: NodeId, x: NodeId, ref: Option<NodeId>)
    returns (C': map<NodeId, seq<NodeId>>, R': map<NodeId, nat>)
    requires DocOk(L, N, next, C, R) && p in L && x in L && !Under(L, R, p, x) && Container(N, p)
    requires ref.Some? ==> ref.value in L && L[ref.value].parent == Some(p)
    ensures DocOk(InsertLinks(L, p, x, ref), N, next, C', R')
  {
    if ref.None? {
      C', R' := AppendStep(L, C, R, p, x);
      AppendChildWf(L, C, R, p, x);
      Reparented(L, InsertLinks(L, p, x, ref), N, x, Some(p));
    } else if ref.value != x {
      C', R' := InsertStep(L, C, R, p, x, ref.value);
      InsertBeforeWf(L, C, R, p, x, ref.value);
      Reparented(L, InsertLinks(L, p, x, ref), N, x, Some(p));
    } else {
      C', R' := C, R;
    }
    Relinked(L, N, next, C, R, InsertLinks(L, p, x, ref), C', R');
  }

  /** `replaceChild` on a document that accepts it keeps a document. */
  lemma ReplaceDoc(L: map<NodeId, Links>, N: map<NodeId, DomNode>, next: nat, C: map<NodeId, seq<NodeId>>, R: map<NodeId, nat>,
                   p: NodeId, x: NodeId, y: NodeId)
    returns (C': map<NodeId, seq<NodeId>>, R': map<NodeId, nat>)
    requires DocOk(L, N, next, C, R) && p in L && x in L && !Under(L, R, p, x) && Container(N, p)
    requires y in L && L[y].parent == Some(p)
    ensures DocOk(ReplaceLinks(L, p, x, y), N, next, C', R')
  {
    if x != y {
      C', R' := ReplaceStep(L, C, R, p, x, y);
      ReplaceChildWf(L, C, R, p, x, y);
      Reparented(L, ReplaceLinks(L, p, x, y), N, x, Some(p));
    } else {
      C', R' := C, R;
    }
    Relinked(L, N, next, C, R, ReplaceLinks(L, p, x, y), C', R');
  }

  /** `removeChild` of a child keeps a document. */
  lemma RemoveDoc(L: map<NodeId, Links>, N: map<NodeId, DomNode>, next: nat, C: map<NodeId, seq<NodeId>>, R: map<NodeId, nat>,
                  x: NodeId)
    returns (C': map<NodeId, seq<NodeId>>)
    requires DocOk(L, N, next, C, R) && x in L && L[x].parent.Some?
    ensures DocOk(Unlink(L, x), N, next, C', R)
  {
    C' := UnlinkStep(L, C, R, x);
    DetachWf(L, C, R, x);
    Reparented(L, Unlink(L, x), N, x, None);
    Relinked(L, N, next, C, R, Unlink(L, x), C', R);
  }

  /** A new node without links keeps a document. */
  lemma CreateDoc(L: map<NodeId, Links>, N: map<NodeId, DomNode>, next: nat, C: map<NodeId, seq<NodeId>>, R: map<NodeId, nat>,
                  d: DomNode)
    requires DocOk(L, N, next, C, R) && StyleOk(d.style)
    ensures next !in L
    ensures DocOk(L[next := Unlinked], N[next := d], next + 1, C[next := []], R[next := 0])
  {
    AddRootWf(L, C, R, next);
    var L', N' := L[next := Unlinked], N[next := d];
    forall n | n in L' && L'[n].parent.Some?
      ensures Container(N', L'[n].parent.value)
    {
      assert Within(L[n], L) && Container(N, L[n].parent.value);
    }
  }

  /** The nodes of one document: their links, their state and the next free id. */
  class Document {
    var links: map<NodeId, Links>
    var nodes: map<NodeId, DomNode>
    var nextId: nat
    ghost var children: map<NodeId, seq<NodeId>>
    ghost var rank: map<NodeId, nat>

    ghost predicate Valid()
      reads this
    {
      DocOk(links, nodes, nextId, children, rank)
    }

    constructor ()
      ensures Valid() && links == map[] && nodes == map[]
    {
      links, nodes, nextId := map[], map[], 0;
      children, rank := map[], map[];
    }

    /** `createElement` / `createTextNode`: a new node without links. */
    method CreateNode(kind: NodeKind, data: string) returns (n: NodeId)
      requires Valid()
      modifies this
      ensures Valid() && n !in old(links)
      ensures links == old(links)[n := Unlinked]
      ensures nodes == old(nodes)[n := DomNode(kind, map[], map[], data)]
    {
      n := nextId;
      CreateDoc(links, nodes, nextId, children, rank, DomNode(kind, map[], map[], data));
      links, nodes, nextId := links[n := Unlinked], nodes[n := DomNode(kind, map[], map[], data)], nextId + 1;
      children, rank := children[n := []], rank[n := 0];
    }

    /**
     * `p.appendChild(x)`: a parent that is neither an element nor a
     * document throws; otherwise x leaves its old place and ends p's list.
     */
    method AppendChild(p: NodeId, x: NodeId) returns (ok: bool)
      requires Valid() && p in links && x in links && !Under(links, rank, p, x)
      modifies this
      ensures Valid() && nodes == old(nodes)
      ensures ok <==> Container(nodes, p)
      ensures links == if ok then AppendChildLinks(old(links), p, x) else old(links)
    {
      if !Container(nodes, p) {
        return false;
      }
      ok := InsertBefore(p, x, None);
    }

    /**
     * `p.insertBefore(x, ref)`: a parent that takes no children, or a ref
     * that is not p's child, throws; a null ref appends.
     */
    method InsertBefore(p: NodeId, x: NodeId, ref: Option<NodeId>) returns (ok: bool)
      requires Valid() && p in links && x in links && !Under(links, rank, p, x)
      requires ref.Some? ==> ref.value in links
      modifies this
      ensures Valid() && nodes == old(nodes)
      ensures ok <==> InsertOk(old(links), nodes, p, ref)
      ensures links == if ok then InsertLinks(old(links), p, x, ref) else old(links)
    {
      if !InsertOk(links, nodes, p, ref) {
        return false;
      }
      var L := links;
      var C, R := InsertDoc(L, nodes, nextId, children, rank, p, x, ref);
      links, children, rank := InsertLinks(L, p, x, ref), C, R;
      return true;
    }

    /** `p.removeChild(x)`: a node that is not p's child throws. */
    method RemoveChild(p: NodeId, x: NodeId) returns (ok: bool)
      requires Valid() && x in links
      modifies this
      ensures Valid() && nodes == old(nodes)
      ensures ok <==> old(links)[x].parent == Some(p)
      ensures links == if ok then Unlink(old(links), x) else old(links)
    {
      if links[x].parent != Some(p) {
        return false;
      }
      children := RemoveDoc(links, nodes, nextId, children, rank, x);
      links := Unlink(links, x);
      return true;
    }

    /**
     * `p.replaceChild(x, y)`: a parent that takes no children, or a y that
     * is not p's child, throws; otherwise x takes y's place.
     */
    method ReplaceChild(p: NodeId, x: NodeId, y: NodeId) returns (ok: bool)
      requires Valid() && p in links && x in links && y in links && !Under(links, rank, p, x)
      modifies this
      ensures Valid() && nodes == old(nodes)
      ensures ok <==> ReplaceOk(old(links), nodes, p, y)
      ensures links == if ok then ReplaceLinks(old(links), p, x, y) else old(links)
    {
      if !ReplaceOk(links, nodes, p, y) {
        return false;
      }
      children, rank := ReplaceDoc(links, nodes, nextId, children, rank, p, x, y);
      links := ReplaceLinks(links, p, x, y);
      return true;
    }

    /** `e.setAttribute(name, value)`. */
    method SetAttribute(e: NodeId, name: string, value: string)
      requires Valid() && e in links
      modifies this
      ensures Valid() && links == old(links)
      ensures nodes == old(nodes)[e := old(nodes)[e].(attributes := old(nodes)[e].attributes[name := value])]
    {
      Restated(links, nodes, nextId, children, rank, e, nodes[e].(attributes := nodes[e].attributes[name := value]));
      nodes := nodes[e := nodes[e].(attributes := nodes[e].attributes[name := value])];
    }

    /** `e.removeAttribute(name)`: nothing happens when there is no such attribute. */
    method RemoveAttribute(e: NodeId, name: string)
      requires Valid() && e in links
      modifies this
      ensures Valid() && links == old(links)
      ensures nodes == old(nodes)[e := old(nodes)[e].(attributes := old(nodes)[e].attributes - {name})]
    {
      Restated(links, nodes, nextId, children, rank, e, nodes[e].(attributes := nodes[e].attributes - {name}));
      nodes := nodes[e := nodes[e].(attributes := nodes[e].attributes - {name})];
    }

    /** `e.style[prop] = value`. */
    method SetStyle(e: NodeId, prop: string, value: string)
      requires Valid() && e in links
      modifies this
      ensures Valid() && links == old(links)
      ensures nodes == old(nodes)[e := old(nodes)[e].(style := StyleSet(old(nodes)[e].style, prop, value))]
    {
      Restated(links, nodes, nextId, children, rank, e, nodes[e].(style := StyleSet(nodes[e].style, prop, value)));
      nodes := nodes[e := nodes[e].(style := StyleSet(nodes[e].style, prop, value))];
    }

    /** `n.nodeValue = value`. */
    method SetNodeValue(n: NodeId, value: string)
      requires Valid() && n in links
      modifies this
      ensures Valid() && links == old(links) && rank == old(rank)
      ensures nodes == SetValue(old(nodes), n, value)
    {
      if nodes[n].kind == TextNode {
        Restated(links, nodes, nextId, children, rank, n, nodes[n].(data := value));
      }
      nodes := SetValue(nodes, n, value);
    }
  }
}
