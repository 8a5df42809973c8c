/**
 * `EditingNode` (src/editing/editing_node.js): the editing engine's own
 * copy of a DOM tree. Each node takes a hash code from its context, keeps
 * five links, a copy of its DOM node's attributes and, for text, a range
 * of its DOM node's text. The nodes of one context live in a `NodeTree`
 * keyed by hash code; the ghost child lists and ranks of NodeForest say
 * that the links form a forest.
 */
module EditingTree {
  import opened NodeForest
  import opened NodeMoves
  import opened NodeWalks
  import opened EditingContexts

  // ---------------------------------------------------------------------
  // Node data
  // ---------------------------------------------------------------------

  /** What `nodeType` and `instanceof CharacterData` tell about a DOM node. */
  datatype NodeKind = ElementNode | TextNode | DocumentNode | OtherNode

  datatype Attr = Attr(name: string, value: string)

  /**
   * The DOM node behind an editing node (its kind, name, attributes and
   * text), the editing node's own attribute list and its text range.
   */
  datatype NodeData = NodeData(kind: NodeKind, nodeName: string, domAttributes: seq<Attr>, domText: string,
                               attributes: seq<Attr>, textStart: int, textEnd: int)

  /** A text node's range lies inside its DOM text. */
  predicate TextOk(d: NodeData) {
    d.kind == TextNode ==> 0 <= d.textStart <= d.textEnd <= |d.domText|
  }

  /** `internalAppendChild` accepts elements and documents as parents. */
  predicate IsContainer(d: NodeData) {
    d.kind == ElementNode || d.kind == DocumentNode
  }

  /** A style value without one trailing `;`. */
  function StyleValue(v: string): string {
    if v != [] && v[|v| - 1] == ';' then v[..|v| - 1] else v
  }

  /** The constructor's copy of a DOM attribute. */
  function CopyAttr(a: Attr): Attr {
    var name := Lower(a.name);
    Attr(name, if name == "style" then StyleValue(a.value) else a.value)
  }

  /**
   * `new EditingNode(context, domNode)` apart from the hash code: only an
   * element has attributes, copied with lower-case names and without the
   * `;` that ends a style; a text node covers its whole DOM text.
   */
  function NewNodeData(kind: NodeKind, nodeName: string, domAttributes: seq<Attr>, domText: string): (d: NodeData)
    ensures TextOk(d) && d.kind == kind && d.nodeName == nodeName && d.domText == domText
    ensures |d.attributes| == (if kind == ElementNode then |domAttributes| else 0)
    ensures forall i | 0 <= i < |d.attributes| :: d.attributes[i].name == Lower(domAttributes[i].name)
    ensures NodeValue(d) == if kind == TextNode then Some(domText) else None
  {
    var attributes := if kind == ElementNode then seq(|domAttributes|, i requires 0 <= i < |domAttributes| => CopyAttr(domAttributes[i]))
                      else [];
    NodeData(kind, nodeName, domAttributes, domText, attributes, 0, if kind == TextNode then |domText| else 0)
  }

  function Clamp(k: int, n: nat): nat {
    if k < 0 then 0 else if k > n then n else k
  }

  /** `s.substring(a, b)`: both ends clamped to the string and put in order. */
  function Substring(s: string, a: int, b: int): string {
    var i, j := Clamp(a, |s|), Clamp(b, |s|);
    if i <= j then s[i..j] else s[j..i]
  }

  /** `nodeValue`: the text range of a text node, null for other nodes. */
  function NodeValue(d: NodeData): (r: Option<string>)
    ensures r.Some? <==> d.kind == TextNode
    ensures d.kind == TextNode && TextOk(d) ==> r == Some(d.domText[d.textStart..d.textEnd])
  {
    if d.kind != TextNode then None
    else if d.textStart == 0 && |d.domText| == d.textEnd then
      assert d.domText[0..d.textEnd] == d.domText;
      Some(d.domText)
    else Some(Substring(d.domText, d.textStart, d.textEnd))
  }

  // ---------------------------------------------------------------------
  // Attributes
  // ---------------------------------------------------------------------

  /** The value of the first attribute called name, as `findAttributeNode` finds it. */
  function Lookup(attrs: seq<Attr>, name: string): (r: Option<string>)
    ensures r.Some? <==> exists i | 0 <= i < |attrs| :: attrs[i].name == name
    ensures r.Some? ==> Attr(name, r.value) in attrs
  {
    if attrs == [] then None
    else if attrs[0].name == name then Some(attrs[0].value)
    else
      var r := Lookup(attrs[1..], name);
      assert forall i | 1 <= i < |attrs| :: attrs[i] == attrs[1..][i - 1];
      r
  }

  /** `getAttribute(attrName)`: the name is compared lower-cased. */
  function GetAttribute(d: NodeData, attrName: string): (r: Option<string>)
    ensures r.Some? <==> exists i | 0 <= i < |d.attributes| :: d.attributes[i].name == Lower(attrName)
  {
    Lookup(d.attributes, Lower(attrName))
  }

  /** `hasAttribute(attrName)`. */
  function HasAttribute(d: NodeData, attrName: string): (r: bool)
    ensures r <==> exists i | 0 <= i < |d.attributes| :: d.attributes[i].name == Lower(attrName)
  {
    GetAttribute(d, attrName).Some?
  }

  /**
   * The list after `setAttribute` with an already lower-cased name: the
   * first attribute of that name takes the value, or a new one is pushed.
   */
  function SetAttr(attrs: seq<Attr>, name: string, value: string): (r: seq<Attr>)
    ensures Lookup(r, name) == Some(value)
    ensures forall m | m != name :: Lookup(r, m) == Lookup(attrs, m)
    ensures |r| == |attrs| + (if Lookup(attrs, name).None? then 1 else 0)
  {
    if attrs == [] then [Attr(name, value)]
    else if attrs[0].name == name then [Attr(name, value)] + attrs[1..]
    else
      var r := [attrs[0]] + SetAttr(attrs[1..], name, value);
      assert r[1..] == SetAttr(attrs[1..], name, value);
      r
  }

  /** The list without any attribute called name. */
  function DropAttr(attrs: seq<Attr>, name: string): (r: seq<Attr>)
    ensures Lookup(r, name).None?
    ensures forall m | m != name :: Lookup(r, m) == Lookup(attrs, m)
    ensures |r| <= |attrs|
  {
    if attrs == [] then []
    else if attrs[0].name == name then DropAttr(attrs[1..], name)
    else
      var r := [attrs[0]] + DropAttr(attrs[1..], name);
      assert r[1..] == DropAttr(attrs[1..], name);
      r
  }

  /** A lookup that succeeds on a prefix gives the same value on the whole list. */
  lemma {:induction false} LookupPrefix(front: seq<Attr>, back: seq<Attr>, name: string)
    requires Lookup(front, name).Some?
    ensures Lookup(front + back, name) == Lookup(front, name)
  {
    if front[0].name != name {
      assert (front + back)[1..] == front[1..] + back;
      LookupPrefix(front[1..], back, name);
    }
  }

  // ---------------------------------------------------------------------
  // cloneNode and splitText on node data
  // ---------------------------------------------------------------------

  /**
   * The data of `cloneNode(false)`: a new editing node on a shallow copy
   * of the DOM node; an element then takes over the original's attribute
   * list position by position.
   */
  function CloneData(d: NodeData): (c: NodeData)
    ensures c.kind == d.kind && c.nodeName == d.nodeName && c.domText == d.domText && TextOk(c)
    ensures d.kind == ElementNode ==> |d.attributes| <= |c.attributes| && c.attributes[..|d.attributes|] == d.attributes
    ensures d.kind == TextNode ==> NodeValue(c) == Some(d.domText)
  {
    var made := NewNodeData(d.kind, d.nodeName, d.domAttributes, d.domText);
    if d.kind != ElementNode then made
    else if |d.attributes| >= |made.attributes| then made.(attributes := d.attributes)
    else made.(attributes := d.attributes + made.attributes[|d.attributes|..])
  }

  /** A shallow clone of an element answers `getAttribute` as the original does. */
  lemma CloneKeepsAttributes(d: NodeData, attrName: string)
    requires d.kind == ElementNode && GetAttribute(d, attrName).Some?
    ensures GetAttribute(CloneData(d), attrName) == GetAttribute(d, attrName)
  {
    var c := CloneData(d);
    assert c.attributes == d.attributes + c.attributes[|d.attributes|..];
    LookupPrefix(d.attributes, c.attributes[|d.attributes|..], Lower(attrName));
  }

  /**
   * The two nodes `splitText(offset)` leaves: this node ends at
   * start + offset, and a new node on the same DOM text runs from there to
   * the old end.
   */
  function SplitHalves(d: NodeData, offset: int): (NodeData, NodeData) {
    (d.(textEnd := d.textStart + offset),
     NewNodeData(TextNode, d.nodeName, d.domAttributes, d.domText).(textStart := d.textStart + offset, textEnd := d.textEnd))
  }

  /** `splitText` as written: the offset is checked against the whole DOM text. */
  function SplitTextAsWritten(d: NodeData, offset: int): (r: Option<(NodeData, NodeData)>)
    ensures r.Some? <==> d.kind == TextNode && 0 < offset < |d.domText|
    ensures r.Some? ==> r.value.0.textEnd == r.value.1.textStart == d.textStart + offset
  {
    if d.kind != TextNode || offset <= 0 || offset >= |d.domText| then None else Some(SplitHalves(d, offset))
  }

  /**
   * `splitText` with the offset checked against the node's own text: the
   * two halves cover the node's text, the first `offset` characters of it
   * and the rest.
   */
  function SplitTextData(d: NodeData, offset: int): (r: Option<(NodeData, NodeData)>)
    requires TextOk(d)
    ensures r.Some? <==> d.kind == TextNode && 0 < offset < |NodeValue(d).value|
    ensures r.Some? ==> r.value.0.kind == TextNode && r.value.1.kind == TextNode
    ensures r.Some? ==> TextOk(r.value.0) && TextOk(r.value.1)
    ensures r.Some? ==> |NodeValue(r.value.0).value| == offset
    ensures r.Some? ==> NodeValue(r.value.0).value + NodeValue(r.value.1).value == NodeValue(d).value
  {
    if d.kind != TextNode || offset <= 0 || offset >= d.textEnd - d.textStart then None
    else
      var s, m, e := d.textStart, d.textStart + offset, d.textEnd;
      assert d.domText[s..m] + d.domText[m..e] == d.domText[s..e];
      Some(SplitHalves(d, offset))
  }

  /**
   * A node split off earlier covers "ab" of the DOM text "abcd". The
   * written check lets offset 3 through: the first half then reaches past
   * the node's end and the second half starts after it ends.
   */
  lemma SplitTextAsWrittenOverruns()
    ensures var d := NodeData(TextNode, "#text", [], "abcd", [], 0, 2);
            TextOk(d) && NodeValue(d) == Some("ab") &&
            SplitTextAsWritten(d, 3).Some? && SplitTextData(d, 3).None? &&
            NodeValue(SplitTextAsWritten(d, 3).value.0) == Some("abc") &&
            !TextOk(SplitTextAsWritten(d, 3).value.1)
  {
    var d := NodeData(TextNode, "#text", [], "abcd", [], 0, 2);
    assert "abcd"[0..2] == "ab";
    assert "abcd"[0..3] == "abc";
  }

  // ---------------------------------------------------------------------
  // The store of editing nodes
  // ---------------------------------------------------------------------

  /** A new root keeps a forest a forest. */
  lemma AddRootWf(L: map<NodeId, Links>, C: map<NodeId, seq<NodeId>>, R: map<NodeId, nat>, n: NodeId)
    requires Wf(L, C, R) && n !in L
    ensures Wf(L[n := Unlinked], C[n := []], R[n := 0])
  {
    var L', C', R' := L[n := Unlinked], C[n := []], R[n := 0];
    forall m | m in L'
      ensures Within(L'[m], L')
    {
      if m != n {
        assert Within(L[m], L);
      }
    }
    forall p | p in L'
      ensures ListOk(L', p, C'[p])
    {
      if p != n {
        Children(L, C, R, p);
        Members(L, p, C[p]);
        ListOkFrame(L, L', p, C[p]);
      }
    }
    forall m | m in L'
      ensures ParentOk(L', C', m)
    {
      if m != n {
        assert ParentOk(L, C, m);
      }
    }
  }

  /** Every node has data with a good text range, and a hash code handed out already. */
  ghost predicate Stored(L: map<NodeId, Links>, D: map<NodeId, NodeData>, h: nat) {
    D.Keys == L.Keys && (forall n | n in L :: 0 < n <= h) && (forall n | n in D :: TextOk(D[n]))
  }

  /** Relinking nodes without adding or removing any keeps the data stored. */
  lemma SameKeysStored(L: map<NodeId, Links>, L': map<NodeId, Links>, D: map<NodeId, NodeData>, h: nat)
    requires Stored(L, D, h) && L'.Keys == L.Keys
    ensures Stored(L', D, h)
  {
  }

  /** `internalAppendChild` on a forest: x ends p's list. */
  lemma AppendStep(L: map<NodeId, Links>, C: map<NodeId, seq<NodeId>>, R: map<NodeId, nat>, p: NodeId, x: NodeId)
    returns (C': map<NodeId, seq<NodeId>>, R': map<NodeId, nat>)
    requires Wf(L, C, R) && p in L && x in L && !Under(L, R, p, x)
    ensures C' == Dropped(C, x)[p := Without(C[p], x) + [x]]
    ensures AppendChildLinks(L, p, x).Keys == L.Keys && Wf(AppendChildLinks(L, p, x), C', R')
    ensures AppendChildLinks(L, p, x)[p].lastChild == Some(x)
    ensures AppendChildLinks(L, p, x)[x].parent == Some(p) && AppendChildLinks(L, p, x)[x].nextSibling.None?
  {
    AppendChildWf(L, C, R, p, x);
    var L' := AppendChildLinks(L, p, x);
    C', R' := Dropped(C, x)[p := Without(C[p], x) + [x]], Shifted(Detached(L, x), R, x, R[p] + 1);
    assert ListOk(L', p, C'[p]);
    assert MemberOk(L', p, C'[p], |C'[p]| - 1);
  }

  /** `internalInsertBefore` on a forest: x lands just before ref. */
  lemma InsertStep(L: map<NodeId, Links>, C: map<NodeId, seq<NodeId>>, R: map<NodeId, nat>, p: NodeId, x: NodeId, r: NodeId)
    returns (C': map<NodeId, seq<NodeId>>, R': map<NodeId, nat>)
    requires Wf(L, C, R) && p in L && x in L && !Under(L, R, p, x)
    requires r in L && L[r].parent == Some(p) && r != x
    ensures C' == Dropped(C, x)[p := InsertAt(Without(C[p], x), x, r)]
    ensures InsertBeforeLinks(L, p, x, r).Keys == L.Keys && Wf(InsertBeforeLinks(L, p, x, r), C', R')
    ensures InsertBeforeLinks(L, p, x, r)[x].parent == Some(p) && InsertBeforeLinks(L, p, x, r)[x].nextSibling == Some(r)
    ensures InsertBeforeLinks(L, p, x, r)[r].previousSibling == Some(x)
  {
    InsertBeforeWf(L, C, R, p, x, r);
    C', R' := Dropped(C, x)[p := InsertAt(Without(C[p], x), x, r)], Shifted(Detached(L, x), R, x, R[p] + 1);
    InsertedNeighbours(InsertBeforeLinks(L, p, x, r), C', p, Without(C[p], x), x, r);
  }

  /** In a forest, a node put just before ref in p's list is ref's previous sibling. */
  lemma InsertedNeighbours(L: map<NodeId, Links>, C: map<NodeId, seq<NodeId>>, p: NodeId, W: seq<NodeId>, x: NodeId, r: NodeId)
    requires Shape(L, C) && p in L && r in W && C[p] == InsertAt(W, x, r)
    ensures x in L && r in L && L[x].nextSibling == Some(r) && L[r].previousSibling == Some(x)
  {
    var cs := C[p];
    var k := Pos(W, r);
    assert cs[k] == x && cs[k + 1] == r;
    assert ListOk(L, p, cs);
    assert MemberOk(L, p, cs, k) && MemberOk(L, p, cs, k + 1);
  }

  /** `internalRemoveChild` on a forest: x leaves its parent's list. */
  lemma UnlinkStep(L: map<NodeId, Links>, C: map<NodeId, seq<NodeId>>, R: map<NodeId, nat>, x: NodeId)
    returns (C': map<NodeId, seq<NodeId>>)
    requires Wf(L, C, R) && x in L && L[x].parent.Some?
    ensures C' == C[L[x].parent.value := Without(C[L[x].parent.value], x)]
    ensures Unlink(L, x).Keys == L.Keys && Wf(Unlink(L, x), C', R)
    ensures Unlink(L, x)[x].parent.None? && Unlink(L, x)[x].previousSibling.None? && Unlink(L, x)[x].nextSibling.None?
  {
    UnlinkShape(L, C, R, x);
    DetachRanked(L, Unlink(L, x), R, x);
    C' := C[L[x].parent.value := Without(C[L[x].parent.value], x)];
  }

  /** `internalReplaceChild` on a forest: x takes y's place. */
  lemma ReplaceStep(L: map<NodeId, Links>, C: map<NodeId, seq<NodeId>>, R: map<NodeId, nat>, p: NodeId, x: NodeId, y: NodeId)
    returns (C': map<NodeId, seq<NodeId>>, R': map<NodeId, nat>)
    requires Wf(L, C, R) && p in L && x in L && !Under(L, R, p, x)
    requires y in L && L[y].parent == Some(p) && y != x
    ensures C' == Dropped(C, x)[p := ReplaceAt(Without(C[p], x), x, y)]
    ensures ReplaceChildLinks(L, p, x, y).Keys == L.Keys && Wf(ReplaceChildLinks(L, p, x, y), C', R')
    ensures ReplaceChildLinks(L, p, x, y)[x].parent == Some(p) && ReplaceChildLinks(L, p, x, y)[y].parent.None?
  {
    ReplaceChildWf(L, C, R, p, x, y);
    C', R' := Dropped(C, x)[p := ReplaceAt(Without(C[p], x), x, y)], Shifted(Detached(L, x), R, x, R[p] + 1);
  }

  /**
   * The editing nodes of one context. `links` and `data` are the fields of
   * the `EditingNode` objects, keyed by hash code.
   */
  class NodeTree {
    var links: map<NodeId, Links>
    var data: map<NodeId, NodeData>
    ghost var children: map<NodeId, seq<NodeId>>
    ghost var rank: map<NodeId, nat>
    const context: EditingContext

    /** The links form a forest, every node has data, and the hash codes were handed out. */
    ghost predicate Valid()
      reads this, context
    {
      Wf(links, children, rank) && Stored(links, data, context.hashCode)
    }

    constructor (context: EditingContext)
      ensures Valid() && this.context == context && links == map[] && data == map[]
    {
      this.context := context;
      links, data := map[], map[];
      children, rank := map[], map[];
    }

    /** A node with the next hash code and no links. */
    method AddNode(d: NodeData) returns (n: NodeId)
      requires Valid() && TextOk(d)
      modifies this, context
      ensures Valid() && n == old(context.hashCode) + 1 && n !in old(links)
      ensures links == old(links)[n := Unlinked] && data == old(data)[n := d]
      ensures children == old(children)[n := []]
      ensures context.Changed(1, [])
    {
      n := context.NextHashCode();
      AddRootWf(links, children, rank, n);
      links, data := links[n := Unlinked], data[n := d];
      children, rank := children[n := []], rank[n := 0];
    }

    /** `new EditingNode(context, domNode)`. */
    method CreateNode(kind: NodeKind, nodeName: string, domAttributes: seq<Attr>, domText: string) returns (n: NodeId)
      requires Valid()
      modifies this, context
      ensures Valid() && n == old(context.hashCode) + 1 && n !in old(links)
      ensures links == old(links)[n := Unlinked] && children == old(children)[n := []]
      ensures data == old(data)[n := NewNodeData(kind, nodeName, domAttributes, domText)]
      ensures context.Changed(1, [])
    {
      n := AddNode(NewNodeData(kind, nodeName, domAttributes, domText));
    }

    // -------------------------------------------------------------------
    // Tree mutators that record nothing
    // -------------------------------------------------------------------

    /**
     * `internalAppendChild(parentNode, newChild)`: throws for a parent that
     * is neither an element nor a document; otherwise x leaves its old
     * parent and becomes p's last child.
     */
    method InternalAppendChild(p: NodeId, x: NodeId) returns (ok: bool)
      requires Valid() && p in links && x in links && !Under(links, rank, p, x)
      modifies this
      ensures Valid() && data == old(data)
      ensures ok <==> IsContainer(data[p])
      ensures ok ==> links == AppendChildLinks(old(links), p, x)
      ensures ok ==> children == Dropped(old(children), x)[p := Without(old(children)[p], x) + [x]]
      ensures ok ==> links[p].lastChild == Some(x) && links[x].parent == Some(p) && links[x].nextSibling.None?
      ensures !ok ==> links == old(links) && children == old(children)
    {
      if !IsContainer(data[p]) {
        return false;
      }
      children, rank := AppendStep(links, children, rank, p, x);
      SameKeysStored(links, AppendChildLinks(links, p, x), data, context.hashCode);
      links := AppendChildLinks(links, p, x);
      return true;
    }

    /**
     * `internalInsertBefore(parentNode, newChild, refChild)`: a null ref
     * appends; a ref of another parent throws; otherwise x leaves its old
     * parent and goes just before ref.
     */
    method InternalInsertBefore(p: NodeId, x: NodeId, ref: Option<NodeId>) returns (ok: bool)
      requires Valid() && p in links && x in links && !Under(links, rank, p, x)
      requires ref.Some? ==> ref.value in links && ref.value != x
      modifies this
      ensures Valid() && data == old(data)
      ensures ref.None? ==> (ok <==> IsContainer(data[p]))
      ensures ref.None? && ok ==> links == AppendChildLinks(old(links), p, x)
      ensures ref.None? && ok ==> children == Dropped(old(children), x)[p := Without(old(children)[p], x) + [x]]
      ensures ref.Some? ==> (ok <==> old(links)[ref.value].parent == Some(p))
      ensures ref.Some? && ok ==> links == InsertBeforeLinks(old(links), p, x, ref.value)
      ensures ref.Some? && ok ==> children == Dropped(old(children), x)[p := InsertAt(Without(old(children)[p], x), x, ref.value)]
      ensures ref.Some? && ok ==> links[x].parent == Some(p) && links[x].nextSibling == ref && links[ref.value].previousSibling == Some(x)
      ensures !ok ==> links == old(links) && children == old(children)
    {
      if ref.None? {
        ok := InternalAppendChild(p, x);
        return;
      }
      var r := ref.value;
      if links[r].parent != Some(p) {
        return false;
      }
      children, rank := InsertStep(links, children, rank, p, x, r);
      SameKeysStored(links, InsertBeforeLinks(links, p, x, r), data, context.hashCode);
      links := InsertBeforeLinks(links, p, x, r);
      return true;
    }

    /**
     * `internalRemoveChild(oldChild)`: a node without a parent throws;
     * otherwise its neighbours close the gap and it keeps no parent or
     * siblings.
     */
    method InternalRemoveChild(x: NodeId) returns (ok: bool)
      requires Valid() && x in links
      modifies this
      ensures Valid() && data == old(data) && rank == old(rank)
      ensures ok <==> old(links)[x].parent.Some?
      ensures ok ==> links == Unlink(old(links), x)
      ensures ok ==> children == old(children)[old(links)[x].parent.value := Without(old(children)[old(links)[x].parent.value], x)]
      ensures ok ==> links[x].parent.None? && links[x].previousSibling.None? && links[x].nextSibling.None?
      ensures !ok ==> links == old(links) && children == old(children)
    {
      if links[x].parent.None? {
        return false;
      }
      children := UnlinkStep(links, children, rank, x);
      SameKeysStored(links, Unlink(links, x), data, context.hashCode);
      links := Unlink(links, x);
      return true;
    }

    /**
     * `internalReplaceChild(parentNode, newChild, oldChild)`: an old child
     * of another parent throws; otherwise x leaves its old parent and takes
     * y's place, and y is left without parent or siblings.
     */
    method InternalReplaceChild(p: NodeId, x: NodeId, y: NodeId) returns (ok: bool)
      requires Valid() && p in links && x in links && y in links && x != y && !Under(links, rank, p, x)
      modifies this
      ensures Valid() && data == old(data)
      ensures ok <==> old(links)[y].parent == Some(p)
      ensures ok ==> links == ReplaceChildLinks(old(links), p, x, y)
      ensures ok ==> children == Dropped(old(children), x)[p := ReplaceAt(Without(old(children)[p], x), x, y)]
      ensures ok ==> links[x].parent == Some(p) && links[y].parent.None?
      ensures !ok ==> links == old(links) && children == old(children)
    {
      if links[y].parent != Some(p) {
        return false;
      }
      children, rank := ReplaceStep(links, children, rank, p, x, y);
      SameKeysStored(links, ReplaceChildLinks(links, p, x, y), data, context.hashCode);
      links := ReplaceChildLinks(links, p, x, y);
      return true;
    }

    // -------------------------------------------------------------------
    // The recording mutators of EditingNode
    // -------------------------------------------------------------------

    /** `appendChild(newChild)`: the instruction is logged before the parent is checked. */
    method AppendChild(p: NodeId, x: NodeId) returns (ok: bool)
      requires Valid() && p in links && x in links && !Under(links, rank, p, x)
      modifies this, context
      ensures Valid() && data == old(data) && context.Changed(0, [AppendChildRecord(p, x)])
      ensures ok <==> IsContainer(data[p])
      ensures ok ==> links == AppendChildLinks(old(links), p, x)
      ensures ok ==> children == Dropped(old(children), x)[p := Without(old(children)[p], x) + [x]]
      ensures ok ==> links[p].lastChild == Some(x) && links[x].parent == Some(p) && links[x].nextSibling.None?
      ensures !ok ==> links == old(links) && children == old(children)
    {
      context.AppendChild(p, x);
      ok := InternalAppendChild(p, x);
    }

    /**
     * `insertBefore(newChild, refChild)` as written: with a ref it calls
     * `context.recordInsertBefore`, which the context does not have, so
     * every insertion before a node throws and changes nothing.
     */
    method InsertBeforeAsWritten(p: NodeId, x: NodeId, ref: Option<NodeId>) returns (ok: bool)
      requires Valid() && p in links && x in links && !Under(links, rank, p, x)
      modifies this, context
      ensures Valid() && data == old(data)
      ensures ref.Some? ==> !ok && links == old(links) && children == old(children) && context.Changed(0, [])
      ensures ref.None? ==> (ok <==> IsContainer(data[p])) && context.Changed(0, [AppendChildRecord(p, x)])
      ensures ref.None? && ok ==> links == AppendChildLinks(old(links), p, x)
    {
      if ref.None? {
        ok := AppendChild(p, x);
        return;
      }
      return false;
    }

    /**
     * `insertBefore(newChild, refChild)` logging through the context's
     * `insertBefore`: a null ref appends; x equal to ref, or a ref of
     * another parent, throws before anything is logged.
     */
    method InsertBefore(p: NodeId, x: NodeId, ref: Option<NodeId>) returns (ok: bool)
      requires Valid() && p in links && x in links && !Under(links, rank, p, x)
      requires ref.Some? ==> ref.value in links
      modifies this, context
      ensures Valid() && data == old(data)
      ensures ref.None? ==> (ok <==> IsContainer(data[p])) && context.Changed(0, [AppendChildRecord(p, x)])
      ensures ref.None? && ok ==> links == AppendChildLinks(old(links), p, x)
      ensures ref.Some? ==> (ok <==> ref.value != x && old(links)[ref.value].parent == Some(p))
      ensures ref.Some? ==> context.Changed(0, if ok then [InsertBeforeRecord(p, x, ref.value)] else [])
      ensures ref.Some? && ok ==> links == InsertBeforeLinks(old(links), p, x, ref.value)
      ensures ref.Some? && ok ==> children == Dropped(old(children), x)[p := InsertAt(Without(old(children)[p], x), x, ref.value)]
      ensures ref.Some? && ok ==> links[x].parent == Some(p) && links[x].nextSibling == ref && links[ref.value].previousSibling == Some(x)
      ensures !ok ==> links == old(links) && children == old(children)
    {
      if ref.None? {
        ok := AppendChild(p, x);
        return;
      }
      var r := ref.value;
      if x == r || links[r].parent != Some(p) {
        return false;
      }
      context.InsertBefore(p, x, r);
      ok := InternalInsertBefore(p, x, ref);
    }

    /**
     * `insertAfter(newChild, refChild)`: x equal to ref, or a ref of another
     * parent, throws; otherwise x goes before ref's next sibling, or to the
     * end when ref is the last child.
     */
    method InsertAfter(p: NodeId, x: NodeId, ref: NodeId) returns (ok: bool)
      requires Valid() && p in links && x in links && ref in links && !Under(links, rank, p, x)
      modifies this, context
      ensures Valid() && data == old(data)
      ensures ok <==> x != ref && old(links)[ref].parent == Some(p) && old(links)[ref].nextSibling != Some(x) &&
                      (old(links)[ref].nextSibling.None? ==> IsContainer(data[p]))
      ensures ok && old(links)[ref].nextSibling.Some? ==>
                links == InsertBeforeLinks(old(links), p, x, old(links)[ref].nextSibling.value) &&
                context.Changed(0, [InsertBeforeRecord(p, x, old(links)[ref].nextSibling.value)])
      ensures ok && old(links)[ref].nextSibling.None? ==>
                links == AppendChildLinks(old(links), p, x) && context.Changed(0, [AppendChildRecord(p, x)])
      ensures ok && old(links)[ref].nextSibling.Some? ==>
                children == Dropped(old(children), x)[p := InsertAt(Without(old(children)[p], x), x, old(links)[ref].nextSibling.value)]
      ensures ok && old(links)[ref].nextSibling.None? ==>
                children == Dropped(old(children), x)[p := Without(old(children)[p], x) + [x]]
      ensures ok ==> links[x].parent == Some(p)
      ensures !ok ==> links == old(links) && children == old(children)
    {
      if x == ref || links[ref].parent != Some(p) {
        return false;
      }
      var next := links[ref].nextSibling;
      Neighbours(links, children, rank, p, ref);
      if next.Some? {
        ok := InsertBefore(p, x, next);
      } else {
        ok := AppendChild(p, x);
      }
    }

    /** `removeChild(oldChild)`: a node of another parent throws before anything is logged. */
    method RemoveChild(p: NodeId, x: NodeId) returns (ok: bool)
      requires Valid() && x in links
      modifies this, context
      ensures Valid() && data == old(data) && rank == old(rank)
      ensures ok <==> old(links)[x].parent == Some(p)
      ensures context.Changed(0, if ok then [RemoveChildRecord(p, x)] else [])
      ensures ok ==> links == Unlink(old(links), x) && children == old(children)[p := Without(old(children)[p], x)]
      ensures ok ==> links[x].parent.None? && links[x].previousSibling.None? && links[x].nextSibling.None?
      ensures !ok ==> links == old(links) && children == old(children)
    {
      if links[x].parent != Some(p) {
        return false;
      }
      context.RemoveChild(p, x);
      ok := InternalRemoveChild(x);
    }

    /**
     * `replaceChild(newChild, oldChild)`: equal children, or an old child
     * of another parent, throw. The instruction is logged with the
     * arguments the source passes: the new child where the context expects
     * the parent, the old child where it expects the new one, and no old
     * child.
     */
    method ReplaceChild(p: NodeId, x: NodeId, y: NodeId) returns (ok: bool)
      requires Valid() && p in links && x in links && y in links && !Under(links, rank, p, x)
      modifies this, context
      ensures Valid() && data == old(data)
      ensures ok <==> x != y && old(links)[y].parent == Some(p)
      ensures context.Changed(0, if ok then [ReplaceChildRecord(x, y, None)] else [])
      ensures ok ==> links == ReplaceChildLinks(old(links), p, x, y)
      ensures ok ==> children == Dropped(old(children), x)[p := ReplaceAt(Without(old(children)[p], x), x, y)]
      ensures ok ==> links[x].parent == Some(p) && links[y].parent.None?
      ensures !ok ==> links == old(links) && children == old(children)
    {
      if x == y || links[y].parent != Some(p) {
        return false;
      }
      context.ReplaceChild(x, y, None);
      ok := InternalReplaceChild(p, x, y);
    }

    /**
     * `setAttribute(attrName, attrValue)`: the name is lower-cased, logged,
     * and the attribute updated or added; afterwards `getAttribute` gives
     * the value and every other name answers as before.
     */
    method SetAttribute(n: NodeId, attrName: string, attrValue: string)
      requires Valid() && n in links
      modifies this, context
      ensures Valid() && links == old(links) && children == old(children)
      ensures context.Changed(0, [SetAttributeRecord(n, Lower(attrName), attrValue)])
      ensures data == old(data)[n := old(data)[n].(attributes := SetAttr(old(data)[n].attributes, Lower(attrName), attrValue))]
      ensures GetAttribute(data[n], attrName) == Some(attrValue)
      ensures forall m | Lower(m) != Lower(attrName) :: GetAttribute(data[n], m) == GetAttribute(old(data)[n], m)
    {
      var name := Lower(attrName);
      context.SetAttribute(n, name, attrValue);
      data := data[n := data[n].(attributes := SetAttr(data[n].attributes, name, attrValue))];
      LowerIdempotent(attrName);
    }

    /**
     * `removeAttribute(name)` as written: `delete` of a named property of
     * the attribute array removes no attribute; the call is only logged.
     */
    method RemoveAttributeAsWritten(n: NodeId, name: string)
      requires Valid() && n in links
      modifies context
      ensures Valid() && context.Changed(0, [RemoveAttributeRecord(n, name)])
      ensures GetAttribute(data[n], name) == GetAttribute(old(data)[n], name)
    {
      context.RemoveAttribute(n, name);
    }

    /** `removeAttribute(name)` removing the attribute that `getAttribute(name)` finds. */
    method RemoveAttribute(n: NodeId, name: string)
      requires Valid() && n in links
      modifies this, context
      ensures Valid() && links == old(links) && children == old(children)
      ensures context.Changed(0, [RemoveAttributeRecord(n, name)])
      ensures data == old(data)[n := old(data)[n].(attributes := DropAttr(old(data)[n].attributes, Lower(name)))]
      ensures GetAttribute(data[n], name).None?
      ensures forall m | Lower(m) != Lower(name) :: GetAttribute(data[n], m) == GetAttribute(old(data)[n], m)
    {
      data := data[n := data[n].(attributes := DropAttr(data[n].attributes, Lower(name)))];
      context.RemoveAttribute(n, name);
    }

    /**
     * `splitText(offset)` with the offset checked against the node's own
     * text: a non-text node or an offset outside (0, length) throws before
     * anything changes; otherwise a new node takes the text after the
     * offset, and the split is logged.
     */
    method SplitText(n: NodeId, offset: int) returns (r: Option<NodeId>)
      requires Valid() && n in links
      modifies this, context
      ensures Valid()
      ensures r.Some? <==> SplitTextData(old(data)[n], offset).Some?
      ensures r.None? ==> links == old(links) && data == old(data) && children == old(children) && context.Changed(0, [])
      ensures r.Some? ==> r.value == old(context.hashCode) + 1 && r.value !in old(links)
      ensures r.Some? ==> links == old(links)[r.value := Unlinked] && children == old(children)[r.value := []]
      ensures r.Some? ==> data == old(data)[n := SplitTextData(old(data)[n], offset).value.0]
                                           [r.value := SplitTextData(old(data)[n], offset).value.1]
      ensures r.Some? ==> context.Changed(1, [SplitTextRecord(n, offset, r.value)])
    {
      var halves := SplitTextData(data[n], offset);
      if halves.None? {
        return None;
      }
      var h := AddNode(halves.value.1);
      data := data[n := halves.value.0];
      context.SplitText(n, offset, h);
      return Some(h);
    }

    /**
     * `cloneNode(deep)`: a deep clone throws; a shallow one logs the call
     * with `false` for the node and makes a new root node on a copy of the
     * DOM node.
     */
    method CloneNode(n: NodeId, deep: bool) returns (r: Option<NodeId>)
      requires Valid() && n in links
      modifies this, context
      ensures Valid()
      ensures r.None? <==> deep
      ensures deep ==> links == old(links) && data == old(data) && children == old(children) && context.Changed(0, [])
      ensures r.Some? ==> r.value == old(context.hashCode) + 1 && r.value !in old(links)
      ensures r.Some? ==> links == old(links)[r.value := Unlinked] && children == old(children)[r.value := []]
      ensures r.Some? ==> data == old(data)[r.value := CloneData(old(data)[n])]
      ensures r.Some? ==> context.Changed(1, [CloneNodeRecord(None)])
    {
      if deep {
        return None;
      }
      context.CloneNode(None);
      var h := AddNode(CloneData(data[n]));
      return Some(h);
    }

    // -------------------------------------------------------------------
    // Queries
    // -------------------------------------------------------------------

    /** `childNodes`: the walk along the sibling links gives p's child list. */
    method ChildNodes(n: NodeId) returns (r: seq<NodeId>)
      requires Valid() && n in links
      ensures r == children[n]
    {
      Children(links, children, rank, n);
      ghost var cs := children[n];
      r := [];
      var child := links[n].firstChild;
      while child.Some?
        invariant |r| <= |cs| && r == cs[..|r|]
        invariant child == if |r| < |cs| then Some(cs[|r|]) else None
        decreases |cs| - |r|
      {
        assert MemberOk(links, n, cs, |r|);
        r := r + [child.value];
        child := links[child.value].nextSibling;
      }
    }

    /** `hasChildNodes()`: whether the child list is not empty. */
    method HasChildNodes(n: NodeId) returns (r: bool)
      requires Valid() && n in links
      ensures r <==> children[n] != []
    {
      assert ListOk(links, n, children[n]);
      r := links[n].firstChild.Some?;
    }

    /** `inDocument()`: whether some node lists this one as a child. */
    method InDocument(n: NodeId) returns (r: bool)
      requires Valid() && n in links
      ensures r <==> links[n].parent.Some?
      ensures r <==> exists p | p in children :: n in children[p]
    {
      r := links[n].parent.Some?;
      assert ParentOk(links, children, n);
      if !r {
        forall p | p in children
          ensures n !in children[p]
        {
          RootInNoList(links, children, n, p);
        }
      }
    }

    /**
     * `nodeIndex`: the position of the node in its parent's child list; a
     * node without a parent throws.
     */
    method NodeIndex(n: NodeId) returns (r: Option<nat>)
      requires Valid() && n in links
      ensures r.Some? <==> links[n].parent.Some?
      ensures r.Some? ==> r.value < |children[links[n].parent.value]| && children[links[n].parent.value][r.value] == n
    {
      if links[n].parent.None? {
        return None;
      }
      var p := links[n].parent.value;
      ChildPosition(links, children, n);
      Children(links, children, rank, p);
      ghost var cs := children[p];
      var index := 0;
      var child := links[p].firstChild;
      while child.Some?
        invariant index <= |cs| && n in cs[index..]
        invariant child == if index < |cs| then Some(cs[index]) else None
        decreases |cs| - index
      {
        assert MemberOk(links, p, cs, index);
        if child.value == n {
          return Some(index);
        }
        index := index + 1;
        child := links[child.value].nextSibling;
      }
      assert false;
    }

    /** `maxOffset`: the length of a text node's text, else the number of children. */
    method MaxOffset(n: NodeId) returns (r: nat)
      requires Valid() && n in links
      ensures r == if data[n].kind == TextNode then |NodeValue(data[n]).value| else |children[n]|
    {
      if data[n].kind == TextNode {
        r := |NodeValue(data[n]).value|;
      } else {
        var cs := ChildNodes(n);
        r := |cs|;
      }
    }
  }
}
