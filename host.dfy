/** The host render tree that the reconciler drives, as a value: an arena of
    nodes indexed by identity. The reconciler uses exactly five host operations
    on it: create an element, create a text node, set an attribute, append a
    child, and read or write a node's `childNodes`/`nodeValue`. */
module Host {
  import opened Js

  type NodeId = nat

  datatype DomNode =
    | Element(tagName: string, attributes: map<string, string>, childNodes: seq<NodeId>)
    | TextNode(nodeValue: string)

  /** The document: every node created so far, and the identity the next created
      node receives. */
  datatype Tree = Tree(nodes: map<NodeId, DomNode>, next: NodeId)

  /** `node.childNodes`: a text node has none. */
  function ChildNodes(t: Tree, id: NodeId): (ch: seq<NodeId>)
    requires id in t.nodes
    ensures t.nodes[id].TextNode? ==> ch == []
    ensures t.nodes[id].Element? ==> ch == t.nodes[id].childNodes
  {
    match t.nodes[id]
    case Element(_, _, ch) => ch
    case TextNode(_) => []
  }

  /** Every listed child exists and was created after its parent. Nodes are only
      ever appended right after they are created, so this holds of every document
      the reconciler builds; it also rules out cycles. */
  ghost predicate ChildrenAfter(t: Tree, id: NodeId)
    requires id in t.nodes
  {
    forall i :: 0 <= i < |ChildNodes(t, id)| ==>
      ChildNodes(t, id)[i] in t.nodes && id < ChildNodes(t, id)[i]
  }

  ghost predicate Valid(t: Tree) {
    forall id :: id in t.nodes ==> id < t.next && ChildrenAfter(t, id)
  }

  /** Replacing (or adding) one node keeps a document valid when the node's own
      children exist and come after it. */
  lemma ValidAfterUpdate(t: Tree, id: NodeId, n: DomNode, next: NodeId)
    requires t.next <= next
    requires Valid(t) ==> id < next
    requires Valid(t) && n.Element? ==> forall i :: 0 <= i < |n.childNodes| ==>
      (n.childNodes[i] in t.nodes || n.childNodes[i] == id) && id < n.childNodes[i]
    ensures Valid(t) ==> Valid(Tree(t.nodes[id := n], next))
  {
    if !Valid(t) { return; }
    var t' := Tree(t.nodes[id := n], next);
    forall x | x in t'.nodes ensures x < t'.next && ChildrenAfter(t', x) {
      if x != id {
        assert ChildrenAfter(t, x) && ChildNodes(t', x) == ChildNodes(t, x);
      }
    }
  }

  lemma AppendValid(t: Tree, parent: NodeId, child: NodeId)
    requires parent in t.nodes && t.nodes[parent].Element?
    ensures var n := t.nodes[parent];
      Valid(t) && child in t.nodes && parent < child ==>
        Valid(t.(nodes := t.nodes[parent := n.(childNodes := n.childNodes + [child])]))
  {
    var n := t.nodes[parent];
    if Valid(t) && child in t.nodes && parent < child {
      assert ChildrenAfter(t, parent) && ChildNodes(t, parent) == n.childNodes;
      ValidAfterUpdate(t, parent, n.(childNodes := n.childNodes + [child]), t.next);
    }
  }

  // ---- the host operations ----

  /** `document.createElement(tag)`: a fresh element, no attributes, no children;
      nothing that exists is touched. */
  function CreateElement(t: Tree, tag: string): (r: (Tree, NodeId))
    ensures r.1 == t.next && r.0.next == t.next + 1
    ensures r.1 in r.0.nodes && r.0.nodes[r.1] == Element(tag, map[], [])
    ensures Valid(t) ==> Valid(r.0) && AgreeFrom(t, r.0, 0)
  {
    ValidAfterUpdate(t, t.next, Element(tag, map[], []), t.next + 1);
    (Tree(t.nodes[t.next := Element(tag, map[], [])], t.next + 1), t.next)
  }

  /** `document.createTextNode(s)`. */
  function CreateTextNode(t: Tree, s: string): (r: (Tree, NodeId))
    ensures r.1 == t.next && r.0.next == t.next + 1
    ensures r.1 in r.0.nodes && r.0.nodes[r.1] == TextNode(s)
    ensures Valid(t) ==> Valid(r.0) && AgreeFrom(t, r.0, 0)
  {
    ValidAfterUpdate(t, t.next, TextNode(s), t.next + 1);
    (Tree(t.nodes[t.next := TextNode(s)], t.next + 1), t.next)
  }

  /** `el.setAttribute(key, value)` once for every entry of `a`: the entries of
      `a` win over the element's earlier ones; nothing else changes. */
  function SetAttributes(t: Tree, el: NodeId, a: map<string, string>): (t': Tree)
    requires el in t.nodes && t.nodes[el].Element?
    ensures t'.next == t.next && el in t'.nodes
    ensures t'.nodes[el] == t.nodes[el].(attributes := t.nodes[el].attributes + a)
    ensures AgreeExcept(t, t', el)
    ensures Valid(t) ==> Valid(t')
  {
    var n := t.nodes[el];
    assert Valid(t) ==> ChildrenAfter(t, el) && ChildNodes(t, el) == n.childNodes;
    assert Valid(t) ==> el < t.next;
    ValidAfterUpdate(t, el, n.(attributes := n.attributes + a), t.next);
    t.(nodes := t.nodes[el := n.(attributes := n.attributes + a)])
  }

  /** Setting `a` and then `b` is setting `a + b`. */
  lemma SetAttributesTwice(t: Tree, el: NodeId, a: map<string, string>, b: map<string, string>)
    requires el in t.nodes && t.nodes[el].Element?
    ensures SetAttributes(SetAttributes(t, el, a), el, b) == SetAttributes(t, el, a + b)
  {
    var n := t.nodes[el];
    assert n.attributes + a + b == n.attributes + (a + b);
    var t1 := t.(nodes := t.nodes[el := n.(attributes := n.attributes + a)]);
    assert SetAttributes(t, el, a) == t1;
    assert t1.nodes[el := n.(attributes := n.attributes + a + b)] == t.nodes[el := n.(attributes := n.attributes + (a + b))];
  }

  /** Setting no attribute changes nothing. */
  lemma SetAttributesNone(t: Tree, el: NodeId)
    requires el in t.nodes && t.nodes[el].Element?
    ensures SetAttributes(t, el, map[]) == t
  {
    var n := t.nodes[el];
    assert n.attributes + map[] == n.attributes;
    assert t.nodes[el := n] == t.nodes;
  }

  /** `parent.appendChild(child)` for a child that has no parent yet. A text
      node cannot have children: the host throws and nothing changes. */
  function AppendChild(t: Tree, parent: NodeId, child: NodeId): (r: (Tree, Option<Error>))
    requires parent in t.nodes
    ensures r.1.Some? <==> t.nodes[parent].TextNode?
    ensures r.1.Some? ==> r.1.value == HierarchyRequestError && r.0 == t
    ensures r.0.next == t.next && parent in r.0.nodes
    ensures ChildNodes(r.0, parent) == ChildNodes(t, parent) + (if r.1.None? then [child] else [])
    ensures AgreeExcept(t, r.0, parent) && Extends(t, r.0)
    ensures Valid(t) && child in t.nodes && parent < child ==> Valid(r.0)
  {
    match t.nodes[parent]
    case TextNode(_) => (t, Some(HierarchyRequestError))
    case Element(tag, a, ch) =>
      assert Valid(t) ==> ChildrenAfter(t, parent) && ChildNodes(t, parent) == ch && parent < t.next;
      AppendValid(t, parent, child);
      (t.(nodes := t.nodes[parent := Element(tag, a, ch + [child])]), None)
  }

  /** `node.nodeValue = s`: replaces a text node's value; on an element the
      setter has no effect. */
  function SetNodeValue(t: Tree, id: NodeId, s: string): (t': Tree)
    requires id in t.nodes
    ensures t.nodes[id].TextNode? ==> t'.nodes == t.nodes[id := TextNode(s)] && t'.next == t.next
    ensures t.nodes[id].Element? ==> t' == t
    ensures AgreeExcept(t, t', id) && Extends(t, t')
    ensures Valid(t) ==> Valid(t')
  {
    match t.nodes[id]
    case TextNode(_) =>
      assert Valid(t) ==> id < t.next;
      ValidAfterUpdate(t, id, TextNode(s), t.next);
      t.(nodes := t.nodes[id := TextNode(s)])
    case Element(_, _, _) => t
  }

  // ---- how documents relate over time ----

  /** Node `x` of `t` is present, identical, in `t'`. */
  ghost predicate Same(t: Tree, t': Tree, x: NodeId)
    requires x in t.nodes
  {
    x in t'.nodes && t'.nodes[x] == t.nodes[x]
  }

  /** Every node of `t` numbered `lo` or above is untouched in `t'`. */
  ghost predicate AgreeFrom(t: Tree, t': Tree, lo: nat) {
    forall x :: x in t.nodes && lo <= x ==> Same(t, t', x)
  }

  /** Every node of `t` numbered below `hi` is untouched in `t'`. */
  ghost predicate AgreeBelow(t: Tree, t': Tree, hi: nat) {
    forall x :: x in t.nodes && x < hi ==> Same(t, t', x)
  }

  /** Every node of `t` except `el` is untouched in `t'`. */
  ghost predicate AgreeExcept(t: Tree, t': Tree, el: NodeId) {
    forall x :: x in t.nodes && x != el ==> Same(t, t', x)
  }

  /** `b` is `a` after nothing but appends and text replacement: the same kind of
      node, the same tag and attributes, the old children as a prefix. */
  ghost predicate Grown(a: DomNode, b: DomNode) {
    match a
    case TextNode(_) => b.TextNode?
    case Element(tag, attrs, ch) =>
      b.Element? && b.tagName == tag && b.attributes == attrs && ch <= b.childNodes
  }

  /** No node of `t` was removed, retyped, re-tagged, given new attributes, or
      lost or reordered a child in `t'`. */
  ghost predicate Extends(t: Tree, t': Tree) {
    t.next <= t'.next &&
    forall x :: x in t.nodes ==> x in t'.nodes && Grown(t.nodes[x], t'.nodes[x])
  }

  lemma ExtendsTrans(t1: Tree, t2: Tree, t3: Tree)
    requires Extends(t1, t2) && Extends(t2, t3)
    ensures Extends(t1, t3)
  {
    forall x | x in t1.nodes
      ensures x in t3.nodes && Grown(t1.nodes[x], t3.nodes[x])
    {
      var a, b, c := t1.nodes[x], t2.nodes[x], t3.nodes[x];
      if a.Element? {
        assert a.childNodes <= b.childNodes <= c.childNodes;
      }
    }
  }

  /** A document that only gained nodes extends the old one. */
  lemma AgreeExtends(t: Tree, t': Tree)
    requires AgreeFrom(t, t', 0) && t.next <= t'.next
    ensures Extends(t, t')
  {
    forall x | x in t.nodes ensures x in t'.nodes && Grown(t.nodes[x], t'.nodes[x]) {
      assert Same(t, t', x);
    }
  }

  // ---- reading a subtree back as a value ----

  /** A node and everything below it, as a value. */
  datatype Shape =
    | TextShape(value: string)
    | ElementShape(tag: string, attributes: map<string, string>, children: seq<Shape>)

  /** The subtree rooted at `id`. */
  ghost function Read(t: Tree, id: NodeId): (s: Shape)
    requires Valid(t) && id in t.nodes
    decreases t.next - id, 1
  {
    match t.nodes[id]
    case TextNode(s) => TextShape(s)
    case Element(tag, a, ch) =>
      assert ChildrenAfter(t, id) && ChildNodes(t, id) == ch;
      ElementShape(tag, a, ReadList(t, ch, id))
  }

  /** The subtrees rooted at `ids`, in order; every id is above `lo`. */
  ghost function ReadList(t: Tree, ids: seq<NodeId>, lo: NodeId): (r: seq<Shape>)
    requires Valid(t)
    requires forall i :: 0 <= i < |ids| ==> ids[i] in t.nodes && lo < ids[i]
    ensures |r| == |ids|
    decreases t.next - lo, 0, ids
  {
    if ids == [] then []
    else ReadList(t, ids[..|ids| - 1], lo) + [Read(t, ids[|ids| - 1])]
  }

  /** A node reads as an element exactly when it is one, with one child tree
      per child. */
  lemma ReadChildCount(t: Tree, id: NodeId)
    requires Valid(t) && id in t.nodes
    ensures Read(t, id).ElementShape? <==> t.nodes[id].Element?
    ensures Read(t, id).ElementShape? ==> |Read(t, id).children| == |ChildNodes(t, id)|
  {
  }

  /** Element `k` of `ReadList` is the subtree at `ids[k]`. */
  lemma {:induction false} ReadListAt(t: Tree, ids: seq<NodeId>, lo: NodeId, k: nat)
    requires Valid(t)
    requires forall i :: 0 <= i < |ids| ==> ids[i] in t.nodes && lo < ids[i]
    requires k < |ids|
    ensures ReadList(t, ids, lo)[k] == Read(t, ids[k])
    decreases |ids|
  {
    if k < |ids| - 1 {
      ReadListAt(t, ids[..|ids| - 1], lo, k);
    }
  }

  /** A subtree reads the same in any later document that left every node from
      its root upwards alone (all its nodes are numbered at or above the root). */
  lemma {:induction false} ReadFrame(t: Tree, t': Tree, id: NodeId)
    requires Valid(t) && Valid(t') && id in t.nodes
    requires AgreeFrom(t, t', id)
    ensures id in t'.nodes && Read(t', id) == Read(t, id)
    decreases t.next - id, 1
  {
    assert Same(t, t', id);
    match t.nodes[id]
    case TextNode(_) =>
    case Element(tag, a, ch) =>
      assert ChildrenAfter(t, id) && ChildNodes(t, id) == ch;
      assert ChildNodes(t', id) == ch;
      ReadListFrame(t, t', ch, id);
  }

  lemma {:induction false} ReadListFrame(t: Tree, t': Tree, ids: seq<NodeId>, lo: NodeId)
    requires Valid(t) && Valid(t')
    requires forall i :: 0 <= i < |ids| ==> ids[i] in t.nodes && lo < ids[i]
    requires AgreeFrom(t, t', lo + 1)
    ensures forall i :: 0 <= i < |ids| ==> ids[i] in t'.nodes && lo < ids[i]
    ensures ReadList(t', ids, lo) == ReadList(t, ids, lo)
    decreases t.next - lo, 0, ids
  {
    forall i | 0 <= i < |ids| ensures ids[i] in t'.nodes {
      assert Same(t, t', ids[i]);
    }
    if ids != [] {
      var last := ids[|ids| - 1];
      ReadListFrame(t, t', ids[..|ids| - 1], lo);
      ReadFrame(t, t', last);
    }
  }
}
