/** `renderNode`, `diff`, `renderComponent` and `init` of vDOM.js as functions
    from a document to the document they leave behind. Each returns the new
    document together with its outcome; when the JavaScript code throws, the
    document is the one it has mutated up to that point. */
module Reconcile {
  import opened Js
  import opened Host
  import opened VNodes

  /** `renderNode(vnode)`: build a fresh subtree for a description. Existing
      nodes are never touched; the new root is a fresh node. */
  function Render(reg: Registry, t: Tree, v: VNode): (r: (Tree, Result<NodeId>))
    requires Ranked(reg) && Valid(t)
    ensures Valid(r.0) && t.next <= r.0.next && AgreeFrom(t, r.0, 0)
    ensures r.1.Ok? ==> r.1.value in r.0.nodes && t.next <= r.1.value
    decreases Rank(reg, v), v, 0
  {
    match v
    case Text(s) =>
      var (t1, id) := CreateTextNode(t, s);
      (t1, Ok(id))
    case Desc(Tag(name), _, attributes, kids) =>
      var (t1, el) := CreateElement(t, name);
      var t2 := SetAttributes(t1, el, AttrMap(attributes));
      var (t3, e) := AppendChildren(reg, t2, el, kids);
      (t3, if e.None? then Ok(el) else Err(e.value))
    case Desc(Class(name), _, attributes, kids) =>
      // `new nodeName(attributes)`, then `render(props, state)` on the instance
      match reg.render(name, attributes, InitialState(reg, name, attributes))
      case None => (t, Err(RenderError))
      case Some(out) =>
        var (t1, r1) := Render(reg, t, out);
        if r1.Err? then (t1, r1)
        else
          var (t2, e) := AppendChildren(reg, t1, r1.value, kids);
          (t2, if e.None? then r1 else Err(e.value))
  }

  /** `(children || []).forEach(child => el.appendChild(renderNode(child)))`:
      render each description child in order and append it to `el`. */
  function AppendChildren(reg: Registry, t: Tree, el: NodeId, kids: seq<VNode>): (r: (Tree, Option<Error>))
    requires Ranked(reg) && Valid(t) && el in t.nodes
    ensures Valid(r.0) && t.next <= r.0.next && el in r.0.nodes
    ensures AgreeExcept(t, r.0, el) && Extends(t, r.0)
    decreases RankList(reg, kids), kids
  {
    if kids == [] then (t, None)
    else
      var (t1, e1) := AppendChildren(reg, t, el, kids[..|kids| - 1]);
      if e1.Some? then (t1, e1)
      else
        var r := AppendOne(reg, t1, el, kids[|kids| - 1]);
        ExtendsTrans(t, t1, r.0);
        r
  }

  /** `el.appendChild(renderNode(v))`. */
  function AppendOne(reg: Registry, t: Tree, el: NodeId, v: VNode): (r: (Tree, Option<Error>))
    requires Ranked(reg) && Valid(t) && el in t.nodes
    ensures Valid(r.0) && t.next <= r.0.next && el in r.0.nodes
    ensures AgreeExcept(t, r.0, el) && Extends(t, r.0)
    decreases Rank(reg, v), v, 1
  {
    var (t1, c) := Render(reg, t, v);
    AgreeExtends(t, t1);
    if c.Err? then (t1, Some(c.error))
    else
      var (t2, e) := AppendChild(t1, el, c.value);
      ExtendsTrans(t, t1, t2);
      (t2, e)
  }

  /** `diff(dom, vnode)` for an existing node `dom`: reconcile it in place. */
  function Patch(reg: Registry, t: Tree, d: NodeId, v: VNode): (r: (Tree, Option<Error>))
    requires Ranked(reg) && Valid(t) && d in t.nodes
    ensures Valid(r.0) && Extends(t, r.0) && AgreeBelow(t, r.0, d)
    decreases Rank(reg, v), v
  {
    match v
    case Text(s) => (SetNodeValue(t, d, s), None)
    case Desc(Class(name), _, attributes, _) =>
      // a fresh instance every time; its own children are not looked at
      (match reg.render(name, attributes, InitialState(reg, name, attributes))
       case None => (t, Some(RenderError))
       case Some(out) => Patch(reg, t, d, out))
    case Desc(Tag(_), _, _, kids) =>
      var (t1, e1) := if |kids| == |ChildNodes(t, d)| then (t, None) else AppendLast(reg, t, d, kids);
      if e1.Some? then (t1, e1)
      else
        var (t2, e2) := PatchChildren(reg, t1, d, kids, |ChildNodes(t1, d)|);
        ExtendsTrans(t, t1, t2);
        (t2, e2)
  }

  /** The naive count check's repair: render the LAST description child and
      append it. With no description children it renders `undefined`, whose
      destructuring throws. */
  function AppendLast(reg: Registry, t: Tree, d: NodeId, kids: seq<VNode>): (r: (Tree, Option<Error>))
    requires Ranked(reg) && Valid(t) && d in t.nodes
    ensures Valid(r.0) && Extends(t, r.0) && AgreeExcept(t, r.0, d)
  {
    if kids == [] then (t, Some(TypeError))
    else AppendOne(reg, t, d, kids[|kids| - 1])
  }

  /** `dom.childNodes.forEach((child, i) => diff(child, vnode.children[i]))`
      over the first `n` positions. The list is live: position `i` is read when
      it is reached, and a position past the current end is skipped. A position
      past the descriptions hands `undefined` to `diff`, which throws. */
  function PatchChildren(reg: Registry, t: Tree, d: NodeId, kids: seq<VNode>, n: nat): (r: (Tree, Option<Error>))
    requires Ranked(reg) && Valid(t) && d in t.nodes
    ensures Valid(r.0) && Extends(t, r.0) && AgreeBelow(t, r.0, d + 1)
    decreases RankList(reg, kids), kids, n
  {
    if n == 0 then (t, None)
    else
      var (t1, e1) := PatchChildren(reg, t, d, kids, n - 1);
      if e1.Some? then (t1, e1)
      else
        var cn := ChildNodes(t1, d);
        if n - 1 >= |cn| then (t1, None)
        else if n - 1 >= |kids| then (t1, Some(TypeError))
        else
          assert ChildrenAfter(t1, d);
          RankListBound(reg, kids, n - 1);
          var (t2, e2) := Patch(reg, t1, cn[n - 1], kids[n - 1]);
          ExtendsTrans(t, t1, t2);
          (t2, e2)
  }

  /** `diff(dom, vnode, parent)`: reconcile an existing node, or, when there is
      none, render the description and append it to `parent`. */
  function Diff(reg: Registry, t: Tree, dom: Option<NodeId>, v: VNode, parent: Option<NodeId>): (r: (Tree, Result<NodeId>))
    requires Ranked(reg) && Valid(t)
    requires dom.Some? ==> dom.value in t.nodes
    requires parent.Some? ==> parent.value in t.nodes
    ensures Valid(r.0) && Extends(t, r.0) && (r.1.Ok? ==> r.1.value in r.0.nodes)
  {
    match dom
    case Some(d) =>
      var (t1, e) := Patch(reg, t, d, v);
      (t1, if e.None? then Ok(d) else Err(e.value))
    case None =>
      var (t1, n) := Render(reg, t, v);
      AgreeExtends(t, t1);
      if n.Err? then (t1, n)
      else
        match parent
        case None => (t1, Err(TypeError))   // `parent.appendChild` on undefined
        case Some(p) =>
          var (t2, e) := AppendChild(t1, p, n.value);
          ExtendsTrans(t, t1, t2);
          (t2, if e.None? then n else Err(e.value))
  }

  /** `renderComponent(component)`: render with the instance's props and state
      and diff the result against its `base` (no parent is passed). */
  function Rerender(reg: Registry, t: Tree, name: string, props: Attrs, state: State, base: Option<NodeId>): (r: (Tree, Result<NodeId>))
    requires Ranked(reg) && Valid(t)
    requires base.Some? ==> base.value in t.nodes
    ensures Valid(r.0) && Extends(t, r.0) && (r.1.Ok? ==> r.1.value in r.0.nodes)
  {
    match reg.render(name, props, state)
    case None => (t, Err(RenderError))
    case Some(out) => Diff(reg, t, base, out, None)
  }

  /** `init(Root)`: diff a bare description of the root class, with no existing
      node, against the container. */
  function Init(reg: Registry, t: Tree, root: string, container: NodeId): (r: (Tree, Result<NodeId>))
    requires Ranked(reg) && Valid(t) && container in t.nodes
    ensures Valid(r.0) && Extends(t, r.0) && (r.1.Ok? ==> r.1.value in r.0.nodes)
  {
    Diff(reg, t, None, Hyperscript(Class(root), None, []), Some(container))
  }

  /** Once the children loop has thrown, the later children are never rendered. */
  lemma {:induction false} AppendChildrenStops(reg: Registry, t: Tree, el: NodeId, kids: seq<VNode>, j: nat)
    requires Ranked(reg) && Valid(t) && el in t.nodes && j <= |kids|
    requires AppendChildren(reg, t, el, kids[..j]).1.Some?
    ensures AppendChildren(reg, t, el, kids) == AppendChildren(reg, t, el, kids[..j])
    decreases |kids| - j
  {
    if j < |kids| {
      var pre := kids[..|kids| - 1];
      assert pre[..j] == kids[..j];
      AppendChildrenStops(reg, t, el, pre, j);
    } else {
      assert kids[..j] == kids;
    }
  }

  /** The children loop over `pre + [v]` is the loop over `pre` followed, if
      that threw nothing, by `v`'s step. */
  lemma AppendChildrenSnoc(reg: Registry, t: Tree, el: NodeId, pre: seq<VNode>, v: VNode)
    requires Ranked(reg) && Valid(t) && el in t.nodes
    ensures AppendChildren(reg, t, el, pre).1.None? ==>
      AppendChildren(reg, t, el, pre + [v]) ==
      AppendOne(reg, AppendChildren(reg, t, el, pre).0, el, v)
  {
    var s := pre + [v];
    assert s[..|s| - 1] == pre && s[|s| - 1] == v;
  }

  /** When the first `i` children went in without an exception, the next step
      of the loop renders child `i` into the tree they left. */
  lemma AppendChildrenNext(reg: Registry, t: Tree, el: NodeId, kids: seq<VNode>, i: nat, t': Tree)
    requires Ranked(reg) && Valid(t) && el in t.nodes && i < |kids|
    requires AppendChildren(reg, t, el, kids[..i]) == (t', None)
    ensures Valid(t') && el in t'.nodes
    ensures AppendChildren(reg, t, el, kids[..i + 1]) == AppendOne(reg, t', el, kids[i])
  {
    PrefixSnoc(kids, i);
    AppendChildrenSnoc(reg, t, el, kids[..i], kids[i]);
  }

  /** Once the loop over the live child list has thrown, it stays thrown. */
  lemma PatchChildrenStops(reg: Registry, t: Tree, d: NodeId, kids: seq<VNode>, m: nat, n: nat)
    requires Ranked(reg) && Valid(t) && d in t.nodes && m <= n
    requires PatchChildren(reg, t, d, kids, m).1.Some?
    ensures PatchChildren(reg, t, d, kids, n) == PatchChildren(reg, t, d, kids, m)
  {
    var j := m;
    while j < n
      invariant m <= j <= n
      invariant PatchChildren(reg, t, d, kids, j) == PatchChildren(reg, t, d, kids, m)
    {
      PatchChildrenThrown(reg, t, d, kids, j);
      j := j + 1;
    }
  }

  /** One more position of the loop over the live child list, once the earlier
      ones have run without throwing and left `t'`. */
  lemma PatchChildrenNext(reg: Registry, t: Tree, d: NodeId, kids: seq<VNode>, n: nat, t': Tree)
    requires Ranked(reg) && Valid(t) && d in t.nodes
    requires PatchChildren(reg, t, d, kids, n) == (t', None)
    ensures Valid(t') && d in t'.nodes && ChildrenAfter(t', d)
    ensures ChildNodes(t', d) == ChildNodes(t, d)
    ensures n >= |ChildNodes(t', d)| ==> PatchChildren(reg, t, d, kids, n + 1) == (t', None)
    ensures n < |ChildNodes(t', d)| && n >= |kids| ==> PatchChildren(reg, t, d, kids, n + 1) == (t', Some(TypeError))
    ensures n < |ChildNodes(t', d)| && n < |kids| ==>
      ChildNodes(t', d)[n] in t'.nodes &&
      PatchChildren(reg, t, d, kids, n + 1) == Patch(reg, t', ChildNodes(t', d)[n], kids[n])
  {
    assert Same(t, t', d);
    assert ChildrenAfter(t', d);
  }

  /** The position after `n`, given what diffing child `n` against description
      `n` did: the loop's state is whatever that diff left. This is the last
      case of `PatchChildrenNext`, with the diff's outcome as parameters, so
      that the loop of `VDom.PatchChildNodes` can hand over what its call of
      `VDom.PatchNode` returned. */
  lemma PatchChildrenTakes(reg: Registry, t: Tree, d: NodeId, kids: seq<VNode>, n: nat, t': Tree, t2: Tree, e: Option<Error>)
    requires Ranked(reg) && Valid(t) && d in t.nodes
    requires PatchChildren(reg, t, d, kids, n) == (t', None)
    requires Valid(t') && d in t'.nodes && ChildrenAfter(t', d)
    requires n < |ChildNodes(t', d)| && n < |kids|
    requires (t2, e) == Patch(reg, t', ChildNodes(t', d)[n], kids[n])
    ensures PatchChildren(reg, t, d, kids, n + 1) == (t2, e)
  {
    PatchChildrenNext(reg, t, d, kids, n, t');
  }

  lemma PatchChildrenThrown(reg: Registry, t: Tree, d: NodeId, kids: seq<VNode>, k: nat)
    requires Ranked(reg) && Valid(t) && d in t.nodes
    requires PatchChildren(reg, t, d, kids, k).1.Some?
    ensures PatchChildren(reg, t, d, kids, k + 1) == PatchChildren(reg, t, d, kids, k)
  {
  }
}
