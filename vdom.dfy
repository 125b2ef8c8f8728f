/** The reconciler of vDOM.js as it runs: methods that mutate a `Dom.Document`
    step by step, each proved to leave the document the corresponding function
    of `Reconcile` computes, and the `Component` base class whose `setState`
    drives a re-render. */
module VDom {
  import opened Js
  import opened Host
  import opened VNodes
  import opened Reconcile
  import Dom

  /** An instance of a component class: the `Component` base class's two fields,
      the `base` node `renderNode`/`renderComponent` store on it, and the name of
      its class. */
  class Component {
    const name: string
    var props: Attrs
    var state: State
    var base: Option<NodeId>

    /** `new C(props)`: `super(props)` stores the props and sets the state to `{}`;
        the subclass constructor may then assign a state of its own. No node is
        attached yet. */
    constructor(reg: Registry, name: string, props: Attrs)
      ensures this.name == name && this.props == props
      ensures state == InitialState(reg, name, props) && base == None
    {
      this.name := name;
      this.props := props;
      state := map[];
      base := None;
      new;
      match reg.construct(name, props) {
        case None =>
        case Some(s) => state := s;
      }
    }

    /** `renderComponent(this)`: render with the current props and state, diff the
        result against `base` with no parent, and store the node `diff` returns.
        When either step throws, `base` keeps its old value. */
    method RenderComponent(reg: Registry, doc: Dom.Document) returns (r: Result<NodeId>)
      requires Ranked(reg) && Valid(doc.View())
      requires base.Some? ==> base.value in doc.nodes
      modifies this, doc
      ensures props == old(props) && state == old(state)
      ensures (doc.View(), r) == Rerender(reg, old(doc.View()), name, props, state, old(base))
      ensures base == if r.Ok? then Some(r.value) else old(base)
    {
      var rendered := reg.render(name, props, state);
      if rendered.None? {
        return Err(RenderError);
      }
      var mounted;
      r, mounted := DiffNode(reg, doc, base, rendered.value, None);
      if r.Ok? {
        base := Some(r.value);
      }
    }

    /** `setState(s)`: REPLACE the state by a shallow copy of `s` (no merge with
        the old state), then re-render. */
    method SetState(reg: Registry, doc: Dom.Document, s: State) returns (r: Result<NodeId>)
      requires Ranked(reg) && Valid(doc.View())
      requires base.Some? ==> base.value in doc.nodes
      modifies this, doc
      ensures state == s && props == old(props)
      ensures (doc.View(), r) == Rerender(reg, old(doc.View()), name, props, s, old(base))
      ensures base == if r.Ok? then Some(r.value) else old(base)
    {
      state := s;
      r := RenderComponent(reg, doc);
    }
  }

  /** A re-render of a mounted component diffs in place, so when it succeeds the
      node it returns (and `setState` stores as the new `base`) is the old one. */
  lemma RerenderKeepsBase(reg: Registry, t: Tree, name: string, props: Attrs, s: State, b: NodeId)
    requires Ranked(reg) && Valid(t) && b in t.nodes
    ensures Rerender(reg, t, name, props, s, Some(b)).1.Ok? ==>
      Rerender(reg, t, name, props, s, Some(b)).1.value == b
    ensures Rerender(reg, t, name, props, s, Some(b)).1.Ok? <==>
      reg.render(name, props, s).Some? &&
      Patch(reg, t, b, reg.render(name, props, s).value).1.None?
  {
  }

  /** The `for (let key in attributes)` loop: one `setAttribute` per key, in an
      order the model leaves open. */
  method ApplyAttributes(doc: Dom.Document, el: NodeId, m: map<string, string>)
    requires el in doc.nodes && doc.nodes[el].Element?
    modifies doc
    ensures doc.View() == SetAttributes(old(doc.View()), el, m)
  {
    ghost var t0 := doc.View();
    var keys := m.Keys;
    ghost var done: map<string, string> := map[];
    SetAttributesNone(t0, el);
    while keys != {}
      invariant keys <= m.Keys
      invariant done.Keys == m.Keys - keys
      invariant forall k :: k in done ==> done[k] == m[k]
      invariant doc.View() == SetAttributes(t0, el, done)
      invariant el in doc.nodes && doc.nodes[el].Element?
      decreases |keys|
    {
      var k :| k in keys;
      SetAttributesTwice(t0, el, done, map[k := m[k]]);
      MergeSingleton(done, k, m[k]);
      doc.SetAttribute(el, k, m[k]);
      keys := keys - {k};
      done := done[k := m[k]];
    }
    assert done == m;
  }

  /** `renderNode(v)`. For a component description it also returns the instance
      it creates. Its `base` is set as soon as the component's own render has
      been rendered (vDOM.js:36), so it keeps that node even when appending the
      description's own children afterwards throws (vDOM.js:40). */
  method RenderNode(reg: Registry, doc: Dom.Document, v: VNode) returns (r: Result<NodeId>, instance: Option<Component>)
    requires Ranked(reg) && Valid(doc.View())
    modifies doc
    ensures (doc.View(), r) == Render(reg, old(doc.View()), v)
    ensures instance.Some? <==> v.Desc? && v.nodeName.Class?
    ensures instance.Some? ==>
      fresh(instance.value) && instance.value.name == v.nodeName.name &&
      instance.value.props == v.attributes &&
      instance.value.state == InitialState(reg, v.nodeName.name, v.attributes) &&
      (r.Ok? ==> instance.value.base == Some(r.value))
    ensures instance.Some? ==>
      var out := reg.render(v.nodeName.name, v.attributes, InitialState(reg, v.nodeName.name, v.attributes));
      (out.Some? && Render(reg, old(doc.View()), out.value).1.Ok? ==>
         instance.value.base == Some(Render(reg, old(doc.View()), out.value).1.value)) &&
      (out.None? || Render(reg, old(doc.View()), out.value).1.Err? ==> instance.value.base == None)
    decreases Rank(reg, v), v, 0
  {
    match v
    case Text(s) =>
      var id := doc.CreateTextNode(s);
      r, instance := Ok(id), None;
    case Desc(Tag(name), _, attributes, kids) =>
      var el := doc.CreateElement(name);
      ApplyAttributes(doc, el, AttrMap(attributes));
      var err := AppendRenderedChildren(reg, doc, el, kids);
      r := if err.None? then Ok(el) else Err(err.value);
      instance := None;
    case Desc(Class(name), _, attributes, kids) =>
      var component := new Component(reg, name, attributes);
      instance := Some(component);
      var rendered := reg.render(name, component.props, component.state);
      if rendered.None? {
        r := Err(RenderError);
        return;
      }
      var inner;
      r, inner := RenderNode(reg, doc, rendered.value);
      if r.Err? {
        return;
      }
      component.base := Some(r.value);
      var err := AppendRenderedChildren(reg, doc, r.value, kids);
      if err.Some? {
        r := Err(err.value);
      }
  }

  /** `el.appendChild(renderNode(v))`. */
  method AppendRendered(reg: Registry, doc: Dom.Document, el: NodeId, v: VNode) returns (err: Option<Error>)
    requires Ranked(reg) && Valid(doc.View()) && el in doc.nodes
    modifies doc
    ensures (doc.View(), err) == AppendOne(reg, old(doc.View()), el, v)
    decreases Rank(reg, v), v, 1
  {
    var c, instance := RenderNode(reg, doc, v);
    if c.Err? {
      return Some(c.error);
    }
    err := doc.AppendChild(el, c.value);
  }

  /** `(children || []).forEach(child => el.appendChild(renderNode(child)))`;
      the first exception ends the loop. */
  method AppendRenderedChildren(reg: Registry, doc: Dom.Document, el: NodeId, kids: seq<VNode>) returns (err: Option<Error>)
    requires Ranked(reg) && Valid(doc.View()) && el in doc.nodes
    modifies doc
    ensures (doc.View(), err) == AppendChildren(reg, old(doc.View()), el, kids)
    decreases RankList(reg, kids), kids, 2
  {
    ghost var t0 := doc.View();
    ghost var t := t0;
    var i := 0;
    while i < |kids|
      invariant 0 <= i <= |kids|
      invariant t == doc.View() && AppendChildren(reg, t0, el, kids[..i]) == (t, None)
      invariant Valid(t) && el in t.nodes
    {
      RankListBound(reg, kids, i);
      AppendChildrenNext(reg, t0, el, kids, i, t);
      var e := AppendRendered(reg, doc, el, kids[i]);
      assert AppendChildren(reg, t0, el, kids[..i + 1]) == (doc.View(), e);
      if e.Some? {
        AppendChildrenStops(reg, t0, el, kids, i + 1);
        return e;
      }
      t := doc.View();
      i := i + 1;
    }
    assert kids[..i] == kids;
    return None;
  }

  /** `diff(d, v)` for an existing node `d`. */
  method PatchNode(reg: Registry, doc: Dom.Document, d: NodeId, v: VNode) returns (err: Option<Error>)
    requires Ranked(reg) && Valid(doc.View()) && d in doc.nodes
    modifies doc
    ensures (doc.View(), err) == Patch(reg, old(doc.View()), d, v)
    decreases Rank(reg, v), v, 1
  {
    match v
    case Text(s) =>
      doc.SetNodeValue(d, s);
      err := None;
    case Desc(Class(name), _, attributes, _) =>
      var component := new Component(reg, name, attributes);
      var rendered := reg.render(name, component.props, component.state);
      if rendered.None? {
        return Some(RenderError);
      }
      err := PatchNode(reg, doc, d, rendered.value);
    case Desc(Tag(_), _, _, _) =>
      err := PatchElement(reg, doc, d, v);
  }

  /** `diff(d, v)` for an existing node `d` and an element description `v`: the
      count check and its repair, then the loop over the children. */
  method PatchElement(reg: Registry, doc: Dom.Document, d: NodeId, v: VNode) returns (err: Option<Error>)
    requires Ranked(reg) && Valid(doc.View()) && d in doc.nodes
    requires v.Desc? && v.nodeName.Tag?
    modifies doc
    ensures (doc.View(), err) == Patch(reg, old(doc.View()), d, v)
    decreases Rank(reg, v), v, 0
  {
    ghost var t0 := doc.View();
    var kids := v.children;
    if |kids| != |ChildNodes(doc.View(), d)| {
      if kids == [] {
        return Some(TypeError);
      }
      err := AppendRendered(reg, doc, d, kids[|kids| - 1]);
      assert (doc.View(), err) == AppendLast(reg, t0, d, kids);
      if err.Some? {
        return;
      }
    }
    ghost var t1 := doc.View();
    assert Patch(reg, t0, d, v) == PatchChildren(reg, t1, d, kids, |ChildNodes(t1, d)|);
    err := PatchChildNodes(reg, doc, d, kids);
  }

  /** `dom.childNodes.forEach((child, i) => diff(child, kids[i]))`: the loop
      runs over as many positions as the list had when it started, re-reading
      the live list at each one. */
  method PatchChildNodes(reg: Registry, doc: Dom.Document, d: NodeId, kids: seq<VNode>) returns (err: Option<Error>)
    requires Ranked(reg) && Valid(doc.View()) && d in doc.nodes
    modifies doc
    ensures (doc.View(), err) == PatchChildren(reg, old(doc.View()), d, kids, |ChildNodes(old(doc.View()), d)|)
    decreases RankList(reg, kids), kids, 2
  {
    ghost var t1 := doc.View();
    ghost var t := t1;
    var n := |ChildNodes(doc.View(), d)|;
    var i := 0;
    while i < n
      invariant 0 <= i <= n
      invariant t == doc.View() && PatchChildren(reg, t1, d, kids, i) == (t, None)
      invariant Valid(t) && d in t.nodes
    {
      PatchChildrenNext(reg, t1, d, kids, i, t);
      // the live list: diffing a child never changes `d`'s own child list
      var cn := ChildNodes(doc.View(), d);
      if i >= |kids| {
        PatchChildrenStops(reg, t1, d, kids, i + 1, n);
        return Some(TypeError);
      }
      RankListBound(reg, kids, i);
      var e := PatchNode(reg, doc, cn[i], kids[i]);
      PatchChildrenTakes(reg, t1, d, kids, i, t, doc.View(), e);
      if e.Some? {
        PatchChildrenStops(reg, t1, d, kids, i + 1, n);
        return e;
      }
      t := doc.View();
      i := i + 1;
    }
    return None;
  }

  /** `diff(dom, v, parent)`. When there is no existing node it renders a fresh
      one (returning the instance `renderNode` created, if any) and appends it. */
  method DiffNode(reg: Registry, doc: Dom.Document, dom: Option<NodeId>, v: VNode, parent: Option<NodeId>)
    returns (r: Result<NodeId>, instance: Option<Component>)
    requires Ranked(reg) && Valid(doc.View())
    requires dom.Some? ==> dom.value in doc.nodes
    requires parent.Some? ==> parent.value in doc.nodes
    modifies doc
    ensures (doc.View(), r) == Diff(reg, old(doc.View()), dom, v, parent)
    ensures instance.Some? ==>
      dom.None? && v.Desc? && v.nodeName.Class? &&
      fresh(instance.value) && instance.value.name == v.nodeName.name &&
      instance.value.props == v.attributes &&
      instance.value.state == InitialState(reg, v.nodeName.name, v.attributes) &&
      (r.Ok? ==> instance.value.base == Some(r.value))
    ensures dom.None? && v.Desc? && v.nodeName.Class? ==> instance.Some?
  {
    match dom
    case Some(d) =>
      var e := PatchNode(reg, doc, d, v);
      r := if e.None? then Ok(d) else Err(e.value);
      instance := None;
    case None =>
      r, instance := RenderNode(reg, doc, v);
      if r.Err? {
        return;
      }
      if parent.None? {
        r := Err(TypeError);
        return;
      }
      var e := doc.AppendChild(parent.value, r.value);
      if e.Some? {
        r := Err(e.value);
      }
  }

  /** `init(Root)` with `container` for `document.querySelector('#root')`: the
      root instance is created, rendered, and its node appended to the container. */
  method InitMount(reg: Registry, doc: Dom.Document, root: string, container: NodeId)
    returns (r: Result<NodeId>, instance: Component)
    requires Ranked(reg) && Valid(doc.View()) && container in doc.nodes
    modifies doc
    ensures (doc.View(), r) == Init(reg, old(doc.View()), root, container)
    ensures fresh(instance) && instance.name == root && instance.props == None
    ensures instance.state == InitialState(reg, root, None)
    ensures r.Ok? ==> instance.base == Some(r.value)
  {
    var mounted;
    r, mounted := DiffNode(reg, doc, None, Hyperscript(Class(root), None, []), Some(container));
    instance := mounted.value;
  }
}
