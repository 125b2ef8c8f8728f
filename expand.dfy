/** What `renderNode` promises, stated without the document: a description
    denotes a tree value (or the exception building it raises), and rendering
    it builds exactly that tree out of fresh nodes. */
module Materialise {
  import opened Js
  import opened Host
  import opened VNodes
  import opened Reconcile

  /** The tree a description stands for. Element descriptions take the entries
      of `attributes` (never `attrs`); a component stands for what its `render`
      stands for, with the description's own children appended after it. */
  function Expand(reg: Registry, v: VNode): (r: Result<Shape>)
    requires Ranked(reg)
    ensures v.Text? ==> r == Ok(TextShape(v.s))
    ensures r.Ok? && v.Desc? && v.nodeName.Tag? ==>
      r.value.ElementShape? && r.value.tag == v.nodeName.name &&
      r.value.attributes == AttrMap(v.attributes) && |r.value.children| == |v.children|
    ensures v.Desc? && v.nodeName.Class? && r.Ok? ==>
      reg.render(v.nodeName.name, v.attributes, InitialState(reg, v.nodeName.name, v.attributes)).Some?
    decreases Rank(reg, v), v, 0
  {
    match v
    case Text(s) => Ok(TextShape(s))
    case Desc(Tag(name), _, attributes, kids) =>
      ExpandInto(reg, ElementShape(name, AttrMap(attributes), []), kids)
    case Desc(Class(name), _, attributes, kids) =>
      match reg.render(name, attributes, InitialState(reg, name, attributes))
      case None => Err(RenderError)
      case Some(out) =>
        match Expand(reg, out)
        case Err(e) => Err(e)
        case Ok(s) => ExpandInto(reg, s, kids)
  }

  /** `s` with the trees of `kids` added as its last children, in order; a text
      node cannot take children. */
  function ExpandInto(reg: Registry, s: Shape, kids: seq<VNode>): (r: Result<Shape>)
    requires Ranked(reg)
    ensures r.Ok? && kids == [] ==> r.value == s
    ensures r.Ok? && kids != [] ==>
      s.ElementShape? && r.value.ElementShape? && r.value.tag == s.tag &&
      r.value.attributes == s.attributes && |r.value.children| == |s.children| + |kids|
    decreases RankList(reg, kids), kids
  {
    if kids == [] then Ok(s)
    else
      match ExpandInto(reg, s, kids[..|kids| - 1])
      case Err(e) => Err(e)
      case Ok(s1) => ExpandOne(reg, s1, kids[|kids| - 1])
  }

  /** `s` with the tree of `v` added as its last child. */
  function ExpandOne(reg: Registry, s: Shape, v: VNode): (r: Result<Shape>)
    requires Ranked(reg)
    ensures r.Ok? ==>
      s.ElementShape? && r.value.ElementShape? && r.value.tag == s.tag &&
      r.value.attributes == s.attributes && |r.value.children| == |s.children| + 1 &&
      r.value.children[..|s.children|] == s.children
    decreases Rank(reg, v), v, 1
  {
    match Expand(reg, v)
    case Err(e) => Err(e)
    case Ok(c) =>
      if s.TextShape? then Err(HierarchyRequestError)
      else Ok(s.(children := s.children + [c]))
  }

  /** The children a value has: none for a text node. */
  function Kids(s: Shape): (ss: seq<Shape>) {
    if s.ElementShape? then s.children else []
  }

  /** Adding description children to a tree value succeeds exactly when every
      one of them denotes a tree and, if there is any, the value is an element;
      it keeps the tag, the attributes and the existing children and adds the
      children's trees after them, in order. */
  lemma {:induction false} ExpandIntoAppends(reg: Registry, s: Shape, kids: seq<VNode>)
    requires Ranked(reg)
    ensures ExpandInto(reg, s, kids).Ok? <==>
      (kids == [] || s.ElementShape?) && forall i :: 0 <= i < |kids| ==> Expand(reg, kids[i]).Ok?
    ensures ExpandInto(reg, s, kids).Ok? ==>
      var r := ExpandInto(reg, s, kids).value;
      (kids == [] ==> r == s) &&
      (kids != [] ==>
         r.ElementShape? && s.ElementShape? && r.tag == s.tag && r.attributes == s.attributes &&
         |r.children| == |s.children| + |kids| && r.children[..|s.children|] == s.children &&
         forall i :: 0 <= i < |kids| ==> r.children[|s.children| + i] == Expand(reg, kids[i]).value)
    decreases |kids|
  {
    if kids != [] {
      var pre, last := kids[..|kids| - 1], kids[|kids| - 1];
      ExpandIntoAppends(reg, s, pre);
      assert forall i :: 0 <= i < |pre| ==> pre[i] == kids[i];
      if ExpandInto(reg, s, pre).Ok? && Expand(reg, last).Ok? && s.ElementShape? {
        var r1 := ExpandInto(reg, s, pre).value;
        assert r1.ElementShape?;
        assert ExpandInto(reg, s, kids) == ExpandOne(reg, r1, last);
        var r := ExpandInto(reg, s, kids).value;
        assert r.children == Kids(r1) + [Expand(reg, last).value];
        forall i | 0 <= i < |kids| ensures r.children[|s.children| + i] == Expand(reg, kids[i]).value {
          if i < |pre| {
            assert r.children[|s.children| + i] == r1.children[|s.children| + i];
          }
        }
      }
    }
  }

  /** `renderNode` succeeds exactly when the description denotes a tree, fails
      with the same exception otherwise, and on success the new root reads back
      as that tree. */
  lemma {:induction false} RenderBuildsExpansion(reg: Registry, t: Tree, v: VNode)
    requires Ranked(reg) && Valid(t)
    ensures Render(reg, t, v).1.Ok? == Expand(reg, v).Ok?
    ensures Render(reg, t, v).1.Err? ==> Render(reg, t, v).1.error == Expand(reg, v).error
    ensures Render(reg, t, v).1.Ok? ==>
      Read(Render(reg, t, v).0, Render(reg, t, v).1.value) == Expand(reg, v).value
    decreases Rank(reg, v), v, 0
  {
    match v
    case Text(s) =>
    case Desc(Tag(name), _, attributes, kids) =>
      var (t1, el) := CreateElement(t, name);
      var t2 := SetAttributes(t1, el, AttrMap(attributes));
      assert Read(t2, el) == ElementShape(name, AttrMap(attributes), []);
      AppendChildrenBuildsExpansion(reg, t2, el, kids);
    case Desc(Class(name), _, attributes, kids) =>
      match reg.render(name, attributes, InitialState(reg, name, attributes))
      case None =>
      case Some(out) =>
        RenderBuildsExpansion(reg, t, out);
        var (t1, r1) := Render(reg, t, out);
        if r1.Ok? {
          AppendChildrenBuildsExpansion(reg, t1, r1.value, kids);
        }
  }

  /** The children loop adds to `el` exactly the trees of `kids`, or fails as
      adding them to `el`'s tree value fails. */
  lemma {:induction false} AppendChildrenBuildsExpansion(reg: Registry, t: Tree, el: NodeId, kids: seq<VNode>)
    requires Ranked(reg) && Valid(t) && el in t.nodes
    ensures AppendChildren(reg, t, el, kids).1.None? == ExpandInto(reg, Read(t, el), kids).Ok?
    ensures AppendChildren(reg, t, el, kids).1.Some? ==>
      AppendChildren(reg, t, el, kids).1.value == ExpandInto(reg, Read(t, el), kids).error
    ensures AppendChildren(reg, t, el, kids).1.None? ==>
      Read(AppendChildren(reg, t, el, kids).0, el) == ExpandInto(reg, Read(t, el), kids).value
    decreases RankList(reg, kids), kids
  {
    if kids != [] {
      var pre, last := kids[..|kids| - 1], kids[|kids| - 1];
      AppendChildrenBuildsExpansion(reg, t, el, pre);
      var (t1, e1) := AppendChildren(reg, t, el, pre);
      if e1.None? {
        AppendOneBuildsExpansion(reg, t1, el, last);
      }
    }
  }

  /** Rendering one description and appending it adds its tree as the last
      child; it fails with the rendering's exception, or because `el` is a text
      node. */
  lemma {:induction false} AppendOneBuildsExpansion(reg: Registry, t: Tree, el: NodeId, v: VNode)
    requires Ranked(reg) && Valid(t) && el in t.nodes
    ensures AppendOne(reg, t, el, v).1.None? == ExpandOne(reg, Read(t, el), v).Ok?
    ensures AppendOne(reg, t, el, v).1.Some? ==>
      AppendOne(reg, t, el, v).1.value == ExpandOne(reg, Read(t, el), v).error
    ensures AppendOne(reg, t, el, v).1.None? ==>
      Read(AppendOne(reg, t, el, v).0, el) == ExpandOne(reg, Read(t, el), v).value
    decreases Rank(reg, v), v, 1
  {
    RenderBuildsExpansion(reg, t, v);
    var (t1, c) := Render(reg, t, v);
    ReadFrame(t, t1, el);
    var s := Read(t, el);
    if c.Err? {
      assert AppendOne(reg, t, el, v) == (t1, Some(c.error));
      assert ExpandOne(reg, s, v) == Err(c.error);
    } else {
      AppendReadsBack(t1, el, c.value);
      var (t2, e) := AppendChild(t1, el, c.value);
      assert AppendOne(reg, t, el, v) == (t2, e);
      if e.None? {
        assert ExpandOne(reg, s, v) == Ok(s.(children := s.children + [Read(t1, c.value)]));
      } else {
        assert s.TextShape? && ExpandOne(reg, s, v) == Err(HierarchyRequestError);
      }
    }
  }

  /** `hyperscript` stores its attribute object where `renderNode` does not look:
      the object never reaches the document, and an element built this way is
      created without attributes. */
  lemma HyperscriptAttrsIgnored(reg: Registry, t: Tree, k: Kind, attrs: Attrs, kids: seq<VNode>)
    requires Ranked(reg) && Valid(t)
    ensures Render(reg, t, Hyperscript(k, attrs, kids)) == Render(reg, t, Hyperscript(k, None, kids))
    ensures k.Tag? && Render(reg, t, Hyperscript(k, attrs, kids)).1.Ok? ==>
      var (t', r) := Render(reg, t, Hyperscript(k, attrs, kids));
      Read(t', r.value).ElementShape? && Read(t', r.value).tag == k.name &&
      Read(t', r.value).attributes == map[]
  {
    RenderBuildsExpansion(reg, t, Hyperscript(k, attrs, kids));
    if k.Tag? {
      ExpandIntoAppends(reg, ElementShape(k.name, map[], []), kids);
    }
  }

  /** Appending a fresh child to an element adds that child's tree as the
      element's last child. */
  lemma AppendReadsBack(t: Tree, el: NodeId, c: NodeId)
    requires Valid(t) && el in t.nodes && c in t.nodes && el < c
    ensures var (t', e) := AppendChild(t, el, c);
      e.None? ==>
        Read(t, el).ElementShape? &&
        Read(t', el) == Read(t, el).(children := Read(t, el).children + [Read(t, c)])
  {
    var (t', e) := AppendChild(t, el, c);
    if e.None? {
      var ch := ChildNodes(t, el);
      assert ChildrenAfter(t, el);
      assert ChildNodes(t', el) == ch + [c];
      assert (ch + [c])[..|ch|] == ch;
      ReadListFrame(t, t', ch, el);
      ReadFrame(t, t', c);
    }
  }
}
