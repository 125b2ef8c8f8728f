/** What `diff` does to an existing node: it keeps its identity, never removes,
    reorders or re-attributes anything, grows a child list by at most one node
    per pass (rendered from the LAST description child), fails on a shrinking
    child list, and changes nothing when the node is already in step with the
    description. */
module DiffProperties {
  import opened Js
  import opened Host
  import opened VNodes
  import opened Reconcile
  import opened Materialise

  // ---- in step with a description ----

  /** As far as `diff` can tell, a tree value already shows `v`: text values are
      equal, child counts match all the way down, and every component renders. */
  ghost predicate Matches(reg: Registry, s: Shape, v: VNode)
    requires Ranked(reg)
    decreases Rank(reg, v), v
  {
    match v
    case Text(x) => s.TextShape? ==> s.value == x
    case Desc(Class(name), _, attributes, _) =>
      (match reg.render(name, attributes, InitialState(reg, name, attributes))
       case None => false
       case Some(out) => Matches(reg, s, out))
    case Desc(Tag(_), _, _, kids) => MatchesList(reg, Kids(s), kids)
  }

  ghost predicate MatchesList(reg: Registry, ss: seq<Shape>, kids: seq<VNode>)
    requires Ranked(reg)
    decreases RankList(reg, kids), kids
  {
    |ss| == |kids| &&
    forall i :: 0 <= i < |kids| ==> (RankListBound(reg, kids, i); Matches(reg, ss[i], kids[i]))
  }

  /** Node `d` is in step with `v`. */
  ghost predicate InSync(reg: Registry, t: Tree, d: NodeId, v: VNode)
    requires Ranked(reg) && Valid(t) && d in t.nodes
  {
    Matches(reg, Read(t, d), v)
  }

  /** No component in the description (or in anything it renders) is given
      children of its own; otherwise `renderNode` appends them and the count
      check of the next pass no longer matches. */
  ghost predicate Settled(reg: Registry, v: VNode)
    requires Ranked(reg)
    decreases Rank(reg, v), v
  {
    match v
    case Text(_) => true
    case Desc(Tag(_), _, _, kids) => SettledList(reg, kids)
    case Desc(Class(name), _, attributes, kids) =>
      kids == [] &&
      (match reg.render(name, attributes, InitialState(reg, name, attributes))
       case None => true
       case Some(out) => Settled(reg, out))
  }

  ghost predicate SettledList(reg: Registry, kids: seq<VNode>)
    requires Ranked(reg)
    decreases RankList(reg, kids), kids
  {
    forall i :: 0 <= i < |kids| ==> (RankListBound(reg, kids, i); Settled(reg, kids[i]))
  }

  /** A settled description's own tree value is in step with it. */
  lemma {:induction false} ExpansionMatches(reg: Registry, v: VNode)
    requires Ranked(reg) && Settled(reg, v) && Expand(reg, v).Ok?
    ensures Matches(reg, Expand(reg, v).value, v)
    decreases Rank(reg, v), v
  {
    match v
    case Text(_) =>
    case Desc(Tag(name), _, attributes, kids) =>
      ExpandIntoAppends(reg, ElementShape(name, AttrMap(attributes), []), kids);
      var r := Expand(reg, v).value;
      forall i | 0 <= i < |kids|
        ensures (RankListBound(reg, kids, i); Matches(reg, Kids(r)[i], kids[i]))
      {
        RankListBound(reg, kids, i);
        ExpansionMatches(reg, kids[i]);
      }
    case Desc(Class(name), _, attributes, kids) =>
      ExpansionMatches(reg, reg.render(name, attributes, InitialState(reg, name, attributes)).value);
  }

  /** A pass over a node that is in step with the description changes nothing
      at all and succeeds. */
  lemma {:induction false} PatchInSyncIsNoOp(reg: Registry, t: Tree, d: NodeId, v: VNode)
    requires Ranked(reg) && Valid(t) && d in t.nodes && InSync(reg, t, d, v)
    ensures Patch(reg, t, d, v) == (t, None)
    decreases Rank(reg, v), v
  {
    match v
    case Text(s) =>
      if t.nodes[d].TextNode? {
        assert t.nodes[d := TextNode(s)] == t.nodes;
      }
    case Desc(Class(name), _, attributes, _) =>
      PatchInSyncIsNoOp(reg, t, d, reg.render(name, attributes, InitialState(reg, name, attributes)).value);
    case Desc(Tag(_), _, _, kids) =>
      assert ChildrenAfter(t, d);
      PatchChildrenInSync(reg, t, d, kids, |ChildNodes(t, d)|);
  }

  lemma {:induction false} PatchChildrenInSync(reg: Registry, t: Tree, d: NodeId, kids: seq<VNode>, n: nat)
    requires Ranked(reg) && Valid(t) && d in t.nodes
    requires n <= |ChildNodes(t, d)|
    requires MatchesList(reg, Kids(Read(t, d)), kids)
    ensures PatchChildren(reg, t, d, kids, n) == (t, None)
    decreases RankList(reg, kids), kids, n
  {
    if n > 0 {
      PatchChildrenInSync(reg, t, d, kids, n - 1);
      ChildInSync(reg, t, d, kids, n - 1);
      RankListBound(reg, kids, n - 1);
      PatchInSyncIsNoOp(reg, t, ChildNodes(t, d)[n - 1], kids[n - 1]);
      PatchChildrenStep(reg, t, d, kids, n);
    }
  }

  /** The children of a node in step are in step with the description children. */
  lemma ChildInSync(reg: Registry, t: Tree, d: NodeId, kids: seq<VNode>, i: nat)
    requires Ranked(reg) && Valid(t) && d in t.nodes
    requires i < |ChildNodes(t, d)|
    requires MatchesList(reg, Kids(Read(t, d)), kids)
    ensures ChildrenAfter(t, d) && i < |kids| && InSync(reg, t, ChildNodes(t, d)[i], kids[i])
  {
    assert ChildrenAfter(t, d);
    ReadListAt(t, ChildNodes(t, d), d, i);
    RankListBound(reg, kids, i);
  }

  /** One more position of the children loop, after a clean pass over the
      earlier ones that left the document as it was. This is
      `Reconcile.PatchChildrenNext` for an unchanged document, in the form the
      in-step proofs (`PatchChildrenInSync`, `PatchChildrenPrefixInSync`) use. */
  lemma PatchChildrenStep(reg: Registry, t: Tree, d: NodeId, kids: seq<VNode>, n: nat)
    requires Ranked(reg) && Valid(t) && d in t.nodes && ChildrenAfter(t, d)
    requires 0 < n <= |kids| && n <= |ChildNodes(t, d)|
    requires PatchChildren(reg, t, d, kids, n - 1) == (t, None)
    ensures PatchChildren(reg, t, d, kids, n) == Patch(reg, t, ChildNodes(t, d)[n - 1], kids[n - 1])
  {
  }

  /** Idempotence of a fresh mount: diffing a just-rendered tree against the
      description it came from changes nothing, as long as no component in it
      was given children of its own. */
  lemma RemountIsNoOp(reg: Registry, t: Tree, v: VNode)
    requires Ranked(reg) && Valid(t) && Settled(reg, v)
    requires Render(reg, t, v).1.Ok?
    ensures Patch(reg, Render(reg, t, v).0, Render(reg, t, v).1.value, v) == (Render(reg, t, v).0, None)
  {
    RenderBuildsExpansion(reg, t, v);
    ExpansionMatches(reg, v);
    PatchInSyncIsNoOp(reg, Render(reg, t, v).0, Render(reg, t, v).1.value, v);
  }

  // ---- the child-count policy ----

  /** The append step renders the last description child, appends it after the
      existing children, and touches no other existing node. */
  lemma AppendLastRendersLast(reg: Registry, t: Tree, d: NodeId, kids: seq<VNode>)
    requires Ranked(reg) && Valid(t) && d in t.nodes
    ensures var (t', e) := AppendLast(reg, t, d, kids);
      (kids == [] ==> t' == t && e == Some(TypeError)) &&
      (e.Some? ==> ChildNodes(t', d) == ChildNodes(t, d)) &&
      (e.None? ==>
         (kids != [] && t.nodes[d].Element? &&
          |ChildNodes(t', d)| == |ChildNodes(t, d)| + 1 &&
          ChildNodes(t', d)[..|ChildNodes(t, d)|] == ChildNodes(t, d) &&
          t.next <= ChildNodes(t', d)[|ChildNodes(t, d)|] &&
          Expand(reg, kids[|kids| - 1]).Ok? &&
          Read(t', ChildNodes(t', d)[|ChildNodes(t, d)|]) == Expand(reg, kids[|kids| - 1]).value))
  {
    if kids != [] {
      var (t1, c) := Render(reg, t, kids[|kids| - 1]);
      assert Same(t, t1, d);
      RenderBuildsExpansion(reg, t, kids[|kids| - 1]);
      if c.Ok? {
        var (t2, e) := AppendChild(t1, d, c.value);
        if e.None? {
          assert ChildNodes(t2, d) == ChildNodes(t, d) + [c.value];
          ReadFrame(t1, t2, c.value);
        }
      }
    }
  }

  /** A pass over an element description never removes or reorders a child and
      appends at most one new node, and only when the counts differ; when the
      pass succeeds and the counts differed, exactly one node was appended. */
  lemma PatchAppendsAtMostOne(reg: Registry, t: Tree, d: NodeId, tag: string, attrs: Attrs, attributes: Attrs, kids: seq<VNode>)
    requires Ranked(reg) && Valid(t) && d in t.nodes
    ensures var (t', e) := Patch(reg, t, d, Desc(Tag(tag), attrs, attributes, kids));
      var ch, ch' := ChildNodes(t, d), ChildNodes(t', d);
      d in t'.nodes && Grown(t.nodes[d], t'.nodes[d]) &&
      (|kids| == |ch| ==> ch' == ch) &&
      (|kids| != |ch| ==> ch' == ch || (|ch'| == |ch| + 1 && ch'[..|ch|] == ch && t.next <= ch'[|ch|])) &&
      (|kids| != |ch| && e.None? ==> |ch'| == |ch| + 1)
  {
    var v, ch := Desc(Tag(tag), attrs, attributes, kids), ChildNodes(t, d);
    var (t1, e1) := if |kids| == |ch| then (t, None) else AppendLast(reg, t, d, kids);
    AppendLastRendersLast(reg, t, d, kids);
    assert Grown(t.nodes[d], t1.nodes[d]);
    if e1.None? {
      var r2 := PatchChildren(reg, t1, d, kids, |ChildNodes(t1, d)|);
      assert Patch(reg, t, d, v) == r2;
      assert Same(t1, r2.0, d);
    } else {
      assert Patch(reg, t, d, v) == (t1, e1);
    }
  }

  /** Past the end of the descriptions, the live child list still reaches an
      index whose description is `undefined`. */
  lemma {:induction false} PatchChildrenFailsPastDescriptions(reg: Registry, t: Tree, d: NodeId, kids: seq<VNode>, n: nat)
    requires Ranked(reg) && Valid(t) && d in t.nodes
    requires |kids| < n <= |ChildNodes(t, d)|
    ensures PatchChildren(reg, t, d, kids, n).1.Some?
    decreases n
  {
    if n - 1 > |kids| {
      PatchChildrenFailsPastDescriptions(reg, t, d, kids, n - 1);
    } else {
      var (t1, _) := PatchChildren(reg, t, d, kids, n - 1);
      assert Same(t, t1, d);
    }
  }

  /** A shrinking child list always ends in an exception: with no descriptions
      at all `renderNode(undefined)` throws before anything changes; otherwise
      `diff(child, undefined)` is reached for the first surplus child. */
  lemma PatchShrinkFails(reg: Registry, t: Tree, d: NodeId, tag: string, attrs: Attrs, attributes: Attrs, kids: seq<VNode>)
    requires Ranked(reg) && Valid(t) && d in t.nodes
    requires |kids| < |ChildNodes(t, d)|
    ensures Patch(reg, t, d, Desc(Tag(tag), attrs, attributes, kids)).1.Some?
    ensures kids == [] ==> Patch(reg, t, d, Desc(Tag(tag), attrs, attributes, kids)) == (t, Some(TypeError))
  {
    var (t1, e1) := AppendLast(reg, t, d, kids);
    AppendLastRendersLast(reg, t, d, kids);
    if e1.None? {
      PatchChildrenFailsPastDescriptions(reg, t1, d, kids, |ChildNodes(t1, d)|);
    }
  }

  /** A component whose `render` gives an element description with `okids`
      children, diffed against a node with more children than that: the pass
      reaches a position without a description and throws, and the node keeps
      more than `|okids|` children, so the next pass throws as well. */
  lemma ComponentPassThrows(reg: Registry, t: Tree, d: NodeId, name: string, attrs: Attrs, a: Attrs, kids: seq<VNode>,
                            tag: string, x: Attrs, y: Attrs, okids: seq<VNode>)
    requires Ranked(reg) && Valid(t) && d in t.nodes
    requires reg.render(name, a, InitialState(reg, name, a)) == Some(Desc(Tag(tag), x, y, okids))
    requires |okids| < |ChildNodes(t, d)|
    ensures var (t', e) := Patch(reg, t, d, Desc(Class(name), attrs, a, kids));
      e.Some? && d in t'.nodes && |okids| < |ChildNodes(t', d)|
  {
    var out := Desc(Tag(tag), x, y, okids);
    assert Patch(reg, t, d, Desc(Class(name), attrs, a, kids)) == Patch(reg, t, d, out);
    PatchShrinkFails(reg, t, d, tag, x, y, okids);
    PatchAppendsAtMostOne(reg, t, d, tag, x, y, okids);
  }

  /** A component given children of its own (`h(C, null, child)`): `renderNode`
      appends them to the node its `render` gave (vDOM.js:40), so that node has
      more children than the render's description, and the first `diff` against
      the same description throws; by `ComponentPassThrows` every later one does. */
  lemma ComponentChildrenBreakDiff(reg: Registry, t: Tree, name: string, attrs: Attrs, a: Attrs, kids: seq<VNode>,
                                   tag: string, x: Attrs, y: Attrs, okids: seq<VNode>)
    requires Ranked(reg) && Valid(t) && kids != []
    requires reg.render(name, a, InitialState(reg, name, a)) == Some(Desc(Tag(tag), x, y, okids))
    requires Render(reg, t, Desc(Class(name), attrs, a, kids)).1.Ok?
    ensures var (t1, r) := Render(reg, t, Desc(Class(name), attrs, a, kids));
      |ChildNodes(t1, r.value)| == |okids| + |kids| &&
      Patch(reg, t1, r.value, Desc(Class(name), attrs, a, kids)).1.Some?
  {
    var v := Desc(Class(name), attrs, a, kids);
    var (t1, r) := Render(reg, t, v);
    ComponentMountShape(reg, t, name, attrs, a, kids, tag, x, y, okids);
    ComponentPassThrows(reg, t1, r.value, name, attrs, a, kids, tag, x, y, okids);
  }

  /** The node a component with children of its own is mounted as
      (vDOM.js:33-40): the node its `render` gave, with that node's tag and
      attributes, the render's children and then the trees of its own
      children, in order. */
  lemma ComponentMountShape(reg: Registry, t: Tree, name: string, attrs: Attrs, a: Attrs, kids: seq<VNode>,
                            tag: string, x: Attrs, y: Attrs, okids: seq<VNode>)
    requires Ranked(reg) && Valid(t) && kids != []
    requires reg.render(name, a, InitialState(reg, name, a)) == Some(Desc(Tag(tag), x, y, okids))
    requires Render(reg, t, Desc(Class(name), attrs, a, kids)).1.Ok?
    ensures var (t1, r) := Render(reg, t, Desc(Class(name), attrs, a, kids));
      |ChildNodes(t1, r.value)| == |okids| + |kids|
    ensures var (t1, r) := Render(reg, t, Desc(Class(name), attrs, a, kids));
      var out := Expand(reg, Desc(Tag(tag), x, y, okids));
      var s := Read(t1, r.value);
      out.Ok? && s.ElementShape? && s.tag == tag && s.attributes == AttrMap(y) &&
      |s.children| == |okids| + |kids| && s.children[..|okids|] == out.value.children &&
      forall i :: 0 <= i < |kids| ==> Expand(reg, kids[i]).Ok? && s.children[|okids| + i] == Expand(reg, kids[i]).value
  {
    var v := Desc(Class(name), attrs, a, kids);
    RenderBuildsExpansion(reg, t, v);
    var (t1, r) := Render(reg, t, v);
    ComponentExpandShape(reg, name, attrs, a, kids, tag, x, y, okids);
    ReadChildCount(t1, r.value);
  }

  /** The tree of such a component: an element with the tag and attributes of
      the render's tree, the render's children, and then the trees of the
      description's own children, in order. */
  lemma ComponentExpandShape(reg: Registry, name: string, attrs: Attrs, a: Attrs, kids: seq<VNode>,
                             tag: string, x: Attrs, y: Attrs, okids: seq<VNode>)
    requires Ranked(reg) && kids != []
    requires reg.render(name, a, InitialState(reg, name, a)) == Some(Desc(Tag(tag), x, y, okids))
    ensures var r := Expand(reg, Desc(Class(name), attrs, a, kids));
      r.Ok? ==> r.value.ElementShape? && |r.value.children| == |okids| + |kids|
    ensures var r := Expand(reg, Desc(Class(name), attrs, a, kids));
      var out := Expand(reg, Desc(Tag(tag), x, y, okids));
      r.Ok? ==>
        out.Ok? && r.value.ElementShape? && r.value.tag == tag && r.value.attributes == AttrMap(y) &&
        r.value.children[..|okids|] == out.value.children &&
        forall i :: 0 <= i < |kids| ==> Expand(reg, kids[i]).Ok? && r.value.children[|okids| + i] == Expand(reg, kids[i]).value
  {
    var out := Desc(Tag(tag), x, y, okids);
    if Expand(reg, out).Ok? {
      var s := Expand(reg, out).value;
      assert Expand(reg, Desc(Class(name), attrs, a, kids)) == ExpandInto(reg, s, kids);
      ExpandIntoAppends(reg, s, kids);
    }
  }

  /** Naive append-only growth: with N children in step with the first N of N+1
      descriptions, a pass appends one fresh node built from the last description,
      keeps the N old children and every other existing node exactly as they were,
      and leaves the element in step with the description. */
  lemma GrowByOne(reg: Registry, t: Tree, d: NodeId, tag: string, attrs: Attrs, attributes: Attrs, kids: seq<VNode>)
    requires Ranked(reg) && Valid(t) && d in t.nodes && t.nodes[d].Element?
    requires kids != [] && MatchesList(reg, Kids(Read(t, d)), kids[..|kids| - 1])
    requires Settled(reg, kids[|kids| - 1]) && Expand(reg, kids[|kids| - 1]).Ok?
    ensures var v := Desc(Tag(tag), attrs, attributes, kids);
      var (t', e) := Patch(reg, t, d, v);
      var ch, ch' := ChildNodes(t, d), ChildNodes(t', d);
      e.None? && AgreeExcept(t, t', d) &&
      |ch'| == |kids| && ch'[..|ch|] == ch && t.next <= ch'[|ch|] &&
      Read(t', ch'[|ch|]) == Expand(reg, kids[|kids| - 1]).value &&
      InSync(reg, t', d, v)
  {
    var ch := ChildNodes(t, d);
    assert |Kids(Read(t, d))| == |ch|;
    AppendLastInSync(reg, t, d, kids);
    var (t2, _) := AppendLast(reg, t, d, kids);
    PatchChildrenInSync(reg, t2, d, kids, |ch| + 1);
  }

  /** The children loop over positions already in step changes nothing. */
  lemma {:induction false} PatchChildrenPrefixInSync(reg: Registry, t: Tree, d: NodeId, kids: seq<VNode>, n: nat)
    requires Ranked(reg) && Valid(t) && d in t.nodes && ChildrenAfter(t, d)
    requires n <= |ChildNodes(t, d)| && n <= |kids|
    requires forall j :: 0 <= j < n ==> InSync(reg, t, ChildNodes(t, d)[j], kids[j])
    ensures PatchChildren(reg, t, d, kids, n) == (t, None)
  {
    var k := 0;
    while k < n
      invariant k <= n && PatchChildren(reg, t, d, kids, k) == (t, None)
    {
      var c := ChildNodes(t, d)[k];
      assert c in t.nodes && InSync(reg, t, c, kids[k]);
      PatchInSyncIsNoOp(reg, t, c, kids[k]);
      PatchChildrenStep(reg, t, d, kids, k + 1);
      k := k + 1;
    }
  }

  /** Naive growth by two or more: with N children in step with the first N
      descriptions, the count check appends ONE node built from the LAST
      description, the old children are left alone, and the pass then diffs the
      appended node against description N (not the one it was built from).
      When the pass succeeds the element has N + 1 children, however many
      descriptions there are. */
  lemma GrowByMore(reg: Registry, t: Tree, d: NodeId, tag: string, attrs: Attrs, attributes: Attrs, kids: seq<VNode>)
    requires Ranked(reg) && Valid(t) && d in t.nodes && t.nodes[d].Element?
    requires |ChildNodes(t, d)| + 2 <= |kids|
    requires MatchesList(reg, Kids(Read(t, d)), kids[..|ChildNodes(t, d)|])
    requires AppendLast(reg, t, d, kids).1.None?
    ensures var (t1, _) := AppendLast(reg, t, d, kids);
      var ch, ch1 := ChildNodes(t, d), ChildNodes(t1, d);
      |ch1| == |ch| + 1 && ch1[..|ch|] == ch && t.next <= ch1[|ch|] &&
      Expand(reg, kids[|kids| - 1]).Ok? && Read(t1, ch1[|ch|]) == Expand(reg, kids[|kids| - 1]).value &&
      Patch(reg, t, d, Desc(Tag(tag), attrs, attributes, kids)) == Patch(reg, t1, ch1[|ch|], kids[|ch|])
    ensures var (t', e) := Patch(reg, t, d, Desc(Tag(tag), attrs, attributes, kids));
      e.None? ==> |ChildNodes(t', d)| == |ChildNodes(t, d)| + 1
  {
    var v, ch := Desc(Tag(tag), attrs, attributes, kids), ChildNodes(t, d);
    AppendLastRendersLast(reg, t, d, kids);
    var (t1, _) := AppendLast(reg, t, d, kids);
    var ch1 := ChildNodes(t1, d);
    assert ChildrenAfter(t, d) && ChildrenAfter(t1, d);
    forall j | 0 <= j < |ch| ensures InSync(reg, t1, ch1[j], kids[j]) {
      ChildInSync(reg, t, d, kids[..|ch|], j);
      assert ch1[j] == ch[j];
      ReadFrame(t, t1, ch[j]);
    }
    PatchChildrenPrefixInSync(reg, t1, d, kids, |ch|);
    PatchChildrenStep(reg, t1, d, kids, |ch| + 1);
    assert Patch(reg, t, d, v) == PatchChildren(reg, t1, d, kids, |ch1|);
    PatchAppendsAtMostOne(reg, t, d, tag, attrs, attributes, kids);
  }

  /** The append step of a growing pass, when the old children are in step with
      all but the last description: the element ends up in step with them all. */
  lemma AppendLastInSync(reg: Registry, t: Tree, d: NodeId, kids: seq<VNode>)
    requires Ranked(reg) && Valid(t) && d in t.nodes && t.nodes[d].Element?
    requires kids != [] && MatchesList(reg, Kids(Read(t, d)), kids[..|kids| - 1])
    requires Settled(reg, kids[|kids| - 1]) && Expand(reg, kids[|kids| - 1]).Ok?
    ensures var (t', e) := AppendLast(reg, t, d, kids);
      var ch, ch' := ChildNodes(t, d), ChildNodes(t', d);
      e.None? && AgreeExcept(t, t', d) &&
      |ch'| == |ch| + 1 && ch'[..|ch|] == ch && t.next <= ch'[|ch|] &&
      Read(t', ch'[|ch|]) == Expand(reg, kids[|kids| - 1]).value &&
      MatchesList(reg, Kids(Read(t', d)), kids)
  {
    var last := kids[|kids| - 1];
    RenderBuildsExpansion(reg, t, last);
    ExpansionMatches(reg, last);
    var (t1, c) := Render(reg, t, last);
    assert Same(t, t1, d);
    ReadFrame(t, t1, d);
    AppendOneMatches(reg, t1, d, kids, c.value);
  }

  /** Appending a child in step with the last description to an element whose
      children are in step with the others. */
  lemma AppendOneMatches(reg: Registry, t: Tree, d: NodeId, kids: seq<VNode>, c: NodeId)
    requires Ranked(reg) && Valid(t) && d in t.nodes && t.nodes[d].Element?
    requires c in t.nodes && d < c
    requires kids != [] && MatchesList(reg, Kids(Read(t, d)), kids[..|kids| - 1])
    requires Matches(reg, Read(t, c), kids[|kids| - 1])
    ensures var (t', e) := AppendChild(t, d, c);
      e.None? && Valid(t') && d in t'.nodes &&
      ChildNodes(t', d) == ChildNodes(t, d) + [c] && Read(t', c) == Read(t, c) &&
      MatchesList(reg, Kids(Read(t', d)), kids)
  {
    var (t', _) := AppendChild(t, d, c);
    AppendReadsBack(t, d, c);
    ReadFrame(t, t', c);
    MatchesSnoc(reg, Kids(Read(t, d)), kids[..|kids| - 1], Read(t, c), kids[|kids| - 1]);
    PrefixAndLast(kids);
  }

  lemma MatchesSnoc(reg: Registry, ss: seq<Shape>, kids: seq<VNode>, s: Shape, v: VNode)
    requires Ranked(reg) && MatchesList(reg, ss, kids) && Matches(reg, s, v)
    ensures MatchesList(reg, ss + [s], kids + [v])
  {
    forall i | 0 <= i < |kids| + 1
      ensures (RankListBound(reg, kids + [v], i); Matches(reg, (ss + [s])[i], (kids + [v])[i]))
    {
      if i < |kids| {
        RankListBound(reg, kids, i);
        assert (ss + [s])[i] == ss[i] && (kids + [v])[i] == kids[i];
      }
    }
  }

  // ---- diff as called ----

  /** Diffing against an existing node returns that very node and never touches
      a node created before it; the parent argument is not used. */
  lemma DiffExistingKeepsIdentity(reg: Registry, t: Tree, d: NodeId, v: VNode, parent: Option<NodeId>)
    requires Ranked(reg) && Valid(t) && d in t.nodes
    requires parent.Some? ==> parent.value in t.nodes
    ensures var (t', r) := Diff(reg, t, Some(d), v, parent);
      (r.Ok? ==> r.value == d) && t' == Patch(reg, t, d, v).0 &&
      Extends(t, t') && AgreeBelow(t, t', d)
  {
  }

  /** With no existing node, `diff` renders the description, appends exactly one
      new node to the parent and returns it; it succeeds exactly when the
      description denotes a tree and the parent is an element. */
  lemma DiffMountsFresh(reg: Registry, t: Tree, v: VNode, p: NodeId)
    requires Ranked(reg) && Valid(t) && p in t.nodes
    ensures var (t', r) := Diff(reg, t, None, v, Some(p));
      (r.Ok? <==> Expand(reg, v).Ok? && t.nodes[p].Element?) &&
      (r.Ok? ==>
         t.next <= r.value && r.value in t'.nodes &&
         ChildNodes(t', p) == ChildNodes(t, p) + [r.value] &&
         AgreeExcept(t, t', p) &&
         Read(t', r.value) == Expand(reg, v).value)
  {
    RenderBuildsExpansion(reg, t, v);
    var (t1, n) := Render(reg, t, v);
    assert Same(t, t1, p);
    if n.Ok? {
      var (t2, _) := AppendChild(t1, p, n.value);
      ReadFrame(t1, t2, n.value);
    }
  }

  /** Reconciling a text description overwrites the text node's value in place
      and changes nothing else; against an element it changes nothing. */
  lemma DiffTextInPlace(reg: Registry, t: Tree, d: NodeId, s: string, parent: Option<NodeId>)
    requires Ranked(reg) && Valid(t) && d in t.nodes
    requires parent.Some? ==> parent.value in t.nodes
    ensures var (t', r) := Diff(reg, t, Some(d), Text(s), parent);
      r == Ok(d) && t'.next == t.next &&
      (t.nodes[d].TextNode? ==> t'.nodes == t.nodes[d := TextNode(s)]) &&
      (t.nodes[d].Element? ==> t' == t)
  {
  }
}
