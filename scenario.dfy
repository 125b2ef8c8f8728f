/** The example program end to end: `init(People)` mounts a `ul` of five `li`
    items, and each timer tick grows it in place by exactly one `li`. */
module Scenario {
  import opened Js
  import opened Host
  import opened VNodes
  import opened Reconcile
  import opened Materialise
  import opened DiffProperties
  import opened People
  import VDom
  import Dom

  /** `init(People)` into an element container appends one fresh node, which
      reads back as the `ul` of the initial list; into a text node it throws. */
  lemma MountPeople(t: Tree, container: NodeId)
    requires Valid(t) && container in t.nodes
    ensures Ranked(Program) &&
      var (t1, r) := Init(Program, t, "People", container);
      (r.Ok? <==> t.nodes[container].Element?) &&
      (r.Err? ==> r.error == HierarchyRequestError) &&
      (r.Ok? ==>
         t.next <= r.value && r.value in t1.nodes &&
         ChildNodes(t1, container) == ChildNodes(t, container) + [r.value] &&
         AgreeExcept(t, t1, container) &&
         Read(t1, r.value) == UlShape(InitialList))
  {
    ProgramRanked();
    PeopleExpands();
    var v := Hyperscript(Class("People"), None, []);
    DiffMountsFresh(Program, t, v, container);
    var (t1, n) := Render(Program, t, v);
    RenderBuildsExpansion(Program, t, v);
  }

  /** A `ul` whose subtree reads as the items of `list`, in step with the
      description that renders them. */
  lemma ListInSync(t: Tree, ul: NodeId, list: seq<string>)
    requires Ranked(Program) && Valid(t) && ul in t.nodes && Read(t, ul) == UlShape(list)
    ensures t.nodes[ul].Element? && |ChildNodes(t, ul)| == |list|
    ensures MatchesList(Program, Kids(Read(t, ul)), Items(list))
  {
    var v := Hyperscript(Tag("ul"), None, Items(list));
    ListExpands(list);
    forall k | 0 <= k < |Items(list)| ensures Settled(Program, Items(list)[k]) {
      assert SettledList(Program, Items(list)[k].children);
    }
    assert SettledList(Program, Items(list));
    ExpansionMatches(Program, v);
  }

  /** Appending `c` to element `d` adds `c`'s subtree as the last child value.
      Unlike `Materialise.AppendReadsBack`, which is about one `AppendChild`
      call, this takes any later document that changed only `d`, by adding `c`
      at the end: the document a whole `diff` pass leaves, as in `GrowList`. */
  lemma ReadAppended(t: Tree, t': Tree, d: NodeId, c: NodeId)
    requires Valid(t) && Valid(t') && d in t.nodes && t.nodes[d].Element? && d in t'.nodes
    requires AgreeExcept(t, t', d)
    requires t'.nodes[d] == t.nodes[d].(childNodes := t.nodes[d].childNodes + [c])
    ensures c in t'.nodes && Read(t, d).ElementShape?
    ensures Read(t', d) == Read(t, d).(children := Read(t, d).children + [Read(t', c)])
  {
    var n := t.nodes[d];
    var ch := n.childNodes;
    assert ChildrenAfter(t, d) && ChildNodes(t, d) == ch;
    assert ChildrenAfter(t', d) && ChildNodes(t', d) == ch + [c];
    assert Read(t, d) == ElementShape(n.tagName, n.attributes, ReadList(t, ch, d));
    assert Read(t', d) == ElementShape(n.tagName, n.attributes, ReadList(t', ch + [c], d));
    assert (ch + [c])[..|ch|] == ch;
    assert ReadList(t', ch + [c], d) == ReadList(t', ch, d) + [Read(t', c)];
    ReadListFrame(t, t', ch, d);
  }

  /** Diffing a `ul` that shows `list` against the description of `list` with
      one more item appends exactly one fresh node, which reads as that item's
      `li`, changes no node but the `ul`, and leaves the `ul` in step. */
  lemma GrowList(t1: Tree, ul: NodeId, list: seq<string>, item: string)
    requires Ranked(Program) && Valid(t1) && ul in t1.nodes && Read(t1, ul) == UlShape(list)
    ensures var (t2, e) := Patch(Program, t1, ul, ListDesc(list + [item]));
      var ch, ch' := ChildNodes(t1, ul), ChildNodes(t2, ul);
      e.None? && AgreeExcept(t1, t2, ul) && |ch| == |list| &&
      t1.nodes[ul].Element? && t2.nodes[ul] == t1.nodes[ul].(childNodes := ch') &&
      |ch'| == |list| + 1 && ch' == ch + [ch'[|list|]] && t1.next <= ch'[|list|] &&
      Read(t2, ch'[|list|]) == LiShape(item) &&
      InSync(Program, t2, ul, ListDesc(list + [item]))
  {
    var kids := Items(list + [item]);
    GrowListReady(t1, ul, list, item);
    GrowByOne(Program, t1, ul, "ul", None, None, kids);
    var (t2, e) := Patch(Program, t1, ul, ListDesc(list + [item]));
    var ch, ch' := ChildNodes(t1, ul), ChildNodes(t2, ul);
    assert Grown(t1.nodes[ul], t2.nodes[ul]);
    PrefixAndLast(ch');
  }

  /** The old `li` nodes are in step with all but the last description of the
      longer list, and the last one is settled and expands to its `li`. */
  lemma GrowListReady(t1: Tree, ul: NodeId, list: seq<string>, item: string)
    requires Ranked(Program) && Valid(t1) && ul in t1.nodes && Read(t1, ul) == UlShape(list)
    ensures var kids := Items(list + [item]);
      t1.nodes[ul].Element? && |kids| == |list| + 1 &&
      MatchesList(Program, Kids(Read(t1, ul)), kids[..|kids| - 1]) &&
      Settled(Program, kids[|kids| - 1]) && Expand(Program, kids[|kids| - 1]) == Ok(LiShape(item))
  {
    var kids := Items(list + [item]);
    ListInSync(t1, ul, list);
    assert kids[..|list|] == Items(list);
    LiExpands(item);
    assert Settled(Program, kids[|list|]) by {
      assert SettledList(Program, kids[|list|].children);
    }
  }

  /** After such a pass the old `li` nodes are untouched and the `ul` reads as
      the longer list. */
  lemma ReadGrownList(t1: Tree, t2: Tree, ul: NodeId, list: seq<string>, c: NodeId, item: string)
    requires Valid(t1) && Valid(t2) && ul in t1.nodes && t1.nodes[ul].Element? && ul in t2.nodes
    requires Read(t1, ul) == UlShape(list) && AgreeExcept(t1, t2, ul)
    requires t2.nodes[ul] == t1.nodes[ul].(childNodes := t1.nodes[ul].childNodes + [c])
    requires c in t2.nodes && Read(t2, c) == LiShape(item)
    ensures var ch := ChildNodes(t1, ul);
      |ch| == |list| &&
      (forall j :: 0 <= j < |list| ==> Same(t1, t2, ch[j]) && Read(t2, ch[j]) == LiShape(list[j])) &&
      Read(t2, ul) == UlShape(list + [item])
  {
    var ch := ChildNodes(t1, ul);
    assert ChildrenAfter(t1, ul);
    ReadAppended(t1, t2, ul, c);
    assert Read(t2, ul).children == UlShape(list + [item]).children;
    forall j | 0 <= j < |list| ensures Same(t1, t2, ch[j]) && Read(t2, ch[j]) == LiShape(list[j]) {
      ReadListAt(t1, ch, ul, j);
      assert AgreeFrom(t1, t2, ch[j]);
      ReadFrame(t1, t2, ch[j]);
    }
  }

  /** One tick of a mounted `People` whose `ul` shows `list`: the re-render
      succeeds on the same `ul`, keeps every existing `li` (identity, record and
      text), appends one fresh `li` holding the drawn item, leaves every node
      other than the `ul` alone, and the `ul` then shows the new list. A second
      re-render with the same state changes nothing. */
  lemma TickGrowsList(t1: Tree, ul: NodeId, list: seq<string>, props: Attrs, i: nat)
    requires Ranked(Program) && Valid(t1) && ul in t1.nodes && Read(t1, ul) == UlShape(list)
    requires i < |list|
    ensures
      var s := Tick(map["list" := JList(list)], i);
      var (t2, r) := Rerender(Program, t1, "People", props, s, Some(ul));
      var ch, ch' := ChildNodes(t1, ul), ChildNodes(t2, ul);
      r == Ok(ul) && AgreeExcept(t1, t2, ul) &&
      |ch'| == |list| + 1 && ch'[..|list|] == ch && t1.next <= ch'[|list|] &&
      (forall j :: 0 <= j < |list| ==> Same(t1, t2, ch[j]) && Read(t2, ch[j]) == LiShape(list[j])) &&
      Read(t2, ch'[|list|]) == LiShape(list[i]) &&
      Read(t2, ul) == UlShape(list + [list[i]]) &&
      Rerender(Program, t2, "People", props, s, Some(ul)) == (t2, Ok(ul))
  {
    var s := Tick(map["list" := JList(list)], i);
    var v := ListDesc(list + [list[i]]);
    assert Program.render("People", props, s) == Some(v);
    GrowList(t1, ul, list, list[i]);
    var (t2, e) := Patch(Program, t1, ul, v);
    assert Rerender(Program, t1, "People", props, s, Some(ul)) == (t2, Ok(ul));
    var ch, ch' := ChildNodes(t1, ul), ChildNodes(t2, ul);
    assert ch'[..|list|] == ch;
    ReadGrownList(t1, t2, ul, list, ch'[|list|], list[i]);
    PatchInSyncIsNoOp(Program, t2, ul, v);
    assert Rerender(Program, t2, "People", props, s, Some(ul)) == (t2, Ok(ul));
  }

  /** The program's opening: mount `People`, then one tick that draws item `i`
      of the initial list. The `ul` ends with six `li` children, the first five
      the ones the mount created, the sixth a fresh one holding the drawn item. */
  lemma MountThenTick(t: Tree, container: NodeId, i: nat)
    requires Valid(t) && container in t.nodes && t.nodes[container].Element? && i < |InitialList|
    ensures Ranked(Program) &&
      var (t1, r1) := Init(Program, t, "People", container);
      r1.Ok? &&
      var ul := r1.value;
      var s := Tick(InitialState(Program, "People", None), i);
      var (t2, r2) := Rerender(Program, t1, "People", None, s, Some(ul));
      r2 == Ok(ul) && |ChildNodes(t2, ul)| == 6 &&
      ChildNodes(t2, ul)[..5] == ChildNodes(t1, ul) &&
      (forall j :: 0 <= j < 5 ==> Same(t1, t2, ChildNodes(t1, ul)[j])) &&
      t1.next <= ChildNodes(t2, ul)[5] &&
      Read(t2, ChildNodes(t2, ul)[5]) == ElementShape("li", map[], [TextShape(InitialList[i])]) &&
      Read(t2, ul) == UlShape(InitialList + [InitialList[i]])
  {
    MountPeople(t, container);
    var (t1, r1) := Init(Program, t, "People", container);
    TickGrowsList(t1, r1.value, InitialList, None, i);
  }

  /** The same opening, run on a document: `init(People)`, then one firing of
      the interval callback with drawn index `i`. `mountedDoc` is the document
      right after the mount and `mounted` the five `li` nodes it created: they
      stay the `ul`'s first five children, unchanged, and the sixth child is a
      node created after the mount. */
  method MountAndTick(doc: Dom.Document, container: NodeId, i: nat)
    returns (ul: NodeId, people: VDom.Component, ghost mountedDoc: Tree, ghost mounted: seq<NodeId>)
    requires Valid(doc.View()) && container in doc.nodes && doc.nodes[container].Element?
    requires i < |InitialList|
    modifies doc
    ensures Ranked(Program) && mountedDoc == Init(Program, old(doc.View()), "People", container).0
    ensures Valid(mountedDoc) && ul in mountedDoc.nodes && mounted == ChildNodes(mountedDoc, ul)
    ensures Valid(doc.View()) && ul in doc.nodes
    ensures fresh(people) && people.name == "People" && people.base == Some(ul)
    ensures people.state == map["list" := JList(InitialList + [InitialList[i]])]
    ensures |mounted| == 5 && |ChildNodes(doc.View(), ul)| == 6
    ensures ChildNodes(doc.View(), ul)[..5] == mounted
    ensures forall j :: 0 <= j < 5 ==> mounted[j] in mountedDoc.nodes && Same(mountedDoc, doc.View(), mounted[j])
    ensures mountedDoc.next <= ChildNodes(doc.View(), ul)[5]
    ensures Read(doc.View(), ChildNodes(doc.View(), ul)[5]) == LiShape(InitialList[i])
    ensures Read(doc.View(), ul) == UlShape(InitialList + [InitialList[i]])
  {
    ProgramRanked();
    MountThenTick(doc.View(), container, i);
    var r;
    r, people := VDom.InitMount(Program, doc, "People", container);
    ul := r.value;
    mountedDoc := doc.View();
    mounted := ChildNodes(mountedDoc, ul);
    assert ChildrenAfter(mountedDoc, ul);
    var r2 := TickOnce(people, doc, i);
    ghost var list := InitialList + [InitialList[i]];
    assert people.state == map["list" := JList(list)];
  }

  /** `setState({a: 1})` then `setState({b: 2})`, with the caller catching the
      exception each call raises: `People` cannot render either state, so each
      re-render throws before touching the document. Each call still replaces
      the whole state, so `a` is gone. */
  method ReplaceStateTwice(p: VDom.Component, doc: Dom.Document) returns (r1: Result<NodeId>, r2: Result<NodeId>)
    requires p.name == "People" && Valid(doc.View())
    requires p.base.Some? ==> p.base.value in doc.nodes
    modifies p, doc
    ensures r1 == Err(RenderError) && r2 == Err(RenderError)
    ensures p.state == map["b" := JInt(2)] && "a" !in p.state
    ensures p.props == old(p.props) && p.base == old(p.base)
    ensures doc.View() == old(doc.View())
  {
    ProgramRanked();
    r1 := p.SetState(Program, doc, map["a" := JInt(1)]);
    r2 := p.SetState(Program, doc, map["b" := JInt(2)]);
  }

  /** A pass that has to grow a child list by two appends one node only — the
      one rendered from the LAST description — and then diffs it against the
      FIRST missing description. Here: an empty `p` against the texts "x", "y"
      ends with one text child reading "x". */
  lemma GrowByTwoAppendsOne(t: Tree, p: NodeId)
    requires Ranked(Program) && Valid(t) && p in t.nodes && t.nodes[p] == Element("p", map[], [])
    ensures var (t', e) := Patch(Program, t, p, Hyperscript(Tag("p"), None, [Text("x"), Text("y")]));
      e.None? && |ChildNodes(t', p)| == 1 && Read(t', ChildNodes(t', p)[0]) == TextShape("x")
  {
    var kids := [Text("x"), Text("y")];
    var (t1, e1) := AppendLast(Program, t, p, kids);
    AppendYAtEnd(t, p, kids);
    var c := ChildNodes(t1, p)[0];
    assert Patch(Program, t, p, Hyperscript(Tag("p"), None, kids)) == PatchChildren(Program, t1, p, kids, 1);
    PatchChildrenStep(Program, t1, p, kids, 1);
    var t2 := SetNodeValue(t1, c, "x");
    assert Patch(Program, t1, c, Text("x")) == (t2, None);
    assert ChildNodes(t2, p) == [c];
  }

  /** The count check of that pass: "y" is rendered and appended. */
  lemma AppendYAtEnd(t: Tree, p: NodeId, kids: seq<VNode>)
    requires Ranked(Program) && Valid(t) && p in t.nodes && t.nodes[p] == Element("p", map[], [])
    requires kids == [Text("x"), Text("y")]
    ensures var (t1, e1) := AppendLast(Program, t, p, kids);
      e1.None? && |ChildNodes(t1, p)| == 1 && ChildrenAfter(t1, p) &&
      t1.nodes[ChildNodes(t1, p)[0]] == TextNode("y")
  {
    var (t0, c) := CreateTextNode(t, "y");
    assert Render(Program, t, Text("y")) == (t0, Ok(c));
    var (t1, e1) := AppendChild(t0, p, c);
    assert AppendLast(Program, t, p, kids) == (t1, e1);
    assert ChildNodes(t1, p) == [c];
  }
}
