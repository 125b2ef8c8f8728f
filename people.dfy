/** The example program: the `People` component (a list rendered as a `ul`,
    growing by one item per timer tick) and the `App` component that embeds it,
    as a component registry for the reconciler. */
module People {
  import opened Js
  import opened Host
  import opened VNodes
  import opened Reconcile
  import opened Materialise
  import VDom
  import Dom

  /** The list the `People` constructor starts with. */
  const InitialList: seq<string> := ["a", "b", "c", "d", "e"]

  /** `h('li', null, item)`. */
  function Li(item: string): (v: VNode) {
    Hyperscript(Tag("li"), None, [Text(item)])
  }

  /** `state.list.map(item => h('li', null, item))`. */
  function Items(list: seq<string>): (kids: seq<VNode>) {
    seq(|list|, i requires 0 <= i < |list| => Li(list[i]))
  }

  /** `h('ul', null, ...list.map(item => h('li', null, item)))`. */
  function ListDesc(list: seq<string>): (v: VNode) {
    Hyperscript(Tag("ul"), None, Items(list))
  }

  /** `People.render(props, state)`. Without a list under `state.list` the
      `map` call throws. */
  function PeopleRender(state: State): (r: Option<VNode>)
    ensures r.Some? <==> "list" in state && state["list"].JList?
    ensures r.Some? ==>
      var list := state["list"].items;
      r.value.Desc? && r.value.nodeName == Tag("ul") && |r.value.children| == |list| &&
      forall i :: 0 <= i < |list| ==> r.value.children[i] == Li(list[i])
  {
    if "list" in state && state["list"].JList? then Some(ListDesc(state["list"].items))
    else None
  }

  /** `App.render(props)`. */
  function AppRender(): (v: VNode)
    ensures v.Desc? && v.nodeName == Tag("div") && v.attrs == Some(map["class" := "app"])
    ensures v.attributes == None && |v.children| == 2
    ensures v.children[1] == Hyperscript(Class("People"), None, [])
  {
    Hyperscript(Tag("div"), Some(map["class" := "app"]),
      [Hyperscript(Tag("h1"), None, [Text("Simple vDOM")]),
       Hyperscript(Class("People"), None, [])])
  }

  /** `component.render(props, state)` for the program's classes: `People`
      reads only the state, `App` reads nothing, and no other class exists. */
  function ProgramRender(name: string, props: Attrs, state: State): (r: Option<VNode>)
    ensures name == "People" ==> r == PeopleRender(state)
    ensures name == "App" ==> r == Some(AppRender())
    ensures name != "People" && name != "App" ==> r.None?
  {
    if name == "People" then PeopleRender(state)
    else if name == "App" then Some(AppRender())
    else None
  }

  /** The state each constructor assigns after `super(props)`. */
  function ProgramConstruct(name: string, props: Attrs): (r: Option<State>)
    ensures r.Some? <==> name == "People" || name == "App"
    ensures name == "People" ==> r.value.Keys == {"list"} && r.value["list"] == JList(InitialList)
    ensures name == "App" ==> r.value == map[]
  {
    if name == "People" then Some(map["list" := JList(InitialList)])
    else if name == "App" then Some(map[])
    else None
  }

  function ProgramRank(name: string): (r: nat) {
    if name == "App" then 1 else 0
  }

  /** The program's component classes: `People` and `App`; any other name is
      not a class of the program, and rendering it throws. */
  const Program: Registry := Registry(ProgramRender, ProgramConstruct, ProgramRank)

  /** A state `People` can be in: a non-empty list under `list`. */
  ghost predicate PeopleState(s: State) {
    "list" in s && s["list"].JList? && |s["list"].items| > 0
  }

  /** The timer callback's new state, `{list: [...list, list[i]]}`, with `i` the
      index `getRandomInt(0, list.length - 1)` drew. */
  function Tick(s: State, i: nat): (s': State)
    requires "list" in s && s["list"].JList? && i < |s["list"].items|
    ensures s'.Keys == {"list"} && s'["list"].JList?
    ensures var old_, new_ := s["list"].items, s'["list"].items;
      |new_| == |old_| + 1 && new_[..|old_|] == old_ && new_[|old_|] == old_[i] &&
      new_[|old_|] in old_
  {
    var list := s["list"].items;
    map["list" := JList(list + [list[i]])]
  }

  // ---- the registry is well founded ----

  lemma {:induction false} RankListZero(kids: seq<VNode>)
    requires forall i :: 0 <= i < |kids| ==> Rank(Program, kids[i]) == 0
    ensures RankList(Program, kids) == 0
    decreases |kids|
  {
    if kids != [] {
      RankListZero(kids[..|kids| - 1]);
    }
  }

  /** `People` renders no component; `App` renders only `People`. */
  lemma ProgramRanked()
    ensures Ranked(Program)
  {
    forall name: string, props: Attrs, state: State | Program.render(name, props, state).Some?
      ensures Rank(Program, Program.render(name, props, state).value) <= Program.rank(name)
    {
      if name == "People" {
        var kids := Items(state["list"].items);
        forall i | 0 <= i < |kids| ensures Rank(Program, kids[i]) == 0 {
          assert RankList(Program, kids[i].children) == 0;
        }
        RankListZero(kids);
      } else {
        var kids := AppRender().children;
        assert RankList(Program, kids[0].children) == 0;
        assert RankList(Program, kids) == Max(RankList(Program, kids[..1]), Rank(Program, kids[1]));
        assert kids[..1][..0] == [];
      }
    }
  }

  // ---- what People renders ----

  /** `render` reads `state.list` only: it renders a `ul` with one `li` per item,
      in list order, each holding exactly the item's text, whatever the props;
      without a list it throws. */
  lemma RenderListsItems(props: Attrs, props': Attrs, s: State)
    ensures Program.render("People", props, s) == Program.render("People", props', s)
    ensures Program.render("People", props, s).Some? <==> "list" in s && s["list"].JList?
    ensures Program.render("People", props, s).Some? ==>
      var v, list := Program.render("People", props, s).value, s["list"].items;
      v.Desc? && v.nodeName == Tag("ul") && v.attributes == None &&
      |v.children| == |list| &&
      forall i :: 0 <= i < |list| ==>
        v.children[i].Desc? && v.children[i].nodeName == Tag("li") &&
        v.children[i].attributes == None && v.children[i].children == [Text(list[i])]
  {
  }

  /** The tree an `li` item stands for. */
  function LiShape(item: string): (s: Shape) {
    ElementShape("li", map[], [TextShape(item)])
  }

  /** The tree a rendered list stands for. */
  function UlShape(list: seq<string>): (s: Shape) {
    ElementShape("ul", map[], seq(|list|, i requires 0 <= i < |list| => LiShape(list[i])))
  }

  lemma LiExpands(item: string)
    requires Ranked(Program)
    ensures Expand(Program, Li(item)) == Ok(LiShape(item))
  {
    var s := ElementShape("li", map[], []);
    assert ExpandInto(Program, s, [Text(item)]) == ExpandOne(Program, s, Text(item));
    assert s.children + [TextShape(item)] == [TextShape(item)];
  }

  /** A rendered list always materialises, as a `ul` without attributes whose
      children are the items' `li` trees in list order. */
  lemma ListExpands(list: seq<string>)
    requires Ranked(Program)
    ensures Expand(Program, ListDesc(list)) == Ok(UlShape(list))
  {
    var kids := Items(list);
    forall i | 0 <= i < |kids| ensures Expand(Program, kids[i]) == Ok(LiShape(list[i])) {
      LiExpands(list[i]);
    }
    var s := ElementShape("ul", map[], []);
    assert Expand(Program, Hyperscript(Tag("ul"), None, kids)) == ExpandInto(Program, s, kids);
    ExpandIntoAppends(Program, s, kids);
    var r := ExpandInto(Program, s, kids).value;
    assert r.children == UlShape(list).children;
  }

  /** The mounted `People` component stands for the `ul` of its initial list. */
  lemma PeopleExpands()
    requires Ranked(Program)
    ensures Expand(Program, Hyperscript(Class("People"), None, [])) == Ok(UlShape(InitialList))
  {
    ListExpands(InitialList);
  }

  /** `App`'s heading stands for an `h1` without attributes holding its text. */
  lemma HeadingExpands()
    requires Ranked(Program)
    ensures Expand(Program, AppRender().children[0]) ==
      Ok(ElementShape("h1", map[], [TextShape("Simple vDOM")]))
  {
    var e1 := ElementShape("h1", map[], []);
    var h1 := Hyperscript(Tag("h1"), None, [Text("Simple vDOM")]);
    assert AppRender().children[0] == h1;
    assert Expand(Program, h1) == ExpandInto(Program, e1, [Text("Simple vDOM")]);
    assert ExpandInto(Program, e1, [Text("Simple vDOM")]) == ExpandOne(Program, e1, Text("Simple vDOM"));
    assert Expand(Program, Text("Simple vDOM")) == Ok(TextShape("Simple vDOM"));
    assert e1.children + [TextShape("Simple vDOM")] == [TextShape("Simple vDOM")];
    assert ExpandOne(Program, e1, Text("Simple vDOM")) == Ok(ElementShape("h1", map[], [TextShape("Simple vDOM")]));
  }

  /** Because `hyperscript` stores its attribute object as `attrs` and
      `renderNode` reads `attributes`, `App`'s `div` never gets its `class`. */
  lemma AppDropsClass()
    requires Ranked(Program)
    ensures Expand(Program, Hyperscript(Class("App"), None, [])) ==
      Ok(ElementShape("div", map[],
        [ElementShape("h1", map[], [TextShape("Simple vDOM")]), UlShape(InitialList)]))
  {
    var kids := AppRender().children;
    HeadingExpands();
    assert kids[1] == Hyperscript(Class("People"), None, []);
    PeopleExpands();
    assert Expand(Program, kids[1]) == Ok(UlShape(InitialList));
    var s := ElementShape("div", map[], []);
    assert AppRender().attributes == None;
    assert Expand(Program, AppRender()) == ExpandInto(Program, s, kids);
    ExpandIntoAppends(Program, s, kids);
    var r := ExpandInto(Program, s, kids).value;
    assert r.children[0] == ElementShape("h1", map[], [TextShape("Simple vDOM")]);
    assert r.children[1] == UlShape(InitialList);
    assert r.children == [ElementShape("h1", map[], [TextShape("Simple vDOM")]), UlShape(InitialList)];
    assert Expand(Program, Hyperscript(Class("App"), None, [])) == ExpandInto(Program, r, []);
  }

  /** `hyperscript` as the rest of the code reads it: the attribute object
      stored under `attributes`. */
  function HyperscriptAttributes(nodeName: Kind, attrs: Attrs, children: seq<VNode>): (v: VNode)
    ensures v.Desc? && v.nodeName == nodeName && v.attributes == attrs && v.children == children
  {
    Desc(nodeName, attrs, attrs, children)
  }

  /** With that builder, an element built with an attribute object shows exactly
      those attributes once rendered, whatever its children; it materialises
      exactly when every child does, and its children are their trees in
      order (a lone text child, say, is kept as its only child). */
  lemma CorrectedBuilderKeepsAttributes(reg: Registry, tag: string, m: map<string, string>, kids: seq<VNode>)
    requires Ranked(reg)
    ensures var r := Expand(reg, HyperscriptAttributes(Tag(tag), Some(m), kids));
      r.Ok? ==> r.value.ElementShape? && r.value.tag == tag && r.value.attributes == m
    ensures Expand(reg, HyperscriptAttributes(Tag(tag), Some(m), kids)).Ok? <==>
      forall i :: 0 <= i < |kids| ==> Expand(reg, kids[i]).Ok?
    ensures var r := Expand(reg, HyperscriptAttributes(Tag(tag), Some(m), kids));
      r.Ok? ==>
        |r.value.children| == |kids| &&
        forall i :: 0 <= i < |kids| ==> r.value.children[i] == Expand(reg, kids[i]).value
    ensures |kids| == 1 && kids[0].Text? ==>
      Expand(reg, HyperscriptAttributes(Tag(tag), Some(m), kids)) ==
      Ok(ElementShape(tag, m, [TextShape(kids[0].s)]))
  {
    var s := ElementShape(tag, m, []);
    assert Expand(reg, HyperscriptAttributes(Tag(tag), Some(m), kids)) == ExpandInto(reg, s, kids);
    ExpandIntoAppends(reg, s, kids);
    if |kids| == 1 && kids[0].Text? {
      assert kids[0] == Text(kids[0].s);
      assert Expand(reg, kids[0]) == Ok(TextShape(kids[0].s));
    }
  }

  /** `App.render` with the corrected builder. */
  function AppRenderCorrected(): (v: VNode)
    ensures v.Desc? && v.nodeName == Tag("div") && |v.children| == 2
  {
    HyperscriptAttributes(Tag("div"), Some(map["class" := "app"]),
      [HyperscriptAttributes(Tag("h1"), None, [Text("Simple vDOM")]),
       HyperscriptAttributes(Class("People"), None, [])])
  }

  /** With the corrected builder, `App`'s `div` does get `class="app"`, and it
      still holds the heading and the list. */
  lemma AppKeepsClassWhenCorrected()
    requires Ranked(Program)
    ensures Expand(Program, AppRenderCorrected()).Ok?
    ensures var r := Expand(Program, AppRenderCorrected()).value;
      r.ElementShape? && r.tag == "div" && r.attributes == map["class" := "app"] &&
      |r.children| == 2 && r.children[1] == UlShape(InitialList)
  {
    var kids := AppRenderCorrected().children;
    var e1 := ElementShape("h1", map[], []);
    assert kids[0] == HyperscriptAttributes(Tag("h1"), None, [Text("Simple vDOM")]);
    assert Expand(Program, kids[0]) == ExpandInto(Program, e1, [Text("Simple vDOM")]);
    assert ExpandInto(Program, e1, [Text("Simple vDOM")]) == ExpandOne(Program, e1, Text("Simple vDOM"));
    assert kids[1] == Desc(Class("People"), None, None, []);
    assert kids[1] == Hyperscript(Class("People"), None, []);
    PeopleExpands();
    var s := ElementShape("div", map["class" := "app"], []);
    assert Expand(Program, AppRenderCorrected()) == ExpandInto(Program, s, kids);
    ExpandIntoAppends(Program, s, kids);
  }

  // ---- the timer tick ----

  /** The state the constructor sets is a `People` state, and every tick keeps it
      one. */
  lemma TickKeepsPeopleState(s: State, i: nat)
    requires PeopleState(s) && i < |s["list"].items|
    ensures PeopleState(InitialState(Program, "People", None))
    ensures PeopleState(Tick(s, i))
    ensures Tick(s, i)["list"].items[..|s["list"].items|] == s["list"].items
  {
  }

  /** One firing of the interval callback: `this.setState({list: [...]})`. */
  method TickOnce(p: VDom.Component, doc: Dom.Document, i: nat) returns (r: Result<NodeId>)
    requires p.name == "People" && PeopleState(p.state) && i < |p.state["list"].items|
    requires Valid(doc.View()) && (p.base.Some? ==> p.base.value in doc.nodes)
    modifies p, doc
    ensures p.state == Tick(old(p.state), i) && p.props == old(p.props)
    ensures Ranked(Program) &&
      (doc.View(), r) == Rerender(Program, old(doc.View()), "People", p.props, p.state, old(p.base))
    ensures p.base == if r.Ok? then Some(r.value) else old(p.base)
  {
    ProgramRanked();
    r := p.SetState(Program, doc, Tick(p.state, i));
  }
}
