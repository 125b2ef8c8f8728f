/** Node descriptions (the "virtual DOM"), the `hyperscript` builder, and the
    component classes a program defines. */
module VNodes {
  import opened Js

  /** A description's `nodeName`: an element tag (a string) or a component class
      (a constructor, identified here by its name). */
  datatype Kind = Tag(name: string) | Class(name: string)

  /** A description is a string (a text node) or an object. The object carries
      both fields a description can have: `attrs`, which `hyperscript` fills, and
      `attributes`, the one `renderNode` and `diff` read. */
  datatype VNode =
    | Text(s: string)
    | Desc(nodeName: Kind, attrs: Attrs, attributes: Attrs, children: seq<VNode>)

  /** `hyperscript(nodeName, attrs, ...children)`: the arguments stored as they
      are, under the field name `attrs`; `attributes` stays absent. */
  function Hyperscript(nodeName: Kind, attrs: Attrs, children: seq<VNode>): (v: VNode)
    ensures v.Desc? && v.nodeName == nodeName && v.children == children
    ensures v.attrs == attrs && v.attributes == None
  {
    Desc(nodeName, attrs, None, children)
  }

  /** The component classes of a program. `render(name, props, state)` is the
      class's `render` method (None: it throws); `construct(name, props)` is the
      state its constructor assigns after `super(props)` (None: it assigns none);
      `rank` orders classes so that a class renders only classes of lower rank. */
  datatype Registry = Registry(
    render: (string, Attrs, State) -> Option<VNode>,
    construct: (string, Attrs) -> Option<State>,
    rank: string -> nat)

  /** The state of `new C(props)`: the base constructor sets `{}`, then the
      subclass constructor may replace it. */
  function InitialState(reg: Registry, name: string, props: Attrs): (s: State)
    ensures reg.construct(name, props).None? ==> s == map[]
    ensures reg.construct(name, props).Some? ==> s == reg.construct(name, props).value
  {
    match reg.construct(name, props)
    case None => map[]
    case Some(s) => s
  }

  function Max(a: nat, b: nat): (m: nat) { if a < b then b else a }

  function KindRank(reg: Registry, k: Kind): (r: nat) {
    match k
    case Tag(_) => 0
    case Class(name) => reg.rank(name) + 1
  }

  /** One more than the highest rank of a class the description mentions (0 if it
      mentions none). */
  function Rank(reg: Registry, v: VNode): (r: nat)
    decreases v
  {
    match v
    case Text(_) => 0
    case Desc(k, _, _, kids) => Max(KindRank(reg, k), RankList(reg, kids))
  }

  function RankList(reg: Registry, kids: seq<VNode>): (r: nat)
    decreases kids
  {
    if kids == [] then 0
    else Max(RankList(reg, kids[..|kids| - 1]), Rank(reg, kids[|kids| - 1]))
  }

  /** No class renders a class of its own rank or above, so materialising a
      description terminates. */
  ghost predicate Ranked(reg: Registry) {
    forall name, props, state :: reg.render(name, props, state).Some? ==>
      Rank(reg, reg.render(name, props, state).value) <= reg.rank(name)
  }

  lemma {:induction false} RankListBound(reg: Registry, kids: seq<VNode>, k: nat)
    requires k < |kids|
    ensures Rank(reg, kids[k]) <= RankList(reg, kids)
    decreases |kids|
  {
    if k < |kids| - 1 {
      RankListBound(reg, kids[..|kids| - 1], k);
    }
  }
}
