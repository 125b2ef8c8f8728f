# A verified model of a minimal virtual-DOM reconciler

This project models the reconciler in `vDOM.js` and the components that use it.

- `hyperscript` builds node descriptions.
- `renderNode` turns a description into real document nodes.
- `diff` reconciles an existing node against a new description, in place.
- `renderComponent` and `Component.setState` re-render a component.
- `init` mounts a root component.

The model also covers the example program: a `People` component renders a list as a `ul` of `li` items, and a timer appends one item per tick. The `App` component, which embeds `People`, appears as an input to the lemmas.

The model has three layers.

- **Document and descriptions.**
  - `Host.Tree` is the document: an arena of numbered nodes. `Host.Valid` says that children are numbered above their parent, which rules out cycles.
  - `Dom.Document` is the same state held in a mutable object. Its methods are the document calls the reconciler makes.
  - `VNodes.VNode` is a description. It carries both fields a description object can have: `attrs`, which `hyperscript` fills, and `attributes`, which `renderNode` and `diff` read.
  - `VNodes.Registry` is a program's component classes: `render`, the state set after `super(props)`, and a rank that makes rendering terminate.
- **Specification functions** (`Reconcile`). `Render`, `Patch`, `Diff`, `Rerender` and `Init` map a document to the document the JavaScript leaves behind, together with its outcome. When the code throws, the outcome is the exception and the document is the partly mutated one.
  - `Materialise.Expand` is an independent reference definition: the tree value a description stands for.
  - `Host.Read` reads a subtree back as such a value.
- **Imperative layer** (`VDom`). `RenderNode`, `PatchNode`, `PatchChildNodes`, `DiffNode` and `InitMount` are methods that mutate a `Dom.Document` step by step, with the source's `forEach` loops as `while` loops. `VDom.Component` is a class with `props`, `state` and `base` fields.
  - Every method is proved to leave exactly the document, and return exactly the outcome, that the matching `Reconcile` function computes.
  - The properties of the source are proved about those functions: in `Materialise`, `DiffProperties`, `People` and `Scenario`.

`diff` has a simple child policy, and the model proves its consequences:

- `diff` never removes, reorders or re-attributes anything.
- When the child counts differ, it appends at most one node per pass. That node is rendered from the last description child.
- It then diffs the live child list position by position, so a shrinking list throws.
- A list that grows by two or more in one pass gains one node only, which is then diffed against the first missing description (`DiffProperties.GrowByMore`).

End to end, `init(People)` mounts a `ul` of five `li` nodes. One tick followed by `setState` leaves six: the first five are the same nodes, unchanged, and the sixth is a fresh `li` with the drawn item. The whole `ul` then reads as the new list (`Scenario.MountThenTick`).

The model follows the code as written:

- `hyperscript` stores the attribute object as `attrs`, while `renderNode` and `diff` read `attributes` (vDOM.js:15, 69, 103). It does not flatten nested child sequences.
- A `diff` changes nothing when the node is already in step with the description (`DiffProperties.PatchInSyncIsNoOp`). In particular, diffing a freshly mounted description again changes nothing when no component in it is given children of its own (`DiffProperties.Settled`, `DiffProperties.RemountIsNoOp`).
- A component given children of its own breaks every later `diff`. `renderNode` appends those children to the node the component's `render` gave (vDOM.js:40), while `diff` of a component looks only at its `render` (vDOM.js:68-73). That node then has more children than the render's description, so every pass on it throws (`DiffProperties.ComponentChildrenBreakDiff`, `DiffProperties.ComponentPassThrows`).

## Model

| member | source | states |
|---|---|---|
| Js.AttrMap | vDOM.js:25 | a `for..in` loop visits exactly the entries of the attribute object, and none when it is absent |
| VNodes.Hyperscript | vDOM.js:102-104 | the description holds the node name and the children as given, and the attribute object under `attrs`; `attributes` is absent |
| VNodes.InitialState | Component.js:4-7 | a new instance's state is `{}` unless its class's constructor assigns one after `super(props)`, in which case it is that one |
| Host.ChildNodes | vDOM.js:77-84 | `node.childNodes`: an element's children in order; a text node has none |
| Host.CreateElement | vDOM.js:24 | the new element is a fresh node with that tag, no attributes and no children; every existing node is unchanged |
| Host.CreateTextNode | vDOM.js:19 | the new text node is fresh and holds exactly the string; every existing node is unchanged |
| Host.SetAttributes | vDOM.js:25-27 | the entries set override the element's earlier ones; no other node changes; the document stays well formed |
| Host.SetAttributesTwice | vDOM.js:25-27 | setting two batches of attributes one after the other is the same as setting their union |
| Host.SetAttributesNone | vDOM.js:25 | a `for..in` over an absent attribute object sets nothing |
| Host.AppendChild | vDOM.js:40 | it throws exactly when the parent is a text node, and then changes nothing; otherwise the child is added as the parent's last child and no other node changes |
| Host.SetNodeValue | vDOM.js:65 | assigning `nodeValue` replaces a text node's string and does nothing to an element |
| Dom.Document.CreateElement | vDOM.js:24 | the document's new state and the returned id are those of `Host.CreateElement`, and the same holds for each method below and its `Host` function |
| Dom.Document.CreateTextNode | vDOM.js:19 | the new state and id are those of `Host.CreateTextNode` |
| Dom.Document.SetAttribute | vDOM.js:26 | the new state is that of `Host.SetAttributes` with the one entry |
| Dom.Document.AppendChild | vDOM.js:40 | the new state and the exception thrown are those of `Host.AppendChild` |
| Dom.Document.SetNodeValue | vDOM.js:65 | the new state is that of `Host.SetNodeValue` |
| Reconcile.Render | vDOM.js:13-42 | rendering only adds fresh nodes: every existing node is untouched, the document stays well formed, and the returned root is fresh |
| Reconcile.AppendChildren | vDOM.js:40 | the children loop changes no node but `el`, which only gains children; the document stays well formed |
| Reconcile.AppendOne | vDOM.js:40 | rendering one child and appending it changes no existing node but `el` |
| Reconcile.Patch | vDOM.js:59-86 | diffing an existing node only grows the document: no node is removed, retyped, re-tagged or re-attributed, and no child list loses or reorders an entry; nodes numbered below `d` are untouched |
| Reconcile.AppendLast | vDOM.js:77-80 | the count check's repair changes no node but `d` |
| Reconcile.PatchChildren | vDOM.js:84 | the loop over child positions only grows the document and leaves `d` and every node below it untouched |
| Reconcile.Diff | vDOM.js:59-93 | `diff` only grows the document, and a node it returns is in the document |
| Reconcile.Rerender | vDOM.js:50-53 | `renderComponent` only grows the document, and the node it returns is in the document |
| Reconcile.Init | vDOM.js:112-116 | `init` only grows the document, and the mounted node is in the document |
| Reconcile.AppendChildrenStops | vDOM.js:40 | once a child's rendering or appending has thrown, no later child is rendered |
| Reconcile.PatchChildrenStops | vDOM.js:84 | once a position's `diff` has thrown, the later positions are never visited |
| Reconcile.PatchChildrenNext | vDOM.js:84 | each position rereads the live child list, which the earlier positions left exactly as it was: a position past its end is skipped; a position past the descriptions throws a TypeError; otherwise `diff` runs on the child at that position |
| Reconcile.AppendChildrenSnoc | vDOM.js:40 | the children loop over one more child is the shorter loop followed, when that threw nothing, by rendering and appending the extra child |
| Reconcile.AppendChildrenNext | vDOM.js:40 | when the first `i` children went in, the next step renders child `i` into the document they left |
| Reconcile.PatchChildrenTakes | vDOM.js:84 | after the earlier positions, the loop's state after position `n` is whatever `diff` of the live child `n` against description `n` leaves |
| Reconcile.PatchChildrenThrown | vDOM.js:84 | a thrown exception ends the loop |
| Materialise.Expand | vDOM.js:13-42 | a string stands for a text node holding it; an element description stands for an element with its tag, exactly the entries of its `attributes`, and one child per description child; a component stands for a tree only when its `render` returns |
| Materialise.ExpandInto | vDOM.js:40 | adding no children gives the value back; adding some needs an element, and keeps its tag and attributes and adds exactly that many children |
| Materialise.ExpandOne | vDOM.js:40 | adding one child needs an element, keeps its tag, attributes and existing children, and adds exactly one child after them |
| Materialise.ExpandIntoAppends | vDOM.js:40 | adding description children to a tree value succeeds exactly when every child denotes a tree and, if there is any, the value is an element; the tag, the attributes and the existing children are kept and the children's trees follow them in order |
| Materialise.RenderBuildsExpansion | vDOM.js:13-42 | `renderNode` succeeds exactly when the description denotes a tree, otherwise fails with the same exception, and on success the new root reads back as exactly that tree |
| Materialise.AppendChildrenBuildsExpansion | vDOM.js:40 | the children loop adds to `el` exactly the children's trees, or fails just as adding them to `el`'s tree value fails |
| Materialise.AppendOneBuildsExpansion | vDOM.js:40 | rendering and appending one child adds its tree as `el`'s last child, or fails with the same exception |
| Materialise.AppendReadsBack | vDOM.js:40 | after a successful `appendChild` the parent reads as before, with the child's tree added last |
| Materialise.HyperscriptAttrsIgnored | vDOM.js:102-104 | the attribute object given to `hyperscript` has no effect on rendering, and an element built by `hyperscript` is created without attributes |
| DiffProperties.ExpansionMatches | vDOM.js:13-42 | the tree a settled description stands for is in step with that description |
| DiffProperties.PatchInSyncIsNoOp | vDOM.js:59-85 | `diff` of a node that is already in step with the description changes nothing and throws nothing |
| DiffProperties.PatchChildrenInSync | vDOM.js:84 | when the children are in step with the descriptions, the loop over them changes nothing |
| DiffProperties.ChildInSync | vDOM.js:84 | when a child list is in step, each live child has a description and is in step with it |
| DiffProperties.PatchChildrenStep | vDOM.js:84 | when the earlier positions changed nothing, position `n` is `diff` of the `n`-th live child against the `n`-th description |
| DiffProperties.RemountIsNoOp | vDOM.js:59-85 | diffing a freshly rendered settled description against that same description changes nothing |
| DiffProperties.AppendLastRendersLast | vDOM.js:77-80 | with no description children the repair throws a TypeError and changes nothing; on failure the child list is unchanged; on success the node is an element and gains exactly one fresh last child, which reads as the tree of the LAST description |
| DiffProperties.PatchAppendsAtMostOne | vDOM.js:77-84 | `diff` on an element keeps its tag and attributes and its children as a prefix; equal counts leave the child list unchanged; otherwise at most one fresh node is appended, and exactly one if the pass succeeds |
| DiffProperties.PatchChildrenFailsPastDescriptions | vDOM.js:84 | the loop throws when there are more live children than descriptions |
| DiffProperties.PatchShrinkFails | vDOM.js:77-84 | fewer descriptions than children always throws; with none at all it throws a TypeError before changing anything |
| DiffProperties.ComponentPassThrows | vDOM.js:68-84 | `diff` of a component whose `render` gives an element description with fewer children than the node has always throws, and the node still has more children than that afterwards, so the next pass throws too |
| DiffProperties.ComponentMountShape | vDOM.js:29-40 | a component given children of its own is mounted as the node its render gave: that node's tag and attributes, the render's children first, then the trees of the component's own children in order |
| DiffProperties.ComponentExpandShape | vDOM.js:29-40 | the tree of such a component is an element with the tag and attributes of the render's tree, the render's children, then the trees of the description's own children in order |
| DiffProperties.ComponentChildrenBreakDiff | vDOM.js:29-84 | after mounting a component given children of its own, the node has as many children as the render's description and the component's own together, and the first `diff` against the same description throws |
| DiffProperties.GrowByOne | vDOM.js:77-84 | N children in step with the first N of N+1 descriptions: the pass succeeds, changes no node but the parent, keeps the N children and appends one fresh node that reads as the tree of the new description; the parent is then in step with it |
| DiffProperties.PatchChildrenPrefixInSync | vDOM.js:84 | the loop over positions whose live children are in step with their descriptions changes nothing |
| DiffProperties.GrowByMore | vDOM.js:77-84 | N children in step with the first N of at least N+2 descriptions: the repair appends ONE fresh node built from the LAST description, after the N untouched children; the pass is then `diff` of that node against description N, and when it succeeds the element has exactly N+1 children |
| DiffProperties.AppendLastInSync | vDOM.js:77-80 | the count check's repair, on a child list in step with all but the last description, appends the last description's tree and leaves the list in step |
| DiffProperties.AppendOneMatches | vDOM.js:78-79 | appending a node in step with the last description to a list in step with the others leaves the whole list in step |
| DiffProperties.MatchesSnoc | vDOM.js:84 | extending two lists in step with one pair in step keeps them in step |
| DiffProperties.DiffExistingKeepsIdentity | vDOM.js:60-86 | `diff` of an existing node returns that same node and only grows the document, leaving every node below it untouched |
| DiffProperties.DiffMountsFresh | vDOM.js:87-92 | with no existing node, `diff` succeeds exactly when the description denotes a tree and the parent is an element; the new node is fresh, is the parent's new last child, reads as that tree, and no other node changes |
| DiffProperties.DiffTextInPlace | vDOM.js:63-66 | `diff` of an existing node against a string returns the same node with its text replaced, and nothing else changes |
| VDom.Component.constructor | Component.js:4-7 | a new instance keeps the props given and starts with the empty state, or the state its subclass constructor assigns; it has no node yet |
| VDom.Component.RenderComponent | vDOM.js:50-53 | the document and outcome are those of `renderComponent`; props and state are unchanged; `base` becomes the returned node on success and is left as it was when the code throws |
| VDom.Component.SetState | Component.js:9-12 | the state becomes exactly `s`, so no old key survives; the props never change; the re-render uses the new state |
| VDom.RerenderKeepsBase | vDOM.js:52 | a re-render of a mounted component succeeds exactly when `render` and `diff` succeed, and then returns the old `base` node |
| VDom.ApplyAttributes | vDOM.js:25-27 | the attribute loop, in any key order, leaves the document of `Host.SetAttributes` |
| VDom.RenderNode | vDOM.js:13-42 | the document and outcome are those of `Reconcile.Render`; a component description yields a fresh instance with those props and the initial state, whose `base` is the render's node as soon as that was rendered, even when appending the description's own children then throws, and stays unset when the render throws |
| VDom.AppendRendered | vDOM.js:40 | the document and exception are those of `Reconcile.AppendOne` |
| VDom.AppendRenderedChildren | vDOM.js:40 | the document and exception are those of `Reconcile.AppendChildren` |
| VDom.PatchNode | vDOM.js:59-86 | the document and exception are those of `Reconcile.Patch` |
| VDom.PatchElement | vDOM.js:76-85 | for an element description, the document and exception are those of `Reconcile.Patch`: the count check and its repair, then the loop over the children |
| VDom.PatchChildNodes | vDOM.js:84 | the document and exception are those of `Reconcile.PatchChildren` over the length the list had at the start |
| VDom.DiffNode | vDOM.js:59-93 | the document and outcome are those of `Reconcile.Diff`; a component mounted without an existing node yields its fresh instance |
| VDom.InitMount | vDOM.js:112-116 | the document and outcome are those of `Reconcile.Init`; the root instance is fresh, has no props, has the initial state, and its `base` is the mounted node |
| People.PeopleRender | People.js:28-35 | `render` returns exactly when the state has a list under `list`, and then gives a `ul` description with one `li` description per item, in order |
| People.AppRender | App.js:12-19 | `render` gives a `div` description with the object `{class: 'app'}` under `attrs`, nothing under `attributes`, and two children, the second a bare `People` description |
| People.ProgramRender | People.js:28-35 | `component.render` for the program: `People` renders from its state alone, `App` always gives its `div` (App.js:12-19), and no other class exists |
| People.ProgramConstruct | People.js:7-9 | `People`'s constructor assigns a state whose only key is `list`, holding the initial list; `App`'s assigns `{}` (App.js:9); no other class exists |
| People.HeadingExpands | App.js:15-17 | `App`'s heading stands for an `h1` without attributes holding the text `Simple vDOM` |
| People.Tick | People.js:21-24 | the new state has only the key `list`; the list is the old one plus exactly one item, at the end, and that item is already in the old list |
| People.TickKeepsPeopleState | People.js:7-9 | the constructor's state has a non-empty list, and every tick keeps it non-empty, with the old list as a prefix |
| People.ProgramRanked | People.js:28-35 | `People` renders no component and `App` renders only `People`, so rendering the program terminates |
| People.RankListZero | People.js:32-34 | a list of descriptions without components mentions no class |
| People.RenderListsItems | People.js:28-35 | `render` depends on `state` only: it gives a `ul` with one `li` per list item, in order, each holding exactly the item's text; it throws without a list |
| People.LiExpands | People.js:32-34 | an item stands for an `li` without attributes whose only child is the item's text |
| People.ListExpands | People.js:29-34 | a rendered list always materialises, as a `ul` without attributes with the items' `li` trees in list order |
| People.PeopleExpands | People.js:7-9 | a `People` description stands for the `ul` of `['a','b','c','d','e']` |
| People.AppDropsClass | App.js:13-18 | `App` materialises as a `div` WITHOUT its `class` attribute, followed by the `h1` and the `People` list |
| People.HyperscriptAttributes | vDOM.js:102-104 | the corrected builder stores the attribute object under `attributes` |
| People.CorrectedBuilderKeepsAttributes | vDOM.js:102-104 | with the corrected builder an element built from any children shows exactly the attributes it was built with, materialises exactly when every child does, and has the children's trees as its children, in order |
| People.AppRenderCorrected | App.js:12-19 | `App.render` with the corrected builder is a `div` description with two children |
| People.AppKeepsClassWhenCorrected | App.js:13-18 | with the corrected builder `App` materialises as a `div` WITH `class="app"`, whose second child is the `People` list |
| People.TickOnce | People.js:21-25 | one firing of the interval callback: the state becomes the tick's state and the document is the re-render's |
| Scenario.MountPeople | vDOM.js:112-116 | `init(People)` succeeds exactly when the container is an element and otherwise throws a HierarchyRequestError; on success it appends one fresh node, which reads as the `ul` of the initial list, and no other node changes |
| Scenario.ListInSync | People.js:28-35 | a `ul` that reads as a list is in step with that list's description |
| Scenario.ReadAppended | vDOM.js:78-79 | a node that only gained a last child reads as before with that child's tree added |
| Scenario.GrowList | vDOM.js:77-84 | diffing a `ul` that shows a list against the list with one more item appends one fresh node, which reads as that item's `li`; no other node changes, and the `ul` is then in step |
| Scenario.ReadGrownList | vDOM.js:77-84 | after that pass every old `li` is untouched and reads as before, and the `ul` reads as the longer list |
| Scenario.TickGrowsList | People.js:22-24 | one tick on a `ul` showing any list: the re-render returns the same `ul`, keeps every old `li` node unchanged, appends one fresh `li` with the drawn item, changes no other node, and leaves the `ul` showing the new list; re-rendering again with the same state changes nothing |
| Scenario.MountThenTick | People.js:21-35 | mount, then one tick: the `ul` has six children, the first five being the mounted ones, unchanged, and the sixth a fresh `li` with the drawn item |
| Scenario.MountAndTick | People.js:21-25 | as `MountThenTick`, on a document object: the instance's `base` is the `ul` and its state is the six-item list; the `ul`'s first five children are exactly the nodes the mount created, each unchanged since the mount, and the sixth is numbered above every node of the mounted document and reads as the drawn item's `li` |
| Scenario.ReplaceStateTwice | Component.js:9-12 | `setState({a: 1})` followed by `setState({b: 2})` leaves exactly `{b: 2}` with no `a`, and the props and `base` as they were; on `People`, whose `render` throws without a list, each re-render throws and the document is unchanged |
| Scenario.GrowByTwoAppendsOne | vDOM.js:77-84 | growing an empty element by two text descriptions in one pass appends one node only; it is rendered from the last description and then diffed against the first, so it ends up holding the first one's text |
| Scenario.AppendYAtEnd | vDOM.js:78-79 | that pass's repair renders the last description and appends it as the only child |

## Left out

- The real `document` API (`createElement`, `createTextNode`, `setAttribute`, `appendChild`, `nodeValue`) is modelled as the abstract arena `Host.Tree`. Only the cases the reconciler reaches are modelled: an appended child is always fresh, so `appendChild`'s moving of a node that already has a parent is not modelled.
- `document.querySelector('#root')` in `init` is host lookup. The container is a parameter instead.
- `setInterval` and the interval's lifetime (the `timer` field) are left out. A tick is one call of `People.TickOnce`. The fact that every `diff` of a `People` description constructs a throwaway instance with a timer of its own is left out too.
- `Math.random`, `Math.ceil` and `Math.floor` in `getRandomInt` use floating point. The drawn index is a parameter `i` with `0 <= i < |list|`.
- People.Tick: requires a non-empty list. On an empty list the source appends `undefined`, which the model's values cannot hold. Its state never has an empty list (`People.TickKeepsPeopleState`).
- VDom.RenderNode: the model follows only the instance a call returns. The instances that rendering creates for nested components are not returned, nor are the throwaway instances that `diff` creates (vDOM.js:69). In the source these do matter, because each `People` instance starts its own interval (People.js:21-25). The callback reads that instance's state and re-renders it, reading its `props`, `state` and `base` (vDOM.js:51-52). In an `App` mount it is the nested `People` whose ticks grow the list. A throwaway instance's `base` stays `undefined`, so each of its ticks renders a detached tree and throws at vDOM.js:90. These instances and the timers that drive them are outside the model: a tick is modelled only for an instance the model holds (`People.TickOnce`).
- VDom.DiffNode: its postcondition about the instance covers only the mount path. Patching an existing node returns no instance.
- JavaScript type tests (`Object.prototype.toString`, `typeof`) are replaced by the description type's two cases. A `nodeName` that is neither a string nor a function cannot be represented.
- `setState` with a non-object argument, and state values other than strings, numbers and string lists, are not modelled. `Object.assign({}, s)` is the identity on a map.
- `createElement` and `setAttribute` never throw in the model. A browser throws an InvalidCharacterError for a name that is not a valid XML name.
- HTML documents lower-case tag and attribute names; the model stores them as given.
- The exception kinds are reduced to three: TypeError, HierarchyRequestError and the exception a component's `render` throws.
- Termination: the model requires the component classes to be ranked (`VNodes.Ranked`), so that no class renders a class of its own rank or above. A component that renders itself recurses forever in JavaScript and is outside the model.
- The repository's second copy of `Component` (Component.js) is identical to the one in vDOM.js:118-128. Both are modelled by `VDom.Component`.

## Findings

| source | as written | input that shows it | evidently intended | confidence | as-written member | corrected member |
|---|---|---|---|---|---|---|
| vDOM.js:103 | `hyperscript` returns `{nodeName, attrs, children}`, but `renderNode` and `diff` read `vnode.attributes` (vDOM.js:15, 69). So no `hyperscript`-built element gets attributes, and every component gets `undefined` props | `h('div', {class: 'app'}, ...)` in `App.render` (App.js:13-14) | the `div` is created with `class="app"` | high; not executed | People.AppDropsClass | People.CorrectedBuilderKeepsAttributes |

The corrected builder, `People.HyperscriptAttributes`, stores the object under `attributes`. `People.CorrectedBuilderKeepsAttributes` proves that an element built with it, from any children, shows exactly its attributes and its children's trees. `People.AppKeepsClassWhenCorrected` proves that `App`'s `div` then gets `class="app"`. The rest of the model keeps the builder as written, because the reconciler's behaviour on the program's real descriptions is what it describes. The `People` component builds every element with a `null` attribute object, so either builder leads to the same documents for it.
