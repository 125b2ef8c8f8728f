/** The host document as a mutable object: the same arena as `Host.Tree`, held
    in two fields that the host operations update in place. */
module Dom {
  import opened Js
  import opened Host

  class Document {
    var nodes: map<NodeId, DomNode>
    var next: NodeId

    /** The document's current state as a value. */
    function View(): Tree
      reads this
    {
      Tree(nodes, next)
    }

    /** An empty document. */
    constructor()
      ensures View() == Tree(map[], 0) && Valid(View())
    {
      nodes := map[];
      next := 0;
    }

    /** `document.createElement(tag)`. */
    method CreateElement(tag: string) returns (id: NodeId)
      modifies this
      ensures (View(), id) == Host.CreateElement(old(View()), tag)
    {
      id := next;
      nodes := nodes[id := Element(tag, map[], [])];
      next := next + 1;
    }

    /** `document.createTextNode(s)`. */
    method CreateTextNode(s: string) returns (id: NodeId)
      modifies this
      ensures (View(), id) == Host.CreateTextNode(old(View()), s)
    {
      id := next;
      nodes := nodes[id := TextNode(s)];
      next := next + 1;
    }

    /** `el.setAttribute(key, value)`. */
    method SetAttribute(el: NodeId, key: string, value: string)
      requires el in nodes && nodes[el].Element?
      modifies this
      ensures View() == Host.SetAttributes(old(View()), el, map[key := value])
    {
      var n := nodes[el];
      nodes := nodes[el := n.(attributes := n.attributes + map[key := value])];
    }

    /** `parent.appendChild(child)`; the outcome is the exception it throws. */
    method AppendChild(parent: NodeId, child: NodeId) returns (err: Option<Error>)
      requires parent in nodes
      modifies this
      ensures (View(), err) == Host.AppendChild(old(View()), parent, child)
    {
      match nodes[parent]
      case TextNode(_) =>
        err := Some(HierarchyRequestError);
      case Element(tag, a, ch) =>
        nodes := nodes[parent := Element(tag, a, ch + [child])];
        err := None;
    }

    /** `node.nodeValue = s`. */
    method SetNodeValue(id: NodeId, s: string)
      requires id in nodes
      modifies this
      ensures View() == Host.SetNodeValue(old(View()), id, s)
    {
      if nodes[id].TextNode? {
        nodes := nodes[id := TextNode(s)];
      }
    }
  }
}
