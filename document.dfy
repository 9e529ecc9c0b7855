/** The document: an ordered list of nodes, each with an ID, an author and a text. */
module Document {

  datatype Node = Node(id: int, author: string, text: string)

  /** A freshly created node, with no text yet. */
  function NewNode(id: int, author: string): (n: Node)
    ensures n.id == id && n.author == author && n.text == ""
  {
    Node(id, author, "")
  }

  /** The position of the first node with ID `id`, or -1 when there is none. */
  function IndexOf(nodes: seq<Node>, id: int): (r: int)
    ensures -1 <= r < |nodes|
    ensures r == -1 <==> forall j :: 0 <= j < |nodes| ==> nodes[j].id != id
    ensures r >= 0 ==> nodes[r].id == id && forall j :: 0 <= j < r ==> nodes[j].id != id
  {
    IndexFrom(nodes, id, 0)
  }

  /** The position of the first node at or after `k` with ID `id`, or -1. */
  function IndexFrom(nodes: seq<Node>, id: int, k: nat): (r: int)
    requires k <= |nodes|
    ensures -1 <= r < |nodes|
    ensures r == -1 <==> forall j :: k <= j < |nodes| ==> nodes[j].id != id
    ensures r >= 0 ==> k <= r && nodes[r].id == id && forall j :: k <= j < r ==> nodes[j].id != id
    decreases |nodes| - k
  {
    if k == |nodes| then -1
    else if nodes[k].id == id then k
    else IndexFrom(nodes, id, k + 1)
  }

  class Document {
    var nodes: seq<Node>

    /** An empty document. */
    constructor ()
      ensures nodes == []
    {
      nodes := [];
    }

    /** A copy of `document`: the same nodes in the same order. */
    constructor Copy(document: Document)
      ensures nodes == document.nodes
    {
      nodes := document.nodes;
    }

    /** Scans the nodes from the front and returns the first index holding `nodeId`. */
    method FindNodeIndex(nodeId: int) returns (i: int)
      ensures i == IndexOf(nodes, nodeId)
    {
      for k := 0 to |nodes|
        invariant forall j :: 0 <= j < k ==> nodes[j].id != nodeId
      {
        if nodes[k].id == nodeId {
          return k;
        }
      }
      return -1;
    }
  }
}
