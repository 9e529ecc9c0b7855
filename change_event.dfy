/**
 * The edits a client can make to a document, and their effect. `Effect`
 * is None exactly where the source's list operation throws an
 * IndexOutOfBoundsException (a move to a position outside the list).
 */
module ChangeEvent {
  import opened Wrappers
  import opened Document

  function RemoveAt<T>(s: seq<T>, i: nat): seq<T>
    requires i < |s|
  {
    s[..i] + s[i + 1..]
  }

  function InsertAt<T>(s: seq<T>, i: nat, x: T): seq<T>
    requires i <= |s|
  {
    s[..i] + [x] + s[i..]
  }

  datatype Event =
    | CreateNode(author: string)
    | UpdateNode(nodeId: int, newText: string)
    | MoveNode(nodeId: int, newIndex: int)
    | RemoveNode(nodeId: int)
  {
    /** The nodes after this event is applied to `nodes`, or None where the source throws. */
    function Effect(nodes: seq<Node>): Option<seq<Node>>
    {
      match this
      case CreateNode(author) =>
        Some(nodes + [NewNode(|nodes|, author)])
      case UpdateNode(nodeId, newText) =>
        var i := IndexOf(nodes, nodeId);
        if i >= 0 then Some(nodes[i := nodes[i].(text := newText)]) else Some(nodes)
      case MoveNode(nodeId, newIndex) =>
        var i := IndexOf(nodes, nodeId);
        if i < 0 then Some(nodes)
        else if 0 <= newIndex < |nodes| then Some(InsertAt(RemoveAt(nodes, i), newIndex, nodes[i]))
        else None
      case RemoveNode(nodeId) =>
        var i := IndexOf(nodes, nodeId);
        if i >= 0 then Some(RemoveAt(nodes, i)) else Some(nodes)
    }

    /**
     * Applies this event to `document` in place. When a move fails, the
     * node has already been taken out of the list, as in the source.
     */
    method Apply(document: Document) returns (ok: bool)
      modifies document
      ensures ok == Effect(old(document.nodes)).Some?
      ensures ok ==> document.nodes == Effect(old(document.nodes)).value
      ensures !ok ==> MoveNode? && document.nodes == RemoveAt(old(document.nodes), IndexOf(old(document.nodes), nodeId))
    {
      match this
      case CreateNode(author) =>
        ApplyCreate(document, author);
        ok := true;
      case UpdateNode(nodeId, newText) =>
        ApplyUpdate(document, nodeId, newText);
        ok := true;
      case MoveNode(nodeId, newIndex) =>
        ok := ApplyMove(document, nodeId, newIndex);
      case RemoveNode(nodeId) =>
        ApplyRemove(document, nodeId);
        ok := true;
    }
  }

  /** Appends a node whose ID is the current node count. */
  method ApplyCreate(document: Document, author: string)
    modifies document
    ensures Some(document.nodes) == CreateNode(author).Effect(old(document.nodes))
  {
    var id := |document.nodes|;
    document.nodes := document.nodes + [NewNode(id, author)];
  }

  /** Replaces the text of the first node with the ID, if there is one. */
  method ApplyUpdate(document: Document, nodeId: int, newText: string)
    modifies document
    ensures Some(document.nodes) == UpdateNode(nodeId, newText).Effect(old(document.nodes))
  {
    var i := document.FindNodeIndex(nodeId);
    if i >= 0 {
      document.nodes := document.nodes[i := document.nodes[i].(text := newText)];
    }
  }

  /**
   * Takes the first node with the ID out of the list and puts it back at
   * `newIndex`; fails, with the node already taken out, when `newIndex` is
   * not a position of the shortened list.
   */
  method ApplyMove(document: Document, nodeId: int, newIndex: int) returns (ok: bool)
    modifies document
    ensures ok == MoveNode(nodeId, newIndex).Effect(old(document.nodes)).Some?
    ensures ok ==> document.nodes == MoveNode(nodeId, newIndex).Effect(old(document.nodes)).value
    ensures !ok ==> document.nodes == RemoveAt(old(document.nodes), IndexOf(old(document.nodes), nodeId))
  {
    ghost var before := document.nodes;
    var i := document.FindNodeIndex(nodeId);
    if i < 0 {
      return true;
    }
    var node := document.nodes[i];
    var rest := RemoveAt(document.nodes, i);
    ok := 0 <= newIndex <= |rest|;
    var after := if ok then InsertAt(rest, newIndex, node) else rest;
    assert ok ==> MoveNode(nodeId, newIndex).Effect(before) == Some(after);
    assert !ok ==> MoveNode(nodeId, newIndex).Effect(before) == None;
    document.nodes := after;
  }

  /** Removes the first node with the ID, if there is one. */
  method ApplyRemove(document: Document, nodeId: int)
    modifies document
    ensures Some(document.nodes) == RemoveNode(nodeId).Effect(old(document.nodes))
  {
    var i := document.FindNodeIndex(nodeId);
    if i >= 0 {
      document.nodes := RemoveAt(document.nodes, i);
    }
  }

  /** The nodes obtained by applying `events`, in order, to an empty document. */
  function Replay(events: seq<Event>): Option<seq<Node>>
    decreases |events|
  {
    if events == [] then Some([])
    else
      match Replay(events[..|events| - 1])
      case None => None
      case Some(nodes) => events[|events| - 1].Effect(nodes)
  }

  // ---------------------------------------------------------------------
  // The effect of each kind of event

  /**
   * An edit fails exactly for a move of a present node to a position outside
   * the list; a creation adds one node, a removal of a present node drops
   * one, and the other edits keep the size.
   */
  lemma EffectOutcome(nodes: seq<Node>, e: Event)
    ensures e.Effect(nodes).None? <==> e.MoveNode? && IndexOf(nodes, e.nodeId) >= 0 && !(0 <= e.newIndex < |nodes|)
    ensures e.Effect(nodes).Some? ==>
      |e.Effect(nodes).value| == |nodes| + (if e.CreateNode? then 1 else 0)
                                 - (if e.RemoveNode? && IndexOf(nodes, e.nodeId) >= 0 then 1 else 0)
  {
  }

  /** A creation appends one node whose ID is the previous node count; earlier nodes are untouched. */
  lemma CreateNodeAppends(nodes: seq<Node>, author: string)
    ensures CreateNode(author).Effect(nodes).Some?
    ensures var r := CreateNode(author).Effect(nodes).value;
      |r| == |nodes| + 1 && r[..|nodes|] == nodes && r[|nodes|] == Node(|nodes|, author, "")
  {
  }

  /** An update of a present ID changes the text of the first node with that ID and nothing else. */
  lemma UpdateNodeReplacesText(nodes: seq<Node>, nodeId: int, newText: string, i: nat)
    requires i < |nodes| && nodes[i].id == nodeId
    requires forall j :: 0 <= j < i ==> nodes[j].id != nodeId
    ensures UpdateNode(nodeId, newText).Effect(nodes).Some?
    ensures var r := UpdateNode(nodeId, newText).Effect(nodes).value;
      && |r| == |nodes|
      && r[i] == Node(nodes[i].id, nodes[i].author, newText)
      && forall j :: 0 <= j < |nodes| && j != i ==> r[j] == nodes[j]
  {
  }

  /** Update, move and remove of an absent ID leave the nodes as they are. */
  lemma AbsentNodeIsNoOp(nodes: seq<Node>, e: Event)
    requires !e.CreateNode?
    requires forall j :: 0 <= j < |nodes| ==> nodes[j].id != e.nodeId
    ensures e.Effect(nodes) == Some(nodes)
  {
  }

  /** A move of a present ID succeeds exactly when the target index lies in the list. */
  lemma MoveNodeInRange(nodes: seq<Node>, nodeId: int, newIndex: int)
    requires exists j :: 0 <= j < |nodes| && nodes[j].id == nodeId
    ensures MoveNode(nodeId, newIndex).Effect(nodes).Some? <==> 0 <= newIndex < |nodes|
  {
  }

  /**
   * A move of a present ID keeps the length, puts the first node with that
   * ID at `newIndex`, and keeps the other nodes in their relative order.
   */
  lemma MoveNodeRelocates(nodes: seq<Node>, nodeId: int, newIndex: nat, i: nat)
    requires i < |nodes| && nodes[i].id == nodeId
    requires forall j :: 0 <= j < i ==> nodes[j].id != nodeId
    requires newIndex < |nodes|
    ensures MoveNode(nodeId, newIndex).Effect(nodes).Some?
    ensures var r := MoveNode(nodeId, newIndex).Effect(nodes).value;
      && |r| == |nodes|
      && r[newIndex] == nodes[i]
      && RemoveAt(r, newIndex) == RemoveAt(nodes, i)
      && multiset(r) == multiset(nodes)
  {
    var r := MoveNode(nodeId, newIndex).Effect(nodes).value;
    RemoveInsertInverse(RemoveAt(nodes, i), newIndex, nodes[i]);
    MovePermutes(nodes, i, newIndex);
  }

  /** A removal of a present ID drops exactly the first node with that ID. */
  lemma RemoveNodeDropsFirst(nodes: seq<Node>, nodeId: int, i: nat)
    requires i < |nodes| && nodes[i].id == nodeId
    requires forall j :: 0 <= j < i ==> nodes[j].id != nodeId
    ensures RemoveNode(nodeId).Effect(nodes).Some?
    ensures var r := RemoveNode(nodeId).Effect(nodes).value;
      && |r| == |nodes| - 1
      && (forall j :: 0 <= j < i ==> r[j] == nodes[j])
      && (forall j :: i <= j < |r| ==> r[j] == nodes[j + 1])
  {
  }

  lemma RemoveInsertInverse<T>(s: seq<T>, i: nat, x: T)
    requires i <= |s|
    ensures RemoveAt(InsertAt(s, i, x), i) == s
  {
    var t := InsertAt(s, i, x);
    assert t[..i] == s[..i];
    assert t[i + 1..] == s[i..];
    assert s == s[..i] + s[i..];
  }

  lemma MovePermutes<T>(s: seq<T>, i: nat, j: nat)
    requires i < |s| && j < |s|
    ensures multiset(InsertAt(RemoveAt(s, i), j, s[i])) == multiset(s)
  {
    var rest := RemoveAt(s, i);
    assert rest == rest[..j] + rest[j..];
    assert multiset(rest) == multiset(rest[..j]) + multiset(rest[j..]);
    assert multiset(InsertAt(rest, j, s[i])) == multiset(rest[..j]) + multiset{s[i]} + multiset(rest[j..]);
    assert multiset(rest) == multiset(s[..i]) + multiset(s[i + 1..]);
    assert s == s[..i] + [s[i]] + s[i + 1..];
    assert multiset(s) == multiset(s[..i]) + multiset{s[i]} + multiset(s[i + 1..]);
    assert multiset(InsertAt(rest, j, s[i])) == multiset(rest) + multiset{s[i]};
    assert multiset(s) == multiset(rest) + multiset{s[i]};
  }

  // ---------------------------------------------------------------------
  // Replaying a log

  /** Applying one more event to a replayed log is replaying the longer log. */
  lemma ReplayAppend(events: seq<Event>, e: Event)
    ensures Replay(events).None? ==> Replay(events + [e]).None?
    ensures Replay(events).Some? ==> Replay(events + [e]) == e.Effect(Replay(events).value)
  {
    assert (events + [e])[..|events|] == events;
  }

  /** Once a prefix of the log fails to replay, the whole log fails. */
  lemma {:induction false} ReplayFailurePersists(events: seq<Event>, k: nat)
    requires k <= |events| && Replay(events[..k]).None?
    ensures Replay(events).None?
    decreases |events| - k
  {
    if k < |events| {
      assert events[..k + 1][..k] == events[..k];
      ReplayFailurePersists(events, k + 1);
    } else {
      assert events[..k] == events;
    }
  }

  // ---------------------------------------------------------------------
  // The IDs of the nodes

  function Ids(nodes: seq<Node>): seq<int>
  {
    seq(|nodes|, k requires 0 <= k < |nodes| => nodes[k].id)
  }

  function Range(n: nat): seq<int>
  {
    seq(n, k => k)
  }

  /** The IDs of the nodes are a permutation of 0, 1, ..., |nodes| - 1. */
  predicate IdsArePermutation(nodes: seq<Node>)
  {
    multiset(Ids(nodes)) == multiset(Range(|nodes|))
  }

  predicate NoRemoves(events: seq<Event>)
  {
    forall k :: 0 <= k < |events| ==> !events[k].RemoveNode?
  }

  function CreateCount(events: seq<Event>): nat
  {
    if events == [] then 0
    else CreateCount(events[..|events| - 1]) + (if events[|events| - 1].CreateNode? then 1 else 0)
  }

  /** A replayed document never holds more nodes than the log has creations. */
  lemma {:induction false} ReplaySize(events: seq<Event>)
    ensures Replay(events).Some? ==> |Replay(events).value| <= CreateCount(events)
    decreases |events|
  {
    if events != [] {
      var prefix, e := events[..|events| - 1], events[|events| - 1];
      assert events == prefix + [e];
      ReplayAppend(prefix, e);
      ReplaySize(prefix);
    }
  }

  lemma EffectKeepsIdsPermutation(nodes: seq<Node>, e: Event)
    requires IdsArePermutation(nodes) && !e.RemoveNode? && e.Effect(nodes).Some?
    ensures IdsArePermutation(e.Effect(nodes).value)
  {
    var r := e.Effect(nodes).value;
    match e
    case CreateNode(author) =>
      assert Ids(r) == Ids(nodes) + [|nodes|];
      assert Range(|r|) == Range(|nodes|) + [|nodes|];
    case UpdateNode(nodeId, newText) =>
      assert Ids(r) == Ids(nodes);
    case MoveNode(nodeId, newIndex) =>
      var i := IndexOf(nodes, nodeId);
      if i >= 0 {
        var rest := RemoveAt(nodes, i);
        assert Ids(rest) == RemoveAt(Ids(nodes), i);
        assert Ids(r) == InsertAt(Ids(rest), newIndex, nodes[i].id);
        MovePermutes(Ids(nodes), i, newIndex);
      }
  }

  /**
   * In a document built without removals, the node IDs are a permutation of
   * 0 .. size - 1, and the size is the number of creations so far.
   */
  lemma {:induction false} IdsPermutationWithoutRemoves(events: seq<Event>)
    requires NoRemoves(events) && Replay(events).Some?
    ensures IdsArePermutation(Replay(events).value)
    ensures |Replay(events).value| == CreateCount(events)
    decreases |events|
  {
    if events != [] {
      var prefix, e := events[..|events| - 1], events[|events| - 1];
      assert events == prefix + [e];
      ReplayAppend(prefix, e);
      IdsPermutationWithoutRemoves(prefix);
      EffectKeepsIdsPermutation(Replay(prefix).value, e);
    }
  }

  /**
   * Without removals, the node a creation appends gets the number of
   * earlier creations as its ID: the k-th created node has ID k - 1.
   */
  lemma CreatedNodeId(prefix: seq<Event>, author: string)
    requires NoRemoves(prefix) && Replay(prefix).Some?
    ensures Replay(prefix + [CreateNode(author)]).Some?
    ensures var nodes := Replay(prefix + [CreateNode(author)]).value;
      |nodes| == CreateCount(prefix) + 1 && nodes[|nodes| - 1] == Node(CreateCount(prefix), author, "")
  {
    ReplayAppend(prefix, CreateNode(author));
    IdsPermutationWithoutRemoves(prefix);
    CreateNodeAppends(Replay(prefix).value, author);
  }
}
