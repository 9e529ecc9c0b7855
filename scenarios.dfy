/**
 * Concrete runs of the demonstration driver: the events it sends, the
 * clocks they carry, and the documents they lead to.
 */
module Scenarios {
  import opened Wrappers
  import opened VectorClock
  import opened Document
  import opened ChangeEvent
  import opened DocumentManager
  import opened Convergence

  /** Replaying `events` passes through the documents `docs`, one per prefix. */
  lemma {:induction false} ReplayThrough(events: seq<Event>, docs: seq<seq<Node>>)
    requires |docs| == |events| + 1 && docs[0] == []
    requires forall k :: 0 <= k < |events| ==> events[k].Effect(docs[k]) == Some(docs[k + 1])
    ensures Replay(events) == Some(docs[|events|])
    decreases |events|
  {
    if events != [] {
      var n := |events| - 1;
      ReplayThrough(events[..n], docs[..n + 1]);
    }
  }

  /** The five local events the driver sends first. */
  function LocalEvents(): seq<Event>
  {
    [ CreateNode("Local User 1"),
      CreateNode("Local User 2"),
      UpdateNode(0, "Text of the first node."),
      UpdateNode(1, "Text of the second node."),
      MoveNode(0, 1) ]
  }

  /** Nodes are numbered in creation order, updates find them by ID, and the move swaps them. */
  lemma LocalEventsDocument()
    ensures Replay(LocalEvents()) == Some([
      Node(1, "Local User 2", "Text of the second node."),
      Node(0, "Local User 1", "Text of the first node.")])
  {
    var e := LocalEvents();
    var a0, a1 := NewNode(0, "Local User 1"), NewNode(1, "Local User 2");
    var b0, b1 := a0.(text := "Text of the first node."), a1.(text := "Text of the second node.");
    var d0, d1, d2, d3, d4, d5: seq<Node> := [], [a0], [a0, a1], [b0, a1], [b0, b1], [b1, b0];
    assert e[0].Effect(d0) == Some(d1) by {
      assert d0 + [NewNode(|d0|, "Local User 1")] == d1;
    }
    assert e[1].Effect(d1) == Some(d2) by {
      assert d1 + [NewNode(|d1|, "Local User 2")] == d2;
    }
    assert e[2].Effect(d2) == Some(d3) by {
      assert IndexOf(d2, 0) == 0;
      assert d2[0 := d2[0].(text := "Text of the first node.")] == d3;
    }
    assert e[3].Effect(d3) == Some(d4) by {
      assert d3[0].id == 0 && d3[1].id == 1;
      assert IndexOf(d3, 1) == 1;
      assert d3[1 := d3[1].(text := "Text of the second node.")] == d4;
    }
    assert e[4].Effect(d4) == Some(d5) by {
      assert IndexOf(d4, 0) == 0;
      assert RemoveAt(d4, 0) == [b1];
      assert InsertAt([b1], 1, b0) == d5;
    }
    var docs := [d0, d1, d2, d3, d4, d5];
    ReplayThrough(e, docs);
  }

  /**
   * The log of the local client just before the delayed event arrives: the
   * clocks are those the driver produces for client 0 of 2.
   */
  function LogBeforeDelayedEvent(): seq<Change>
  {
    [ Change([1, 0], CreateNode("Local User 1")),
      Change([2, 0], CreateNode("Local User 2")),
      Change([3, 0], UpdateNode(0, "Text of the first node.")),
      Change([4, 0], UpdateNode(1, "Text of the second node.")),
      Change([5, 0], MoveNode(0, 1)),
      Change([5, 6], CreateNode("External User 1")),
      Change([5, 6], UpdateNode(2, "Text of the first external node.")),
      Change([8, 6], MoveNode(2, 0)),
      Change([8, 7], MoveNode(2, 1)),
      Change([10, 7], MoveNode(2, 1)),
      Change([11, 7], MoveNode(2, 0)) ]
  }

  /** The log's events after the delayed move has been spliced in. */
  function ConflictEvents(): seq<Event>
  {
    LocalEvents() + [
      CreateNode("External User 1"),
      UpdateNode(2, "Text of the first external node."),
      MoveNode(2, 0),
      MoveNode(2, 1),
      MoveNode(2, 1),
      MoveNode(2, 1),
      MoveNode(2, 0)]
  }

  /**
   * The external client's move arrives with a clock one behind on client 0's
   * slot. It is placed before client 0's last move, which therefore wins:
   * node 2 ends in position 0, not 1.
   */
  lemma DelayedMoveIsOverridden()
    ensures Uniform(LogBeforeDelayedEvent(), 2)
    ensures InsertionIndex(LogBeforeDelayedEvent(), [10, 8]) == 10
    ensures Replay(Events(Insert(LogBeforeDelayedEvent(), Change([10, 8], MoveNode(2, 1))))) == Some([
      Node(2, "External User 1", "Text of the first external node."),
      Node(1, "Local User 2", "Text of the second node."),
      Node(0, "Local User 1", "Text of the first node.")])
  {
    var log := LogBeforeDelayedEvent();
    var delayed := Change([10, 8], MoveNode(2, 1));
    assert CompareTo([10, 8], [11, 7]) < 0 && CompareTo([10, 8], [10, 7]) >= 0;
    InsertionIndexUnique(log, [10, 8], 10);
    assert Events(log[..10] + [delayed] + log[10..]) == ConflictEvents();
    ConflictEventsDocument();
  }

  /** Replaying the spliced log. */
  lemma ConflictEventsDocument()
    ensures Replay(ConflictEvents()) == Some([
      Node(2, "External User 1", "Text of the first external node."),
      Node(1, "Local User 2", "Text of the second node."),
      Node(0, "Local User 1", "Text of the first node.")])
  {
    var e := ConflictEvents();
    LocalEventsDocument();
    assert e[..5] == LocalEvents();
    ReplayExternalPart(e, Node(1, "Local User 2", "Text of the second node."),
      Node(0, "Local User 1", "Text of the first node."), NewNode(2, "External User 1"));
  }

  /** The steps after the five local events, on symbolic nodes with IDs 1, 0 and 2. */
  lemma ReplayExternalPart(e: seq<Event>, b1: Node, b0: Node, c2: Node)
    requires b1.id == 1 && b0.id == 0 && c2 == NewNode(2, "External User 1")
    requires |e| == 12 && Replay(e[..5]) == Some([b1, b0])
    requires e[5] == CreateNode("External User 1")
    requires e[6] == UpdateNode(2, "Text of the first external node.")
    requires e[7] == MoveNode(2, 0) && e[8] == MoveNode(2, 1) && e[9] == MoveNode(2, 1)
    requires e[10] == MoveNode(2, 1) && e[11] == MoveNode(2, 0)
    ensures Replay(e) == Some([c2.(text := "Text of the first external node."), b1, b0])
  {
    var n2 := c2.(text := "Text of the first external node.");
    CreateThird(b1, b0, c2);
    ReplayStep(e, 5, [b1, b0], [b1, b0, c2]);
    UpdateThird(b1, b0, c2, "Text of the first external node.");
    ReplayStep(e, 6, [b1, b0, c2], [b1, b0, n2]);
    MoveThirdToFront(b1, b0, n2);
    ReplayStep(e, 7, [b1, b0, n2], [n2, b1, b0]);
    MoveFrontToOne(n2, b1, b0);
    ReplayStep(e, 8, [n2, b1, b0], [b1, n2, b0]);
    MoveStays(b1, n2, b0);
    ReplayStep(e, 9, [b1, n2, b0], [b1, n2, b0]);
    ReplayStep(e, 10, [b1, n2, b0], [b1, n2, b0]);
    MoveSecondToFront(b1, n2, b0);
    ReplayStep(e, 11, [b1, n2, b0], [n2, b1, b0]);
    assert e[..12] == e;
  }

  lemma CreateThird(b1: Node, b0: Node, c2: Node)
    requires c2 == NewNode(2, "External User 1")
    ensures CreateNode("External User 1").Effect([b1, b0]) == Some([b1, b0, c2])
  {
    assert [b1, b0] + [NewNode(|[b1, b0]|, "External User 1")] == [b1, b0, c2];
  }

  lemma UpdateThird(b1: Node, b0: Node, c2: Node, text: string)
    requires b1.id == 1 && b0.id == 0 && c2.id == 2
    ensures UpdateNode(2, text).Effect([b1, b0, c2]) == Some([b1, b0, c2.(text := text)])
  {
    var nodes := [b1, b0, c2];
    assert IndexOf(nodes, 2) == 2 by { assert nodes[2].id == 2; }
    assert [b1, b0, c2][2 := c2.(text := text)] == [b1, b0, c2.(text := text)];
  }

  lemma MoveThirdToFront(b1: Node, b0: Node, n2: Node)
    requires b1.id == 1 && b0.id == 0 && n2.id == 2
    ensures MoveNode(2, 0).Effect([b1, b0, n2]) == Some([n2, b1, b0])
  {
    var nodes := [b1, b0, n2];
    assert IndexOf(nodes, 2) == 2 by { assert nodes[2].id == 2; }
    assert RemoveAt([b1, b0, n2], 2) == [b1, b0];
    assert InsertAt([b1, b0], 0, n2) == [n2, b1, b0];
  }

  lemma MoveFrontToOne(n2: Node, b1: Node, b0: Node)
    requires n2.id == 2 && b1.id == 1 && b0.id == 0
    ensures MoveNode(2, 1).Effect([n2, b1, b0]) == Some([b1, n2, b0])
  {
    var nodes := [n2, b1, b0];
    assert IndexOf(nodes, 2) == 0 by { assert nodes[0].id == 2; }
    assert RemoveAt([n2, b1, b0], 0) == [b1, b0];
    assert InsertAt([b1, b0], 1, n2) == [b1, n2, b0];
  }

  lemma MoveStays(b1: Node, n2: Node, b0: Node)
    requires n2.id == 2 && b1.id == 1 && b0.id == 0
    ensures MoveNode(2, 1).Effect([b1, n2, b0]) == Some([b1, n2, b0])
  {
    var nodes := [b1, n2, b0];
    assert IndexOf(nodes, 2) == 1 by { assert nodes[1].id == 2; }
    assert RemoveAt([b1, n2, b0], 1) == [b1, b0];
    assert InsertAt([b1, b0], 1, n2) == [b1, n2, b0];
  }

  lemma MoveSecondToFront(b1: Node, n2: Node, b0: Node)
    requires n2.id == 2 && b1.id == 1 && b0.id == 0
    ensures MoveNode(2, 0).Effect([b1, n2, b0]) == Some([n2, b1, b0])
  {
    var nodes := [b1, n2, b0];
    assert IndexOf(nodes, 2) == 1 by { assert nodes[1].id == 2; }
    assert RemoveAt([b1, n2, b0], 1) == [b1, b0];
    assert InsertAt([b1, b0], 0, n2) == [n2, b1, b0];
  }

  /** One more step of a replay. */
  lemma ReplayStep(events: seq<Event>, k: nat, before: seq<Node>, after: seq<Node>)
    requires k < |events| && Replay(events[..k]) == Some(before)
    requires events[k].Effect(before) == Some(after)
    ensures Replay(events[..k + 1]) == Some(after)
  {
    assert events[..k + 1] == events[..k] + [events[k]];
    ReplayAppend(events[..k], events[k]);
  }
  /** Two changes end up in clock order whichever arrives first. */
  lemma TwoArrivals(a: Change, b: Change, n: nat)
    requires |a.clock| == n && |b.clock| == n && CompareTo(b.clock, a.clock) < 0
    ensures InsertAll([], [a, b], n) == [b, a] && InsertAll([], [b, a], n) == [b, a]
  {
    CompareToAntisymmetric(b.clock, a.clock);
    InsertIntoSingleton(a, b);
    InsertIntoSingleton(b, a);
    InsertAllPair(a, b, n);
    InsertAllPair(b, a, n);
  }

  /** A change goes before the single logged one exactly when its clock orders before. */
  lemma InsertIntoSingleton(x: Change, y: Change)
    requires |x.clock| == |y.clock|
    ensures CompareTo(y.clock, x.clock) < 0 ==> Insert([x], y) == [y, x]
    ensures CompareTo(y.clock, x.clock) >= 0 ==> Insert([x], y) == [x, y]
  {
    if CompareTo(y.clock, x.clock) < 0 {
      assert InsertionIndex([x], y.clock) == 0;
    } else {
      assert InsertionIndex([x], y.clock) == 1;
    }
  }

  /** Two arrivals at an empty log: the second is inserted into the log holding the first. */
  lemma InsertAllPair(x: Change, y: Change, n: nat)
    requires |x.clock| == n && |y.clock| == n
    ensures InsertAll([], [x, y], n) == Insert([x], y)
  {
    var first := Insert([], x);
    assert first == [x];
    assert [x, y] == [x] + [y] && [y] == [y] + [];
    InsertAllCons([], x, [y], n);
    InsertAllCons(first, y, [], n);
    InsertAllNil(Insert(first, y), n);
  }

  lemma InsertAllNil(log: seq<Change>, n: nat)
    requires Uniform(log, n)
    ensures InsertAll(log, [], n) == log
  {
  }

  /** The first arrival is inserted first. */
  lemma InsertAllCons(log: seq<Change>, x: Change, rest: seq<Change>, n: nat)
    requires Uniform(log, n) && |x.clock| == n && Uniform(rest, n)
    ensures InsertAll(log, [x] + rest, n) == InsertAll(Insert(log, x), rest, n)
  {
    assert ([x] + rest)[0] == x && ([x] + rest)[1..] == rest;
  }

  /**
   * Two clients each create one node and then receive the other's creation:
   * both logs, and so both documents, come out the same. Client 1's clock
   * [0, 1] orders before client 0's [1, 0], so its node gets ID 0.
   */
  lemma TwoClientsConverge()
    ensures var a, b := Change([1, 0], CreateNode("Client 0")), Change([0, 1], CreateNode("Client 1"));
      && InsertAll([], [a, b], 2) == [b, a]
      && InsertAll([], [b, a], 2) == [b, a]
      && Replay(Events([b, a])) == Some([Node(0, "Client 1", ""), Node(1, "Client 0", "")])
  {
    var a, b := Change([1, 0], CreateNode("Client 0")), Change([0, 1], CreateNode("Client 1"));
    assert CompareTo(b.clock, a.clock) < 0;
    TwoArrivals(a, b, 2);
    var e := Events([b, a]);
    assert e == [CreateNode("Client 1"), CreateNode("Client 0")];
    var n1, n0 := NewNode(0, "Client 1"), NewNode(1, "Client 0");
    assert e[0].Effect([]) == Some([n1]) by {
      assert [] + [n1] == [n1];
    }
    assert e[1].Effect([n1]) == Some([n1, n0]) by {
      assert [n1] + [NewNode(|[n1]|, "Client 0")] == [n1, n0];
    }
    ReplayStep(e, 0, [], [n1]);
    ReplayStep(e, 1, [n1], [n1, n0]);
    assert e[..2] == e;
  }
}
