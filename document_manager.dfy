/**
 * One client's view of the shared document: a log of (clock, event) changes
 * kept sorted by the total order on clocks, the document the log replays
 * to, and the client's own clock.
 */
module DocumentManager {
  import opened Wrappers
  import opened VectorClock
  import opened Document
  import opened ChangeEvent

  /** A logged event with the clock it was accepted under. */
  datatype Change = Change(clock: Clock, event: Event)

  /** The events of the log, in log order. */
  function Events(changes: seq<Change>): seq<Event>
  {
    seq(|changes|, k requires 0 <= k < |changes| => changes[k].event)
  }

  /** Every clock in the log has `n` slots. */
  predicate Uniform(changes: seq<Change>, n: nat)
  {
    forall k :: 0 <= k < |changes| ==> |changes[k].clock| == n
  }

  /** The log is ordered by the total order on clocks. */
  predicate Sorted(changes: seq<Change>)
  {
    forall i, j :: 0 <= i < j < |changes| ==> LessEq(changes[i].clock, changes[j].clock)
  }

  /** `nextClock` may follow the change at `prevChangeIndex`; a negative index stands before the log. */
  function IsNextClock(changes: seq<Change>, nextClock: Clock, prevChangeIndex: int): (r: bool)
    requires prevChangeIndex < |changes| && Uniform(changes, |nextClock|)
    ensures r <==> prevChangeIndex < 0 || LessEq(changes[prevChangeIndex].clock, nextClock)
  {
    if prevChangeIndex < 0 then true
    else
      CompareToAntisymmetric(nextClock, changes[prevChangeIndex].clock);
      CompareTo(nextClock, changes[prevChangeIndex].clock) >= 0
  }

  /**
   * Where a change under `clock` enters the log, found by scanning back from
   * the tail: after the last entry `clock` compares at or after, and before
   * every entry it compares strictly before.
   */
  function InsertionIndex(changes: seq<Change>, clock: Clock): (i: nat)
    requires Uniform(changes, |clock|)
    ensures i <= |changes|
    ensures forall k :: i <= k < |changes| ==> CompareTo(clock, changes[k].clock) < 0
    ensures i > 0 ==> CompareTo(clock, changes[i - 1].clock) >= 0
  {
    ScanBack(changes, clock, |changes|)
  }

  /** The insertion index of `clock` in the first `n` entries of the log. */
  function ScanBack(changes: seq<Change>, clock: Clock, n: nat): (i: nat)
    requires n <= |changes| && Uniform(changes, |clock|)
    ensures i <= n
    ensures forall k :: i <= k < n ==> CompareTo(clock, changes[k].clock) < 0
    ensures i > 0 ==> CompareTo(clock, changes[i - 1].clock) >= 0
    decreases n
  {
    if IsNextClock(changes, clock, n - 1) then n
    else ScanBack(changes, clock, n - 1)
  }

  /** The log with `change` spliced in at its insertion index. */
  function Insert(changes: seq<Change>, change: Change): (r: seq<Change>)
    requires Uniform(changes, |change.clock|)
    ensures |r| == |changes| + 1
  {
    var i := InsertionIndex(changes, change.clock);
    changes[..i] + [change] + changes[i..]
  }

  class DocumentManager {
    const document: Document
    var changes: seq<Change>
    var currentClock: Clock
    const ownedClockIndex: nat

    /** The log is sorted, uniform in length, and the document is its replay. */
    ghost predicate Consistent()
      reads this, document
    {
      && ownedClockIndex < |currentClock|
      && Uniform(changes, |currentClock|)
      && Sorted(changes)
      && Replay(Events(changes)) == Some(document.nodes)
    }

    /** Consistent, and the local clock is at least every clock in the log. */
    ghost predicate Valid()
      reads this, document
      ensures Valid() ==> forall k :: 0 <= k < |changes| ==> !After(changes[k].clock, currentClock)
    {
      Consistent() && forall k :: 0 <= k < |changes| ==> AtLeast(currentClock, changes[k].clock)
    }

    constructor (clock: Clock, ownedClockIndex: nat)
      requires ownedClockIndex < |clock|
      ensures Valid() && fresh(document)
      ensures currentClock == clock && this.ownedClockIndex == ownedClockIndex
      ensures changes == [] && document.nodes == []
    {
      document := new Document();
      changes := [];
      currentClock := clock;
      this.ownedClockIndex := ownedClockIndex;
    }

    /** A copy of the current document, which is the replay of the log. */
    method GetDocument() returns (snapshot: Document)
      ensures fresh(snapshot) && snapshot.nodes == document.nodes
      ensures Valid() ==> Replay(Events(changes)) == Some(snapshot.nodes)
    {
      snapshot := new Document.Copy(document);
    }

    /**
     * Applies an event of this client: the owned counter is raised, the
     * event is logged under the new clock, which is returned. The new clock
     * is after every logged clock, so the event always lands at the tail.
     */
    method ApplyLocal(event: Event) returns (clock: Clock, ok: bool)
      requires Valid()
      modifies this`changes, this`currentClock, document
      ensures currentClock == Increment(old(currentClock), ownedClockIndex) && clock == currentClock
      ensures CompareTo(currentClock, old(currentClock)) > 0
      ensures InsertionIndex(old(changes), clock) == |old(changes)|
      ensures ok == Replay(Events(old(changes)) + [event]).Some?
      ensures ok ==> Valid() && changes == old(changes) + [Change(clock, event)]
      ensures ok ==> changes == Insert(old(changes), Change(clock, event))
      ensures !ok ==> changes == old(changes)
    {
      ghost var log := changes;
      ghost var before := currentClock;
      currentClock := ComputeIncrement(currentClock, ownedClockIndex);
      IncrementIsAfter(before, ownedClockIndex);
      LaterClockAtTail(changes, currentClock);
      ok := Apply(currentClock, event);
      clock := currentClock;
      AppendAtTail(log, Change(clock, event));
      if ok {
        forall k | 0 <= k < |changes|
          ensures AtLeast(currentClock, changes[k].clock)
        {
          if k < |log| {
            AtLeastTransitive(currentClock, before, log[k].clock);
          }
        }
      }
    }

    /**
     * Applies an event received from another client: the owned counter is
     * raised, the event is logged under its own clock, and the local clock
     * becomes the merge of the raised clock and the event's clock.
     */
    method ApplyExternal(event: Event, eventClock: Clock) returns (ok: bool)
      requires Valid() && |eventClock| == |currentClock|
      modifies this`changes, this`currentClock, document
      ensures ok ==> currentClock == Next(Increment(old(currentClock), ownedClockIndex), eventClock)
      ensures !ok ==> currentClock == Increment(old(currentClock), ownedClockIndex)
      ensures CompareTo(currentClock, old(currentClock)) > 0
      ensures ok == Replay(Events(Insert(old(changes), Change(eventClock, event)))).Some?
      ensures ok ==> Valid() && changes == Insert(old(changes), Change(eventClock, event))
      ensures !ok ==> changes == if InsertionIndex(old(changes), eventClock) == |old(changes)|
                                 then old(changes) else Insert(old(changes), Change(eventClock, event))
    {
      ghost var log := changes;
      ghost var before := currentClock;
      currentClock := ComputeIncrement(currentClock, ownedClockIndex);
      IncrementIsAfter(before, ownedClockIndex);
      ghost var raised := currentClock;
      ok := Apply(eventClock, event);
      if ok {
        currentClock := ComputeNext(currentClock, eventClock);
        AtLeastAfter(currentClock, raised, before);
        CompareToRespectsCausality(currentClock, before);
        AtLeastTransitive(currentClock, raised, before);
        forall k | 0 <= k < |log|
          ensures AtLeast(currentClock, log[k].clock)
        {
          AtLeastTransitive(currentClock, before, log[k].clock);
        }
        InsertCovered(log, Change(eventClock, event), currentClock);
      }
    }

    /**
     * Logs `event` under `eventClock`. At the tail the event is applied to the
     * document; elsewhere it is spliced in and the document is rebuilt.
     */
    method Apply(eventClock: Clock, event: Event) returns (ok: bool)
      requires Consistent() && |eventClock| == |currentClock|
      modifies this`changes, document
      ensures ok == Replay(Events(Insert(old(changes), Change(eventClock, event)))).Some?
      ensures ok ==> Consistent() && changes == Insert(old(changes), Change(eventClock, event))
      ensures !ok ==> changes == if InsertionIndex(old(changes), eventClock) == |old(changes)|
                                 then old(changes) else Insert(old(changes), Change(eventClock, event))
    {
      var change := Change(eventClock, event);
      ghost var log := changes;
      InsertKeepsSorted(changes, change);
      var i := ComputeInsertionIndex(eventClock);
      if i == |changes| {
        ghost var events := Events(changes);
        assert Events(Insert(log, change)) == events + [event];
        ReplayAppend(events, event);
        AppendAtTail(log, change);
        ok := event.Apply(document);
        if ok {
          changes := changes + [change];
        }
        return;
      }
      changes := changes[..i] + [change] + changes[i..];
      ok := RebuildDocument();
    }

    /** Clears the document and applies every logged event again, in log order. */
    method RebuildDocument() returns (ok: bool)
      modifies document
      ensures ok == Replay(Events(changes)).Some?
      ensures ok ==> document.nodes == Replay(Events(changes)).value
    {
      ghost var events := Events(changes);
      document.nodes := [];
      for k := 0 to |changes|
        invariant Replay(events[..k]) == Some(document.nodes)
      {
        assert events[..k + 1] == events[..k] + [changes[k].event];
        ReplayAppend(events[..k], changes[k].event);
        ok := changes[k].event.Apply(document);
        if !ok {
          ReplayFailurePersists(events, k + 1);
          return;
        }
      }
      assert events[..|changes|] == events;
      ok := true;
    }

    /** Scans back from the tail while the clock is ordered before the scanned entry. */
    method ComputeInsertionIndex(eventClock: Clock) returns (index: nat)
      requires Uniform(changes, |eventClock|)
      ensures index == InsertionIndex(changes, eventClock)
    {
      var i := |changes| - 1;
      while !IsNextClock(changes, eventClock, i)
        invariant -1 <= i < |changes|
        invariant forall k :: i < k < |changes| ==> CompareTo(eventClock, changes[k].clock) < 0
        decreases i
      {
        i := i - 1;
      }
      index := i + 1;
      InsertionIndexUnique(changes, eventClock, index);
    }
  }

  // ---------------------------------------------------------------------
  // Properties of the log

  /** The two conditions on an insertion index determine it. */
  lemma InsertionIndexUnique(changes: seq<Change>, clock: Clock, i: nat)
    requires Uniform(changes, |clock|) && i <= |changes|
    requires forall k :: i <= k < |changes| ==> CompareTo(clock, changes[k].clock) < 0
    requires i > 0 ==> CompareTo(clock, changes[i - 1].clock) >= 0
    ensures i == InsertionIndex(changes, clock)
  {
  }

  /** A clock after every logged clock enters the log at its tail. */
  lemma LaterClockAtTail(changes: seq<Change>, clock: Clock)
    requires Uniform(changes, |clock|)
    requires forall k :: 0 <= k < |changes| ==> After(clock, changes[k].clock)
    ensures InsertionIndex(changes, clock) == |changes|
  {
    if |changes| > 0 {
      CompareToRespectsCausality(clock, changes[|changes| - 1].clock);
    }
  }

  /** Inserting at the tail is appending. */
  lemma AppendAtTail(changes: seq<Change>, change: Change)
    requires Uniform(changes, |change.clock|)
    requires InsertionIndex(changes, change.clock) == |changes|
    ensures Insert(changes, change) == changes + [change]
    ensures Events(changes + [change]) == Events(changes) + [change.event]
  {
    assert changes[..|changes|] == changes && changes[|changes|..] == [];
    EventsAppend(changes, change);
  }

  lemma EventsAppend(changes: seq<Change>, change: Change)
    ensures Events(changes + [change]) == Events(changes) + [change.event]
  {
    var r := changes + [change];
    assert |Events(r)| == |Events(changes) + [change.event]|;
    forall k | 0 <= k < |r|
      ensures Events(r)[k] == (Events(changes) + [change.event])[k]
    {
    }
  }

  /** A clock at least every logged clock and the new one is at least every clock after the insertion. */
  lemma InsertCovered(changes: seq<Change>, change: Change, c: Clock)
    requires Uniform(changes, |change.clock|)
    requires forall k :: 0 <= k < |changes| ==> AtLeast(c, changes[k].clock)
    requires AtLeast(c, change.clock)
    ensures forall k :: 0 <= k < |Insert(changes, change)| ==> AtLeast(c, Insert(changes, change)[k].clock)
  {
    var r := Insert(changes, change);
    InsertMembers(changes, change);
    forall k | 0 <= k < |r|
      ensures AtLeast(c, r[k].clock)
    {
      if r[k] != change {
        assert r[k] in changes;
      }
    }
  }

  /** Insertion adds the one change and loses none. */
  lemma InsertMembers(changes: seq<Change>, change: Change)
    requires Uniform(changes, |change.clock|)
    ensures multiset(Insert(changes, change)) == multiset(changes) + multiset{change}
    ensures |Insert(changes, change)| == |changes| + 1
    ensures forall c :: c in Insert(changes, change) <==> c in changes || c == change
  {
    var i := InsertionIndex(changes, change.clock);
    SpliceMembers(changes, i, change);
  }

  lemma SpliceMembers<T>(s: seq<T>, i: nat, x: T)
    requires i <= |s|
    ensures multiset(s[..i] + [x] + s[i..]) == multiset(s) + multiset{x}
    ensures forall c :: c in s[..i] + [x] + s[i..] <==> c in s || c == x
  {
    assert s == s[..i] + s[i..];
    assert multiset(s) == multiset(s[..i]) + multiset(s[i..]);
    var r := s[..i] + [x] + s[i..];
    forall c
      ensures c in r <==> c in s || c == x
    {
      assert c in r <==> c in multiset(r);
      assert c in s <==> c in multiset(s);
    }
  }

  /** Where each entry of `Insert(changes, change)` comes from. */
  lemma InsertShifts(changes: seq<Change>, change: Change)
    requires Uniform(changes, |change.clock|)
    ensures var i, r := InsertionIndex(changes, change.clock), Insert(changes, change);
      && |r| == |changes| + 1 && r[i] == change
      && (forall k :: 0 <= k < i ==> r[k] == changes[k])
      && (forall k :: i < k < |r| ==> r[k] == changes[k - 1])
  {
  }

  /** Insertion keeps a sorted log sorted, and keeps the clock lengths uniform. */
  lemma InsertKeepsSorted(changes: seq<Change>, change: Change)
    requires Uniform(changes, |change.clock|)
    ensures Uniform(Insert(changes, change), |change.clock|)
    ensures Sorted(changes) ==> Sorted(Insert(changes, change))
  {
    var r := Insert(changes, change);
    var i := InsertionIndex(changes, change.clock);
    InsertShifts(changes, change);
    if Sorted(changes) {
      forall p, q | 0 <= p < q < |r|
        ensures LessEq(r[p].clock, r[q].clock)
      {
        SplicedPairOrdered(changes, change, i, r, p, q);
      }
    }
  }

  /** One pair of entries of a log with `change` spliced in at a valid insertion index. */
  lemma SplicedPairOrdered(changes: seq<Change>, change: Change, i: nat, r: seq<Change>, p: nat, q: nat)
    requires Uniform(changes, |change.clock|) && Sorted(changes)
    requires i <= |changes|
    requires forall k :: i <= k < |changes| ==> CompareTo(change.clock, changes[k].clock) < 0
    requires i > 0 ==> CompareTo(change.clock, changes[i - 1].clock) >= 0
    requires |r| == |changes| + 1 && r[i] == change
    requires forall k :: 0 <= k < i ==> r[k] == changes[k]
    requires forall k :: i < k < |r| ==> r[k] == changes[k - 1]
    requires p < q < |r|
    ensures LessEq(r[p].clock, r[q].clock)
  {
    var x := change.clock;
    if q < i {
      assert LessEq(changes[p].clock, changes[q].clock);
    } else if q == i {
      CompareToAntisymmetric(x, changes[i - 1].clock);
      assert LessEq(changes[i - 1].clock, x);
      if p < i - 1 {
        LessEqTransitive(changes[p].clock, changes[i - 1].clock, x);
      }
    } else if p < i {
      assert LessEq(changes[p].clock, changes[q - 1].clock);
    } else if p == i {
      assert CompareTo(x, changes[q - 1].clock) < 0;
      CompareToAntisymmetric(x, changes[q - 1].clock);
    } else {
      assert LessEq(changes[p - 1].clock, changes[q - 1].clock);
    }
  }
}
