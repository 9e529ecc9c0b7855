/**
 * Convergence: clients that receive the same changes, with pairwise
 * distinct clocks, end with the same log, and so the same document,
 * whatever the order in which the changes arrived.
 */
module Convergence {
  import opened Wrappers
  import opened VectorClock
  import opened ChangeEvent
  import opened DocumentManager

  /** The log after `arrivals` have been inserted one by one, in arrival order. */
  function InsertAll(log: seq<Change>, arrivals: seq<Change>, clientCount: nat): (r: seq<Change>)
    requires Uniform(log, clientCount) && Uniform(arrivals, clientCount)
    ensures |r| == |log| + |arrivals| && Uniform(r, clientCount)
    decreases |arrivals|
  {
    if arrivals == [] then log
    else
      InsertKeepsSorted(log, arrivals[0]);
      InsertAll(Insert(log, arrivals[0]), arrivals[1..], clientCount)
  }

  /** The log is ordered strictly by the total order on clocks. */
  predicate StrictlySorted(changes: seq<Change>)
  {
    forall i, j :: 0 <= i < j < |changes| ==> Less(changes[i].clock, changes[j].clock)
  }

  /** No two changes carry the same clock. */
  predicate ClocksDistinct(changes: seq<Change>)
  {
    forall i, j :: 0 <= i < j < |changes| ==> changes[i].clock != changes[j].clock
  }

  /** No change of `a` carries the clock of a change of `b`. */
  predicate ClocksDisjoint(a: seq<Change>, b: seq<Change>)
  {
    forall c, d :: c in a && d in b ==> c.clock != d.clock
  }

  /** Inserting in any order adds exactly the arrivals to the log. */
  lemma {:induction false} InsertAllMembers(log: seq<Change>, arrivals: seq<Change>, clientCount: nat)
    requires Uniform(log, clientCount) && Uniform(arrivals, clientCount)
    ensures multiset(InsertAll(log, arrivals, clientCount)) == multiset(log) + multiset(arrivals)
    decreases |arrivals|
  {
    if arrivals != [] {
      InsertKeepsSorted(log, arrivals[0]);
      InsertMembers(log, arrivals[0]);
      InsertAllMembers(Insert(log, arrivals[0]), arrivals[1..], clientCount);
      assert arrivals == [arrivals[0]] + arrivals[1..];
    }
  }

  /** Inserting in any order keeps a sorted log sorted. */
  lemma {:induction false} InsertAllSorted(log: seq<Change>, arrivals: seq<Change>, clientCount: nat)
    requires Uniform(log, clientCount) && Uniform(arrivals, clientCount) && Sorted(log)
    ensures Sorted(InsertAll(log, arrivals, clientCount))
    decreases |arrivals|
  {
    if arrivals != [] {
      InsertKeepsSorted(log, arrivals[0]);
      InsertAllSorted(Insert(log, arrivals[0]), arrivals[1..], clientCount);
    }
  }

  /** A sorted log whose clocks are pairwise distinct is strictly sorted. */
  lemma SortedDistinctIsStrict(changes: seq<Change>)
    requires Sorted(changes) && ClocksDistinct(changes)
    ensures StrictlySorted(changes)
  {
  }

  /** Inserting a change under a new clock keeps a strictly sorted log strictly sorted. */
  lemma InsertKeepsStrict(log: seq<Change>, change: Change)
    requires Uniform(log, |change.clock|) && StrictlySorted(log)
    requires forall c :: c in log ==> c.clock != change.clock
    ensures StrictlySorted(Insert(log, change))
  {
    var r := Insert(log, change);
    var i := InsertionIndex(log, change.clock);
    InsertKeepsSorted(log, change);
    InsertShifts(log, change);
    forall p, q | 0 <= p < q < |r|
      ensures r[p].clock != r[q].clock
    {
      if p != i && q != i {
        var p', q' := if p < i then p else p - 1, if q < i then q else q - 1;
        assert r[p] == log[p'] && r[q] == log[q'] && p' < q';
      } else if p == i {
        assert r[q] in log;
      } else {
        assert r[p] in log;
      }
    }
    SortedDistinctIsStrict(r);
  }

  /** Arrivals under pairwise distinct, new clocks build a strictly sorted log. */
  lemma {:induction false} InsertAllStrict(log: seq<Change>, arrivals: seq<Change>, clientCount: nat)
    requires Uniform(log, clientCount) && Uniform(arrivals, clientCount)
    requires StrictlySorted(log) && ClocksDistinct(arrivals) && ClocksDisjoint(log, arrivals)
    ensures StrictlySorted(InsertAll(log, arrivals, clientCount))
    decreases |arrivals|
  {
    if arrivals != [] {
      var x, rest := arrivals[0], arrivals[1..];
      InsertKeepsSorted(log, x);
      InsertMembers(log, x);
      InsertKeepsStrict(log, x);
      var log' := Insert(log, x);
      forall c, d | c in log' && d in rest
        ensures c.clock != d.clock
      {
        var m :| 0 <= m < |rest| && rest[m] == d;
        assert d == arrivals[m + 1];
      }
      InsertAllStrict(log', rest, clientCount);
    }
  }

  /** A strictly sorted log is the only sorted arrangement of its changes. */
  lemma {:induction false} SortedArrangementUnique(a: seq<Change>, b: seq<Change>)
    requires StrictlySorted(a) && Sorted(b) && multiset(a) == multiset(b)
    ensures a == b
    decreases |a|
  {
    assert |a| == |multiset(a)| == |multiset(b)| == |b|;
    if |a| > 0 {
      SameFirst(a, b);
      DropFirst(a, b);
      SortedArrangementUnique(a[1..], b[1..]);
      assert a == [a[0]] + a[1..] && b == [b[0]] + b[1..];
    }
  }

  /** Both arrangements start with the least change. */
  lemma SameFirst(a: seq<Change>, b: seq<Change>)
    requires StrictlySorted(a) && Sorted(b) && multiset(a) == multiset(b)
    requires |a| > 0 && |b| > 0
    ensures a[0] == b[0]
  {
    assert a[0] in multiset(b) && b[0] in multiset(a);
    var j :| 0 <= j < |b| && b[j] == a[0];
    var k :| 0 <= k < |a| && a[k] == b[0];
    if k > 0 {
      assert Less(a[0].clock, b[0].clock);
      CompareToAntisymmetric(a[0].clock, b[0].clock);
      assert j > 0 ==> LessEq(b[0].clock, a[0].clock);
    }
  }

  lemma DropFirst<T>(a: seq<T>, b: seq<T>)
    requires |a| > 0 && |b| > 0 && a[0] == b[0] && multiset(a) == multiset(b)
    ensures multiset(a[1..]) == multiset(b[1..])
  {
    assert a == [a[0]] + a[1..] && b == [b[0]] + b[1..];
    assert multiset(a) == multiset{a[0]} + multiset(a[1..]);
    assert multiset(b) == multiset{a[0]} + multiset(b[1..]);
    forall z
      ensures multiset(a[1..])[z] == multiset(b[1..])[z]
    {
      assert multiset(a)[z] == multiset{a[0]}[z] + multiset(a[1..])[z];
      assert multiset(b)[z] == multiset{a[0]}[z] + multiset(b[1..])[z];
    }
  }

  /**
   * Two clients that receive the same changes, under pairwise distinct
   * clocks, in two arrival orders end with the same log and the same
   * document.
   */
  lemma ArrivalOrderIrrelevant(xs: seq<Change>, ys: seq<Change>, clientCount: nat)
    requires Uniform(xs, clientCount) && Uniform(ys, clientCount)
    requires ClocksDistinct(xs) && multiset(xs) == multiset(ys)
    ensures InsertAll([], xs, clientCount) == InsertAll([], ys, clientCount)
    ensures Replay(Events(InsertAll([], xs, clientCount))) == Replay(Events(InsertAll([], ys, clientCount)))
  {
    InsertAllStrict([], xs, clientCount);
    InsertAllSorted([], ys, clientCount);
    InsertAllMembers([], xs, clientCount);
    InsertAllMembers([], ys, clientCount);
    SortedArrangementUnique(InsertAll([], xs, clientCount), InsertAll([], ys, clientCount));
  }
}
