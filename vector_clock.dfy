/**
 * A vector clock: one counter per client, the index of a slot being that
 * client's ID. Clocks are values; every operation returns a new clock.
 */
module VectorClock {

  type Clock = seq<nat>

  /** The clock every client starts with: all counters zero. */
  function Zero(clientCount: nat): (c: Clock)
    ensures |c| == clientCount
    ensures forall i :: 0 <= i < clientCount ==> c[i] == 0
  {
    seq(clientCount, _ => 0)
  }

  function Max(x: nat, y: nat): nat
  {
    if x >= y then x else y
  }

  /** Componentwise `a[i] >= b[i]` for clocks of one length. */
  predicate AtLeast(a: Clock, b: Clock)
  {
    |a| == |b| && forall i :: 0 <= i < |a| ==> a[i] >= b[i]
  }

  /** The causal order: `a` happened after `b`. */
  predicate After(a: Clock, b: Clock)
  {
    AtLeast(a, b) && exists i :: 0 <= i < |a| && a[i] > b[i]
  }

  /** The clock with the owner's counter raised by one. */
  function Increment(c: Clock, ownedIndex: nat): (r: Clock)
    requires ownedIndex < |c|
    ensures |r| == |c| && r[ownedIndex] == c[ownedIndex] + 1
    ensures forall i :: 0 <= i < |c| && i != ownedIndex ==> r[i] == c[i]
  {
    c[ownedIndex := c[ownedIndex] + 1]
  }

  /** The merge of two clocks: their least upper bound. */
  function Next(a: Clock, b: Clock): (r: Clock)
    requires |a| == |b|
    ensures AtLeast(r, a) && AtLeast(r, b)
    ensures forall i :: 0 <= i < |r| ==> r[i] == a[i] || r[i] == b[i]
  {
    seq(|a|, i requires 0 <= i < |a| => Max(a[i], b[i]))
  }

  /**
   * The total order on clocks: the difference of the counters at the first
   * slot where the clocks differ, 0 when they are equal.
   */
  function CompareTo(a: Clock, b: Clock): (r: int)
    requires |a| == |b|
    ensures (r == 0) == (a == b)
    decreases |a|
  {
    if |a| == 0 then 0
    else if a[0] != b[0] then a[0] - b[0]
    else
      var r := CompareTo(a[1..], b[1..]);
      assert a == [a[0]] + a[1..] && b == [b[0]] + b[1..];
      r
  }

  /** `a` is ordered at or before `b`. */
  predicate LessEq(a: Clock, b: Clock)
  {
    |a| == |b| && CompareTo(a, b) <= 0
  }

  /** `a` is ordered strictly before `b`. */
  predicate Less(a: Clock, b: Clock)
  {
    |a| == |b| && CompareTo(a, b) < 0
  }

  // ---------------------------------------------------------------------
  // Loop implementations, as the source computes them

  /** Copies the counters into a fresh array and raises the owned slot. */
  method ComputeIncrement(c: Clock, ownedIndex: nat) returns (r: Clock)
    requires ownedIndex < |c|
    ensures r == Increment(c, ownedIndex)
  {
    var counters := new nat[|c|](i requires 0 <= i < |c| => c[i]);
    counters[ownedIndex] := counters[ownedIndex] + 1;
    r := counters[..];
  }

  /** Fills a fresh array slot by slot with the larger counter. */
  method ComputeNext(a: Clock, b: Clock) returns (r: Clock)
    requires |a| == |b|
    ensures r == Next(a, b)
  {
    var counters := new nat[|a|];
    for i := 0 to |a|
      invariant forall j :: 0 <= j < i ==> counters[j] == Max(a[j], b[j])
    {
      counters[i] := Max(a[i], b[i]);
    }
    r := counters[..];
  }

  /** Scans the slots in increasing order and returns the first nonzero difference. */
  method ComputeCompareTo(a: Clock, b: Clock) returns (r: int)
    requires |a| == |b|
    ensures r == CompareTo(a, b)
  {
    for i := 0 to |a|
      invariant a[..i] == b[..i]
    {
      var diff := a[i] as int - b[i];
      if diff != 0 {
        CompareToFirstDifference(a, b, i);
        return diff;
      }
    }
    assert a == a[..|a|] && b == b[..|b|];
    return 0;
  }

  // ---------------------------------------------------------------------
  // Properties of the operations

  /** The result of `CompareTo` is the difference at the first differing slot. */
  lemma {:induction false} CompareToFirstDifference(a: Clock, b: Clock, k: nat)
    requires |a| == |b| && k < |a|
    requires a[..k] == b[..k] && a[k] != b[k]
    ensures CompareTo(a, b) == a[k] as int - b[k]
    decreases k
  {
    if k > 0 {
      assert a[0] == a[..k][0] == b[..k][0] == b[0];
      assert a[1..][..k - 1] == a[..k][1..] == b[..k][1..] == b[1..][..k - 1];
      CompareToFirstDifference(a[1..], b[1..], k - 1);
    }
  }

  /** Swapping the operands negates the result. */
  lemma {:induction false} CompareToAntisymmetric(a: Clock, b: Clock)
    requires |a| == |b|
    ensures CompareTo(b, a) == -CompareTo(a, b)
    decreases |a|
  {
    if |a| > 0 && a[0] == b[0] {
      CompareToAntisymmetric(a[1..], b[1..]);
    }
  }

  /** Strictly-before is transitive. */
  lemma {:induction false} CompareToTransitive(a: Clock, b: Clock, c: Clock)
    requires |a| == |b| == |c|
    requires CompareTo(a, b) < 0 && CompareTo(b, c) < 0
    ensures CompareTo(a, c) < 0
    decreases |a|
  {
    if a[0] == b[0] && b[0] == c[0] {
      CompareToTransitive(a[1..], b[1..], c[1..]);
    }
  }

  /** At-or-before is transitive. */
  lemma LessEqTransitive(a: Clock, b: Clock, c: Clock)
    requires LessEq(a, b) && LessEq(b, c)
    ensures LessEq(a, c)
  {
    if a != b && b != c {
      CompareToTransitive(a, b, c);
    }
  }

  /**
   * `CompareTo` is a total order on clocks of one length: reflexive,
   * antisymmetric, transitive, and any two clocks are comparable.
   */
  lemma CompareToIsTotalOrder(a: Clock, b: Clock, c: Clock)
    requires |a| == |b| == |c|
    ensures LessEq(a, a)
    ensures LessEq(a, b) && LessEq(b, a) ==> a == b
    ensures LessEq(a, b) && LessEq(b, c) ==> LessEq(a, c)
    ensures LessEq(a, b) || LessEq(b, a)
    ensures Less(a, b) <==> !LessEq(b, a)
  {
    CompareToAntisymmetric(a, b);
    if LessEq(a, b) && LessEq(b, c) {
      LessEqTransitive(a, b, c);
    }
  }

  /** The lowest slot decides: client 0 outranks client 1 when the clocks are concurrent. */
  lemma TieBreakByLowestIndex()
    ensures !After([1, 0], [0, 1]) && !After([0, 1], [1, 0])
    ensures CompareTo([1, 0], [0, 1]) > 0
  {
    var x: Clock, y: Clock := [1, 0], [0, 1];
    assert y[1] > x[1] && x[0] > y[0];
  }

  /** The total order extends the causal order. */
  lemma {:induction false} CompareToRespectsCausality(a: Clock, b: Clock)
    requires After(a, b)
    ensures CompareTo(a, b) > 0
    decreases |a|
  {
    if a[0] == b[0] {
      var i :| 0 <= i < |a| && a[i] > b[i];
      assert i > 0;
      assert a[1..][i - 1] > b[1..][i - 1];
      CompareToRespectsCausality(a[1..], b[1..]);
    }
  }

  /** A clock with one more event happened after the clock it came from. */
  lemma IncrementIsAfter(c: Clock, ownedIndex: nat)
    requires ownedIndex < |c|
    ensures After(Increment(c, ownedIndex), c)
    ensures CompareTo(Increment(c, ownedIndex), c) > 0
  {
    var r := Increment(c, ownedIndex);
    assert r[ownedIndex] > c[ownedIndex];
    CompareToRespectsCausality(r, c);
  }

  /** Being at least a clock that happened after `c` means happening after `c`. */
  lemma AtLeastAfter(a: Clock, b: Clock, c: Clock)
    requires AtLeast(a, b) && After(b, c)
    ensures After(a, c)
  {
    var i :| 0 <= i < |b| && b[i] > c[i];
    assert a[i] > c[i];
  }

  lemma AtLeastTransitive(a: Clock, b: Clock, c: Clock)
    requires AtLeast(a, b) && AtLeast(b, c)
    ensures AtLeast(a, c)
  {
  }

  /** Merging is commutative and idempotent. */
  lemma NextCommutativeIdempotent(a: Clock, b: Clock)
    requires |a| == |b|
    ensures Next(a, b) == Next(b, a)
    ensures Next(a, a) == a
  {
  }

  /** Any clock at least both operands is at least their merge. */
  lemma NextIsLeastUpperBound(a: Clock, b: Clock, c: Clock)
    requires AtLeast(c, a) && AtLeast(c, b)
    ensures AtLeast(c, Next(a, b))
  {
  }
}
