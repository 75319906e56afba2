/** CPU affinity masks handed out round robin. */
module Affinity {
  import opened Arithmetic

  type Mask = seq<bool>

  /** bounded_bitset::find_lowest: the lowest set position in the range, or -1. */
  function FindLowest(m: Mask, start: nat, end: nat): (p: int)
    requires start <= end <= |m|
    ensures p == -1 || start <= p < end
    ensures p >= 0 ==> m[p] && forall i :: start <= i < p ==> !m[i]
    ensures p == -1 ==> forall i :: start <= i < end ==> !m[i]
    decreases end - start
  {
    if start == end then -1 else if m[start] then start else FindLowest(m, start + 1, end)
  }

  /** The set positions in ascending order: an independent description of the rotation. */
  function Positions(m: Mask): (ps: seq<nat>)
    ensures forall i :: 0 <= i < |ps| ==> ps[i] < |m| && m[ps[i]]
  {
    if m == [] then [] else
    var ps := Positions(m[..|m| - 1]);
    if m[|m| - 1] then ps + [|m| - 1] else ps
  }

  lemma {:induction false} PositionsSorted(m: Mask, i: nat, j: nat)
    requires i < j < |Positions(m)|
    ensures Positions(m)[i] < Positions(m)[j]
  {
    if j < |Positions(m[..|m| - 1])| { PositionsSorted(m[..|m| - 1], i, j); }
  }

  lemma {:induction false} PositionsComplete(m: Mask, p: nat) returns (i: nat)
    requires p < |m| && m[p]
    ensures i < |Positions(m)| && Positions(m)[i] == p
  {
    if p == |m| - 1 {
      i := |Positions(m)| - 1;
    } else {
      i := PositionsComplete(m[..|m| - 1], p);
    }
  }

  predicate None(m: Mask) {
    forall i :: 0 <= i < |m| ==> !m[i]
  }

  /** Whose turn of n it is at call k. */
  function Turn(k: nat, n: nat): (t: nat)
    requires n > 0
    ensures t < n && (k < n ==> t == k)
  {
    k % n
  }

  /** Where the search resumes after `calls` calls. */
  function Resume(m: Mask, calls: nat): (p: nat)
    requires Positions(m) != []
  {
    if calls == 0 then 0 else Positions(m)[Turn(calls - 1, |Positions(m)|)] + 1
  }

  /** From the resume point the lowest set position is the next one, and there is none exactly
      after the last. */
  lemma NextPosition(m: Mask, calls: nat)
    requires Positions(m) != []
    ensures Resume(m, calls) <= |m|
    ensures var ps := Positions(m); var k := Turn(calls, |ps|);
      FindLowest(m, Resume(m, calls), |m|) == if calls > 0 && k == 0 then -1 else ps[k]
    ensures FindLowest(m, 0, |m|) == Positions(m)[0]
  {
    hide FindLowest, Positions, Turn;
    LowestFrom(m, 0, 0);
    if calls > 0 {
      var n := |Positions(m)|;
      PreviousTurn(calls, n);
      LowestFrom(m, Positions(m)[Turn(calls - 1, n)] + 1, Turn(calls - 1, n) + 1);
    }
  }

  lemma PreviousTurn(calls: nat, n: nat)
    requires calls > 0 && n > 0
    ensures Turn(calls - 1, n) + 1 == if Turn(calls, n) == 0 then n else Turn(calls, n)
  {
    Successor(calls - 1, n);
  }

  /** If exactly the first k set positions lie below `start`, the search finds the k-th, if any. */
  lemma LowestFrom(m: Mask, start: nat, k: nat)
    requires start <= |m| && k <= |Positions(m)|
    requires start == if k == 0 then 0 else Positions(m)[k - 1] + 1
    ensures FindLowest(m, start, |m|) == if k == |Positions(m)| then -1 else Positions(m)[k]
  {
    var ps := Positions(m);
    var p := FindLowest(m, start, |m|);
    if p >= 0 {
      var i := PositionsComplete(m, p);
      if i < k {
        if i < k - 1 { PositionsSorted(m, i, k - 1); }
      } else if i > k {
        PositionsSorted(m, k, i);
        if k > 0 { PositionsSorted(m, k - 1, k); }
      }
    } else if k < |ps| {
      if k > 0 { PositionsSorted(m, k - 1, k); }
    }
  }

  lemma NoneMeansNoPosition(m: Mask)
    ensures None(m) <==> Positions(m) == []
  {
    if !None(m) {
      var p :| 0 <= p < |m| && m[p];
      var i := PositionsComplete(m, p);
    }
    if Positions(m) != [] { assert m[Positions(m)[0]]; }
  }

  /** What the first `calls` turns of the rotation through ps give. */
  function Assigned(ps: seq<nat>, calls: nat): (cpus: seq<nat>)
    requires ps != []
    ensures |cpus| == calls
  {
    if calls == 0 then [] else Assigned(ps, calls - 1) + [ps[Turn(calls - 1, |ps|)]]
  }

  /** How often the j-th of n CPUs is used in the first `calls` calls. */
  function Uses(j: nat, n: nat, calls: nat): (u: nat)
    requires n > 0
  {
    if calls == 0 then 0 else Uses(j, n, calls - 1) + (if Turn(calls - 1, n) == j then 1 else 0)
  }

  lemma {:induction false} UsesClosedForm(j: nat, n: nat, calls: nat)
    requires j < n
    ensures Uses(j, n, calls) == calls / n + (if j < calls % n then 1 else 0)
  {
    if calls == 0 {
      DivUnique(n, 0, 0);
    } else {
      UsesClosedForm(j, n, calls - 1);
      Successor(calls - 1, n);
    }
  }

  lemma CountSnoc(s: seq<nat>, x: nat, y: nat)
    ensures multiset(s + [x])[y] == multiset(s)[y] + (if x == y then 1 else 0)
  {
  }

  predicate Distinct(ps: seq<nat>) {
    forall i, j :: 0 <= i < j < |ps| ==> ps[i] != ps[j]
  }

  lemma {:induction false} AssignedCount(ps: seq<nat>, j: nat, calls: nat)
    requires j < |ps| && Distinct(ps)
    ensures multiset(Assigned(ps, calls))[ps[j]] == Uses(j, |ps|, calls)
  {
    hide Turn;
    if calls > 0 {
      AssignedCount(ps, j, calls - 1);
      CountSnoc(Assigned(ps, calls - 1), ps[Turn(calls - 1, |ps|)], ps[j]);
    }
  }

  /** In every number of turns of the rotation two set CPUs come up equally often, give or take one. */
  lemma Fair(m: Mask, p: nat, q: nat, calls: nat)
    requires p < |m| && m[p] && q < |m| && m[q]
    ensures var ps := Positions(m);
      ps != [] && multiset(Assigned(ps, calls))[p] <= multiset(Assigned(ps, calls))[q] + 1
  {
    var ps := Positions(m);
    var i := PositionsComplete(m, p);
    var j := PositionsComplete(m, q);
    assert Distinct(ps) by {
      forall i, j | 0 <= i < j < |ps| ensures ps[i] != ps[j] { PositionsSorted(m, i, j); }
    }
    hide Positions, Assigned, Uses;
    AssignedCount(ps, i, calls);
    AssignedCount(ps, j, calls);
    UsesClosedForm(i, |ps|, calls);
    UsesClosedForm(j, |ps|, calls);
  }

  lemma Resumed(m: Mask, k: nat)
    requires Positions(m) != []
    ensures var ps := Positions(m); var t := Turn(k, |ps|);
      && t == k % |ps|
      && Resume(m, k + 1) == ps[t] + 1
      && Assigned(ps, k + 1) == Assigned(ps, k) + [ps[t]]
  {
  }

  class RoundRobin {
    const mask: Mask
    /** The size of a default mask: the number of CPUs of the host. */
    const hostCpus: nat
    var lastPosUsed: nat
    /** The CPUs handed out so far, one for each call. */
    ghost var handed: seq<nat>

    ghost predicate Valid()
      reads this
    {
      if Positions(mask) == [] then handed == []
      else lastPosUsed == Resume(mask, |handed|) && handed == Assigned(Positions(mask), |handed|)
    }

    constructor (mask: Mask, hostCpus: nat)
      ensures Valid() && this.mask == mask && this.hostCpus == hostCpus && handed == []
    {
      this.mask, this.hostCpus, lastPosUsed, handed := mask, hostCpus, 0, [];
    }

    /** Call number k (from 0) returns the (k mod n)-th of the n set CPUs alone, after at most two
        passes of the search loop; an empty mask gives the default mask, with no CPU set. */
    method CalculateMask() returns (r: Mask, passes: nat)
      requires Valid()
      modifies this
      ensures Valid()
      ensures None(mask) ==> r == seq(hostCpus, _ => false) && passes == 0 && handed == old(handed)
      ensures !None(mask) ==> Positions(mask) != [] && 1 <= passes <= 2 && |r| == |mask|
      ensures !None(mask) ==>
        var cpu := Positions(mask)[|old(handed)| % |Positions(mask)|];
        handed == old(handed) + [cpu] && forall i :: 0 <= i < |r| ==> (r[i] <==> i == cpu)
    {
      hide Positions, Turn, FindLowest, Resume;
      passes := 0;
      NoneMeansNoPosition(mask);
      if None(mask) { return seq(hostCpus, _ => false), 0; }
      ghost var k := |handed|;
      NextPosition(mask, k);
      var pos := -1;
      while pos < 0
        invariant passes == 0 || (passes == 1 && pos < 0) || pos >= 0
        invariant passes <= 2 && (pos >= 0 ==> passes >= 1)
        invariant passes == 0 ==> pos < 0 && lastPosUsed == Resume(mask, k)
        invariant passes == 1 && pos < 0 ==> lastPosUsed == 0 && Turn(k, |Positions(mask)|) == 0
        invariant pos >= 0 ==> pos == Positions(mask)[Turn(k, |Positions(mask)|)] && lastPosUsed == pos + 1
        invariant handed == old(handed)
        decreases pos < 0, 2 - passes
      {
        pos := FindLowest(mask, lastPosUsed, |mask|);
        lastPosUsed := if pos < 0 then 0 else pos + 1;
        passes := passes + 1;
      }
      handed := handed + [pos];
      Resumed(mask, k);
      r := seq(|mask|, i => i == pos);
    }

    /** However often the method was called, two set CPUs have been handed out equally often, give
        or take one. */
    lemma HandedFairly(p: nat, q: nat)
      requires Valid() && p < |mask| && mask[p] && q < |mask| && mask[q]
      ensures multiset(handed)[p] <= multiset(handed)[q] + 1
    {
      Fair(mask, p, q, |handed|);
    }
  }
}
