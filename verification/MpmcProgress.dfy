/** Liveness: under a fair scheduler a claimed ticket whose partner one lap before is claimed
    completes within a number of rounds that depends only on its lap. */
module MpmcProgress {
  import opened MpmcModel
  import opened MpmcInvariant
  import opened MpmcTheorems
  import opened Arithmetic

  /** The ticket whose operation the slot of ticket t is waiting for. */
  ghost function Current<T>(s: State<T>, t: nat): (u: nat)
    requires Shape(s)
  {
    s.cap * (Turn(s, t) / 2) + Idx(s.cap, t)
  }

  ghost predicate PushTurn<T>(s: State<T>, t: nat)
    requires Shape(s)
  {
    Turn(s, t) % 2 == 0
  }

  /** The operation the slot is waiting for has been claimed by a thread. */
  ghost predicate Claimed<T>(s: State<T>, t: nat)
    requires Shape(s)
  {
    Current(s, t) < if PushTurn(s, t) then s.head else s.tail
  }

  /** The thread that must move the slot on. */
  ghost function Mover<T>(s: State<T>, t: nat): Tid
    requires Shape(s) && Claimed(s, t)
  {
    if PushTurn(s, t) then s.pushOwner[Current(s, t)] else s.popOwner[Current(s, t)]
  }

  ghost function Stage<T>(pc: Pc<T>): (n: nat)
    ensures n <= 3
  {
    match pc
    case PushBuild(_, _) => 1
    case PushPublish(_, _) => 2
    case PopMove(_) => 1
    case PopDestroy(_, _) => 2
    case PopRelease(_, _) => 3
    case _ => 0
  }

  /** How far the slot of ticket t has come: seven steps a lap, three of a push, four of a pop. */
  ghost function Phase<T>(s: State<T>, t: nat): (n: nat)
    requires Shape(s)
  {
    Turn(s, t) / 2 * 7 + (if PushTurn(s, t) then 0 else 3) +
    (if Claimed(s, t) then Stage(PcOf(s, Mover(s, t))) else 0)
  }

  lemma CurrentTicket<T>(s: State<T>, t: nat)
    requires Shape(s)
    ensures Idx(s.cap, Current(s, t)) == Idx(s.cap, t)
    ensures Lap(s.cap, Current(s, t)) == Turn(s, t) / 2
    ensures Turn(s, Current(s, t)) == Turn(s, t)
  {
    DivUnique(s.cap, Turn(s, t) / 2, Idx(s.cap, t));
  }

  /** The mover holds the current ticket, so its stage counts steps of that operation. */
  lemma MoverHolds<T>(s: State<T>, t: nat)
    requires Inv(s) && Claimed(s, t)
    ensures var pc := PcOf(s, Mover(s, t)); var u := Current(s, t);
      if PushTurn(s, t) then HoldsPush(pc, u) && Stage(pc) <= 2 else HoldsPop(pc, u)
  {
    CurrentTicket(s, t);
    assert TicketOk(s, Current(s, t));
  }

  /** The mover is never blocked: its next step carries the slot on. */
  lemma MoverAdvances<T>(s: State<T>, t: nat)
    requires Inv(s) && Claimed(s, t)
    ensures Phase(Apply(s, Go(Mover(s, t))), t) > Phase(s, t)
  {
    var h, u := Mover(s, t), Current(s, t);
    MoverHolds(s, t);
    CurrentTicket(s, t);
    assert ThreadOk(s, h) && TicketOk(s, u);
    if PushTurn(s, t) {
      PushAdvances(s, t);
    } else {
      PopAdvances(s, t);
    }
  }

  lemma PushAdvances<T>(s: State<T>, t: nat)
    requires Inv(s) && Claimed(s, t) && PushTurn(s, t)
    ensures Phase(GoPush(s, Mover(s, t)), t) > Phase(s, t)
  {
    var h, u := Mover(s, t), Current(s, t);
    MoverHolds(s, t);
    CurrentTicket(s, t);
    assert ThreadOk(s, h) && TicketOk(s, u);
    var s' := GoPush(s, h);
    if PcOf(s, h).PushPublish? {
      assert Turn(s', t) == Turn(s, t) + 1;
    } else {
      assert Turn(s', t) == Turn(s, t) && Mover(s', t) == h;
    }
  }

  lemma PopAdvances<T>(s: State<T>, t: nat)
    requires Inv(s) && Claimed(s, t) && !PushTurn(s, t)
    ensures Phase(GoPop(s, Mover(s, t)), t) > Phase(s, t)
  {
    var h, u := Mover(s, t), Current(s, t);
    MoverHolds(s, t);
    CurrentTicket(s, t);
    assert ThreadOk(s, h) && TicketOk(s, u);
    var s' := GoPop(s, h);
    if PcOf(s, h).PopRelease? {
      assert Turn(s', t) == Turn(s, t) + 1;
    } else {
      assert Turn(s', t) == Turn(s, t) && Mover(s', t) == h;
    }
  }

  /** Only the mover changes the turn of a slot, and then to the next one. */
  lemma TurnKept<T>(s: State<T>, a: Act<T>, t: nat)
    requires Inv(s) && (Claimed(s, t) ==> a != Go(Mover(s, t)))
    ensures Turn(Apply(s, a), t) == Turn(s, t)
  {
    if a.Go? {
      var pc := PcOf(s, a.tid);
      assert ThreadOk(s, a.tid);
      if (pc.PushPublish? || pc.PopRelease?) && Idx(s.cap, pc.t) == Idx(s.cap, t) {
        CurrentTicket(s, t);
        SlotTickets(s.cap, pc.t);
      }
    }
  }

  lemma PhaseMonotone<T>(s: State<T>, a: Act<T>, t: nat)
    requires Inv(s)
    ensures Phase(Apply(s, a), t) >= Phase(s, t)
  {
    hide Apply;
    if Claimed(s, t) && a == Go(Mover(s, t)) {
      MoverAdvances(s, t);
    } else {
      TurnKept(s, a, t);
      ApplyExtends(s, a);
      if Claimed(s, t) {
        var h := Mover(s, t);
        MoverHolds(s, t);
        OtherPc(s, a, h);
        assert Mover(Apply(s, a), t) == h;
      }
    }
  }

  lemma {:induction false} RunPhase<T>(s: State<T>, acts: seq<Act<T>>, t: nat)
    requires Inv(s)
    ensures Phase(Run(s, acts), t) >= Phase(s, t)
    decreases |acts|
  {
    hide Apply;
    if acts != [] {
      RunPhase(s, acts[..|acts| - 1], t);
      RunInv(s, acts[..|acts| - 1]);
      PhaseMonotone(Run(s, acts[..|acts| - 1]), acts[|acts| - 1], t);
    }
  }

  /** Once the mover has been scheduled the slot has moved on, whatever else happened. */
  lemma MoverScheduled<T>(s: State<T>, acts: seq<Act<T>>, t: nat, k: nat)
    requires Inv(s) && Claimed(s, t) && k < |acts| && acts[k] == Go(Mover(s, t))
    ensures Phase(Run(s, acts), t) > Phase(s, t)
  {
    hide Run, Apply;
    var s1, s2 := Run(s, acts[..k]), Run(s, acts[..k + 1]);
    RunPhase(s, acts[..k], t);
    RunInv(s, acts[..k]);
    RunInv(s, acts[..k + 1]);
    RunNext(s, acts, k);
    assert acts == acts[..k + 1] + acts[k + 1..];
    RunConcat(s, acts[..k + 1], acts[k + 1..]);
    RunPhase(s2, acts[k + 1..], t);
    if Phase(s1, t) == Phase(s, t) {
      RunExtends(s, acts[..k]);
      MoverHolds(s, t);
      SamePhase(s, s1, t);
      MoverAdvances(s1, t);
    } else {
      PhaseMonotone(s1, Go(Mover(s, t)), t);
    }
  }

  lemma SamePhase<T>(s: State<T>, s1: State<T>, t: nat)
    requires Inv(s) && Inv(s1) && s.cap == s1.cap && Extends(s, s1)
    requires Claimed(s, t) && Phase(s1, t) == Phase(s, t)
    ensures Claimed(s1, t) && Mover(s1, t) == Mover(s, t)
  {
    MoverHolds(s, t);
    if Claimed(s1, t) { MoverHolds(s1, t); }
  }

  /** Push ticket t is claimed, and so is the pop that must free its slot. */
  ghost predicate PushReady<T>(s: State<T>, t: nat) {
    t < s.head && (t < s.cap || t - s.cap < s.tail)
  }

  /** Pop ticket t is claimed, and so is the push that must fill its slot. */
  ghost predicate PopReady<T>(s: State<T>, t: nat) {
    t < s.tail && t < s.head
  }

  /** Descent over tickets by the capacity: below an unfinished ready ticket the slot is
      always waiting for a claimed operation, so the turn waits cannot deadlock. */
  lemma PushReadyClaimed<T>(s: State<T>, t: nat)
    requires Inv(s) && PushReady(s, t) && !Published(s, t)
    ensures Claimed(s, t) && Current(s, t) <= t
    ensures Phase(s, t) < Lap(s.cap, t) * 7 + 3
  {
    CurrentTicket(s, t);
    LapOrder(s.cap, Current(s, t), t);
    MoverHolds(s, t);
  }

  lemma PopReadyClaimed<T>(s: State<T>, t: nat)
    requires Inv(s) && PopReady(s, t) && !Released(s, t)
    ensures Claimed(s, t) && Current(s, t) <= t
    ensures Phase(s, t) < Lap(s.cap, t) * 7 + 7
  {
    CurrentTicket(s, t);
    LapOrder(s.cap, Current(s, t), t);
    MoverHolds(s, t);
  }

  lemma LapOrder(cap: nat, u: nat, t: nat)
    requires cap > 0 && Idx(cap, u) == Idx(cap, t) && Lap(cap, u) <= Lap(cap, t)
    ensures u <= t
    ensures Lap(cap, u) < Lap(cap, t) ==> t >= cap && u <= t - cap
  {
    assert u == cap * (u / cap) + u % cap;
    assert t == cap * (t / cap) + t % cap;
    LapDistance(cap, t / cap - u / cap);
  }

  lemma LapDistance(cap: nat, d: nat)
    ensures cap * d >= if d == 0 then 0 else cap
  {
  }

  /** One round of a fair scheduler: every call in flight at its start takes a step in it. */
  ghost predicate FairRound<T>(s: State<T>, acts: seq<Act<T>>) {
    forall tid: Tid :: !PcOf(s, tid).Idle? ==> Go(tid) in acts
  }

  ghost function Rounds<T>(s: State<T>, rounds: seq<seq<Act<T>>>): (s': State<T>)
    requires Shape(s)
    ensures Shape(s') && s'.cap == s.cap
    decreases |rounds|
  {
    if rounds == [] then s else Rounds(Run(s, rounds[0]), rounds[1..])
  }

  ghost predicate Fair<T>(s: State<T>, rounds: seq<seq<Act<T>>>)
    requires Shape(s)
    decreases |rounds|
  {
    rounds == [] || (FairRound(s, rounds[0]) && Fair(Run(s, rounds[0]), rounds[1..]))
  }

  lemma RoundAdvances<T>(s: State<T>, acts: seq<Act<T>>, t: nat)
    requires Inv(s) && Claimed(s, t) && FairRound(s, acts)
    ensures Phase(Run(s, acts), t) > Phase(s, t)
  {
    hide Run, Apply;
    MoverHolds(s, t);
    var k :| 0 <= k < |acts| && acts[k] == Go(Mover(s, t));
    MoverScheduled(s, acts, t, k);
  }

  /** A ready push is published after at most 7 * lap + 3 fair rounds, however the threads
      interleave and whatever new calls are made meanwhile. */
  lemma {:induction false} PushCompletes<T>(s: State<T>, rounds: seq<seq<Act<T>>>, t: nat)
    requires Inv(s) && PushReady(s, t) && Fair(s, rounds)
    requires |rounds| + Phase(s, t) >= Lap(s.cap, t) * 7 + 3
    ensures Published(Rounds(s, rounds), t)
    decreases |rounds|
  {
    hide Run, Apply;
    if !Published(s, t) {
      PushReadyClaimed(s, t);
      RoundAdvances(s, rounds[0], t);
    }
    if rounds != [] {
      RunPhase(s, rounds[0], t);
      RunInv(s, rounds[0]);
      RunExtends(s, rounds[0]);
      PublishedPhase(s, t);
      PushCompletes(Run(s, rounds[0]), rounds[1..], t);
    }
  }

  lemma PublishedPhase<T>(s: State<T>, t: nat)
    requires Shape(s)
    ensures Published(s, t) ==> Phase(s, t) >= Lap(s.cap, t) * 7 + 3
    ensures Released(s, t) ==> Phase(s, t) >= Lap(s.cap, t) * 7 + 7
  {
  }

  /** A ready pop is released, with its element delivered, after at most 7 * lap + 7 fair rounds. */
  lemma {:induction false} PopCompletes<T>(s: State<T>, rounds: seq<seq<Act<T>>>, t: nat)
    requires Inv(s) && PopReady(s, t) && Fair(s, rounds)
    requires |rounds| + Phase(s, t) >= Lap(s.cap, t) * 7 + 7
    ensures var s' := Rounds(s, rounds);
      Released(s', t) && t in s'.pops && s.pushes[t] == s'.pops[t]
    decreases |rounds|
  {
    hide Run, Apply;
    if !Released(s, t) {
      PopReadyClaimed(s, t);
      RoundAdvances(s, rounds[0], t);
    }
    assert TicketOk(s, t);
    if rounds != [] {
      RunPhase(s, rounds[0], t);
      RunInv(s, rounds[0]);
      RunExtends(s, rounds[0]);
      PublishedPhase(s, t);
      PopCompletes(Run(s, rounds[0]), rounds[1..], t);
    }
  }

  ghost function Flatten<T>(rounds: seq<seq<Act<T>>>): (acts: seq<Act<T>>)
    decreases |rounds|
  {
    if rounds == [] then [] else rounds[0] + Flatten(rounds[1..])
  }

  lemma {:induction false} RoundsRun<T>(s: State<T>, rounds: seq<seq<Act<T>>>)
    requires Shape(s)
    ensures Rounds(s, rounds) == Run(s, Flatten(rounds))
    decreases |rounds|
  {
    hide Apply;
    if rounds != [] {
      RoundsRun(Run(s, rounds[0]), rounds[1..]);
      RunConcat(s, rounds[0], Flatten(rounds[1..]));
    }
  }

  /** From its k-th action on the run can be cut into fair rounds, at least n of them. */
  ghost predicate FairFrom<T>(s: State<T>, acts: seq<Act<T>>, k: nat, rounds: seq<seq<Act<T>>>, n: nat)
    requires Shape(s)
  {
    k <= |acts| && acts[k..] == Flatten(rounds) && Fair(Run(s, acts[..k]), rounds) && |rounds| >= n
  }

  lemma RunFrom<T>(s: State<T>, acts: seq<Act<T>>, k: nat, rounds: seq<seq<Act<T>>>, n: nat)
    requires Inv(s) && FairFrom(s, acts, k, rounds, n)
    ensures Inv(Run(s, acts[..k])) && Rounds(Run(s, acts[..k]), rounds) == Run(s, acts)
  {
    hide Run, Apply, Rounds;
    RunInv(s, acts[..k]);
    RoundsRun(Run(s, acts[..k]), rounds);
    assert acts[..k] + acts[k..] == acts;
    RunConcat(s, acts[..k], acts[k..]);
  }

  /** The run holds 7 * lap + 3 fair rounds after push ticket t is ready. */
  ghost predicate PushDue<T(!new)>(s: State<T>, acts: seq<Act<T>>, t: nat)
    requires Shape(s)
  {
    exists k: nat, rounds :: PushServed(s, acts, k, rounds, t)
  }

  ghost predicate PushServed<T>(s: State<T>, acts: seq<Act<T>>, k: nat, rounds: seq<seq<Act<T>>>, t: nat)
    requires Shape(s)
  {
    FairFrom(s, acts, k, rounds, Lap(s.cap, t) * 7 + 3) && PushReady(Run(s, acts[..k]), t)
  }

  /** The run holds 7 * lap + 7 fair rounds after pop ticket t is ready. */
  ghost predicate PopDue<T(!new)>(s: State<T>, acts: seq<Act<T>>, t: nat)
    requires Shape(s)
  {
    exists k: nat, rounds :: PopServed(s, acts, k, rounds, t)
  }

  ghost predicate PopServed<T>(s: State<T>, acts: seq<Act<T>>, k: nat, rounds: seq<seq<Act<T>>>, t: nat)
    requires Shape(s)
  {
    FairFrom(s, acts, k, rounds, Lap(s.cap, t) * 7 + 7) && PopReady(Run(s, acts[..k]), t)
  }

  /** However a run is cut into rounds, a push that is due is published. */
  lemma PushNotStarved<T(!new)>(s: State<T>, acts: seq<Act<T>>, t: nat)
    requires Inv(s) && PushDue(s, acts, t)
    ensures Published(Run(s, acts), t)
  {
    hide Run, Apply, Published, Phase;
    var k: nat, rounds :| PushServed(s, acts, k, rounds, t);
    RunFrom(s, acts, k, rounds, Lap(s.cap, t) * 7 + 3);
    PushCompletes(Run(s, acts[..k]), rounds, t);
  }

  /** However a run is cut into rounds, a pop that is due has delivered. */
  lemma PopNotStarved<T(!new)>(s: State<T>, acts: seq<Act<T>>, t: nat)
    requires Inv(s) && PopDue(s, acts, t)
    ensures t in Run(s, acts).pops
  {
    hide Run, Apply, Released, Phase;
    var k: nat, rounds :| PopServed(s, acts, k, rounds, t);
    RunFrom(s, acts, k, rounds, Lap(s.cap, t) * 7 + 7);
    PopCompletes(Run(s, acts[..k]), rounds, t);
  }
}
