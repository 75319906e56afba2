/** What every run of the queue guarantees, for any number of threads. */
module MpmcTheorems {
  import opened MpmcModel
  import opened MpmcInvariant
  import opened Arithmetic

  /** No call is between its first and its last access. */
  ghost predicate Quiescent<T>(s: State<T>) {
    forall tid: Tid :: PcOf(s, tid).Idle?
  }

  /** The elements pushed and not yet popped, oldest first. */
  ghost function Contents<T>(s: State<T>): seq<T>
    requires Shape(s) && s.tail <= s.head
  {
    s.pushes[s.tail..]
  }

  lemma ReachableInv<T>(cap: nat, acts: seq<Act<T>>)
    requires cap > 0
    ensures Inv(Run(Init<T>(cap), acts))
  {
    hide Run, Apply;
    InitInv<T>(cap);
    RunInv(Init<T>(cap), acts);
  }

  /** No run constructs over a live object, moves out of a dead one or destroys raw storage. */
  lemma NoFault<T>(cap: nat, acts: seq<Act<T>>)
    requires cap > 0
    ensures !Run(Init<T>(cap), acts).fault
  {
    ReachableInv(cap, acts);
  }

  /** The consumer of ticket t receives exactly what the producer of ticket t pushed. */
  lemma TicketFifo<T>(cap: nat, acts: seq<Act<T>>)
    requires cap > 0
    ensures var s := Run(Init<T>(cap), acts);
      && (forall t :: t in s.pops ==> t < s.head && t < s.tail && s.pops[t] == s.pushes[t])
      && (forall tid: Tid :: PcOf(s, tid).Idle? && PcOf(s, tid).last.Popped? ==>
            var t := PcOf(s, tid).last.ticket;
            t < s.head && t < s.tail && s.popOwner[t] == tid && PcOf(s, tid).last.value == s.pushes[t])
  {
    hide Run, Apply;
    ReachableInv(cap, acts);
    var s := Run(Init<T>(cap), acts);
    forall t | t in s.pops ensures t < s.head && t < s.tail && s.pops[t] == s.pushes[t] {
      assert TicketOk(s, t);
    }
    forall tid: Tid | PcOf(s, tid).Idle? && PcOf(s, tid).last.Popped?
      ensures var t := PcOf(s, tid).last.ticket;
              t < s.head && t < s.tail && s.popOwner[t] == tid && PcOf(s, tid).last.value == s.pushes[t]
    {
      assert ThreadOk(s, tid);
      assert TicketOk(s, PcOf(s, tid).last.ticket);
    }
  }

  lemma RunNext<T>(s: State<T>, acts: seq<Act<T>>, k: nat)
    requires Shape(s) && k < |acts|
    ensures Run(s, acts[..k + 1]) == Apply(Run(s, acts[..k]), acts[k])
  {
    hide Apply;
    assert acts[..k + 1][..k] == acts[..k];
  }

  lemma {:induction false} RunConcat<T>(s: State<T>, a: seq<Act<T>>, b: seq<Act<T>>)
    requires Shape(s)
    ensures Run(s, a + b) == Run(Run(s, a), b)
    decreases |b|
  {
    hide Apply;
    if b == [] {
      assert a + b == a;
    } else {
      var b' := b[..|b| - 1];
      assert (a + b)[..|a + b| - 1] == a + b';
      RunConcat(s, a, b');
    }
  }

  /** A later state of the same run: tickets keep their value, owner and delivery. */
  ghost predicate Extends<T>(s: State<T>, s': State<T>) {
    && s.pushes <= s'.pushes
    && s.pushOwner <= s'.pushOwner
    && s.popOwner <= s'.popOwner
    && s.head <= s'.head
    && s.tail <= s'.tail
    && (forall t :: t in s.pops ==> t in s'.pops && s'.pops[t] == s.pops[t])
  }

  lemma ApplyExtends<T>(s: State<T>, a: Act<T>)
    requires Inv(s)
    ensures Extends(s, Apply(s, a))
  {
    assert ThreadOk(s, a.tid);
    if a.Call? {
      hide GoPush, GoPop;
    } else if IsPush(PcOf(s, a.tid)) {
      hide GoPop, Begin;
    } else {
      hide GoPush, Begin;
    }
  }

  /** A delivered element is never delivered again, and no claimed ticket is ever reassigned. */
  lemma {:induction false} RunExtends<T>(s: State<T>, acts: seq<Act<T>>)
    requires Inv(s)
    ensures Extends(s, Run(s, acts))
    decreases |acts|
  {
    hide Apply;
    if acts != [] {
      RunExtends(s, acts[..|acts| - 1]);
      RunInv(s, acts[..|acts| - 1]);
      ApplyExtends(Run(s, acts[..|acts| - 1]), acts[|acts| - 1]);
    }
  }

  lemma QuiescentTicket<T>(s: State<T>, t: nat)
    requires Inv(s) && Quiescent(s)
    ensures Published(s, t) <==> t < s.head
    ensures Released(s, t) <==> t < s.tail
    ensures t < s.tail ==> t < s.head && t in s.pops && s.pops[t] == s.pushes[t]
    ensures s.tail <= t < s.head ==> CellOf(s, t) == Live(s.pushes[t])
  {
    assert TicketOk(s, t);
  }

  lemma QuiescentBounds<T>(s: State<T>)
    requires Inv(s) && Quiescent(s)
    ensures s.tail <= s.head <= s.tail + s.cap
  {
    if s.tail > s.head { QuiescentTicket(s, s.head); }
    NextLap(s.cap, s.tail);
    QuiescentTicket(s, s.tail);
    QuiescentTicket(s, s.tail + s.cap);
  }

  lemma QuiescentFree<T>(s: State<T>, t: nat)
    requires Inv(s) && Quiescent(s) && s.head <= t < s.tail + s.cap
    ensures Turn(s, t) == Lap(s.cap, t) * 2
  {
    QuiescentTicket(s, t);
    if t >= s.cap {
      NextLap(s.cap, t - s.cap);
      QuiescentTicket(s, t - s.cap);
    } else {
      assert t / s.cap == 0;
    }
  }

  /** With no call in flight nothing is lost: every claimed pop delivered its element, at
      most `cap` elements remain, and each remaining one is live in its ticket's slot. */
  lemma QuiescentContents<T>(s: State<T>)
    requires Inv(s) && Quiescent(s)
    ensures s.tail <= s.head <= s.tail + s.cap
    ensures forall t: nat :: t < s.tail ==> t in s.pops && s.pops[t] == s.pushes[t]
    ensures forall t: nat :: s.tail <= t < s.head ==> CellOf(s, t) == Live(s.pushes[t])
    ensures forall t: nat :: s.tail <= t < s.head ==> Turn(s, t) == Lap(s.cap, t) * 2 + 1
    ensures forall t: nat :: s.head <= t < s.tail + s.cap ==> Turn(s, t) == Lap(s.cap, t) * 2
  {
    QuiescentBounds(s);
    forall t: nat
      ensures t < s.tail ==> t in s.pops && s.pops[t] == s.pushes[t]
      ensures s.tail <= t < s.head ==> CellOf(s, t) == Live(s.pushes[t]) && Turn(s, t) == Lap(s.cap, t) * 2 + 1
    {
      QuiescentTicket(s, t);
    }
    forall t: nat | s.head <= t < s.tail + s.cap ensures Turn(s, t) == Lap(s.cap, t) * 2 {
      QuiescentFree(s, t);
    }
  }

  /** With no call in flight a full slot belongs to a ticket that was pushed and not popped. */
  lemma LeftoverTicket<T>(s: State<T>, i: nat) returns (t: nat)
    requires Inv(s) && Quiescent(s) && i < s.cap && s.turns[i] % 2 == 1
    ensures s.tail <= t < s.head && Idx(s.cap, t) == i
  {
    t := s.cap * (s.turns[i] / 2) + i;
    DivUnique(s.cap, s.turns[i] / 2, i);
    QuiescentTicket(s, t);
  }

  /** At most one thread at a time is between its turn check and its turn store on a slot. */
  lemma SlotExclusive<T>(s: State<T>, a: Tid, b: Tid)
    requires Inv(s)
    requires OnSlot(PcOf(s, a)) && OnSlot(PcOf(s, b))
    requires Idx(s.cap, PcOf(s, a).t) == Idx(s.cap, PcOf(s, b).t)
    ensures a == b
  {
    assert ThreadOk(s, a) && ThreadOk(s, b);
    SlotTickets(s.cap, PcOf(s, a).t);
  }

  /** While no thread is between its check and its store on slot i, the slot's turn is odd
      exactly if it holds a live element, and otherwise its storage is raw. */
  lemma SlotParity<T>(s: State<T>, i: nat)
    requires Inv(s) && i < s.cap
    requires forall tid: Tid :: OnSlot(PcOf(s, tid)) ==> Idx(s.cap, PcOf(s, tid).t) != i
    ensures s.turns[i] % 2 == 1 <==> s.cells[i].Live?
    ensures s.turns[i] % 2 == 0 <==> s.cells[i].Raw?
  {
    var u := s.cap * (s.turns[i] / 2) + i;
    DivUnique(s.cap, s.turns[i] / 2, i);
    assert TicketOk(s, u);
  }

  /** No action of another thread disturbs the slot a thread is working on. */
  lemma OthersKeepSlot<T>(s: State<T>, tid: Tid, a: Act<T>)
    requires Inv(s) && OnSlot(PcOf(s, tid)) && a != Go(tid)
    ensures var t := PcOf(s, tid).t;
      && PcOf(Apply(s, a), tid) == PcOf(s, tid)
      && Turn(Apply(s, a), t) == Turn(s, t) && CellOf(Apply(s, a), t) == CellOf(s, t)
  {
    var t := PcOf(s, tid).t;
    if a.Go? && OnSlot(PcOf(s, a.tid)) {
      if Idx(s.cap, PcOf(s, a.tid).t) == Idx(s.cap, t) {
        SlotExclusive(s, tid, a.tid);
      }
    }
  }

  ghost predicate OthersOnly<T>(acts: seq<Act<T>>, tid: Tid) {
    forall k :: 0 <= k < |acts| ==> acts[k] != Go(tid)
  }

  /** From the winning check (or compare-exchange) to the winner's own store, the slot is frozen. */
  lemma {:induction false} WinnerWindow<T>(s: State<T>, tid: Tid, acts: seq<Act<T>>)
    requires Inv(s) && OnSlot(PcOf(s, tid)) && OthersOnly(acts, tid)
    ensures var t := PcOf(s, tid).t; var s' := Run(s, acts);
      PcOf(s', tid) == PcOf(s, tid) && Turn(s', t) == Turn(s, t) && CellOf(s', t) == CellOf(s, t)
    decreases |acts|
  {
    hide Apply;
    if acts != [] {
      var pre := acts[..|acts| - 1];
      assert OthersOnly(pre, tid);
      WinnerWindow(s, tid, pre);
      RunInv(s, pre);
      OthersKeepSlot(Run(s, pre), tid, acts[|acts| - 1]);
    }
  }

  /** Only a thread's own `Go` moves it once it is inside a call. */
  lemma OtherPc<T>(s: State<T>, a: Act<T>, tid: Tid)
    requires Shape(s) && a != Go(tid) && (a.tid == tid ==> !PcOf(s, tid).Idle?)
    ensures PcOf(Apply(s, a), tid) == PcOf(s, tid)
  {
  }

  lemma {:induction false} OthersKeepPc<T>(s: State<T>, tid: Tid, acts: seq<Act<T>>)
    requires Shape(s) && !PcOf(s, tid).Idle? && OthersOnly(acts, tid)
    ensures PcOf(Run(s, acts), tid) == PcOf(s, tid)
    decreases |acts|
  {
    hide Apply;
    if acts != [] {
      assert OthersOnly(acts[..|acts| - 1], tid);
      OthersKeepPc(s, tid, acts[..|acts| - 1]);
      OtherPc(Run(s, acts[..|acts| - 1]), acts[|acts| - 1], tid);
    }
  }

  /** A thread that takes no step stays where it is while the run goes on from any cut. */
  lemma CutRun<T>(s: State<T>, tid: Tid, acts: seq<Act<T>>, k: nat)
    requires Inv(s) && !PcOf(s, tid).Idle? && OthersOnly(acts, tid) && k <= |acts|
    ensures var s' := Run(s, acts[..k]);
      Inv(s') && PcOf(s', tid) == PcOf(s, tid) && Extends(s', Run(s, acts))
  {
    hide Run, Apply, Extends, ThreadOk, TicketOk;
    RunInv(s, acts[..k]);
    assert OthersOnly(acts[..k], tid);
    OthersKeepPc(s, tid, acts[..k]);
    assert acts == acts[..k] + acts[k..];
    RunConcat(s, acts[..k], acts[k..]);
    RunExtends(Run(s, acts[..k]), acts[k..]);
  }

  /** Check-then-act stability of try_emplace: if the compare-exchange is going to succeed,
      neither the counter nor the observed turn changed at any time since the check. */
  lemma PushCasWindow<T>(s: State<T>, tid: Tid, acts: seq<Act<T>>, k: nat)
    requires Inv(s) && PcOf(s, tid).TryPushCas? && OthersOnly(acts, tid) && k <= |acts|
    requires Run(s, acts).head == PcOf(s, tid).t
    ensures var t := PcOf(s, tid).t; var s' := Run(s, acts[..k]);
      s'.head == t && Turn(s', t) == Lap(s.cap, t) * 2
  {
    hide Run, Apply;
    CutRun(s, tid, acts, k);
    assert ThreadOk(Run(s, acts[..k]), tid);
  }

  /** The same for try_pop. */
  lemma PopCasWindow<T>(s: State<T>, tid: Tid, acts: seq<Act<T>>, k: nat)
    requires Inv(s) && PcOf(s, tid).TryPopCas? && OthersOnly(acts, tid) && k <= |acts|
    requires Run(s, acts).tail == PcOf(s, tid).t
    ensures var t := PcOf(s, tid).t; var s' := Run(s, acts[..k]);
      s'.tail == t && Turn(s', t) == Lap(s.cap, t) * 2 + 1
  {
    hide Run, Apply;
    CutRun(s, tid, acts, k);
    assert ThreadOk(Run(s, acts[..k]), tid);
  }

  /** How a thread comes to stand at its counter reload. */
  lemma PushReloadPredecessor<T>(p: State<T>, a: Act<T>, tid: Tid)
    requires Shape(p) && PcOf(Apply(p, a), tid).TryPushReload?
    ensures var pc := PcOf(Apply(p, a), tid);
      || PcOf(p, tid) == pc
      || (a == Go(tid) && PcOf(p, tid).TryPushCheck? && PcOf(p, tid).t == pc.t &&
          Turn(p, pc.t) != Lap(p.cap, pc.t) * 2 && Apply(p, a).head == p.head)
  {
    if a.tid != tid {
      hide Apply;
    } else {
      hide GoPop;
    }
  }

  lemma PopReloadPredecessor<T>(p: State<T>, a: Act<T>, tid: Tid)
    requires Shape(p) && PcOf(Apply(p, a), tid).TryPopReload?
    ensures var pc := PcOf(Apply(p, a), tid);
      || PcOf(p, tid) == pc
      || (a == Go(tid) && PcOf(p, tid).TryPopCheck? && PcOf(p, tid).t == pc.t &&
          Turn(p, pc.t) != Lap(p.cap, pc.t) * 2 + 1 && Apply(p, a).tail == p.tail)
  {
    if a.tid != tid {
      hide Apply;
    } else {
      if IsPush(PcOf(p, tid)) { GoPushKind(p, tid); }
      hide GoPush;
    }
  }

  lemma GoPushKind<T>(p: State<T>, tid: Tid)
    requires Shape(p) && IsPush(PcOf(p, tid))
    ensures !PcOf(GoPush(p, tid), tid).TryPopReload?
  {
  }

  /** At the head ticket a turn other than "free" means the pop one lap before is not released. */
  lemma HeadNotFree<T>(s: State<T>)
    requires Inv(s) && Turn(s, s.head) != Lap(s.cap, s.head) * 2
    ensures s.head >= s.cap && !Released(s, s.head - s.cap)
  {
    hide FreeCell, FullCell, ThreadOk;
    assert TicketOk(s, s.head);
    if s.head >= s.cap {
      NextLap(s.cap, s.head - s.cap);
    }
  }

  /** try_emplace is about to return false only if at its turn load, action k of the run, the
      counter stood at its ticket and the pop `cap` tickets earlier had not released the slot. */
  lemma {:induction false} PushFailureMeansFull<T>(cap: nat, acts: seq<Act<T>>, tid: Tid) returns (k: nat)
    requires cap > 0
    requires var s := Run(Init<T>(cap), acts); PcOf(s, tid).TryPushReload? && s.head == PcOf(s, tid).t
    ensures k < |acts| && acts[k] == Go(tid)
    ensures var t := PcOf(Run(Init<T>(cap), acts), tid).t; var at := Run(Init<T>(cap), acts[..k]);
      PcOf(at, tid).TryPushCheck? && PcOf(at, tid).t == t && at.head == t && t >= cap && !Released(at, t - cap)
    decreases |acts|
  {
    hide Apply;
    var n := |acts| - 1;
    var p := Run(Init<T>(cap), acts[..n]);
    ReachableInv(cap, acts[..n]);
    PushReloadPredecessor(p, acts[n], tid);
    ApplyExtends(p, acts[n]);
    assert ThreadOk(p, tid);
    if PcOf(p, tid).TryPushCheck? {
      k := n;
      HeadNotFree(p);
    } else {
      k := PushFailureMeansFull(cap, acts[..n], tid);
      assert acts[..n][..k] == acts[..k];
    }
  }

  /** try_pop is about to return false only if at its turn load the counter stood at its ticket
      and the push of that ticket had not been published. */
  lemma {:induction false} PopFailureMeansUnpublished<T>(cap: nat, acts: seq<Act<T>>, tid: Tid) returns (k: nat)
    requires cap > 0
    requires var s := Run(Init<T>(cap), acts); PcOf(s, tid).TryPopReload? && s.tail == PcOf(s, tid).t
    ensures k < |acts| && acts[k] == Go(tid)
    ensures var t := PcOf(Run(Init<T>(cap), acts), tid).t; var at := Run(Init<T>(cap), acts[..k]);
      PcOf(at, tid).TryPopCheck? && PcOf(at, tid).t == t && at.tail == t && !Published(at, t)
    decreases |acts|
  {
    hide Apply;
    var n := |acts| - 1;
    var p := Run(Init<T>(cap), acts[..n]);
    ReachableInv(cap, acts[..n]);
    PopReloadPredecessor(p, acts[n], tid);
    ApplyExtends(p, acts[n]);
    assert ThreadOk(p, tid);
    if PcOf(p, tid).TryPopCheck? {
      k := n;
      assert TicketOk(p, p.tail);
    } else {
      k := PopFailureMeansUnpublished(cap, acts[..n], tid);
      assert acts[..n][..k] == acts[..k];
    }
  }

  /** Inside a try-call the number of repeated iterations never exceeds the claims made since
      the call's first load, and every one of those claims was made by another thread. */
  lemma RetryBound<T>(cap: nat, acts: seq<Act<T>>, tid: Tid)
    requires cap > 0
    ensures var s := Run(Init<T>(cap), acts); var pc := PcOf(s, tid);
      && (pc.TryPushCheck? || pc.TryPushCas? || pc.TryPushReload? ==>
            pc.base + pc.retries <= s.head && forall k :: pc.base <= k < s.head ==> s.pushOwner[k] != tid)
      && (pc.TryPopCheck? || pc.TryPopCas? || pc.TryPopReload? ==>
            pc.base + pc.retries <= s.tail && forall k :: pc.base <= k < s.tail ==> s.popOwner[k] != tid)
  {
    hide Run, Apply;
    ReachableInv(cap, acts);
    assert ThreadOk(Run(Init<T>(cap), acts), tid);
  }

  /** A thread running alone for n accesses. */
  function Solo<T>(s: State<T>, tid: Tid, n: nat): (s': State<T>)
    requires Shape(s)
    ensures Shape(s') && s'.cap == s.cap
  {
    if n == 0 then s else Apply(Solo(s, tid, n - 1), Go(tid))
  }

  lemma SoloSteps<T>(s: State<T>, tid: Tid)
    requires Shape(s)
    ensures Solo(s, tid, 2) == Apply(Apply(s, Go(tid)), Go(tid))
    ensures Solo(s, tid, 4) == Apply(Apply(Solo(s, tid, 2), Go(tid)), Go(tid))
    ensures Solo(s, tid, 5) == Apply(Solo(s, tid, 4), Go(tid))
  {
    hide Apply;
    assert Solo(s, tid, 1) == Apply(Solo(s, tid, 0), Go(tid));
    assert Solo(s, tid, 3) == Apply(Solo(s, tid, 2), Go(tid));
  }

  lemma FreeAtHead<T>(s: State<T>)
    requires Inv(s) && Quiescent(s) && s.head < s.tail + s.cap
    ensures Turn(s, s.head) == Lap(s.cap, s.head) * 2 && CellOf(s, s.head).Raw?
  {
    QuiescentFree(s, s.head);
    assert TicketOk(s, s.head);
  }

  lemma FullAtHead<T>(s: State<T>)
    requires Inv(s) && Quiescent(s) && s.head == s.tail + s.cap
    ensures Turn(s, s.head) != Lap(s.cap, s.head) * 2
  {
    NextLap(s.cap, s.tail);
    QuiescentTicket(s, s.tail);
  }

  /** What a lone thread's emplace attempt does when the head slot is free. */
  lemma PushSteps<T>(s: State<T>, tid: Tid, v: T)
    requires Shape(s) && PcOf(s, tid).Idle? && Turn(s, s.head) == Lap(s.cap, s.head) * 2 && CellOf(s, s.head).Raw?
    ensures var s' := Solo(Apply(s, Call(tid, TryEmplace(v))), tid, 4);
      && PcOf(s', tid) == Idle(Pushed(s.head)) && s'.pushes == s.pushes + [v]
      && s'.tail == s.tail && forall x: Tid :: x != tid ==> PcOf(s', x) == PcOf(s, x)
  {
    hide GoPop;
    var t := s.head;
    var s0 := At(s, tid, TryPushCheck(v, t, t, 0));
    assert Apply(s, Call(tid, TryEmplace(v))) == s0;
    var s1 := At(s0, tid, TryPushCas(v, t, t, 0));
    assert Apply(s0, Go(tid)) == s1;
    var s2 := ClaimPush(s1, tid, v, PushBuild(v, t));
    assert Apply(s1, Go(tid)) == s2;
    var s3 := SetCell(s2, tid, t, Live(v), PushPublish(v, t));
    assert Apply(s2, Go(tid)) == s3;
    assert Apply(s3, Go(tid)) == SetTurn(s3, tid, t, Lap(s.cap, t) * 2 + 1, Idle(Pushed(t)));
    SoloSteps(s0, tid);
  }

  lemma PushRefused<T>(s: State<T>, tid: Tid, v: T)
    requires Shape(s) && PcOf(s, tid).Idle? && Turn(s, s.head) != Lap(s.cap, s.head) * 2
    ensures var s' := Solo(Apply(s, Call(tid, TryEmplace(v))), tid, 2);
      && PcOf(s', tid) == Idle(PushFailed) && s'.pushes == s.pushes
      && s'.tail == s.tail && forall x: Tid :: x != tid ==> PcOf(s', x) == PcOf(s, x)
  {
    hide GoPop;
    var s0 := At(s, tid, TryPushCheck(v, s.head, s.head, 0));
    var s1 := At(s0, tid, TryPushReload(v, s.head, s.head, 0));
    assert Apply(s, Call(tid, TryEmplace(v))) == s0;
    assert Apply(s0, Go(tid)) == s1;
    assert Apply(s1, Go(tid)) == At(s1, tid, Idle(PushFailed));
    SoloSteps(s0, tid);
  }

  /** With no other call in flight try_emplace fails exactly if `cap` elements are queued, and
      otherwise appends its element. */
  lemma SoloTryPush<T>(s: State<T>, tid: Tid, v: T)
    requires Inv(s) && Quiescent(s)
    ensures s.tail <= s.head <= s.tail + s.cap
    ensures var s0 := Apply(s, Call(tid, TryEmplace(v)));
      if |Contents(s)| < s.cap then
        var s' := Solo(s0, tid, 4);
        && PcOf(s', tid) == Idle(Pushed(s.head)) && Quiescent(s')
        && s'.tail <= s'.head && Contents(s') == Contents(s) + [v]
      else
        var s' := Solo(s0, tid, 2);
        PcOf(s', tid) == Idle(PushFailed) && Quiescent(s') && s'.tail <= s'.head && Contents(s') == Contents(s)
  {
    hide Apply, Solo;
    QuiescentBounds(s);
    if |Contents(s)| < s.cap {
      FreeAtHead(s);
      PushSteps(s, tid, v);
    } else {
      FullAtHead(s);
      PushRefused(s, tid, v);
    }
  }

  /** Move, destroy, release. */
  lemma PopTail<T>(s: State<T>, tid: Tid, t: nat, v: T)
    requires Shape(s) && PcOf(s, tid) == PopMove(t) && CellOf(s, t) == Live(v)
    ensures var s' := Apply(Apply(Apply(s, Go(tid)), Go(tid)), Go(tid));
      && PcOf(s', tid) == Idle(Popped(t, v)) && s'.pushes == s.pushes && s'.tail == s.tail
      && forall x: Tid :: x != tid ==> PcOf(s', x) == PcOf(s, x)
  {
    hide GoPush;
    var s1 := SetCell(s, tid, t, MovedFrom, PopDestroy(t, v)).(pops := s.pops[t := v]);
    assert Apply(s, Go(tid)) == s1;
    var s2 := SetCell(s1, tid, t, Raw, PopRelease(t, v));
    assert Apply(s1, Go(tid)) == s2;
    assert Apply(s2, Go(tid)) == SetTurn(s2, tid, t, Lap(s.cap, t) * 2 + 2, Idle(Popped(t, v)));
  }

  lemma PopSteps<T>(s: State<T>, tid: Tid, v: T)
    requires Shape(s) && PcOf(s, tid).Idle?
    requires Turn(s, s.tail) == Lap(s.cap, s.tail) * 2 + 1 && CellOf(s, s.tail) == Live(v)
    ensures var s' := Solo(Apply(s, Call(tid, TryPop)), tid, 5);
      && PcOf(s', tid) == Idle(Popped(s.tail, v)) && s'.pushes == s.pushes
      && s'.tail == s.tail + 1 && forall x: Tid :: x != tid ==> PcOf(s', x) == PcOf(s, x)
  {
    hide GoPush;
    var t := s.tail;
    var s0 := At(s, tid, TryPopCheck(t, t, 0));
    assert Apply(s, Call(tid, TryPop)) == s0;
    var s1 := At(s0, tid, TryPopCas(t, t, 0));
    assert Apply(s0, Go(tid)) == s1;
    var s2 := ClaimPop(s1, tid, PopMove(t));
    assert Apply(s1, Go(tid)) == s2;
    PopTail(s2, tid, t, v);
    SoloSteps(s0, tid);
  }

  lemma PopRefused<T>(s: State<T>, tid: Tid)
    requires Shape(s) && PcOf(s, tid).Idle? && Turn(s, s.tail) != Lap(s.cap, s.tail) * 2 + 1
    ensures var s' := Solo(Apply(s, Call(tid, TryPop)), tid, 2);
      && PcOf(s', tid) == Idle(PopFailed) && s'.pushes == s.pushes
      && s'.tail == s.tail && forall x: Tid :: x != tid ==> PcOf(s', x) == PcOf(s, x)
  {
    hide GoPush;
    var s0 := At(s, tid, TryPopCheck(s.tail, s.tail, 0));
    var s1 := At(s0, tid, TryPopReload(s.tail, s.tail, 0));
    assert Apply(s, Call(tid, TryPop)) == s0;
    assert Apply(s0, Go(tid)) == s1;
    assert Apply(s1, Go(tid)) == At(s1, tid, Idle(PopFailed));
    SoloSteps(s0, tid);
  }

  /** With no other call in flight try_pop fails exactly if nothing is queued, and otherwise
      removes and returns the oldest element. */
  lemma SoloTryPop<T>(s: State<T>, tid: Tid)
    requires Inv(s) && Quiescent(s)
    ensures s.tail <= s.head
    ensures var s0 := Apply(s, Call(tid, TryPop));
      if |Contents(s)| > 0 then
        var s' := Solo(s0, tid, 5);
        && PcOf(s', tid) == Idle(Popped(s.tail, Contents(s)[0])) && Quiescent(s')
        && s'.tail <= s'.head && Contents(s') == Contents(s)[1..]
      else
        var s' := Solo(s0, tid, 2);
        PcOf(s', tid) == Idle(PopFailed) && Quiescent(s') && s'.tail <= s'.head && Contents(s') == Contents(s)
  {
    hide Apply, Solo;
    QuiescentBounds(s);
    QuiescentTicket(s, s.tail);
    if |Contents(s)| > 0 {
      PopSteps(s, tid, s.pushes[s.tail]);
    } else {
      PopRefused(s, tid);
    }
  }
}
