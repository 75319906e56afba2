/** The inductive invariant of the queue and its preservation by every action. */
module MpmcInvariant {
  import opened MpmcModel

  ghost predicate HoldsPush<T>(pc: Pc<T>, t: nat) {
    (pc.PushWait? || pc.PushBuild? || pc.PushPublish?) && pc.t == t
  }

  ghost predicate HoldsPop<T>(pc: Pc<T>, t: nat) {
    (pc.PopWait? || pc.PopMove? || pc.PopDestroy? || pc.PopRelease?) && pc.t == t
  }

  /** Push ticket u is published: its element was stored at some time. */
  ghost predicate Published<T>(s: State<T>, u: nat)
    requires Shape(s)
  {
    Turn(s, u) > Lap(s.cap, u) * 2
  }

  /** Pop ticket u is released: its slot was handed on to the next lap. */
  ghost predicate Released<T>(s: State<T>, u: nat)
    requires Shape(s)
  {
    Turn(s, u) > Lap(s.cap, u) * 2 + 1
  }

  /** A claimed push ticket as its holder sees it. */
  ghost predicate PushHeld<T>(s: State<T>, tid: Tid, v: T, t: nat)
    requires Shape(s)
  {
    t < s.head && s.pushOwner[t] == tid && s.pushes[t] == v && !Published(s, t)
  }

  /** A claimed pop ticket as its holder sees it. */
  ghost predicate PopHeld<T>(s: State<T>, tid: Tid, t: nat)
    requires Shape(s)
  {
    t < s.tail && s.popOwner[t] == tid && !Released(s, t)
  }

  /** Inside a try-call: each repeated iteration was paid for by another thread's claim. */
  ghost predicate TryHeld(counter: nat, owner: seq<Tid>, tid: Tid, t: nat, base: nat, retries: nat) {
    && base + retries <= t <= counter == |owner|
    && forall k :: base <= k < counter ==> owner[k] != tid
  }

  ghost predicate ThreadOk<T>(s: State<T>, tid: Tid)
    requires Shape(s)
  {
    match PcOf(s, tid)
    case Idle(last) =>
      && (last.Pushed? ==> last.ticket < s.head && s.pushOwner[last.ticket] == tid && Published(s, last.ticket))
      && (last.Popped? ==>
            last.ticket < s.tail && s.popOwner[last.ticket] == tid &&
            last.ticket in s.pops && s.pops[last.ticket] == last.value)
    case PushWait(v, t) => PushHeld(s, tid, v, t)
    case PushBuild(v, t) => PushHeld(s, tid, v, t) && Turn(s, t) == Lap(s.cap, t) * 2
    case PushPublish(v, t) => PushHeld(s, tid, v, t) && Turn(s, t) == Lap(s.cap, t) * 2
    case TryPushCheck(v, t, base, n) => TryHeld(s.head, s.pushOwner, tid, t, base, n)
    case TryPushCas(v, t, base, n) =>
      TryHeld(s.head, s.pushOwner, tid, t, base, n) && (t == s.head ==> Turn(s, t) == Lap(s.cap, t) * 2)
    case TryPushReload(v, t, base, n) => TryHeld(s.head, s.pushOwner, tid, t, base, n)
    case PopWait(t) => PopHeld(s, tid, t) && t !in s.pops
    case PopMove(t) => PopHeld(s, tid, t) && t !in s.pops && Turn(s, t) == Lap(s.cap, t) * 2 + 1
    case PopDestroy(t, v) =>
      PopHeld(s, tid, t) && t in s.pops && s.pops[t] == v && Turn(s, t) == Lap(s.cap, t) * 2 + 1
    case PopRelease(t, v) =>
      PopHeld(s, tid, t) && t in s.pops && s.pops[t] == v && Turn(s, t) == Lap(s.cap, t) * 2 + 1
    case TryPopCheck(t, base, n) => TryHeld(s.tail, s.popOwner, tid, t, base, n)
    case TryPopCas(t, base, n) =>
      TryHeld(s.tail, s.popOwner, tid, t, base, n) && (t == s.tail ==> Turn(s, t) == Lap(s.cap, t) * 2 + 1)
    case TryPopReload(t, base, n) => TryHeld(s.tail, s.popOwner, tid, t, base, n)
  }

  /** The storage of ticket u's slot while the slot is free for u's push. */
  ghost function FreeCell<T>(s: State<T>, u: nat): Cell<T>
    requires Shape(s)
  {
    if u < s.head && PcOf(s, s.pushOwner[u]).PushPublish? && PcOf(s, s.pushOwner[u]).t == u
    then Live(s.pushes[u]) else Raw
  }

  /** The storage of ticket u's slot while the slot is full for u's pop. */
  ghost function FullCell<T>(s: State<T>, u: nat): Cell<T>
    requires Shape(s) && u < s.head
  {
    var pc := if u < s.tail then PcOf(s, s.popOwner[u]) else Idle(NoCall);
    if pc.PopDestroy? && pc.t == u then MovedFrom
    else if pc.PopRelease? && pc.t == u then Raw
    else Live(s.pushes[u])
  }

  ghost predicate TicketOk<T>(s: State<T>, u: nat)
    requires Shape(s)
  {
    && (Published(s, u) ==> u < s.head)
    && (Released(s, u) ==> u < s.tail)
    && (u < s.head && !Published(s, u) ==> HoldsPush(PcOf(s, s.pushOwner[u]), u))
    && (u < s.tail && !Released(s, u) ==> HoldsPop(PcOf(s, s.popOwner[u]), u))
    && (Turn(s, u) == Lap(s.cap, u) * 2 ==> CellOf(s, u) == FreeCell(s, u))
    && (Published(s, u) && !Released(s, u) ==> CellOf(s, u) == FullCell(s, u))
    && (Released(s, u) ==> u in s.pops)
    && (u in s.pops ==> u < s.tail && Published(s, u) && s.pops[u] == s.pushes[u])
  }

  ghost predicate Inv<T>(s: State<T>) {
    && Shape(s)
    && !s.fault
    && (forall tid: Tid :: ThreadOk(s, tid))
    && (forall u: nat :: TicketOk(s, u))
  }

  lemma SlotTickets(cap: nat, t: nat)
    requires cap > 0
    ensures forall u: nat :: Idx(cap, u) == Idx(cap, t) && Lap(cap, u) == Lap(cap, t) ==> u == t
  {
    forall u: nat | Idx(cap, u) == Idx(cap, t) && Lap(cap, u) == Lap(cap, t)
      ensures u == t
    {
      assert u == cap * (u / cap) + u % cap;
      assert t == cap * (t / cap) + t % cap;
    }
  }

  lemma InitInv<T>(cap: nat)
    requires cap > 0
    ensures Inv(Init<T>(cap))
  {
    var s := Init<T>(cap);
    forall u: nat ensures TicketOk(s, u) {
      assert Turn(s, u) == 0;
    }
  }

  /* Each action below changes one thread and at most one slot. Its effect on another
     thread x and on a ticket u is proved one at a time, from the facts about x and u. */

  /** Moving a thread that neither gains nor loses a ticket and does not own storage. */
  ghost predicate PlainMove<T>(pc: Pc<T>, pc': Pc<T>) {
    && !pc.PushPublish? && !pc'.PushPublish?
    && !pc.PopDestroy? && !pc'.PopDestroy?
    && !pc.PopRelease? && !pc'.PopRelease?
    && (pc.PushWait? || pc.PushBuild? ==> HoldsPush(pc', pc.t))
    && (pc.PopWait? || pc.PopMove? ==> HoldsPop(pc', pc.t))
  }

  lemma AtInv<T>(s: State<T>, tid: Tid, pc: Pc<T>)
    requires Inv(s) && ThreadOk(At(s, tid, pc), tid) && PlainMove(PcOf(s, tid), pc)
    ensures Inv(At(s, tid, pc))
  {
    var s' := At(s, tid, pc);
    forall x: Tid ensures ThreadOk(s', x) {
      assert ThreadOk(s, x);
    }
    forall u: nat ensures TicketOk(s', u) {
      AtTicket(s, tid, pc, u);
    }
  }

  lemma AtTicket<T>(s: State<T>, tid: Tid, pc: Pc<T>, u: nat)
    requires Shape(s) && TicketOk(s, u) && PlainMove(PcOf(s, tid), pc)
    ensures TicketOk(At(s, tid, pc), u)
  {
  }

  ghost predicate MayClaimPush<T>(s: State<T>, tid: Tid, v: T, pc: Pc<T>)
    requires Shape(s)
  {
    && (PcOf(s, tid).Idle? || PcOf(s, tid).TryPushCas?)
    && (pc == PushWait(v, s.head) || (pc == PushBuild(v, s.head) && Turn(s, s.head) == Lap(s.cap, s.head) * 2))
  }

  lemma ClaimPushInv<T>(s: State<T>, tid: Tid, v: T, pc: Pc<T>)
    requires Inv(s) && MayClaimPush(s, tid, v, pc)
    ensures Inv(ClaimPush(s, tid, v, pc))
  {
    var s' := ClaimPush(s, tid, v, pc);
    forall x: Tid ensures ThreadOk(s', x) {
      assert ThreadOk(s, x) && TicketOk(s, s.head);
      ClaimPushThread(s, tid, v, pc, x);
    }
    forall u: nat ensures TicketOk(s', u) {
      assert TicketOk(s, u);
      ClaimPushTicket(s, tid, v, pc, u);
    }
  }

  lemma ClaimPushThread<T>(s: State<T>, tid: Tid, v: T, pc: Pc<T>, x: Tid)
    requires Shape(s) && MayClaimPush(s, tid, v, pc) && ThreadOk(s, x) && TicketOk(s, s.head)
    ensures ThreadOk(ClaimPush(s, tid, v, pc), x)
  {
  }

  lemma ClaimPushTicket<T>(s: State<T>, tid: Tid, v: T, pc: Pc<T>, u: nat)
    requires Shape(s) && MayClaimPush(s, tid, v, pc) && TicketOk(s, u)
    ensures TicketOk(ClaimPush(s, tid, v, pc), u)
  {
  }

  ghost predicate MayClaimPop<T>(s: State<T>, tid: Tid, pc: Pc<T>)
    requires Shape(s)
  {
    && (PcOf(s, tid).Idle? || PcOf(s, tid).TryPopCas?)
    && (pc == PopWait(s.tail) || (pc == PopMove(s.tail) && Turn(s, s.tail) == Lap(s.cap, s.tail) * 2 + 1))
  }

  lemma ClaimPopInv<T>(s: State<T>, tid: Tid, pc: Pc<T>)
    requires Inv(s) && MayClaimPop(s, tid, pc)
    ensures Inv(ClaimPop(s, tid, pc))
  {
    var s' := ClaimPop(s, tid, pc);
    forall x: Tid ensures ThreadOk(s', x) {
      assert ThreadOk(s, x) && TicketOk(s, s.tail);
      ClaimPopThread(s, tid, pc, x);
    }
    forall u: nat ensures TicketOk(s', u) {
      assert TicketOk(s, u);
      ClaimPopTicket(s, tid, pc, u);
    }
  }

  lemma ClaimPopThread<T>(s: State<T>, tid: Tid, pc: Pc<T>, x: Tid)
    requires Shape(s) && MayClaimPop(s, tid, pc) && ThreadOk(s, x) && TicketOk(s, s.tail)
    ensures ThreadOk(ClaimPop(s, tid, pc), x)
  {
  }

  lemma ClaimPopTicket<T>(s: State<T>, tid: Tid, pc: Pc<T>, u: nat)
    requires Shape(s) && MayClaimPop(s, tid, pc) && TicketOk(s, u)
    ensures TicketOk(ClaimPop(s, tid, pc), u)
  {
  }

  /** The thread is between its successful turn check and its turn store. */
  ghost predicate OnSlot<T>(pc: Pc<T>) {
    pc.PushBuild? || pc.PushPublish? || pc.PopMove? || pc.PopDestroy? || pc.PopRelease?
  }

  lemma SetCellThread<T>(s: State<T>, tid: Tid, t: nat, c: Cell<T>, pc: Pc<T>, x: Tid)
    requires Shape(s) && ThreadOk(s, x) && x != tid
    ensures ThreadOk(SetCell(s, tid, t, c, pc), x)
  {
  }

  lemma BuildInv<T>(s: State<T>, tid: Tid)
    requires Inv(s) && PcOf(s, tid).PushBuild?
    ensures Inv(GoPush(s, tid))
  {
    var v, t := PcOf(s, tid).v, PcOf(s, tid).t;
    var s' := SetCell(s, tid, t, Live(v), PushPublish(v, t));
    assert ThreadOk(s, tid) && TicketOk(s, t);
    assert GoPush(s, tid) == s';
    forall x: Tid ensures ThreadOk(s', x) {
      assert ThreadOk(s, x);
      if x != tid { SetCellThread(s, tid, t, Live(v), PushPublish(v, t), x); }
    }
    forall u: nat ensures TicketOk(s', u) {
      assert TicketOk(s, u);
      BuildTicket(s, tid, u);
    }
  }

  lemma BuildTicket<T>(s: State<T>, tid: Tid, u: nat)
    requires Shape(s) && PcOf(s, tid).PushBuild? && ThreadOk(s, tid) && TicketOk(s, PcOf(s, tid).t) && TicketOk(s, u)
    ensures TicketOk(GoPush(s, tid), u)
  {
    SlotTickets(s.cap, PcOf(s, tid).t);
  }

  lemma PublishInv<T>(s: State<T>, tid: Tid)
    requires Inv(s) && PcOf(s, tid).PushPublish?
    ensures Inv(GoPush(s, tid))
  {
    assert ThreadOk(s, tid);
    forall x: Tid ensures ThreadOk(GoPush(s, tid), x) {
      assert ThreadOk(s, x);
      PublishThread(s, tid, x);
    }
    forall u: nat ensures TicketOk(GoPush(s, tid), u) {
      assert TicketOk(s, u);
      PublishTicket(s, tid, u);
    }
  }

  lemma PublishThread<T>(s: State<T>, tid: Tid, x: Tid)
    requires Shape(s) && PcOf(s, tid).PushPublish? && ThreadOk(s, tid) && ThreadOk(s, x)
    ensures ThreadOk(GoPush(s, tid), x)
  {
    SlotTickets(s.cap, PcOf(s, tid).t);
  }

  lemma PublishTicket<T>(s: State<T>, tid: Tid, u: nat)
    requires Shape(s) && PcOf(s, tid).PushPublish? && ThreadOk(s, tid) && TicketOk(s, PcOf(s, tid).t) && TicketOk(s, u)
    requires u < s.tail ==> ThreadOk(s, s.popOwner[u])
    ensures TicketOk(GoPush(s, tid), u)
  {
    SlotTickets(s.cap, PcOf(s, tid).t);
  }

  lemma MoveInv<T>(s: State<T>, tid: Tid)
    requires Inv(s) && PcOf(s, tid).PopMove?
    ensures Inv(GoPop(s, tid))
  {
    assert ThreadOk(s, tid) && TicketOk(s, PcOf(s, tid).t);
    forall x: Tid ensures ThreadOk(GoPop(s, tid), x) {
      assert ThreadOk(s, x);
      MoveThread(s, tid, x);
    }
    forall u: nat ensures TicketOk(GoPop(s, tid), u) {
      assert TicketOk(s, u);
      MoveTicket(s, tid, u);
    }
  }

  lemma MoveThread<T>(s: State<T>, tid: Tid, x: Tid)
    requires Shape(s) && PcOf(s, tid).PopMove? && ThreadOk(s, tid) && TicketOk(s, PcOf(s, tid).t) && ThreadOk(s, x)
    ensures ThreadOk(GoPop(s, tid), x)
  {
  }

  lemma MoveTicket<T>(s: State<T>, tid: Tid, u: nat)
    requires Shape(s) && PcOf(s, tid).PopMove? && ThreadOk(s, tid) && TicketOk(s, PcOf(s, tid).t) && TicketOk(s, u)
    ensures TicketOk(GoPop(s, tid), u)
  {
    SlotTickets(s.cap, PcOf(s, tid).t);
  }

  lemma DestroyInv<T>(s: State<T>, tid: Tid)
    requires Inv(s) && PcOf(s, tid).PopDestroy?
    ensures Inv(GoPop(s, tid))
  {
    var v, t := PcOf(s, tid).v, PcOf(s, tid).t;
    assert ThreadOk(s, tid) && TicketOk(s, t);
    var s' := SetCell(s, tid, t, Raw, PopRelease(t, v));
    assert GoPop(s, tid) == s';
    forall x: Tid ensures ThreadOk(s', x) {
      assert ThreadOk(s, x);
      if x != tid { SetCellThread(s, tid, t, Raw, PopRelease(t, v), x); }
    }
    forall u: nat ensures TicketOk(s', u) {
      assert TicketOk(s, u);
      DestroyTicket(s, tid, u);
    }
  }

  lemma DestroyTicket<T>(s: State<T>, tid: Tid, u: nat)
    requires Shape(s) && PcOf(s, tid).PopDestroy? && ThreadOk(s, tid) && TicketOk(s, PcOf(s, tid).t) && TicketOk(s, u)
    ensures TicketOk(GoPop(s, tid), u)
  {
    SlotTickets(s.cap, PcOf(s, tid).t);
  }

  lemma ReleaseInv<T>(s: State<T>, tid: Tid)
    requires Inv(s) && PcOf(s, tid).PopRelease?
    ensures Inv(GoPop(s, tid))
  {
    assert ThreadOk(s, tid);
    forall x: Tid ensures ThreadOk(GoPop(s, tid), x) {
      assert ThreadOk(s, x);
      ReleaseThread(s, tid, x);
    }
    forall u: nat ensures TicketOk(GoPop(s, tid), u) {
      assert TicketOk(s, u);
      ReleaseTicket(s, tid, u);
    }
  }

  lemma ReleaseThread<T>(s: State<T>, tid: Tid, x: Tid)
    requires Shape(s) && PcOf(s, tid).PopRelease? && ThreadOk(s, tid) && ThreadOk(s, x)
    ensures ThreadOk(GoPop(s, tid), x)
  {
    SlotTickets(s.cap, PcOf(s, tid).t);
  }

  lemma ReleaseTicket<T>(s: State<T>, tid: Tid, u: nat)
    requires Shape(s) && PcOf(s, tid).PopRelease? && ThreadOk(s, tid) && TicketOk(s, PcOf(s, tid).t) && TicketOk(s, u)
    requires u < s.head ==> ThreadOk(s, s.pushOwner[u])
    ensures TicketOk(GoPop(s, tid), u)
  {
    SlotTickets(s.cap, PcOf(s, tid).t);
  }

  lemma TryPushInv<T>(s: State<T>, tid: Tid)
    requires Inv(s) && (PcOf(s, tid).TryPushCheck? || PcOf(s, tid).TryPushCas? || PcOf(s, tid).TryPushReload?)
    ensures Inv(GoPush(s, tid))
  {
    assert ThreadOk(s, tid);
    match PcOf(s, tid)
    case TryPushCheck(v, t, base, n) =>
      if Turn(s, t) == Lap(s.cap, t) * 2 {
        AtInv(s, tid, TryPushCas(v, t, base, n));
      } else {
        AtInv(s, tid, TryPushReload(v, t, base, n));
      }
    case TryPushCas(v, t, base, n) =>
      if s.head == t {
        ClaimPushInv(s, tid, v, PushBuild(v, t));
      } else {
        AtInv(s, tid, TryPushCheck(v, s.head, base, n + 1));
      }
    case TryPushReload(v, t, base, n) =>
      if s.head == t {
        AtInv(s, tid, Idle(PushFailed));
      } else {
        AtInv(s, tid, TryPushCheck(v, s.head, base, n + 1));
      }
  }

  lemma GoPushInv<T>(s: State<T>, tid: Tid)
    requires Inv(s)
    ensures Inv(GoPush(s, tid))
  {
    assert ThreadOk(s, tid);
    match PcOf(s, tid)
    case PushWait(v, t) =>
      if Turn(s, t) == Lap(s.cap, t) * 2 { AtInv(s, tid, PushBuild(v, t)); }
    case PushBuild(_, _) => BuildInv(s, tid);
    case PushPublish(_, _) => PublishInv(s, tid);
    case TryPushCheck(_, _, _, _) => TryPushInv(s, tid);
    case TryPushCas(_, _, _, _) => TryPushInv(s, tid);
    case TryPushReload(_, _, _, _) => TryPushInv(s, tid);
    case _ =>
  }

  lemma TryPopInv<T>(s: State<T>, tid: Tid)
    requires Inv(s) && (PcOf(s, tid).TryPopCheck? || PcOf(s, tid).TryPopCas? || PcOf(s, tid).TryPopReload?)
    ensures Inv(GoPop(s, tid))
  {
    assert ThreadOk(s, tid);
    match PcOf(s, tid)
    case TryPopCheck(t, base, n) =>
      if Turn(s, t) == Lap(s.cap, t) * 2 + 1 {
        AtInv(s, tid, TryPopCas(t, base, n));
      } else {
        AtInv(s, tid, TryPopReload(t, base, n));
      }
    case TryPopCas(t, base, n) =>
      if s.tail == t {
        ClaimPopInv(s, tid, PopMove(t));
      } else {
        AtInv(s, tid, TryPopCheck(s.tail, base, n + 1));
      }
    case TryPopReload(t, base, n) =>
      if s.tail == t {
        AtInv(s, tid, Idle(PopFailed));
      } else {
        AtInv(s, tid, TryPopCheck(s.tail, base, n + 1));
      }
  }

  lemma GoPopInv<T>(s: State<T>, tid: Tid)
    requires Inv(s)
    ensures Inv(GoPop(s, tid))
  {
    assert ThreadOk(s, tid);
    match PcOf(s, tid)
    case PopWait(t) =>
      if Turn(s, t) == Lap(s.cap, t) * 2 + 1 { AtInv(s, tid, PopMove(t)); }
    case PopMove(_) => MoveInv(s, tid);
    case PopDestroy(_, _) => DestroyInv(s, tid);
    case PopRelease(_, _) => ReleaseInv(s, tid);
    case TryPopCheck(_, _, _) => TryPopInv(s, tid);
    case TryPopCas(_, _, _) => TryPopInv(s, tid);
    case TryPopReload(_, _, _) => TryPopInv(s, tid);
    case _ =>
  }

  lemma ApplyInv<T>(s: State<T>, a: Act<T>)
    requires Inv(s)
    ensures Inv(Apply(s, a))
  {
    match a
    case Call(tid, op) =>
      if PcOf(s, tid).Idle? {
        match op
        case Emplace(v) => ClaimPushInv(s, tid, v, PushWait(v, s.head));
        case TryEmplace(v) => AtInv(s, tid, TryPushCheck(v, s.head, s.head, 0));
        case Pop => ClaimPopInv(s, tid, PopWait(s.tail));
        case TryPop => AtInv(s, tid, TryPopCheck(s.tail, s.tail, 0));
      }
    case Go(tid) =>
      GoPushInv(s, tid);
      GoPopInv(s, tid);
  }

  /** Every state of every run, whatever the interleaving, satisfies the invariant. */
  lemma {:induction false} RunInv<T>(s: State<T>, acts: seq<Act<T>>)
    requires Inv(s)
    ensures Inv(Run(s, acts))
    decreases |acts|
  {
    hide Apply;
    if acts != [] {
      RunInv(s, acts[..|acts| - 1]);
      ApplyInv(Run(s, acts[..|acts| - 1]), acts[|acts| - 1]);
    }
  }
}
