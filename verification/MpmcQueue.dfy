/** The queue as the code runs it: one call on the shared fields, with any other threads
    interfering before each of its accesses. Every call is a run of the transition system. */
module MpmcQueue {
  import opened MpmcModel
  import opened MpmcInvariant
  import opened MpmcTheorems
  import opened MpmcProgress

  datatype Created<T(!new)> = Queue(queue: Queue<T>) | InvalidCapacity

  /** std::invalid_argument for a capacity below one. */
  method Create<T(!new)>(capacity: nat) returns (r: Created<T>)
    ensures r.InvalidCapacity? <==> capacity < 1
    ensures r.Queue? ==> r.queue.Valid() && r.queue.st == Init<T>(capacity)
  {
    if capacity < 1 { return InvalidCapacity; }
    var q := new Queue<T>(capacity);
    r := Created.Queue(q);
  }

  /** How one turn of a try loop ends. */
  datatype Attempt = Succeeded | GaveUp | Retry(ticket: nat)

  /** All actions are those of other threads. */
  ghost predicate Foreign<T>(acts: seq<Act<T>>, me: Tid) {
    forall k :: 0 <= k < |acts| ==> acts[k].tid != me
  }

  lemma {:induction false} ForeignKeepPc<T>(s: State<T>, me: Tid, acts: seq<Act<T>>)
    requires Shape(s) && Foreign(acts, me)
    ensures PcOf(Run(s, acts), me) == PcOf(s, me)
    decreases |acts|
  {
    hide Apply;
    if acts != [] {
      ForeignKeepPc(s, me, acts[..|acts| - 1]);
    }
  }

  lemma ForeignCount<T>(trace: seq<Act<T>>, acts: seq<Act<T>>, me: Tid)
    requires Foreign(acts, me)
    ensures multiset(trace + acts)[Go(me)] == multiset(trace)[Go(me)]
  {
    var go: Act<T> := Go(me);
    assert go !in acts;
    assert multiset(trace + acts) == multiset(trace) + multiset(acts);
  }

  lemma RunNone<T>(s: State<T>)
    requires Shape(s)
    ensures Run(s, []) == s
  {
  }

  lemma TraceGo<T>(s: State<T>, trace: seq<Act<T>>, me: Tid)
    requires Shape(s)
    ensures Run(s, trace + [Go(me)]) == Apply(Run(s, trace), Go(me))
    ensures multiset(trace + [Go(me)])[Go(me)] == multiset(trace)[Go(me)] + 1
  {
    hide Apply;
    assert (trace + [Go(me)])[..|trace|] == trace;
  }

  /** Some run leads from s0 to s. */
  ghost predicate Reaches<T(!new)>(s0: State<T>, s: State<T>)
    requires Shape(s0)
  {
    exists acts :: Run(s0, acts) == s
  }

  lemma ReachesSelf<T(!new)>(s: State<T>)
    requires Shape(s)
    ensures Reaches(s, s)
  {
    hide Apply;
    assert Run(s, []) == s;
  }

  lemma ReachesApply<T(!new)>(s0: State<T>, s: State<T>, a: Act<T>)
    requires Shape(s0) && Reaches(s0, s)
    ensures Shape(s) && Reaches(s0, Apply(s, a))
  {
    hide Apply;
    var acts :| Run(s0, acts) == s;
    assert (acts + [a])[..|acts|] == acts;
    assert Run(s0, acts + [a]) == Apply(s, a);
  }

  lemma ReachesRun<T(!new)>(s0: State<T>, s: State<T>, b: seq<Act<T>>)
    requires Shape(s0) && Reaches(s0, s)
    ensures Shape(s) && Reaches(s0, Run(s, b))
  {
    hide Apply;
    var acts :| Run(s0, acts) == s;
    RunConcat(s0, acts, b);
  }

  lemma ReachesTrans<T(!new)>(s0: State<T>, s1: State<T>, s2: State<T>)
    requires Shape(s0) && Reaches(s0, s1) && Shape(s1) && Reaches(s1, s2)
    ensures Reaches(s0, s2)
  {
    hide Apply;
    var b :| Run(s1, b) == s2;
    ReachesRun(s0, s1, b);
  }

  /** The slot of the next push had not been released by the pop one lap before. */
  ghost predicate Full<T>(s: State<T>) {
    Shape(s) && s.head >= s.cap && !Released(s, s.head - s.cap)
  }

  /** The element of the next pop had not been published. */
  ghost predicate Empty<T>(s: State<T>) {
    Shape(s) && !Published(s, s.tail)
  }

  /** at is a moment of a run from s0 to s. */
  ghost predicate Between<T(!new)>(s0: State<T>, at: State<T>, s: State<T>) {
    Shape(s0) && Shape(at) && Reaches(s0, at) && Reaches(at, s)
  }

  lemma PushFacts<T>(s: State<T>, me: Tid)
    requires Inv(s) && PcOf(s, me).Idle? && PcOf(s, me).last.Pushed?
    ensures var t := PcOf(s, me).last.ticket; t < s.head && s.pushOwner[t] == me && Published(s, t)
  {
    assert ThreadOk(s, me);
  }

  lemma PopFacts<T>(s: State<T>, me: Tid)
    requires Inv(s) && PcOf(s, me).Idle? && PcOf(s, me).last.Popped?
    ensures var t := PcOf(s, me).last.ticket; var v := PcOf(s, me).last.value;
      t < s.head && t < s.tail && s.popOwner[t] == me && t in s.pops && s.pops[t] == v && s.pushes[t] == v
  {
    assert ThreadOk(s, me) && TicketOk(s, PcOf(s, me).last.ticket);
  }

  lemma NotDuePush<T(!new)>(s: State<T>, trace: seq<Act<T>>, me: Tid)
    requires Inv(s) && Inv(Run(s, trace)) && PcOf(Run(s, trace), me).PushWait?
    ensures !PushDue(s, trace, PcOf(Run(s, trace), me).t)
  {
    hide Run, Apply, PushDue;
    assert ThreadOk(Run(s, trace), me);
    if PushDue(s, trace, PcOf(Run(s, trace), me).t) { PushNotStarved(s, trace, PcOf(Run(s, trace), me).t); }
  }

  lemma NotDuePop<T(!new)>(s: State<T>, trace: seq<Act<T>>, me: Tid)
    requires Inv(s) && Inv(Run(s, trace)) && PcOf(Run(s, trace), me).PopWait?
    ensures !PopDue(s, trace, PcOf(Run(s, trace), me).t)
  {
    hide Run, Apply, PopDue;
    assert ThreadOk(Run(s, trace), me);
    if PopDue(s, trace, PcOf(Run(s, trace), me).t) { PopNotStarved(s, trace, PcOf(Run(s, trace), me).t); }
  }

  class Queue<T(!new)> {
    const capacity: nat
    var head: nat
    var tail: nat
    const turns: array<nat>
    const cells: array<Cell<T>>
    ghost var st: State<T>

    ghost predicate Valid()
      reads this, turns, cells
    {
      Inv(st) && Matches(st)
    }

    /** The fields are in a state some run leads to from s0. */
    ghost predicate From(s0: State<T>)
      reads this, turns, cells
    {
      Valid() && Inv(s0) && Reaches(s0, st)
    }

    /** The shared fields hold what the model state says. */
    ghost predicate Matches(s: State<T>)
      reads this, turns, cells
    {
      && s.cap == capacity && s.head == head && s.tail == tail
      && turns[..] == s.turns && cells[..] == s.cells
    }

    constructor (capacity: nat)
      requires capacity > 0
      ensures Valid() && st == Init<T>(capacity)
      ensures fresh(turns) && fresh(cells)
    {
      this.capacity := capacity;
      head, tail := 0, 0;
      turns := new nat[capacity](_ => 0);
      cells := new Cell<T>[capacity](_ => Raw);
      st := Init<T>(capacity);
      InitInv<T>(capacity);
    }

    /** Any number of steps of other threads, as long as they leave both counters at most at
        `limit`. Doing nothing is one such behaviour; callers know only the contract. */
    method OtherThreads(ghost me: Tid, ghost limit: nat) returns (ghost acts: seq<Act<T>>)
      requires Valid() && head <= limit && tail <= limit
      modifies this, turns, cells
      ensures Valid() && head <= limit && tail <= limit
      ensures Foreign(acts, me) && st == Run(old(st), acts)
    {
      acts := [];
    }

    /** What a thread may rely on after others have run. */
    method Interfere(ghost s0: State<T>, ghost me: Tid, ghost limit: nat)
      requires From(s0) && head <= limit && tail <= limit
      modifies this, turns, cells
      ensures From(s0) && PcOf(st, me) == PcOf(old(st), me)
      ensures old(head) <= head <= limit && old(tail) <= tail <= limit
    {
      ghost var st0 := st;
      ghost var acts := OtherThreads(me, limit);
      ReachesRun(s0, st0, acts);
      RunExtends(st0, acts);
      ForeignKeepPc(st0, me, acts);
    }

    /* One method per atomic access or storage access: the shared fields change in place by
       exactly one action of the model. */

    ghost method Tick(s0: State<T>, a: Act<T>)
      requires Inv(s0) && Inv(st) && Reaches(s0, st) && Matches(Apply(st, a))
      modifies this`st
      ensures From(s0) && st == Apply(old(st), a)
    {
      ApplyInv(st, a);
      ReachesApply(s0, st, a);
      st := Apply(st, a);
    }

    /** head_.fetch_add(1) */
    method FetchAddHead(ghost s0: State<T>, ghost me: Tid, ghost v: T) returns (t: nat)
      requires From(s0) && PcOf(st, me).Idle?
      modifies this`st, this`head
      ensures From(s0)
      ensures t == old(head) && head == t + 1 && PcOf(st, me) == PushWait(v, t)
    {
      t := head;
      head := head + 1;
      Tick(s0, Call(me, Op.Emplace(v)));
    }

    /** tail_.fetch_add(1) */
    method FetchAddTail(ghost s0: State<T>, ghost me: Tid) returns (t: nat)
      requires From(s0) && PcOf(st, me).Idle?
      modifies this`st, this`tail
      ensures From(s0)
      ensures t == old(tail) && tail == t + 1 && PcOf(st, me) == PopWait(t)
    {
      t := tail;
      tail := tail + 1;
      Tick(s0, Call(me, Op.Pop));
    }

    /** The turn load of emplace. */
    method SpinPush(ghost s0: State<T>, ghost me: Tid, t: nat, ghost v: T) returns (ready: bool)
      requires From(s0) && PcOf(st, me) == PushWait(v, t)
      modifies this`st
      ensures From(s0) && st == Apply(old(st), Go(me))
      ensures PcOf(st, me) == if ready then PushBuild(v, t) else PushWait(v, t)
    {
      ready := turns[t % capacity] == t / capacity * 2;
      Tick(s0, Go(me));
    }

    /** The turn load of pop. */
    method SpinPop(ghost s0: State<T>, ghost me: Tid, t: nat) returns (ready: bool)
      requires From(s0) && PcOf(st, me) == PopWait(t)
      modifies this`st
      ensures From(s0) && st == Apply(old(st), Go(me))
      ensures PcOf(st, me) == if ready then PopMove(t) else PopWait(t)
    {
      ready := turns[t % capacity] == t / capacity * 2 + 1;
      Tick(s0, Go(me));
    }

    /** The first head_.load of try_emplace. */
    method LoadHead(ghost s0: State<T>, ghost me: Tid, ghost v: T) returns (t: nat)
      requires From(s0) && PcOf(st, me).Idle?
      modifies this`st
      ensures From(s0) && t == head && PcOf(st, me) == TryPushCheck(v, t, t, 0)
    {
      t := head;
      Tick(s0, Call(me, Op.TryEmplace(v)));
    }

    /** The first tail_.load of try_pop. */
    method LoadTail(ghost s0: State<T>, ghost me: Tid) returns (t: nat)
      requires From(s0) && PcOf(st, me).Idle?
      modifies this`st
      ensures From(s0) && t == tail && PcOf(st, me) == TryPopCheck(t, t, 0)
    {
      t := tail;
      Tick(s0, Call(me, Op.TryPop));
    }

    /** The turn load of try_emplace. */
    method CheckPush(ghost s0: State<T>, ghost me: Tid, ghost pc: Pc<T>, t: nat) returns (ready: bool)
      requires From(s0) && pc.TryPushCheck? && pc.t == t && PcOf(st, me) == pc
      modifies this`st
      ensures From(s0)
      ensures t <= head
      ensures PcOf(st, me) == if ready then TryPushCas(pc.v, t, pc.base, pc.retries)
                              else TryPushReload(pc.v, t, pc.base, pc.retries)
      ensures !ready && t == head ==> Full(old(st))
    {
      hide Reaches;
      assert ThreadOk(st, me);
      ready := turns[t % capacity] == t / capacity * 2;
      if !ready && t == head { HeadNotFree(st); }
      Tick(s0, Go(me));
    }

    /** The turn load of try_pop. */
    method CheckPop(ghost s0: State<T>, ghost me: Tid, ghost pc: Pc<T>, t: nat) returns (ready: bool)
      requires From(s0) && pc.TryPopCheck? && pc.t == t && PcOf(st, me) == pc
      modifies this`st
      ensures From(s0)
      ensures t <= tail
      ensures PcOf(st, me) == if ready then TryPopCas(t, pc.base, pc.retries) else TryPopReload(t, pc.base, pc.retries)
      ensures !ready && t == tail ==> Empty(old(st))
    {
      hide Reaches;
      assert ThreadOk(st, me) && TicketOk(st, tail);
      ready := turns[t % capacity] == t / capacity * 2 + 1;
      Tick(s0, Go(me));
    }

    /** head_.compare_exchange_strong(t, t + 1); the current value is written back on failure. */
    method CasHead(ghost s0: State<T>, ghost me: Tid, ghost pc: Pc<T>, t: nat) returns (won: bool, t': nat)
      requires From(s0) && pc.TryPushCas? && pc.t == t && PcOf(st, me) == pc
      modifies this`st, this`head
      ensures From(s0)
      ensures t' == old(head) && (if won then t' == t && head == t + 1 else t < t' == head)
      ensures PcOf(st, me) == if won then PushBuild(pc.v, t) else TryPushCheck(pc.v, t', pc.base, pc.retries + 1)
    {
      hide Reaches;
      assert ThreadOk(st, me);
      won, t' := head == t, head;
      if won { head := t + 1; }
      Tick(s0, Go(me));
    }

    method CasTail(ghost s0: State<T>, ghost me: Tid, ghost pc: Pc<T>, t: nat) returns (won: bool, t': nat)
      requires From(s0) && pc.TryPopCas? && pc.t == t && PcOf(st, me) == pc
      modifies this`st, this`tail
      ensures From(s0)
      ensures t' == old(tail) && (if won then t' == t && tail == t + 1 else t < t' == tail)
      ensures PcOf(st, me) == if won then PopMove(t) else TryPopCheck(t', pc.base, pc.retries + 1)
    {
      hide Reaches;
      assert ThreadOk(st, me);
      won, t' := tail == t, tail;
      if won { tail := t + 1; }
      Tick(s0, Go(me));
    }

    /** The reload of head_ after a failed check. */
    method ReloadHead(ghost s0: State<T>, ghost me: Tid, ghost pc: Pc<T>) returns (t': nat)
      requires From(s0) && pc.TryPushReload? && PcOf(st, me) == pc
      modifies this`st
      ensures From(s0) && t' == head && pc.t <= t'
      ensures PcOf(st, me) == if t' == pc.t then Idle(PushFailed) else TryPushCheck(pc.v, t', pc.base, pc.retries + 1)
    {
      hide Reaches;
      assert ThreadOk(st, me);
      t' := head;
      Tick(s0, Go(me));
    }

    method ReloadTail(ghost s0: State<T>, ghost me: Tid, ghost pc: Pc<T>) returns (t': nat)
      requires From(s0) && pc.TryPopReload? && PcOf(st, me) == pc
      modifies this`st
      ensures From(s0) && t' == tail && pc.t <= t'
      ensures PcOf(st, me) == if t' == pc.t then Idle(PopFailed) else TryPopCheck(t', pc.base, pc.retries + 1)
    {
      hide Reaches;
      assert ThreadOk(st, me);
      t' := tail;
      Tick(s0, Go(me));
    }

    /** slot.construct(v) */
    method Construct(ghost s0: State<T>, ghost me: Tid, t: nat, v: T)
      requires From(s0) && PcOf(st, me) == PushBuild(v, t)
      modifies this`st, cells
      ensures From(s0) && PcOf(st, me) == PushPublish(v, t)
    {
      assert ThreadOk(st, me) && TicketOk(st, t);
      cells[t % capacity] := Live(v);
      Tick(s0, Go(me));
    }

    /** v = slot.move() */
    method MoveOut(ghost s0: State<T>, ghost me: Tid, t: nat) returns (v: T)
      requires From(s0) && PcOf(st, me) == PopMove(t)
      modifies this`st, cells
      ensures From(s0) && PcOf(st, me) == PopDestroy(t, v)
    {
      assert ThreadOk(st, me) && TicketOk(st, t);
      v := cells[t % capacity].value;
      cells[t % capacity] := MovedFrom;
      Tick(s0, Go(me));
    }

    /** slot.destroy() */
    method Destroy(ghost s0: State<T>, ghost me: Tid, t: nat, ghost v: T)
      requires From(s0) && PcOf(st, me) == PopDestroy(t, v)
      modifies this`st, cells
      ensures From(s0) && PcOf(st, me) == PopRelease(t, v)
    {
      assert ThreadOk(st, me) && TicketOk(st, t);
      cells[t % capacity] := Raw;
      Tick(s0, Go(me));
    }

    /** The call of `me` returned with ticket t and value v pushed. */
    ghost predicate PushReturned(me: Tid, t: nat, v: T)
      reads this
    {
      && Shape(st) && PcOf(st, me) == Idle(Pushed(t))
      && t < st.head && st.pushes[t] == v && st.pushOwner[t] == me && Published(st, t)
    }

    /** The call of `me` returned with ticket t popped: v is what ticket t pushed. */
    ghost predicate PopReturned(me: Tid, t: nat, v: T)
      reads this
    {
      && Shape(st) && PcOf(st, me) == Idle(Popped(t, v))
      && t < st.head && t < st.tail && st.pushes[t] == v && st.popOwner[t] == me && t in st.pops && st.pops[t] == v
    }

    /** slot.turn.store after a construct */
    method StorePushed(ghost s0: State<T>, ghost me: Tid, t: nat, ghost v: T)
      requires From(s0) && PcOf(st, me) == PushPublish(v, t)
      modifies this`st, turns
      ensures From(s0) && PushReturned(me, t, v)
    {
      hide Reaches;
      assert ThreadOk(st, me);
      turns[t % capacity] := t / capacity * 2 + 1;
      Tick(s0, Go(me));
      PushFacts(st, me);
    }

    /** slot.turn.store after a destroy */
    method StorePopped(ghost s0: State<T>, ghost me: Tid, t: nat, ghost v: T)
      requires From(s0) && PcOf(st, me) == PopRelease(t, v)
      modifies this`st, turns
      ensures From(s0) && PopReturned(me, t, v)
    {
      hide Reaches;
      turns[t % capacity] := t / capacity * 2 + 2;
      Tick(s0, Go(me));
      PopFacts(st, me);
    }

    /** construct, then publish: the common end of emplace and try_emplace. */
    method FinishPush(ghost s0: State<T>, ghost me: Tid, t: nat, v: T, ghost limit: nat)
      requires From(s0) && PcOf(st, me) == PushBuild(v, t) && head <= limit && tail <= limit
      modifies this, turns, cells
      ensures From(s0) && PushReturned(me, t, v)
    {
      hide Reaches;
      Interfere(s0, me, limit);
      Construct(s0, me, t, v);
      Interfere(s0, me, limit);
      StorePushed(s0, me, t, v);
    }

    /** move, destroy, release: the common end of pop and try_pop. */
    method FinishPop(ghost s0: State<T>, ghost me: Tid, t: nat, ghost limit: nat) returns (v: T)
      requires From(s0) && PcOf(st, me) == PopMove(t) && head <= limit && tail <= limit
      modifies this, turns, cells
      ensures From(s0) && PopReturned(me, t, v)
    {
      hide Reaches;
      Interfere(s0, me, limit);
      v := MoveOut(s0, me, t);
      Interfere(s0, me, limit);
      Destroy(s0, me, t, v);
      Interfere(s0, me, limit);
      StorePopped(s0, me, t, v);
    }

    /** One turn of a spin loop, up to its turn load: what the others do is added to the trace. */
    method Watch(ghost s0: State<T>, ghost from: State<T>, ghost trace: seq<Act<T>>, ghost me: Tid, ghost limit: nat)
        returns (ghost trace': seq<Act<T>>)
      requires From(s0) && Inv(from) && st == Run(from, trace) && head <= limit && tail <= limit
      modifies this, turns, cells
      ensures From(s0) && st == Run(from, trace') && PcOf(st, me) == PcOf(old(st), me)
      ensures head <= limit && tail <= limit
      ensures multiset(trace')[Go(me)] == multiset(trace)[Go(me)]
    {
      hide Reaches, Run, Apply;
      ghost var st0 := st;
      ghost var acts := OtherThreads(me, limit);
      ReachesRun(s0, st0, acts);
      ForeignKeepPc(st0, me, acts);
      RunConcat(from, trace, acts);
      ForeignCount(trace, acts, me);
      trace' := trace + acts;
    }

    /** The call waits for its turn on the slot of ticket t, with nothing pushed but its claim. The
        trace holds what happened since the claim, `patience` turn loads of its own among it, and
        however it is cut, there are not 7 * lap + 3 fair rounds in it after the pop that frees the
        slot is claimed. */
    ghost predicate StillPushing(me: Tid, v: T, t: nat, from: State<T>, trace: seq<Act<T>>, patience: nat)
      reads this
    {
      && Inv(from) && PcOf(from, me) == PushWait(v, t)
      && st == Run(from, trace) && PcOf(st, me) == PushWait(v, t) && multiset(trace)[Go(me)] == patience
      && !PushDue(from, trace, t)
    }

    /** The spin is observed for `patience` turn loads. It is over, with the value published, at the
        latest after 7 * lap + 3 fair rounds; else the call still waits. */
    method Emplace(me: Tid, v: T, ghost limit: nat, patience: nat)
        returns (done: bool, ghost t: nat, ghost from: State<T>, ghost trace: seq<Act<T>>)
      requires Valid() && PcOf(st, me).Idle? && head < limit && tail < limit
      modifies this, turns, cells
      ensures From(old(st)) && old(head) <= t && Reaches(old(st), from)
      ensures if done then PushReturned(me, t, v) else StillPushing(me, v, t, from, trace, patience)
    {
      hide Reaches, Run, Apply, PushDue;
      ghost var s0 := st;
      ReachesSelf(s0);
      Interfere(s0, me, limit - 1);
      var ticket := FetchAddHead(s0, me, v);
      t, from, trace := ticket, st, [];
      RunNone(st);
      for n := 0 to patience
        invariant From(s0) && head <= limit && tail <= limit
        invariant PcOf(st, me) == PushWait(v, t)
        invariant st == Run(from, trace) && multiset(trace)[Go(me)] == n
      {
        trace := Watch(s0, from, trace, me, limit);
        var ready := SpinPush(s0, me, ticket, v);
        if ready {
          FinishPush(s0, me, ticket, v, limit);
          return true, t, from, trace;
        }
        TraceGo(from, trace, me);
        trace := trace + [Go(me)];
      }
      NotDuePush(from, trace, me);
      return false, t, from, trace;
    }

    /** The same for popping: after the push that fills the slot is claimed there are not 7 * lap + 7
        fair rounds in the trace. */
    ghost predicate StillPopping(me: Tid, t: nat, from: State<T>, trace: seq<Act<T>>, patience: nat)
      reads this
    {
      && Inv(from) && PcOf(from, me) == PopWait(t)
      && st == Run(from, trace) && PcOf(st, me) == PopWait(t) && multiset(trace)[Go(me)] == patience
      && !PopDue(from, trace, t)
    }

    method Pop(me: Tid, ghost limit: nat, patience: nat)
        returns (r: Outcome<T>, ghost t: nat, ghost from: State<T>, ghost trace: seq<Act<T>>)
      requires Valid() && PcOf(st, me).Idle? && head < limit && tail < limit
      modifies this, turns, cells
      ensures From(old(st)) && old(tail) <= t && Reaches(old(st), from)
      ensures r.Popped? || r == NoCall
      ensures if r.Popped? then r.ticket == t && PopReturned(me, t, r.value)
              else StillPopping(me, t, from, trace, patience)
    {
      hide Reaches, Run, Apply, PopDue;
      ghost var s0 := st;
      ReachesSelf(s0);
      Interfere(s0, me, limit - 1);
      var ticket := FetchAddTail(s0, me);
      t, from, trace := ticket, st, [];
      RunNone(st);
      for n := 0 to patience
        invariant From(s0) && head <= limit && tail <= limit
        invariant PcOf(st, me) == PopWait(t)
        invariant st == Run(from, trace) && multiset(trace)[Go(me)] == n
      {
        trace := Watch(s0, from, trace, me, limit);
        var ready := SpinPop(s0, me, ticket);
        if ready {
          var v := FinishPop(s0, me, ticket, limit);
          return Popped(ticket, v), t, from, trace;
        }
        TraceGo(from, trace, me);
        trace := trace + [Go(me)];
      }
      NotDuePop(from, trace, me);
      return NoCall, t, from, trace;
    }

    /** try_emplace after a successful check. */
    method ClaimPush(ghost s0: State<T>, ghost me: Tid, t: nat, v: T, ghost limit: nat) returns (r: Attempt)
      requires From(s0) && PcOf(st, me).TryPushCas? && PcOf(st, me).t == t && PcOf(st, me).v == v
      requires head < limit && tail < limit
      modifies this, turns, cells
      ensures From(s0) && !r.GaveUp?
      ensures r.Succeeded? ==> PushReturned(me, t, v)
      ensures r.Retry? ==> Retried(me, PcOf(old(st), me), r.ticket, limit)
    {
      hide Reaches;
      Interfere(s0, me, limit - 1);
      var won, t' := CasHead(s0, me, PcOf(st, me), t);
      if won {
        FinishPush(s0, me, t, v, limit);
        return Succeeded;
      }
      return Retry(t');
    }

    /** The loop goes round again with a higher ticket. */
    ghost predicate Retried(me: Tid, pc: Pc<T>, t: nat, limit: nat)
      reads this
    {
      && head < limit && tail < limit
      && match pc
         case TryPushCheck(v, u, base, n) => u < t == head && PcOf(st, me) == TryPushCheck(v, t, base, n + 1)
         case TryPushCas(v, u, base, n) => u < t == head && PcOf(st, me) == TryPushCheck(v, t, base, n + 1)
         case TryPushReload(v, u, base, n) => u < t == head && PcOf(st, me) == TryPushCheck(v, t, base, n + 1)
         case TryPopCheck(u, base, n) => u < t == tail && PcOf(st, me) == TryPopCheck(t, base, n + 1)
         case TryPopCas(u, base, n) => u < t == tail && PcOf(st, me) == TryPopCheck(t, base, n + 1)
         case TryPopReload(u, base, n) => u < t == tail && PcOf(st, me) == TryPopCheck(t, base, n + 1)
         case _ => false
    }

    /** try_emplace after a failed check. */
    method RecheckHead(ghost s0: State<T>, ghost me: Tid, t: nat, ghost limit: nat) returns (r: Attempt)
      requires From(s0) && PcOf(st, me).TryPushReload? && PcOf(st, me).t == t && t <= head < limit && tail < limit
      modifies this, turns, cells
      ensures From(s0) && !r.Succeeded? && old(head) <= head
      ensures r.GaveUp? ==> PcOf(st, me) == Idle(PushFailed) && head == t
      ensures r.Retry? ==> Retried(me, PcOf(old(st), me), r.ticket, limit)
    {
      hide Reaches;
      Interfere(s0, me, limit - 1);
      var t' := ReloadHead(s0, me, PcOf(st, me));
      r := if t' == t then GaveUp else Retry(t');
    }

    /** One turn of the for(;;) loop of try_emplace. */
    method TryEmplaceOnce(ghost me: Tid, ghost pc: Pc<T>, t: nat, v: T, ghost limit: nat)
        returns (r: Attempt, ghost at: State<T>)
      requires Valid() && pc.TryPushCheck? && pc.t == t && pc.v == v && PcOf(st, me) == pc
      requires head < limit && tail < limit
      modifies this, turns, cells
      ensures From(old(st))
      ensures r.Succeeded? ==> PushReturned(me, t, v)
      ensures r.GaveUp? ==> PcOf(st, me) == Idle(PushFailed) && Between(old(st), at, st) && Full(at)
      ensures r.Retry? ==> Retried(me, pc, r.ticket, limit)
    {
      hide Reaches;
      ghost var s0 := st;
      ReachesSelf(s0);
      Interfere(s0, me, limit - 1);
      at := st;
      ReachesSelf(at);
      var ready := CheckPush(at, me, pc, t);
      if ready {
        r := ClaimPush(at, me, t, v, limit);
      } else {
        r := RecheckHead(at, me, t, limit);
      }
      ReachesTrans(s0, at, st);
    }

    /** Each repeated turn of the loop raises t, and the others can raise the counter only to
        `limit`: that is why the loop ends. */
    method TryEmplace(me: Tid, v: T, ghost limit: nat) returns (ok: bool, ghost at: State<T>)
      requires Valid() && PcOf(st, me).Idle? && head < limit && tail < limit
      modifies this, turns, cells
      ensures From(old(st))
      ensures ok ==> exists t :: old(head) <= t && PushReturned(me, t, v)
      ensures !ok ==> PcOf(st, me) == Idle(PushFailed) && Between(old(st), at, st) && Full(at)
    {
      hide Reaches;
      ghost var s0 := st;
      ReachesSelf(s0);
      Interfere(s0, me, limit - 1);
      var t := LoadHead(s0, me, v);
      ghost var base, n := t, 0;
      at := st;
      while true
        invariant From(s0) && head < limit && tail < limit
        invariant old(head) <= t <= head && PcOf(st, me) == TryPushCheck(v, t, base, n)
        decreases limit - t
      {
        ghost var s1 := st;
        var r;
        r, at := TryEmplaceOnce(me, PcOf(st, me), t, v, limit);
        ReachesTrans(s0, s1, st);
        match r {
          case Succeeded => return true, at;
          case GaveUp => ReachesTrans(s0, s1, at); return false, at;
          case Retry(t') => t, n := t', n + 1;
        }
      }
    }

    /** try_pop after a successful check. */
    method ClaimPop(ghost s0: State<T>, ghost me: Tid, t: nat, ghost limit: nat) returns (r: Attempt, v: Outcome<T>)
      requires From(s0) && PcOf(st, me).TryPopCas? && PcOf(st, me).t == t
      requires head < limit && tail < limit
      modifies this, turns, cells
      ensures From(s0) && !r.GaveUp?
      ensures r.Succeeded? ==> v.Popped? && v.ticket == t && PopReturned(me, t, v.value)
      ensures r.Retry? ==> Retried(me, PcOf(old(st), me), r.ticket, limit)
    {
      hide Reaches;
      Interfere(s0, me, limit - 1);
      var won, t' := CasTail(s0, me, PcOf(st, me), t);
      if won {
        var x := FinishPop(s0, me, t, limit);
        return Succeeded, Popped(t, x);
      }
      return Retry(t'), NoCall;
    }

    /** try_pop after a failed check. */
    method RecheckTail(ghost s0: State<T>, ghost me: Tid, t: nat, ghost limit: nat) returns (r: Attempt)
      requires From(s0) && PcOf(st, me).TryPopReload? && PcOf(st, me).t == t && t <= tail < limit && head < limit
      modifies this, turns, cells
      ensures From(s0) && !r.Succeeded? && old(tail) <= tail
      ensures r.GaveUp? ==> PcOf(st, me) == Idle(PopFailed) && tail == t
      ensures r.Retry? ==> Retried(me, PcOf(old(st), me), r.ticket, limit)
    {
      hide Reaches;
      Interfere(s0, me, limit - 1);
      var t' := ReloadTail(s0, me, PcOf(st, me));
      r := if t' == t then GaveUp else Retry(t');
    }

    /** One turn of the for(;;) loop of try_pop. */
    method TryPopOnce(ghost me: Tid, ghost pc: Pc<T>, t: nat, ghost limit: nat)
        returns (r: Attempt, v: Outcome<T>, ghost at: State<T>)
      requires Valid() && pc.TryPopCheck? && pc.t == t && PcOf(st, me) == pc && head < limit && tail < limit
      modifies this, turns, cells
      ensures From(old(st))
      ensures r.Succeeded? ==> v.Popped? && v.ticket == t && PopReturned(me, t, v.value)
      ensures r.GaveUp? ==> PcOf(st, me) == Idle(PopFailed) && Between(old(st), at, st) && Empty(at)
      ensures r.Retry? ==> Retried(me, pc, r.ticket, limit)
    {
      hide Reaches;
      ghost var s0 := st;
      ReachesSelf(s0);
      Interfere(s0, me, limit - 1);
      at := st;
      ReachesSelf(at);
      var ready := CheckPop(at, me, pc, t);
      v := NoCall;
      if ready {
        r, v := ClaimPop(at, me, t, limit);
      } else {
        r := RecheckTail(at, me, t, limit);
      }
      ReachesTrans(s0, at, st);
    }

    /** Each repeated turn of the loop raises t, and the others can raise the counter only to
        `limit`: that is why the loop ends. */
    method TryPop(me: Tid, ghost limit: nat) returns (r: Outcome<T>, ghost at: State<T>)
      requires Valid() && PcOf(st, me).Idle? && head < limit && tail < limit
      modifies this, turns, cells
      ensures From(old(st))
      ensures r.Popped? || r.PopFailed?
      ensures r.Popped? ==> old(tail) <= r.ticket && PopReturned(me, r.ticket, r.value)
      ensures r.PopFailed? ==> PcOf(st, me) == Idle(PopFailed) && Between(old(st), at, st) && Empty(at)
    {
      hide Reaches;
      ghost var s0 := st;
      ReachesSelf(s0);
      Interfere(s0, me, limit - 1);
      var t := LoadTail(s0, me);
      ghost var base, n := t, 0;
      at := st;
      while true
        invariant From(s0) && head < limit && tail < limit
        invariant old(tail) <= t <= tail && PcOf(st, me) == TryPopCheck(t, base, n)
        decreases limit - t
      {
        ghost var s1 := st;
        var a, v;
        a, v, at := TryPopOnce(me, PcOf(st, me), t, limit);
        ReachesTrans(s0, s1, st);
        match a {
          case Succeeded => return v, at;
          case GaveUp => ReachesTrans(s0, s1, at); return PopFailed, at;
          case Retry(t') => t, n := t', n + 1;
        }
      }
    }

    /** Every leftover element is destroyed exactly once and nothing else is. */
    method Destruct() returns (freed: set<nat>)
      requires Valid() && Quiescent(st)
      modifies cells
      ensures forall i :: 0 <= i < capacity ==> cells[i] == Raw
      ensures forall i :: i in freed <==> 0 <= i < capacity && old(cells[i]).Live?
      ensures forall t: nat :: tail <= t < head ==> Idx(capacity, t) in freed
      ensures forall i :: i in freed ==> exists t: nat :: tail <= t < head && Idx(capacity, t) == i
    {
      QuiescentContents(st);
      freed := {};
      for i := 0 to capacity
        invariant forall j :: 0 <= j < i ==> cells[j] == Raw
        invariant forall j :: i <= j < capacity ==> cells[j] == old(cells[j])
        invariant forall j :: j in freed <==> 0 <= j < i && old(cells[j]).Live?
        invariant forall j :: j in freed ==> exists t: nat :: tail <= t < head && Idx(capacity, t) == j
      {
        SlotParity(st, i);
        assert turns[..][i] == st.turns[i] && old(cells[..])[i] == st.cells[i];
        if turns[i] % 2 == 1 {
          assert cells[i].Live?;
          cells[i] := Raw;
          freed := freed + {i};
          var t := LeftoverTicket(st, i);
        }
      }
      forall t: nat | tail <= t < head ensures Idx(capacity, t) in freed {
        assert old(cells[..])[Idx(capacity, t)] == CellOf(st, t);
      }
    }
  }
}
