/** The multi-producer/multi-consumer queue as a transition system: any number of
    threads, one atomic access (load, store, fetch_add, compare_exchange) or one
    storage access (construct, move, destroy) per action. */
module MpmcModel {

  type Tid = nat

  /** The storage of a slot: raw bytes, a live object, or a live moved-from object. */
  datatype Cell<+T> = Raw | Live(value: T) | MovedFrom

  /** What the last finished call of a thread returned. */
  datatype Outcome<+T> =
    | NoCall
    | Pushed(ticket: nat)
    | PushFailed
    | Popped(ticket: nat, value: T)
    | PopFailed

  /** Where a thread is. `base` is the counter value the try-call loaded first and
      `retries` the number of loop iterations it has repeated since. */
  datatype Pc<+T> =
    | Idle(last: Outcome<T>)
    | PushWait(v: T, t: nat)
    | PushBuild(v: T, t: nat)
    | PushPublish(v: T, t: nat)
    | TryPushCheck(v: T, t: nat, base: nat, retries: nat)
    | TryPushCas(v: T, t: nat, base: nat, retries: nat)
    | TryPushReload(v: T, t: nat, base: nat, retries: nat)
    | PopWait(t: nat)
    | PopMove(t: nat)
    | PopDestroy(t: nat, v: T)
    | PopRelease(t: nat, v: T)
    | TryPopCheck(t: nat, base: nat, retries: nat)
    | TryPopCas(t: nat, base: nat, retries: nat)
    | TryPopReload(t: nat, base: nat, retries: nat)

  datatype Op<+T> = Emplace(v: T) | TryEmplace(v: T) | Pop | TryPop

  /** A call runs up to and including its first atomic access; `Go` runs the next one. */
  datatype Act<+T> = Call(tid: Tid, op: Op<T>) | Go(tid: Tid)

  /** `pushes[t]`/`pushOwner[t]` record the value and the thread that claimed push
      ticket t, `popOwner[t]` the thread that claimed pop ticket t and `pops[t]` the
      value it moved out. `fault` is set by an access the C++ object model forbids. */
  datatype State<T> = State(
    cap: nat, head: nat, tail: nat,
    turns: seq<nat>, cells: seq<Cell<T>>, threads: map<Tid, Pc<T>>,
    pushes: seq<T>, pushOwner: seq<Tid>,
    pops: map<nat, T>, popOwner: seq<Tid>,
    fault: bool)

  function Idx(cap: nat, t: nat): (i: nat)
    requires cap > 0
  {
    t % cap
  }

  function Lap(cap: nat, t: nat): (l: nat)
    requires cap > 0
  {
    t / cap
  }

  predicate Shape<T>(s: State<T>) {
    && s.cap > 0
    && |s.turns| == s.cap
    && |s.cells| == s.cap
    && |s.pushes| == |s.pushOwner| == s.head
    && |s.popOwner| == s.tail
  }

  function Init<T>(cap: nat): (s: State<T>)
    requires cap > 0
  {
    State(cap, 0, 0, seq(cap, _ => 0), seq(cap, _ => Raw), map[], [], [], map[], [], false)
  }

  function PcOf<T>(s: State<T>, tid: Tid): Pc<T> {
    if tid in s.threads then s.threads[tid] else Idle(NoCall)
  }

  function Turn<T>(s: State<T>, t: nat): nat
    requires Shape(s)
  {
    s.turns[Idx(s.cap, t)]
  }

  function CellOf<T>(s: State<T>, t: nat): Cell<T>
    requires Shape(s)
  {
    s.cells[Idx(s.cap, t)]
  }

  function At<T>(s: State<T>, tid: Tid, pc: Pc<T>): State<T> {
    s.(threads := s.threads[tid := pc])
  }

  function ClaimPush<T>(s: State<T>, tid: Tid, v: T, pc: Pc<T>): State<T> {
    s.(head := s.head + 1, pushes := s.pushes + [v], pushOwner := s.pushOwner + [tid],
       threads := s.threads[tid := pc])
  }

  function ClaimPop<T>(s: State<T>, tid: Tid, pc: Pc<T>): State<T> {
    s.(tail := s.tail + 1, popOwner := s.popOwner + [tid], threads := s.threads[tid := pc])
  }

  function SetTurn<T>(s: State<T>, tid: Tid, t: nat, n: nat, pc: Pc<T>): State<T>
    requires Shape(s)
  {
    s.(turns := s.turns[Idx(s.cap, t) := n], threads := s.threads[tid := pc])
  }

  function SetCell<T>(s: State<T>, tid: Tid, t: nat, c: Cell<T>, pc: Pc<T>): State<T>
    requires Shape(s)
  {
    s.(cells := s.cells[Idx(s.cap, t) := c], threads := s.threads[tid := pc])
  }

  function Begin<T>(s: State<T>, tid: Tid, op: Op<T>): (s': State<T>)
    requires Shape(s)
    ensures Shape(s') && s'.cap == s.cap
    ensures forall x: Tid :: x != tid ==> PcOf(s', x) == PcOf(s, x)
  {
    if !PcOf(s, tid).Idle? then s else
    match op
    case Emplace(v) => ClaimPush(s, tid, v, PushWait(v, s.head))
    case TryEmplace(v) => At(s, tid, TryPushCheck(v, s.head, s.head, 0))
    case Pop => ClaimPop(s, tid, PopWait(s.tail))
    case TryPop => At(s, tid, TryPopCheck(s.tail, s.tail, 0))
  }

  function GoPush<T>(s: State<T>, tid: Tid): (s': State<T>)
    requires Shape(s)
    ensures Shape(s') && s'.cap == s.cap
    ensures forall x: Tid :: x != tid ==> PcOf(s', x) == PcOf(s, x)
  {
    match PcOf(s, tid)
    case PushWait(v, t) =>
      if Turn(s, t) == Lap(s.cap, t) * 2 then At(s, tid, PushBuild(v, t)) else s
    case PushBuild(v, t) =>
      if CellOf(s, t).Raw? then SetCell(s, tid, t, Live(v), PushPublish(v, t))
      else s.(fault := true)
    case PushPublish(v, t) =>
      SetTurn(s, tid, t, Lap(s.cap, t) * 2 + 1, Idle(Pushed(t)))
    case TryPushCheck(v, t, base, n) =>
      if Turn(s, t) == Lap(s.cap, t) * 2 then At(s, tid, TryPushCas(v, t, base, n))
      else At(s, tid, TryPushReload(v, t, base, n))
    case TryPushCas(v, t, base, n) =>
      if s.head == t then ClaimPush(s, tid, v, PushBuild(v, t))
      else At(s, tid, TryPushCheck(v, s.head, base, n + 1))
    case TryPushReload(v, t, base, n) =>
      if s.head == t then At(s, tid, Idle(PushFailed))
      else At(s, tid, TryPushCheck(v, s.head, base, n + 1))
    case _ => s
  }

  function GoPop<T>(s: State<T>, tid: Tid): (s': State<T>)
    requires Shape(s)
    ensures Shape(s') && s'.cap == s.cap
    ensures forall x: Tid :: x != tid ==> PcOf(s', x) == PcOf(s, x)
  {
    match PcOf(s, tid)
    case PopWait(t) =>
      if Turn(s, t) == Lap(s.cap, t) * 2 + 1 then At(s, tid, PopMove(t)) else s
    case PopMove(t) =>
      if CellOf(s, t).Live?
      then SetCell(s, tid, t, MovedFrom, PopDestroy(t, CellOf(s, t).value)).(pops := s.pops[t := CellOf(s, t).value])
      else s.(fault := true)
    case PopDestroy(t, v) =>
      if CellOf(s, t).Raw? then s.(fault := true)
      else SetCell(s, tid, t, Raw, PopRelease(t, v))
    case PopRelease(t, v) =>
      SetTurn(s, tid, t, Lap(s.cap, t) * 2 + 2, Idle(Popped(t, v)))
    case TryPopCheck(t, base, n) =>
      if Turn(s, t) == Lap(s.cap, t) * 2 + 1 then At(s, tid, TryPopCas(t, base, n))
      else At(s, tid, TryPopReload(t, base, n))
    case TryPopCas(t, base, n) =>
      if s.tail == t then ClaimPop(s, tid, PopMove(t))
      else At(s, tid, TryPopCheck(s.tail, base, n + 1))
    case TryPopReload(t, base, n) =>
      if s.tail == t then At(s, tid, Idle(PopFailed))
      else At(s, tid, TryPopCheck(s.tail, base, n + 1))
    case _ => s
  }

  function Apply<T>(s: State<T>, a: Act<T>): (s': State<T>)
    requires Shape(s)
    ensures Shape(s') && s'.cap == s.cap
    ensures forall x: Tid :: x != a.tid ==> PcOf(s', x) == PcOf(s, x)
  {
    match a
    case Call(tid, op) => Begin(s, tid, op)
    case Go(tid) => if IsPush(PcOf(s, tid)) then GoPush(s, tid) else GoPop(s, tid)
  }

  predicate IsPush<T>(pc: Pc<T>) {
    pc.PushWait? || pc.PushBuild? || pc.PushPublish? || pc.TryPushCheck? || pc.TryPushCas? || pc.TryPushReload?
  }

  function Run<T>(s: State<T>, acts: seq<Act<T>>): (s': State<T>)
    requires Shape(s)
    ensures Shape(s') && s'.cap == s.cap
    decreases |acts|
  {
    if acts == [] then s else Apply(Run(s, acts[..|acts| - 1]), acts[|acts| - 1])
  }
}
