/** The single-producer/single-consumer ring as a two-thread transition system. A load of
    the other side's index may return any value that side stored since the last load
    (a coherent but stale one); the ghost counts behind the modular indices are total
    numbers of pushes and pops. */
module SpscModel {

  datatype Cell<+T> = Raw | Live(value: T)

  datatype Producer<+T> =
    | ProducerIdle(refused: bool)
    | Reload(v: T, wait: bool)   // about to load readIdx_
    | Build(v: T)                // about to construct the element
    | Store(v: T)                // about to store writeIdx_

  datatype Consumer =
    | ConsumerIdle(front: bool)  // front: front() returned non-null since the last pop()
    | ReloadWrite                // about to load writeIdx_
    | StoreRead                  // element destroyed, about to store readIdx_

  /** `slots` has `cap` entries, one of them slack. `pushed` are the elements whose store of
      writeIdx_ has happened, `taken` those a pop() destroyed, `observed` what was read
      through front() with its number. `popped`, `seenPopped` and `seenPushed` are the counts
      behind readIdx_, readIdxCache_ and writeIdxCache_. */
  datatype State<T> = State(
    cap: nat, slots: seq<Cell<T>>,
    writeIdx: nat, readIdxCache: nat, readIdx: nat, writeIdxCache: nat,
    producer: Producer<T>, consumer: Consumer,
    pushed: seq<T>, taken: seq<T>, observed: seq<(nat, T)>,
    popped: nat, seenPopped: nat, seenPushed: nat,
    fault: bool)

  /** `seen` is the count whose index a pending load of the other side's index returns. */
  datatype Act<+T> =
    | Emplace(v: T, wait: bool)
    | ProducerStep(seen: nat)
    | Front
    | Read
    | Pop
    | ConsumerStep(seen: nat)

  predicate Shape<T>(s: State<T>) {
    && s.cap >= 2 && |s.slots| == s.cap
    && s.writeIdx < s.cap && s.readIdx < s.cap
  }

  function Init<T>(cap: nat): (s: State<T>)
    requires cap >= 2
  {
    State(cap, seq(cap, _ => Raw), 0, 0, 0, 0, ProducerIdle(false), ConsumerIdle(false), [], [], [], 0, 0, 0, false)
  }

  /** nextWriteIdx and nextReadIdx */
  function Next(cap: nat, i: nat): nat {
    if i + 1 == cap then 0 else i + 1
  }

  function StepProducer<T>(s: State<T>, seen: nat): (s': State<T>)
    requires Shape(s)
    ensures Shape(s') && s'.cap == s.cap
  {
    match s.producer
    case ProducerIdle(_) => s
    case Reload(v, wait) =>
      if !(s.seenPopped <= seen <= s.popped) then s else
      var c := seen % s.cap;
      var s1 := s.(readIdxCache := c, seenPopped := seen);
      if Next(s.cap, s.writeIdx) != c then s1.(producer := Build(v))
      else if wait then s1 else s1.(producer := ProducerIdle(true))
    case Build(v) =>
      if s.slots[s.writeIdx].Raw? then s.(slots := s.slots[s.writeIdx := Live(v)], producer := Store(v))
      else s.(fault := true)
    case Store(v) =>
      s.(writeIdx := Next(s.cap, s.writeIdx), pushed := s.pushed + [v], producer := ProducerIdle(false))
  }

  function StepConsumer<T>(s: State<T>, seen: nat): (s': State<T>)
    requires Shape(s)
    ensures Shape(s') && s'.cap == s.cap
  {
    match s.consumer
    case ConsumerIdle(_) => s
    case ReloadWrite =>
      if !(s.seenPushed <= seen <= |s.pushed|) then s else
      var c := seen % s.cap;
      s.(writeIdxCache := c, seenPushed := seen, consumer := ConsumerIdle(c != s.readIdx))
    case StoreRead =>
      s.(readIdx := Next(s.cap, s.readIdx), popped := s.popped + 1, consumer := ConsumerIdle(false))
  }

  function Apply<T>(s: State<T>, a: Act<T>): (s': State<T>)
    requires Shape(s)
    ensures Shape(s') && s'.cap == s.cap
  {
    match a
    case Emplace(v, wait) =>
      if !s.producer.ProducerIdle? then s
      else if Next(s.cap, s.writeIdx) == s.readIdxCache then s.(producer := Reload(v, wait))
      else s.(producer := Build(v))
    case ProducerStep(seen) => StepProducer(s, seen)
    case Front =>
      if !s.consumer.ConsumerIdle? then s
      else s.(consumer := if s.readIdx == s.writeIdxCache then ReloadWrite else ConsumerIdle(true))
    case Read =>
      if s.consumer != ConsumerIdle(true) then s
      else if s.slots[s.readIdx].Live? then s.(observed := s.observed + [(s.popped, s.slots[s.readIdx].value)])
      else s.(fault := true)
    case Pop =>
      if !s.consumer.ConsumerIdle? then s
      else if s.slots[s.readIdx].Live?
      then s.(slots := s.slots[s.readIdx := Raw], taken := s.taken + [s.slots[s.readIdx].value],
              consumer := StoreRead)
      else s.(fault := true)
    case ConsumerStep(seen) => StepConsumer(s, seen)
  }

  function Run<T>(s: State<T>, acts: seq<Act<T>>): (s': State<T>)
    requires Shape(s)
    ensures Shape(s') && s'.cap == s.cap
    decreases |acts|
  {
    if acts == [] then s else Apply(Run(s, acts[..|acts| - 1]), acts[|acts| - 1])
  }

  /** What makes a pop() safe: the test front() makes before it returns without a reload. */
  predicate MayDo<T>(s: State<T>, a: Act<T>) {
    a.Pop? && s.consumer.ConsumerIdle? ==> s.readIdx != s.writeIdxCache
  }

  predicate Disciplined<T>(s: State<T>, acts: seq<Act<T>>)
    requires Shape(s)
    decreases |acts|
  {
    acts == [] ||
    (Disciplined(s, acts[..|acts| - 1]) && MayDo(Run(s, acts[..|acts| - 1]), acts[|acts| - 1]))
  }

  /** The rule of use: every pop() follows a front() that returned non-null. */
  predicate Announced<T>(s: State<T>, acts: seq<Act<T>>)
    requires Shape(s)
    decreases |acts|
  {
    acts == [] ||
    var pre := acts[..|acts| - 1];
    Announced(s, pre) &&
    (acts[|acts| - 1].Pop? && Run(s, pre).consumer.ConsumerIdle? ==> Run(s, pre).consumer.front)
  }
}

/** The invariant of the ring and what every disciplined run guarantees. */
module SpscProofs {
  import opened SpscModel
  import opened Arithmetic

  lemma NextIndex(cap: nat, i: nat)
    requires cap > 0
    ensures Next(cap, i % cap) == (i + 1) % cap
  {
    Successor(i, cap);
  }

  /** What the slot of count k holds, for k in the ring that starts at `popped`. */
  ghost function Expected<T>(s: State<T>, k: nat): Cell<T> {
    if k < |s.pushed| then
      if k == s.popped && s.consumer.StoreRead? then Raw else Live(s.pushed[k])
    else if k == |s.pushed| && s.producer.Store? then Live(s.producer.v)
    else Raw
  }

  ghost predicate SlotOk<T>(s: State<T>, k: nat)
    requires Shape(s)
  {
    s.slots[k % s.cap] == Expected(s, k)
  }

  /** The counts behind the four indices. The caches lag behind: readIdxCache_ never claims
      more pops than happened, writeIdxCache_ never more pushes, nor fewer than were popped. */
  ghost predicate Counts<T>(s: State<T>)
    requires Shape(s)
  {
    && s.seenPopped <= s.popped <= s.seenPushed <= |s.pushed| < s.seenPopped + s.cap
    && s.writeIdx == |s.pushed| % s.cap && s.readIdxCache == s.seenPopped % s.cap
    && s.readIdx == s.popped % s.cap && s.writeIdxCache == s.seenPushed % s.cap
    && (s.producer.Build? || s.producer.Store? ==> |s.pushed| + 1 < s.seenPopped + s.cap)
    && (s.consumer == ConsumerIdle(true) || s.consumer.StoreRead? ==> s.popped < s.seenPushed)
    && (s.consumer.ReloadWrite? ==> s.popped == s.seenPushed)
  }

  ghost predicate Delivered<T>(s: State<T>) {
    && s.popped <= |s.taken| <= |s.pushed|
    && s.taken == s.pushed[..|s.taken|]
    && |s.taken| == s.popped + (if s.consumer.StoreRead? then 1 else 0)
    && forall i :: 0 <= i < |s.observed| ==>
         s.observed[i].0 < |s.pushed| && s.observed[i].1 == s.pushed[s.observed[i].0]
  }

  ghost predicate Inv<T>(s: State<T>) {
    && Shape(s) && !s.fault && Counts(s) && Delivered(s)
    && forall k: nat :: s.popped <= k < s.popped + s.cap ==> SlotOk(s, k)
  }

  lemma InitInv<T>(cap: nat)
    requires cap >= 2
    ensures Inv(Init<T>(cap))
  {
    assert 0 % cap == 0;
    forall k: nat | k < cap ensures SlotOk(Init<T>(cap), k) {
      assert k % cap == k;
    }
  }

  /** The producer compares indices, but decides on counts. */
  lemma ProducerDecision(cap: nat, w: nat, r: nat)
    requires cap >= 2 && r <= w < r + cap
    ensures Next(cap, w % cap) == r % cap <==> w + 1 == r + cap
  {
    NextIndex(cap, w);
    if Next(cap, w % cap) == r % cap && w + 1 < r + cap {
      SameRemainder(cap, r, w + 1);
    }
    if w + 1 == r + cap {
      NextLap(cap, r);
    }
  }

  lemma ConsumerDecision(cap: nat, r: nat, w: nat)
    requires cap >= 2 && r <= w < r + cap
    ensures r % cap == w % cap <==> r == w
  {
    if r % cap == w % cap { SameRemainder(cap, r, w); }
  }

  /** Replacing the slot of count k leaves the slots of the other counts of the ring alone. */
  lemma OtherSlot<T>(s: State<T>, k: nat, j: nat, c: Cell<T>)
    requires Shape(s) && s.popped <= k < s.popped + s.cap && s.popped <= j < s.popped + s.cap && k != j
    ensures s.slots[k % s.cap := c][j % s.cap] == s.slots[j % s.cap]
  {
    if k % s.cap == j % s.cap {
      if k < j { SameRemainder(s.cap, k, j); } else { SameRemainder(s.cap, j, k); }
    }
  }

  lemma ProducerInv<T>(s: State<T>, seen: nat)
    requires Inv(s)
    ensures Inv(StepProducer(s, seen))
  {
    var s' := StepProducer(s, seen);
    match s.producer
    case ProducerIdle(_) =>
    case Reload(v, wait) =>
      if s.seenPopped <= seen <= s.popped { ProducerDecision(s.cap, |s.pushed|, seen); }
      forall k: nat | s'.popped <= k < s'.popped + s.cap ensures SlotOk(s', k) { assert SlotOk(s, k); }
    case Build(v) =>
      assert SlotOk(s, |s.pushed|);
      forall k: nat | s'.popped <= k < s'.popped + s.cap ensures SlotOk(s', k) {
        assert SlotOk(s, k);
        if k != |s.pushed| { OtherSlot(s, |s.pushed|, k, Live(v)); }
      }
    case Store(v) =>
      NextIndex(s.cap, |s.pushed|);
      forall k: nat | s'.popped <= k < s'.popped + s.cap ensures SlotOk(s', k) { assert SlotOk(s, k); }
  }

  lemma ConsumerInv<T>(s: State<T>, seen: nat)
    requires Inv(s)
    ensures Inv(StepConsumer(s, seen))
  {
    var s' := StepConsumer(s, seen);
    match s.consumer
    case ConsumerIdle(_) =>
    case ReloadWrite =>
      if s.seenPushed <= seen <= |s.pushed| { ConsumerDecision(s.cap, s.popped, seen); }
      forall k: nat | s'.popped <= k < s'.popped + s.cap ensures SlotOk(s', k) { assert SlotOk(s, k); }
    case StoreRead =>
      NextIndex(s.cap, s.popped);
      NextLap(s.cap, s.popped);
      assert SlotOk(s, s.popped);
      forall k: nat | s'.popped <= k < s'.popped + s.cap ensures SlotOk(s', k) {
        if k < s.popped + s.cap { assert SlotOk(s, k); }
      }
  }

  /** pop() keeps the invariant exactly if readIdx_ differs from writeIdxCache_, that is, if the
      consumer has already seen the push of the element it pops. */
  lemma PopInv<T>(s: State<T>)
    requires Inv(s) && s.consumer.ConsumerIdle?
    ensures s.readIdx != s.writeIdxCache <==> s.popped < s.seenPushed
    ensures Inv(Apply(s, Pop)) <==> s.readIdx != s.writeIdxCache
  {
    var s' := Apply(s, Pop);
    ConsumerDecision(s.cap, s.popped, s.seenPushed);
    assert SlotOk(s, s.popped);
    if s.popped < s.seenPushed {
      forall k: nat | s'.popped <= k < s'.popped + s.cap ensures SlotOk(s', k) {
        assert SlotOk(s, k);
        if k != s.popped { OtherSlot(s, s.popped, k, Raw); }
      }
    }
  }

  lemma ApplyInv<T>(s: State<T>, a: Act<T>)
    requires Inv(s) && MayDo(s, a)
    ensures Inv(Apply(s, a))
  {
    var s' := Apply(s, a);
    match a
    case ProducerStep(seen) => ProducerInv(s, seen);
    case ConsumerStep(seen) => ConsumerInv(s, seen);
    case Pop => if s.consumer.ConsumerIdle? { PopInv(s); }
    case _ =>
      ProducerDecision(s.cap, |s.pushed|, s.seenPopped);
      ConsumerDecision(s.cap, s.popped, s.seenPushed);
      assert SlotOk(s, s.popped);
      forall k: nat | s'.popped <= k < s'.popped + s.cap ensures SlotOk(s', k) { assert SlotOk(s, k); }
  }

  /** Every state of every disciplined run satisfies the invariant, whichever stale values
      the loads of the other side's index return. */
  lemma {:induction false} RunInv<T>(s: State<T>, acts: seq<Act<T>>)
    requires Inv(s) && Disciplined(s, acts)
    ensures Inv(Run(s, acts))
    decreases |acts|
  {
    hide Apply;
    if acts != [] {
      RunInv(s, acts[..|acts| - 1]);
      ApplyInv(Run(s, acts[..|acts| - 1]), acts[|acts| - 1]);
    }
  }

  /** The elements pushed and not yet popped, oldest first. */
  ghost function Contents<T>(s: State<T>): seq<T>
    requires s.popped <= |s.pushed|
  {
    s.pushed[s.popped..]
  }

  /** No disciplined run writes an unread slot or reads an unwritten one; what is delivered is
      always a prefix of what was pushed, with at most capacity() elements outstanding. */
  lemma SafeRun<T>(cap: nat, acts: seq<Act<T>>)
    requires cap >= 2 && Disciplined(Init<T>(cap), acts)
    ensures var s := Run(Init<T>(cap), acts);
      && !s.fault && s.taken <= s.pushed && s.popped <= |s.pushed| && |Contents(s)| <= cap - 1
      && forall i :: 0 <= i < |s.observed| ==>
           s.observed[i].0 < |s.pushed| && s.observed[i].1 == s.pushed[s.observed[i].0]
  {
    hide Run, Apply, Disciplined;
    InitInv<T>(cap);
    RunInv(Init<T>(cap), acts);
  }

  /** Refinement of a plain sequence: only the store of writeIdx_ appends, only the store of
      readIdx_ removes, and always the oldest. */
  lemma StepRefines<T>(s: State<T>, a: Act<T>)
    requires Inv(s) && MayDo(s, a)
    ensures Inv(Apply(s, a))
    ensures var q, q' := Contents(s), Contents(Apply(s, a));
      if a.ProducerStep? && s.producer.Store? then q' == q + [s.producer.v] && |q| < s.cap - 1
      else if a.ConsumerStep? && s.consumer.StoreRead? then |q| > 0 && q' == q[1..] && s.taken[s.popped] == q[0]
      else q' == q
  {
    hide SlotOk, Expected;
    ApplyInv(s, a);
  }

  /** A load of readIdx_ that returns count `seen` lets the producer go on exactly if fewer than
      capacity() elements were outstanding when that index was stored (for the current index:
      now); otherwise try_emplace is refused and emplace keeps waiting. */
  lemma RefusedExactlyWhenFull<T>(s: State<T>, seen: nat)
    requires Inv(s) && s.producer.Reload? && s.seenPopped <= seen <= s.popped
    ensures var p, p' := s.producer, StepProducer(s, seen).producer;
      if |s.pushed| - seen < s.cap - 1 then p' == Build(p.v)
      else |s.pushed| - seen == s.cap - 1 && p' == if p.wait then p else ProducerIdle(true)
    ensures seen == s.popped ==> |s.pushed| - seen == |Contents(s)|
  {
    ProducerDecision(s.cap, |s.pushed|, seen);
  }

  /** A front whose load of writeIdx_ returns count `seen` is null exactly if the queue was
      empty when that index was stored; for the current index: now. */
  lemma NullExactlyWhenEmpty<T>(s: State<T>, seen: nat)
    requires Inv(s) && s.consumer.ReloadWrite? && s.seenPushed <= seen <= |s.pushed|
    ensures StepConsumer(s, seen).consumer == ConsumerIdle(false) <==> s.popped == seen
    ensures seen == |s.pushed| ==> (StepConsumer(s, seen).consumer == ConsumerIdle(false) <==> Contents(s) == [])
  {
    ConsumerDecision(s.cap, s.popped, seen);
  }

  /** The assertion inside pop(): writeIdx_ differs from readIdx_. */
  lemma PopAssertion<T>(s: State<T>)
    requires Inv(s) && s.consumer.ConsumerIdle? && s.readIdx != s.writeIdxCache
    ensures s.writeIdx != s.readIdx
  {
    ConsumerDecision(s.cap, s.popped, s.seenPushed);
    ConsumerDecision(s.cap, s.popped, |s.pushed|);
  }

  /** A run that follows the rule of use keeps the guard of every pop(). */
  lemma {:induction false} AnnouncedDisciplined<T>(s: State<T>, acts: seq<Act<T>>)
    requires Inv(s) && Announced(s, acts)
    ensures Disciplined(s, acts) && Inv(Run(s, acts))
    decreases |acts|
  {
    hide Apply;
    if acts != [] {
      var s' := Run(s, acts[..|acts| - 1]);
      AnnouncedDisciplined(s, acts[..|acts| - 1]);
      if s'.consumer.ConsumerIdle? { PopInv(s'); }
      ApplyInv(s', acts[|acts| - 1]);
    }
  }

  /** size() as the difference of the two indices, corrected by one ring if negative. */
  function SizeOf(cap: nat, writeIdx: nat, readIdx: nat): int {
    var diff := writeIdx - readIdx;
    if diff < 0 then diff + cap else diff
  }

  lemma SizeIsCount(cap: nat, w: nat, r: nat)
    requires cap >= 2 && r <= w < r + cap
    ensures SizeOf(cap, w % cap, r % cap) == w - r
  {
    var d := w - r;
    var q := r / cap;
    assert r == cap * q + r % cap;
    if r % cap + d < cap {
      assert w == cap * q + (r % cap + d);
      DivUnique(cap, q, r % cap + d);
    } else {
      assert w == cap * (q + 1) + (r % cap + d - cap);
      DivUnique(cap, q + 1, r % cap + d - cap);
    }
  }
}
