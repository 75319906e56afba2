/** The ring as the code runs it: the producer's calls with the consumer interfering, the
    consumer's calls with the producer interfering, and the single-threaded destructor. */
module SpscQueue {
  import opened SpscModel
  import opened SpscProofs
  import opened Arithmetic

  const SIZE_MAX: nat := 0xffff_ffff_ffff_ffff

  /** The constructor's capacity_ for a requested capacity, in wrapping 64-bit arithmetic. */
  function RingSize(capacity: nat, padding: nat): (c: nat)
    requires capacity <= SIZE_MAX && 1 <= padding <= 64
  {
    var c1 := if capacity < 1 then 1 else capacity;
    var c2 := (c1 + 1) % (SIZE_MAX + 1);
    if c2 > SIZE_MAX - 2 * padding then SIZE_MAX - 2 * padding else c2
  }

  /** One slack slot beyond the requested elements, up to the allocation limit, for every request
      but SIZE_MAX itself: there the increment wraps and the ring has no slot at all. */
  lemma RingSizeLaw(capacity: nat, padding: nat)
    requires capacity <= SIZE_MAX && 1 <= padding <= 64
    ensures RingSize(capacity, padding) >= 2 <==> capacity != SIZE_MAX
    ensures capacity == SIZE_MAX ==> RingSize(capacity, padding) == 0
    ensures 1 <= capacity < SIZE_MAX - 2 * padding ==> RingSize(capacity, padding) - 1 == capacity
    ensures capacity == 0 ==> RingSize(capacity, padding) - 1 == 1
    ensures SIZE_MAX - 2 * padding <= capacity < SIZE_MAX ==> RingSize(capacity, padding) == SIZE_MAX - 2 * padding
  {
  }

  datatype Created<T> = Ring(queue: Queue<T>) | NoSlots

  /** The queue of a requested capacity; it has no slots exactly for SIZE_MAX. */
  method Create<T>(capacity: nat, padding: nat) returns (r: Created<T>)
    requires capacity <= SIZE_MAX && 1 <= padding <= 64
    ensures r.NoSlots? <==> capacity == SIZE_MAX
    ensures r.Ring? ==> r.queue.Valid() && r.queue.st == Init<T>(RingSize(capacity, padding))
  {
    RingSizeLaw(capacity, padding);
    var size := RingSize(capacity, padding);
    if size < 2 { return NoSlots; }
    var q := new Queue<T>(size);
    return Ring(q);
  }

  ghost predicate ConsumerActs<T>(acts: seq<Act<T>>) {
    forall k :: 0 <= k < |acts| ==> acts[k].Front? || acts[k].Read? || acts[k].Pop? || acts[k].ConsumerStep?
  }

  ghost predicate ProducerActs<T>(acts: seq<Act<T>>) {
    forall k :: 0 <= k < |acts| ==> acts[k].Emplace? || acts[k].ProducerStep?
  }

  /** The consumer leaves the producer's side alone and can only free slots. */
  ghost predicate ProducerKept<T>(s: State<T>, s': State<T>) {
    && s'.cap == s.cap && s'.producer == s.producer && s'.pushed == s.pushed
    && s'.writeIdx == s.writeIdx && s'.readIdxCache == s.readIdxCache && s'.seenPopped == s.seenPopped
    && s'.popped >= s.popped
  }

  /** The producer leaves the consumer's side alone and can only add elements. */
  ghost predicate ConsumerKept<T>(s: State<T>, s': State<T>) {
    && s'.cap == s.cap && s'.consumer == s.consumer && s'.popped == s.popped && s'.taken == s.taken
    && s'.readIdx == s.readIdx && s'.writeIdxCache == s.writeIdxCache && s'.seenPushed == s.seenPushed
    && s.pushed <= s'.pushed
  }

  lemma {:induction false} ConsumerRun<T>(s: State<T>, acts: seq<Act<T>>)
    requires Shape(s) && ConsumerActs(acts)
    ensures ProducerKept(s, Run(s, acts))
    decreases |acts|
  {
    if acts != [] { ConsumerRun(s, acts[..|acts| - 1]); }
  }

  lemma {:induction false} ProducerRun<T>(s: State<T>, acts: seq<Act<T>>)
    requires Shape(s) && ProducerActs(acts)
    ensures ConsumerKept(s, Run(s, acts))
    decreases |acts|
  {
    if acts != [] { ProducerRun(s, acts[..|acts| - 1]); }
  }

  class Queue<T> {
    const capacity: nat
    const slots: array<Cell<T>>
    var writeIdx: nat
    var readIdxCache: nat
    var readIdx: nat
    var writeIdxCache: nat
    ghost var st: State<T>

    ghost predicate Valid()
      reads this, slots
    {
      Inv(st) && Matches(st)
    }

    ghost predicate Matches(s: State<T>)
      reads this, slots
    {
      && s.cap == capacity && slots[..] == s.slots
      && s.writeIdx == writeIdx && s.readIdxCache == readIdxCache
      && s.readIdx == readIdx && s.writeIdxCache == writeIdxCache
    }

    constructor (capacity: nat)
      requires capacity >= 2
      ensures Valid() && st == Init<T>(capacity) && fresh(slots)
    {
      this.capacity := capacity;
      slots := new Cell<T>[capacity](_ => Raw);
      writeIdx, readIdxCache, readIdx, writeIdxCache := 0, 0, 0, 0;
      st := Init<T>(capacity);
      InitInv<T>(capacity);
    }

    /** Any disciplined behaviour of the consumer; callers know only the contract. */
    method OtherConsumer() returns (ghost acts: seq<Act<T>>)
      requires Valid()
      modifies this, slots
      ensures Valid() && ConsumerActs(acts) && Disciplined(old(st), acts) && st == Run(old(st), acts)
    {
      acts := [];
    }

    /** Any behaviour of the producer; callers know only the contract. */
    method OtherProducer() returns (ghost acts: seq<Act<T>>)
      requires Valid()
      modifies this, slots
      ensures Valid() && ProducerActs(acts) && st == Run(old(st), acts)
    {
      acts := [];
    }

    method Consume()
      requires Valid()
      modifies this, slots
      ensures Valid() && ProducerKept(old(st), st) && writeIdx == old(writeIdx)
    {
      ghost var acts := OtherConsumer();
      ConsumerRun(old(st), acts);
    }

    method Produce()
      requires Valid()
      modifies this, slots
      ensures Valid() && ConsumerKept(old(st), st) && readIdx == old(readIdx)
    {
      ghost var acts := OtherProducer();
      ProducerRun(old(st), acts);
    }

    ghost method Tick(a: Act<T>)
      requires Inv(st) && MayDo(st, a) && Matches(Apply(st, a))
      modifies this`st
      ensures Valid() && st == Apply(old(st), a)
    {
      ApplyInv(st, a);
      st := Apply(st, a);
    }

    /** The start of emplace and try_emplace: is the ring full as far as readIdxCache_ knows? */
    method BeginEmplace(v: T, wait: bool) returns (next: nat, full: bool)
      requires Valid() && st.producer.ProducerIdle?
      modifies this`st
      ensures Valid() && st.pushed == old(st).pushed && st.popped == old(st).popped
      ensures next == Next(capacity, writeIdx)
      ensures st.producer == if full then Reload(v, wait) else Build(v)
    {
      next := if writeIdx + 1 == capacity then 0 else writeIdx + 1;
      full := next == readIdxCache;
      Tick(Act.Emplace(v, wait));
    }

    /** readIdxCache_ = readIdx_.load(); is there room for one more element? */
    method ReloadReadIdx(next: nat) returns (room: bool)
      requires Valid() && st.producer.Reload? && next == Next(capacity, writeIdx)
      modifies this`st, this`readIdxCache
      ensures Valid() && st.pushed == old(st).pushed && st.popped == old(st).popped
      ensures if room then |st.pushed| - st.popped < capacity - 1 else |st.pushed| - st.popped == capacity - 1
      ensures next == Next(capacity, writeIdx)
      ensures var p := old(st).producer;
        st.producer == if room then Build(p.v) else if p.wait then p else ProducerIdle(true)
    {
      ProducerDecision(capacity, |st.pushed|, st.popped);
      readIdxCache := readIdx;
      room := next != readIdxCache;
      Tick(ProducerStep(st.popped));
    }

    /** The construction of the element and the store of writeIdx_. */
    method Publish(v: T)
      requires Valid() && st.producer == Build(v)
      modifies this, slots
      ensures Valid() && st.producer == ProducerIdle(false) && st.pushed == old(st).pushed + [v]
      ensures st.popped >= old(st).popped
    {
      Consume();
      assert SlotOk(st, |st.pushed|);
      slots[writeIdx] := Live(v);
      Tick(ProducerStep(0));
      Consume();
      writeIdx := if writeIdx + 1 == capacity then 0 else writeIdx + 1;
      Tick(ProducerStep(0));
    }

    /** False only if exactly capacity() elements were outstanding when readIdx_ was loaded,
        `popped` elements having been popped by then. */
    method TryEmplace(v: T) returns (ok: bool, ghost popped: nat)
      requires Valid() && st.producer.ProducerIdle?
      modifies this, slots
      ensures Valid() && st.producer.ProducerIdle? && st.popped >= old(st).popped
      ensures ok ==> st.pushed == old(st).pushed + [v]
      ensures !ok ==> st.pushed == old(st).pushed
      ensures !ok ==> old(st).popped <= popped <= st.popped && |st.pushed| - popped == capacity - 1
    {
      popped := 0;
      hide Inv, Matches;
      var next, full := BeginEmplace(v, false);
      if full {
        Consume();
        var room := ReloadReadIdx(next);
        popped := st.popped;
        if !room { return false, popped; }
      }
      Publish(v);
      return true, popped;
    }

    /** The spin is observed for `patience` loads. Still waiting, the call has found exactly
        capacity() elements outstanding at its last load, which showed `popped` pops. */
    method Emplace(v: T, patience: nat) returns (done: bool, ghost popped: nat)
      requires Valid() && st.producer.ProducerIdle?
      modifies this, slots
      ensures Valid() && st.popped >= old(st).popped
      ensures done ==> st.producer == ProducerIdle(false) && st.pushed == old(st).pushed + [v]
      ensures !done ==> st.producer == Reload(v, true) && st.pushed == old(st).pushed
      ensures !done && patience > 0 ==>
        old(st).popped <= popped <= st.popped && |st.pushed| - popped == capacity - 1
    {
      popped := 0;
      hide Inv, Matches;
      var next, full := BeginEmplace(v, true);
      var n := patience;
      while full
        invariant Valid() && st.pushed == old(st).pushed && st.popped >= old(st).popped
        invariant next == Next(capacity, writeIdx)
        invariant st.producer == if full then Reload(v, true) else Build(v)
        invariant 0 <= n <= patience
        invariant n < patience && full ==>
          old(st).popped <= popped <= st.popped && |st.pushed| - popped == capacity - 1
        decreases n
      {
        if n == 0 { return false, popped; }
        n := n - 1;
        Consume();
        var room := ReloadReadIdx(next);
        popped := st.popped;
        full := !room;
      }
      Publish(v);
      return true, popped;
    }

    /** Null only if the queue was empty when writeIdx_ was loaded; otherwise the slot of the
        oldest element. `shared`: the producer is still running. */
    method Front(shared: bool) returns (r: bool, slot: nat, ghost pushed: seq<T>)
      requires Valid() && st.consumer.ConsumerIdle?
      modifies this, slots
      ensures Valid() && st.consumer == ConsumerIdle(r)
      ensures st.popped == old(st).popped && old(st).pushed <= st.pushed
      ensures !r ==> old(st).pushed <= pushed <= st.pushed && |pushed| == st.popped
      ensures !shared ==> st.pushed == old(st).pushed && st.producer == old(st).producer
      ensures r ==> slot == readIdx < capacity && readIdx != writeIdxCache
      ensures r ==> st.popped < |st.pushed| && slots[slot] == Live(st.pushed[st.popped])
    {
      hide Matches;
      pushed := [];
      slot := readIdx;
      r := BeginFront();
      if !r {
        if shared { Produce(); }
        r := ReloadWriteIdx();
        pushed := st.pushed;
      }
      if r { FrontSlot(); }
    }

    /** Does the consumer know of an element as far as writeIdxCache_ tells? */
    method BeginFront() returns (known: bool)
      requires Valid() && st.consumer.ConsumerIdle?
      modifies this`st
      ensures Valid() && st == old(st).(consumer := if known then ConsumerIdle(true) else ReloadWrite)
      ensures known ==> readIdx != writeIdxCache
    {
      known := readIdx != writeIdxCache;
      Tick(Act.Front);
    }

    /** writeIdxCache_ = writeIdx_.load(); is there an element? */
    method ReloadWriteIdx() returns (some: bool)
      requires Valid() && st.consumer.ReloadWrite?
      modifies this`st, this`writeIdxCache
      ensures Valid() && st.consumer == ConsumerIdle(some) && st.producer == old(st).producer
      ensures st.popped == old(st).popped && st.pushed == old(st).pushed
      ensures some <==> st.popped < |st.pushed|
      ensures some ==> readIdx != writeIdxCache
    {
      NullExactlyWhenEmpty(st, |st.pushed|);
      writeIdxCache := writeIdx;
      some := writeIdxCache != readIdx;
      Tick(ConsumerStep(|st.pushed|));
    }

    /** The slot a non-null front() points to. */
    lemma FrontSlot()
      requires Valid() && st.consumer == ConsumerIdle(true)
      ensures readIdx < capacity && st.popped < |st.pushed| && slots[readIdx] == Live(st.pushed[st.popped])
    {
      assert SlotOk(st, st.popped);
      assert slots[..][readIdx] == slots[readIdx];
    }

    method Pop(shared: bool)
      requires Valid() && st.consumer.ConsumerIdle? && readIdx != writeIdxCache
      modifies this, slots
      ensures Valid() && st.consumer == ConsumerIdle(false) && old(st).pushed <= st.pushed
      ensures old(st).popped < |old(st).pushed| && st.popped == old(st).popped + 1
      ensures st.taken == old(st).taken + [old(st).pushed[old(st).popped]]
      ensures !shared ==> st.pushed == old(st).pushed && st.producer == old(st).producer
    {
      PopAssertion(st);
      PopInv(st);
      assert writeIdx != readIdx;
      assert SlotOk(st, st.popped);
      slots[readIdx] := Raw;
      Tick(Act.Pop);
      if shared { Produce(); }
      readIdx := if readIdx + 1 == capacity then 0 else readIdx + 1;
      Tick(ConsumerStep(0));
    }

    /** Called by the producer: the element count at the load of readIdx_. */
    method SizeByProducer() returns (n: int)
      requires Valid() && st.producer.ProducerIdle?
      modifies this, slots
      ensures Valid() && ProducerKept(old(st), st) && 0 <= n == |st.pushed| - st.popped <= capacity - 1
    {
      var w := writeIdx;
      Consume();
      SizeIsCount(capacity, |st.pushed|, st.popped);
      n := SizeOf(capacity, w, readIdx);
    }

    /** Called by the consumer: the element count at the load of writeIdx_. */
    method SizeByConsumer() returns (n: int)
      requires Valid() && st.consumer.ConsumerIdle?
      modifies this, slots
      ensures Valid() && ConsumerKept(old(st), st) && 0 <= n == |st.pushed| - st.popped <= capacity - 1
    {
      Produce();
      SizeIsCount(capacity, |st.pushed|, st.popped);
      n := SizeOf(capacity, writeIdx, readIdx);
    }

    /** With both threads gone the drain destroys exactly the elements left, oldest first. */
    method Destruct()
      requires Valid() && st.producer.ProducerIdle? && st.consumer.ConsumerIdle?
      modifies this, slots
      ensures Valid() && st.pushed == old(st).pushed && st.taken == st.pushed
      ensures forall i :: 0 <= i < capacity ==> slots[i] == Raw
    {
      var more := true;
      while more
        invariant Valid() && st.producer.ProducerIdle? && st.consumer.ConsumerIdle? && st.pushed == old(st).pushed
        invariant !more ==> st.popped == |st.pushed|
        decreases more, |st.pushed| - st.popped
      {
        var r, _, pushed := Front(false);
        if r { Pop(false); } else { more := false; }
      }
      forall i | 0 <= i < capacity ensures slots[i] == Raw {
        CoverSlot(st, i);
        assert slots[..][i] == st.slots[i];
      }
    }
  }

  /** In an empty ring every slot is raw. */
  lemma CoverSlot<T>(s: State<T>, i: nat)
    requires Inv(s) && i < s.cap && s.popped == |s.pushed| && s.producer.ProducerIdle?
    ensures s.slots[i] == Raw
  {
    var k := Covered(s.cap, s.popped, i);
    assert SlotOk(s, k);
  }
}
