/** What a pop() without its guard leads to: exactly the unguarded ones can be made to fault by
    a run in which every later pop() follows a non-null front(). */
module SpscMisuse {
  import opened SpscModel
  import opened SpscProofs
  import opened SpscQueue
  import opened Arithmetic

  /** More elements popped than writeIdxCache_ admits; the producer is between calls or waiting. */
  ghost predicate Overrun<T>(s: State<T>)
    requires Shape(s)
  {
    && s.consumer.ConsumerIdle? && (s.producer.ProducerIdle? || s.producer.Reload?)
    && s.seenPushed < s.popped <= |s.pushed| < s.seenPushed + s.cap
    && s.readIdx == s.popped % s.cap && s.writeIdxCache == s.seenPushed % s.cap
    && (forall k: nat :: s.popped <= k < |s.pushed| ==> s.slots[k % s.cap].Live?)
    && s.slots[|s.pushed| % s.cap].Raw?
  }

  /** n elements taken as the rule of use asks: front(), then pop(). */
  function Drain<T>(n: nat): (acts: seq<Act<T>>) {
    if n == 0 then [] else [Front, Pop, ConsumerStep(0)] + Drain(n - 1)
  }

  lemma {:induction false} RunConcat<T>(s: State<T>, a: seq<Act<T>>, b: seq<Act<T>>)
    requires Shape(s)
    ensures Run(s, a + b) == Run(Run(s, a), b)
    ensures Announced(s, a + b) <==> Announced(s, a) && Announced(Run(s, a), b)
    decreases |b|
  {
    hide Apply;
    if b == [] {
      assert a + b == a;
    } else {
      assert (a + b)[..|a + b| - 1] == a + b[..|b| - 1];
      RunConcat(s, a, b[..|b| - 1]);
    }
  }

  lemma RunOne<T>(s: State<T>, a: Act<T>)
    requires Shape(s)
    ensures Run(s, [a]) == Apply(s, a)
    ensures Announced(s, [a]) <==> (a.Pop? && s.consumer.ConsumerIdle? ==> s.consumer.front)
  {
    hide Apply;
    assert [a][..0] == [];
    assert Run(s, []) == s;
  }

  /** After an overrun front() trusts its cache and is never null. */
  lemma OverrunFront<T>(s: State<T>)
    requires Shape(s) && Overrun(s)
    ensures Apply(s, Front) == s.(consumer := ConsumerIdle(true)) && Overrun(Apply(s, Front))
  {
    if s.readIdx == s.writeIdxCache { SameRemainder(s.cap, s.seenPushed, s.popped); }
  }

  lemma DrainOne<T>(s: State<T>)
    requires Shape(s) && Overrun(s) && s.popped < |s.pushed|
    ensures var acts: seq<Act<T>> := [Front, Pop, ConsumerStep(0)]; var s' := Run(s, acts);
      Announced(s, acts) && Overrun(s') && s'.popped == s.popped + 1 && s'.pushed == s.pushed
  {
    OverrunFront(s);
    var s1 := Apply(s, Front);
    var s2 := Apply(s1, Pop);
    var s3 := Apply(s2, ConsumerStep(0));
    RunOne(s, Front);
    RunOne(s1, Pop);
    RunOne(s2, ConsumerStep(0));
    RunConcat(s, [Front], [Pop]);
    RunConcat(s, [Front] + [Pop], [ConsumerStep(0)]);
    var all: seq<Act<T>> := [Front, Pop, ConsumerStep(0)];
    assert [Front] + [Pop] + [ConsumerStep(0)] == all;
    Popped(s1);
  }

  /** Destroying the front element of an overrun ring and storing readIdx_. */
  lemma Popped<T>(s: State<T>)
    requires Shape(s) && Overrun(s) && s.popped < |s.pushed|
    ensures var s' := Apply(Apply(s, Pop), ConsumerStep(0));
      Overrun(s') && s'.popped == s.popped + 1 && s'.pushed == s.pushed
  {
    var s' := Apply(Apply(s, Pop), ConsumerStep(0));
    assert s.slots[s.popped % s.cap].Live?;
    NextIndex(s.cap, s.popped);
    forall k: nat | s'.popped <= k < |s.pushed| ensures s'.slots[k % s.cap].Live? {
      SlotsApart(s.cap, s.popped, k);
    }
    SlotsApart(s.cap, s.popped, |s.pushed|);
  }

  /** An overrun ring, drained by the rule, hands out a dead slot in the end. */
  lemma {:induction false} OverrunFaults<T>(s: State<T>)
    requires Shape(s) && Overrun(s)
    ensures var acts: seq<Act<T>> := Drain(|s.pushed| - s.popped) + [Front, Read];
      Announced(s, acts) && Run(s, acts).fault
    decreases |s.pushed| - s.popped
  {
    hide Apply;
    if s.popped == |s.pushed| {
      EmptyRead(s);
      assert Drain<T>(0) + [Front, Read] == [Front, Read];
    } else {
      var n := |s.pushed| - s.popped;
      var one: seq<Act<T>> := [Front, Pop, ConsumerStep(0)];
      DrainOne(s);
      OverrunFaults(Run(s, one));
      RunConcat(s, one, Drain(n - 1) + [Front, Read]);
      assert one + (Drain(n - 1) + [Front, Read]) == Drain(n) + [Front, Read];
    }
  }

  lemma EmptyRead<T>(s: State<T>)
    requires Shape(s) && Overrun(s) && s.popped == |s.pushed|
    ensures Announced(s, [Front, Read]) && Run(s, [Front, Read]).fault
  {
    OverrunFront(s);
    RunOne(s, Front);
    RunOne(Apply(s, Front), Read);
    RunConcat(s, [Front], [Read]);
    var all: seq<Act<T>> := [Front, Read];
    assert [Front] + [Read] == all;
  }

  /** The steps with which a producer that has begun to write finishes its call. */
  function Finish<T>(p: Producer<T>): (acts: seq<Act<T>>) {
    match p
    case Build(_) => [ProducerStep(0), ProducerStep(0)]
    case Store(_) => [ProducerStep(0)]
    case _ => []
  }

  /** An unguarded pop() that does not fault at once leaves the ring overrun. */
  lemma UnguardedPop<T>(s: State<T>)
    requires Inv(s) && s.consumer.ConsumerIdle? && s.readIdx == s.writeIdxCache
    requires s.slots[s.readIdx].Live?
    ensures var s1 := Apply(s, Pop); var acts := [ConsumerStep(0)] + Finish(s.producer);
      Announced(s1, acts) && Overrun(Run(s1, acts))
  {
    var s1 := Apply(s, Pop);
    var s2 := Apply(s1, ConsumerStep(0));
    ConsumerDecision(s.cap, s.popped, s.seenPushed);
    NextIndex(s.cap, s.popped);
    RunOne(s1, ConsumerStep(0));
    RunConcat(s1, [ConsumerStep(0)], Finish(s.producer));
    FinishOverrun(s);
  }

  lemma FinishOverrun<T>(s: State<T>)
    requires Inv(s) && s.consumer.ConsumerIdle? && s.popped == s.seenPushed && s.slots[s.readIdx].Live?
    ensures var s2 := Apply(Apply(s, Pop), ConsumerStep(0));
      Announced(s2, Finish(s.producer)) && Overrun(Run(s2, Finish(s.producer)))
  {
    var s2 := Apply(Apply(s, Pop), ConsumerStep(0));
    AfterPop(s);
    match s.producer
    case Build(_) =>
      hide Apply;
      var s3 := Apply(s2, ProducerStep(0));
      FinishBuild(s);
      RunOne(s2, ProducerStep(0));
      RunOne(s3, ProducerStep(0));
      RunConcat(s2, [ProducerStep(0)], [ProducerStep(0)]);
      assert [ProducerStep(0)] + [ProducerStep(0)] == Finish(s.producer);
    case Store(_) =>
      hide Apply;
      FinishStore(s);
      RunOne(s2, ProducerStep(0));
    case _ =>
      LeftOver(s, s2);
  }

  /** The state after the unguarded pop(). */
  lemma AfterPop<T>(s: State<T>)
    requires Inv(s) && s.consumer.ConsumerIdle? && s.slots[s.readIdx].Live?
    ensures var s2 := Apply(Apply(s, Pop), ConsumerStep(0));
      && s2 == s.(slots := s.slots[s.readIdx := Raw], taken := s2.taken, readIdx := (s.popped + 1) % s.cap,
                  popped := s.popped + 1, consumer := ConsumerIdle(false))
      && forall k: nat :: s.popped < k < s.popped + s.cap ==> s2.slots[k % s.cap] == Expected(s, k)
  {
    NextIndex(s.cap, s.popped);
    forall k: nat | s.popped < k < s.popped + s.cap
      ensures s.slots[s.readIdx := Raw][k % s.cap] == Expected(s, k)
    {
      assert SlotOk(s, k);
      SlotsApart(s.cap, s.popped, k);
    }
  }

  /** The rest of the ring after the pop and a finished push. */
  ghost predicate Rest<T>(s: State<T>, s': State<T>)
    requires Shape(s')
  {
    forall k: nat :: s.popped < k < s.popped + s'.cap ==>
      s'.slots[k % s'.cap] ==
        if k == |s.pushed| && (s.producer.Build? || s.producer.Store?) then Live(s.producer.v) else Expected(s, k)
  }

  lemma FinishBuild<T>(s: State<T>)
    requires Inv(s) && s.consumer.ConsumerIdle? && s.popped == s.seenPushed && s.slots[s.readIdx].Live?
    requires s.producer.Build?
    ensures var s2 := Apply(Apply(s, Pop), ConsumerStep(0));
      Overrun(Apply(Apply(s2, ProducerStep(0)), ProducerStep(0)))
  {
    AfterPop(s);
    assert SlotOk(s, s.popped);
    var s2 := Apply(Apply(s, Pop), ConsumerStep(0));
    var s3 := s2.(slots := s2.slots[s.writeIdx := Live(s.producer.v)], producer := Store(s.producer.v));
    assert Apply(s2, ProducerStep(0)) == s3;
    var s4 := Apply(s3, ProducerStep(0));
    forall k: nat | s.popped < k < s.popped + s.cap && k != |s.pushed|
      ensures s4.slots[k % s.cap] == Expected(s, k)
    {
      if k < |s.pushed| { SlotsApart(s.cap, k, |s.pushed|); } else { SlotsApart(s.cap, |s.pushed|, k); }
    }
    LeftOver(s, s4);
  }

  lemma FinishStore<T>(s: State<T>)
    requires Inv(s) && s.consumer.ConsumerIdle? && s.popped == s.seenPushed && s.slots[s.readIdx].Live?
    requires s.producer.Store?
    ensures var s2 := Apply(Apply(s, Pop), ConsumerStep(0)); Overrun(Apply(s2, ProducerStep(0)))
  {
    AfterPop(s);
    LeftOver(s, Apply(Apply(Apply(s, Pop), ConsumerStep(0)), ProducerStep(0)));
  }

  /** The elements left are live and the next slot is raw: the ring is overrun. */
  lemma LeftOver<T>(s: State<T>, s': State<T>)
    requires Inv(s) && Shape(s') && s'.cap == s.cap && Rest(s, s') && s.popped == s.seenPushed
    requires s.slots[s.readIdx].Live?
    requires s'.popped == s.popped + 1 && s'.readIdx == s'.popped % s.cap && s'.consumer.ConsumerIdle?
    requires s'.seenPushed == s.seenPushed && s'.writeIdxCache == s.writeIdxCache
    requires if s.producer.Build? || s.producer.Store?
             then s'.pushed == s.pushed + [s.producer.v] && s'.producer.ProducerIdle?
             else s'.pushed == s.pushed && s'.producer == s.producer
    ensures Overrun(s')
  {
    assert SlotOk(s, s.popped);
    assert s'.slots[|s'.pushed| % s'.cap].Raw?;
  }

  lemma SlotsApart(cap: nat, i: nat, j: nat)
    requires cap > 0 && i < j < i + cap
    ensures i % cap != j % cap
  {
    if i % cap == j % cap { SameRemainder(cap, i, j); }
  }

  /** Every unguarded pop(), in any reachable state of any ring, can be followed by calls that
      obey the rule of use and still access a dead slot. */
  lemma UnguardedPopFaults<T>(s: State<T>) returns (acts: seq<Act<T>>)
    requires Inv(s) && s.consumer.ConsumerIdle? && s.readIdx == s.writeIdxCache
    ensures Announced(Apply(s, Pop), acts) && Run(Apply(s, Pop), acts).fault
  {
    var s1 := Apply(s, Pop);
    if s.slots[s.readIdx].Live? {
      hide Apply;
      UnguardedPop(s);
      var a := [ConsumerStep(0)] + Finish(s.producer);
      var s2 := Run(s1, a);
      var b: seq<Act<T>> := Drain(|s2.pushed| - s2.popped) + [Front, Read];
      OverrunFaults(s2);
      RunConcat(s1, a, b);
      acts := a + b;
    } else {
      acts := [];
    }
  }

  /** The exact condition: a pop() is harmless, whatever follows it by the rule of use, if and
      only if readIdx_ differs from writeIdxCache_ when it is called. */
  lemma HarmlessExactlyWhenGuarded<T(!new)>(s: State<T>)
    requires Inv(s) && s.consumer.ConsumerIdle?
    ensures s.readIdx != s.writeIdxCache <==>
      forall acts | Announced(Apply(s, Pop), acts) :: !Run(Apply(s, Pop), acts).fault
  {
    hide Apply;
    if s.readIdx == s.writeIdxCache {
      var acts := UnguardedPopFaults(s);
    } else {
      PopInv(s);
      forall acts | Announced(Apply(s, Pop), acts) ensures !Run(Apply(s, Pop), acts).fault {
        AnnouncedDisciplined(Apply(s, Pop), acts);
      }
    }
  }

  lemma {:induction false} NoPops<T>(s: State<T>, acts: seq<Act<T>>)
    requires Shape(s) && forall k :: 0 <= k < |acts| ==> !acts[k].Pop?
    ensures Announced(s, acts)
    decreases |acts|
  {
    hide Run;
    if acts != [] { NoPops(s, acts[..|acts| - 1]); }
  }

  /** In particular the first pop() of a queue, whatever was pushed before it, if no front() came
      first. */
  lemma PopWithoutFront<T>(cap: nat, pushes: seq<Act<T>>) returns (acts: seq<Act<T>>)
    requires cap >= 2 && ProducerActs(pushes)
    ensures var s := Apply(Run(Init<T>(cap), pushes), Pop); Announced(s, acts) && Run(s, acts).fault
  {
    hide Apply, Run;
    InitInv<T>(cap);
    NoPops(Init<T>(cap), pushes);
    AnnouncedDisciplined(Init<T>(cap), pushes);
    ProducerRun(Init<T>(cap), pushes);
    acts := UnguardedPopFaults(Run(Init<T>(cap), pushes));
  }
}
