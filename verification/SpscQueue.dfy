/** The bounded queue of one producer and one consumer as a machine of atomic steps: the two 64-bit indices that
    wrap around, the slots, and the two condition variables with their mutexes. The producer stands for whichever
    thread holds write_mutex in the wrappers with many producers, the consumer for the holder of read_mutex. */
module SpscQueue {
  import opened Bits
  import opened Arithmetic

  const WIDTH := 0x1_0000_0000_0000_0000

  datatype PopMode = Try | Wait | WaitWithStopToken

  datatype Producer<T> =
    | PIdle
    | PCheckTry(v: T)
    | PLock(v: T)
    | PCheck(v: T)
    | PToSleep(v: T)
    | PAsleep(v: T)
    | PWake(v: T)
    | PUnlock(v: T)
    | PWrite(v: T)
    | PInc(v: T)
    | PLockNotify
    | PNotify
    | PUnlockNotify

  datatype Consumer<T> =
    | CIdle
    | CCheckTry
    | CLock(stops: bool)
    | CCheck(stops: bool)
    | CToSleep(stops: bool)
    | CAsleep(stops: bool)
    | CWake(stops: bool)
    | CCheckStop
    | CUnlock
    | CRead
    | CInc(v: T)
    | CLockNotify
    | CNotify
    | CUnlockNotify

  // pushed and popped are auxiliary: all values in the order of the index increments.
  datatype State<T> = State(read: nat, write: nat, data: seq<T>, p: Producer<T>, c: Consumer<T>, stop: bool,
                            pushed: seq<T>, popped: seq<T>)

  datatype Action<T> =
    | Push(v: T, wait: bool)
    | StepProducer
    | Pop(mode: PopMode)
    | StepConsumer
    | RequestStop
    | SpuriousProducer
    | SpuriousConsumer

  // The capacity is a power of two below 2^64, so it divides 2^64.
  predicate CapacityOk(cap: nat) {
    0 < cap < WIDTH && WIDTH % cap == 0
  }

  /** Every power of two below 2^64 divides it. */
  lemma PowerOfTwoOk(k: nat)
    requires k < 64
    ensures CapacityOk(Pow2(k))
  {
    assert Pow2(64) == WIDTH by {
      Pow2Values();
      Pow2Add(32, 32);
    }
    Pow2Add(k, 64 - k);
    Pow2Mono(k, 63);
    Pow2Mono(63, 64);
    DivUnique(WIDTH, Pow2(k), Pow2(64 - k), 0);
  }

  lemma {:induction false} Pow2Add(m: nat, n: nat)
    ensures Pow2(m + n) == Pow2(m) * Pow2(n)
  {
    if m > 0 {
      Pow2Add(m - 1, n);
    }
  }

  // ---- the mutexes ----

  predicate ConsumerHoldsOwn<T>(s: State<T>) {
    s.c.CCheck? || s.c.CToSleep? || s.c.CCheckStop? || s.c.CUnlock?
  }

  predicate ProducerHoldsOther<T>(s: State<T>) {
    s.p.PNotify? || s.p.PUnlockNotify?
  }

  predicate ProducerHoldsOwn<T>(s: State<T>) {
    s.p.PCheck? || s.p.PToSleep? || s.p.PUnlock?
  }

  predicate ConsumerHoldsOther<T>(s: State<T>) {
    s.c.CNotify? || s.c.CUnlockNotify?
  }

  predicate ConsumerMutexFree<T>(s: State<T>) {
    !ConsumerHoldsOwn(s) && !ProducerHoldsOther(s)
  }

  predicate ProducerMutexFree<T>(s: State<T>) {
    !ProducerHoldsOwn(s) && !ConsumerHoldsOther(s)
  }

  // ---- steps ----

  // The difference of the indices on 64 bits.
  function Used<T>(s: State<T>): nat {
    (s.write + WIDTH - s.read) % WIDTH
  }

  predicate Enabled<T>(s: State<T>, a: Action<T>) {
    match a
    case Push(v, wait) => s.p.PIdle?
    case StepProducer =>
      && !s.p.PIdle? && !s.p.PAsleep?
      && (s.p.PLock? || s.p.PWake? ==> ProducerMutexFree(s))
      && (s.p.PLockNotify? ==> ConsumerMutexFree(s))
    case Pop(mode) => s.c.CIdle?
    case StepConsumer =>
      && !s.c.CIdle? && !s.c.CAsleep?
      && (s.c.CLock? || s.c.CWake? ==> ConsumerMutexFree(s))
      && (s.c.CLockNotify? ==> ProducerMutexFree(s))
    case RequestStop => true
    case SpuriousProducer => s.p.PAsleep?
    case SpuriousConsumer => s.c.CAsleep?
  }

  function WokenConsumer<T>(c: Consumer<T>): Consumer<T> {
    if c.CAsleep? then CWake(c.stops) else c
  }

  function WokenProducer<T>(p: Producer<T>): Producer<T> {
    if p.PAsleep? then PWake(p.v) else p
  }

  /** Emplace, one step at a time. */
  function ProducerStep<T>(s: State<T>, cap: nat): State<T>
    requires cap > 0 && |s.data| == cap
  {
    match s.p
    case PIdle => s
    case PCheckTry(v) => s.(p := if Used(s) == cap then PIdle else PWrite(v))
    case PLock(v) => s.(p := PCheck(v))
    case PCheck(v) => s.(p := if Used(s) < cap then PUnlock(v) else PToSleep(v))
    case PToSleep(v) => s.(p := PAsleep(v))
    case PAsleep(v) => s
    case PWake(v) => s.(p := PCheck(v))
    case PUnlock(v) => s.(p := PWrite(v))
    case PWrite(v) => s.(data := s.data[s.write % cap := v], p := PInc(v))
    case PInc(v) => s.(write := (s.write + 1) % WIDTH, pushed := s.pushed + [v], p := PLockNotify)
    case PLockNotify => s.(p := PNotify)
    case PNotify => s.(p := PUnlockNotify, c := WokenConsumer(s.c))
    case PUnlockNotify => s.(p := PIdle)
  }

  /** Pop, one step at a time. With a stop token the wait ends once a stop is requested, and then nothing is popped. */
  function ConsumerStep<T>(s: State<T>, cap: nat): State<T>
    requires cap > 0 && |s.data| == cap
  {
    match s.c
    case CIdle => s
    case CCheckTry => s.(c := if s.read == s.write then CIdle else CRead)
    case CLock(stops) => s.(c := CCheck(stops))
    case CCheck(stops) =>
      if stops && s.stop then s.(c := CCheckStop)
      else if s.read == s.write then s.(c := CToSleep(stops))
      else s.(c := if stops then CCheckStop else CUnlock)
    case CToSleep(stops) => s.(c := if stops && s.stop then CWake(stops) else CAsleep(stops))
    case CAsleep(stops) => s
    case CWake(stops) => s.(c := CCheck(stops))
    case CCheckStop => s.(c := if s.stop then CIdle else CUnlock)
    case CUnlock => s.(c := CRead)
    case CRead => s.(c := CInc(s.data[s.read % cap]))
    case CInc(v) => s.(read := (s.read + 1) % WIDTH, popped := s.popped + [v], c := CLockNotify)
    case CLockNotify => s.(c := CNotify)
    case CNotify => s.(c := CUnlockNotify, p := WokenProducer(s.p))
    case CUnlockNotify => s.(c := CIdle)
  }

  function Effect<T>(s: State<T>, a: Action<T>, cap: nat): State<T>
    requires cap > 0 && |s.data| == cap
  {
    match a
    case Push(v, wait) => s.(p := if wait then PLock(v) else PCheckTry(v))
    case StepProducer => ProducerStep(s, cap)
    case Pop(mode) => s.(c := if mode.Try? then CCheckTry else CLock(mode.WaitWithStopToken?))
    case StepConsumer => ConsumerStep(s, cap)
    case RequestStop => s.(stop := true, c := if s.c.CAsleep? && s.c.stops then CWake(true) else s.c)
    case SpuriousProducer => s.(p := WokenProducer(s.p))
    case SpuriousConsumer => s.(c := WokenConsumer(s.c))
  }

  // ---- the invariant ----

  // The values that are pushed and not popped lie in their slots.
  ghost predicate Stored<T>(s: State<T>, cap: nat)
    requires cap > 0 && |s.data| == cap
  {
    forall k :: |s.popped| <= k < |s.pushed| ==> s.data[k % cap] == s.pushed[k]
  }

  ghost predicate Fifo<T>(s: State<T>, cap: nat) {
    && CapacityOk(cap) && |s.data| == cap
    && |s.popped| <= |s.pushed| <= |s.popped| + cap
    && s.popped == s.pushed[..|s.popped|]
    && s.read == |s.popped| % WIDTH && s.write == |s.pushed| % WIDTH
    && Stored(s, cap)
  }

  // What each side has established at its program point.
  ghost predicate Placed<T>(s: State<T>, cap: nat)
    requires cap > 0 && |s.data| == cap
  {
    && (s.p.PUnlock? || s.p.PWrite? || s.p.PInc? ==> |s.pushed| < |s.popped| + cap)
    && (s.p.PInc? ==> s.data[|s.pushed| % cap] == s.p.v)
    && (s.c.CUnlock? || s.c.CRead? || s.c.CInc? ==> |s.popped| < |s.pushed|)
    && (s.c.CCheckStop? && !s.stop ==> |s.popped| < |s.pushed|)
    && (s.c.CInc? && |s.popped| < |s.pushed| ==> s.c.v == s.pushed[|s.popped|])
  }

  predicate Exclusive<T>(s: State<T>) {
    !(ConsumerHoldsOwn(s) && ProducerHoldsOther(s)) && !(ProducerHoldsOwn(s) && ConsumerHoldsOther(s))
  }

  // A sleeper whose predicate holds, or one about to sleep, has its notification still to come.
  predicate WakesComing<T>(s: State<T>, cap: nat) {
    && ((s.c.CAsleep? || s.c.CToSleep?) && |s.popped| != |s.pushed| ==>
          s.p.PLockNotify? || (s.c.CAsleep? && s.p.PNotify?))
    && ((s.p.PAsleep? || s.p.PToSleep?) && |s.pushed| < |s.popped| + cap ==>
          s.c.CLockNotify? || (s.p.PAsleep? && s.c.CNotify?))
    && (s.c.CAsleep? && s.c.stops ==> !s.stop)
  }

  ghost predicate Inv<T>(s: State<T>, cap: nat) {
    Fifo(s, cap) && Placed(s, cap) && Exclusive(s) && WakesComing(s, cap)
  }

  // ---- index arithmetic ----

  lemma UsedIs<T>(s: State<T>, cap: nat)
    requires Fifo(s, cap)
    ensures Used(s) == |s.pushed| - |s.popped|
    ensures s.read == s.write <==> |s.popped| == |s.pushed|
  {
    hide Stored;
    Difference(|s.pushed|, |s.popped|);
  }

  lemma Difference(m: int, n: int)
    requires 0 <= m - n < WIDTH
    ensures (m % WIDTH + WIDTH - n % WIDTH) % WIDTH == m - n
    ensures n % WIDTH == m % WIDTH <==> n == m
  {
  }

  // Slots of two indices less than a whole turn apart are different.
  lemma SlotsDiffer(j: nat, k: nat, cap: nat)
    requires cap > 0 && j < k < j + cap
    ensures j % cap != k % cap
  {
    var d := k / cap - j / cap;
    assert cap * d == k - j - (k % cap - j % cap);
    MultipleLarge(cap, d);
  }

  // The wrapped index selects the same slot as the unbounded count, because the capacity divides 2^64.
  lemma SlotOfWrapped(n: nat, cap: nat)
    requires CapacityOk(cap)
    ensures (n % WIDTH) % cap == n % cap
  {
    var q, t := WIDTH / cap, n / WIDTH;
    var r := n % WIDTH;
    assert WIDTH == cap * q;
    assert n == WIDTH * t + r;
    assert n == cap * (q * t) + r by {
      assert WIDTH * t == cap * q * t == cap * (q * t);
    }
    assert r == cap * (r / cap) + r % cap;
    assert n == cap * (q * t + r / cap) + r % cap;
    DivUnique(n, cap, q * t + r / cap, r % cap);
  }

  // ---- every step keeps the invariant ----

  lemma WriteKeeps<T>(s: State<T>, cap: nat)
    requires Inv(s, cap) && s.p.PWrite?
    ensures Inv(ProducerStep(s, cap), cap)
  {
    var t := ProducerStep(s, cap);
    var n := |s.pushed|;
    SlotOfWrapped(n, cap);
    assert s.write % cap == n % cap;
    forall k | |s.popped| <= k < n
      ensures t.data[k % cap] == t.pushed[k]
    {
      assert s.data[k % cap] == s.pushed[k];
      SlotsDiffer(k, n, cap);
    }
    hide CapacityOk;
  }

  lemma ProducerIncKeeps<T>(s: State<T>, cap: nat)
    requires Inv(s, cap) && s.p.PInc?
    ensures Inv(ProducerStep(s, cap), cap)
  {
    hide CapacityOk;
    var t := ProducerStep(s, cap);
    forall k | |t.popped| <= k < |t.pushed|
      ensures t.data[k % cap] == t.pushed[k]
    {
      if k < |s.pushed| {
        assert s.data[k % cap] == s.pushed[k];
      }
    }
    IndexNext(|s.pushed|);
  }

  lemma IndexNext(n: nat)
    ensures (n % WIDTH + 1) % WIDTH == (n + 1) % WIDTH
  {
  }

  lemma ConsumerIncKeeps<T>(s: State<T>, cap: nat)
    requires Inv(s, cap) && s.c.CInc?
    ensures Inv(ConsumerStep(s, cap), cap)
  {
    hide CapacityOk;
    var t := ConsumerStep(s, cap);
    forall k | |t.popped| <= k < |t.pushed|
      ensures t.data[k % cap] == t.pushed[k]
    {
      assert s.data[k % cap] == s.pushed[k];
    }
    IndexNext(|s.popped|);
  }

  lemma ReadKeeps<T>(s: State<T>, cap: nat)
    requires Inv(s, cap) && s.c.CRead?
    ensures Inv(ConsumerStep(s, cap), cap)
  {
    SlotOfWrapped(|s.popped|, cap);
    hide CapacityOk;
  }

  // Steps that touch neither the slots nor the indices.
  lemma OtherProducerKeeps<T>(s: State<T>, cap: nat)
    requires Inv(s, cap) && Enabled(s, StepProducer) && !s.p.PWrite? && !s.p.PInc?
    ensures Inv(ProducerStep(s, cap), cap)
  {
    UsedIs(s, cap);
    hide CapacityOk, Stored, Used;
  }

  lemma OtherConsumerKeeps<T>(s: State<T>, cap: nat)
    requires Inv(s, cap) && Enabled(s, StepConsumer) && !s.c.CRead? && !s.c.CInc?
    ensures Inv(ConsumerStep(s, cap), cap)
  {
    UsedIs(s, cap);
    hide CapacityOk, Stored, Used;
  }

  lemma StepKeeps<T>(s: State<T>, a: Action<T>, cap: nat)
    requires Inv(s, cap) && Enabled(s, a)
    ensures Inv(Effect(s, a, cap), cap)
  {
    if a.StepProducer? {
      hide Inv, ConsumerStep, ProducerStep;
      if s.p.PWrite? {
        WriteKeeps(s, cap);
      } else if s.p.PInc? {
        ProducerIncKeeps(s, cap);
      } else {
        OtherProducerKeeps(s, cap);
      }
    } else if a.StepConsumer? {
      hide Inv, ConsumerStep, ProducerStep;
      if s.c.CRead? {
        ReadKeeps(s, cap);
      } else if s.c.CInc? {
        ConsumerIncKeeps(s, cap);
      } else {
        OtherConsumerKeeps(s, cap);
      }
    } else {
      hide CapacityOk, Stored, ConsumerStep, ProducerStep;
    }
  }

  // ---- runs ----

  function Start<T>(data: seq<T>): State<T> {
    State(0, 0, data, PIdle, CIdle, false, [], [])
  }

  lemma StartInv<T>(data: seq<T>)
    requires CapacityOk(|data|)
    ensures Inv(Start(data), |data|)
  {
  }

  ghost predicate Run<T>(s: State<T>, steps: seq<Action<T>>, t: State<T>, cap: nat)
    requires Inv(s, cap)
    decreases |steps|
  {
    if steps == [] then s == t
    else Enabled(s, steps[0]) && (StepKeeps(s, steps[0], cap); Run(Effect(s, steps[0], cap), steps[1..], t, cap))
  }

  lemma InvSize<T>(s: State<T>, cap: nat)
    requires Inv(s, cap)
    ensures cap > 0 && |s.data| == cap
  {
  }

  lemma {:induction false} RunKeeps<T>(s: State<T>, steps: seq<Action<T>>, t: State<T>, cap: nat)
    requires Inv(s, cap) && Run(s, steps, t, cap)
    ensures Inv(t, cap)
    decreases |steps|
  {
    InvSize(s, cap);
    hide Inv, Enabled, Effect;
    if steps == [] {
    } else {
      StepKeeps(s, steps[0], cap);
      RunKeeps(Effect(s, steps[0], cap), steps[1..], t, cap);
    }
  }

  function Buffered<T>(s: State<T>, cap: nat, n: nat): (b: seq<T>)
    requires cap > 0 && |s.data| == cap
    ensures |b| == n
  {
    seq(n, i requires 0 <= i < n => s.data[(s.read + i) % WIDTH % cap])
  }

  /** In every interleaving the popped values followed by the values in the slots, read from the wrapped read index
      on, are the pushed values in order, and no more than the capacity are buffered. */
  lemma FirstInFirstOut<T>(data: seq<T>, steps: seq<Action<T>>, s: State<T>)
    requires CapacityOk(|data|)
    requires Inv(Start(data), |data|) && Run(Start(data), steps, s, |data|)
    ensures |s.data| == |data| && Used(s) <= |data|
    ensures s.pushed == s.popped + Buffered(s, |data|, Used(s))
  {
    var cap := |data|;
    RunKeeps(Start(data), steps, s, cap);
    hide Run;
    UsedIs(s, cap);
    var n := Used(s);
    var b := Buffered(s, cap, n);
    forall i | 0 <= i < n
      ensures b[i] == s.pushed[|s.popped| + i]
    {
      var k := |s.popped| + i;
      SlotOfWrapped(k, cap);
      IndexMore(|s.popped|, i);
      assert s.data[k % cap] == s.pushed[k];
    }
    assert s.pushed[..|s.popped|] + s.pushed[|s.popped|..] == s.pushed;
    assert b == s.pushed[|s.popped|..];
  }

  lemma IndexMore(n: nat, i: nat)
    ensures (n % WIDTH + i) % WIDTH == (n + i) % WIDTH
  {
  }

  /** The producer never writes into a slot that holds a value still to be popped. */
  lemma NoOverwrite<T>(data: seq<T>, steps: seq<Action<T>>, s: State<T>, k: nat)
    requires CapacityOk(|data|)
    requires Inv(Start(data), |data|) && Run(Start(data), steps, s, |data|)
    requires s.p.PWrite? && |s.popped| <= k < |s.pushed|
    ensures k % |data| != s.write % |data|
  {
    RunKeeps(Start(data), steps, s, |data|);
    hide Run;
    SlotOfWrapped(|s.pushed|, |data|);
    SlotsDiffer(k, |s.pushed|, |data|);
  }

  /** TryEmplace fails exactly when the queue is full at its check, and TryPop exactly when it is empty. */
  lemma TriesFailWhenTheyMust<T>(data: seq<T>, steps: seq<Action<T>>, s: State<T>)
    requires CapacityOk(|data|)
    requires Inv(Start(data), |data|) && Run(Start(data), steps, s, |data|)
    ensures |s.data| == |data|
    ensures s.p.PCheckTry? ==> (ProducerStep(s, |data|).p.PIdle? <==> |s.pushed| == |s.popped| + |data|)
    ensures s.c.CCheckTry? ==> (ConsumerStep(s, |data|).c.CIdle? <==> |s.pushed| == |s.popped|)
  {
    RunKeeps(Start(data), steps, s, |data|);
    hide Run;
    UsedIs(s, |data|);
  }

  /** No wake-up is lost. A consumer that sleeps while the queue is not empty, or a producer that sleeps while it is
      not full, is woken by the other side within its next two steps, and those steps are enabled. */
  lemma SleepingConsumerIsWoken<T>(data: seq<T>, steps: seq<Action<T>>, s: State<T>)
    requires CapacityOk(|data|)
    requires Inv(Start(data), |data|) && Run(Start(data), steps, s, |data|)
    requires s.c.CAsleep? && |s.popped| != |s.pushed|
    ensures |s.data| == |data| && Enabled(s, StepProducer)
    ensures var t := ProducerStep(s, |data|);
            t.c.CWake? || (|t.data| == |data| && Enabled(t, StepProducer) && ProducerStep(t, |data|).c.CWake?)
  {
    RunKeeps(Start(data), steps, s, |data|);
    hide Run;
  }

  lemma SleepingProducerIsWoken<T>(data: seq<T>, steps: seq<Action<T>>, s: State<T>)
    requires CapacityOk(|data|)
    requires Inv(Start(data), |data|) && Run(Start(data), steps, s, |data|)
    requires s.p.PAsleep? && |s.pushed| < |s.popped| + |data|
    ensures |s.data| == |data| && Enabled(s, StepConsumer)
    ensures var t := ConsumerStep(s, |data|);
            t.p.PWake? || (|t.data| == |data| && Enabled(t, StepConsumer) && ConsumerStep(t, |data|).p.PWake?)
  {
    RunKeeps(Start(data), steps, s, |data|);
    hide Run;
  }

  /** Once a stop is requested, a wait with the stop token does not sleep and pops nothing. */
  lemma StoppedPopsNothing<T>(data: seq<T>, steps: seq<Action<T>>, s: State<T>)
    requires CapacityOk(|data|)
    requires Inv(Start(data), |data|) && Run(Start(data), steps, s, |data|)
    requires s.stop
    ensures |s.data| == |data|
    ensures s.c.CAsleep? ==> !s.c.stops
    ensures s.c.CCheckStop? ==> ConsumerStep(s, |data|) == s.(c := CIdle)
    ensures s.c.CCheck? && s.c.stops ==> ConsumerStep(s, |data|) == s.(c := CCheckStop)
  {
    RunKeeps(Start(data), steps, s, |data|);
    hide Run;
  }
}
