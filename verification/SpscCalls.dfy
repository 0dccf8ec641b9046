/** What a call on the queue has done when it comes back, in every interleaving with the other side. */
module SpscCalls {
  import opened SpscQueue

  ghost predicate Full<T>(s: State<T>, cap: nat) {
    |s.pushed| == |s.popped| + cap
  }

  ghost predicate Empty<T>(s: State<T>) {
    |s.pushed| == |s.popped|
  }

  // ---- pushing ----

  // Whether this step is the check of TryEmplace, made while the queue is full.
  ghost predicate RefusesFull<T>(s: State<T>, a: Action<T>, cap: nat) {
    a.StepProducer? && s.p.PCheckTry? && Full(s, cap)
  }

  ghost predicate FoundFull<T>(s: State<T>, steps: seq<Action<T>>, cap: nat)
    requires cap > 0 && |s.data| == cap
    decreases |steps|
  {
    steps != [] &&
    (RefusesFull(s, steps[0], cap)
     || (|Effect(s, steps[0], cap).data| == cap && FoundFull(Effect(s, steps[0], cap), steps[1..], cap)))
  }

  // Where a call of Emplace with this value and mode stands that found these values pushed.
  ghost predicate Pushing<T>(s: State<T>, v: T, wait: bool, base: seq<T>, refused: bool) {
    match s.p
    case PIdle => if refused then !wait && s.pushed == base else s.pushed == base + [v]
    case PCheckTry(u) => u == v && !wait && !refused && s.pushed == base
    case PLock(u) => u == v && wait && !refused && s.pushed == base
    case PCheck(u) => u == v && wait && !refused && s.pushed == base
    case PToSleep(u) => u == v && wait && !refused && s.pushed == base
    case PAsleep(u) => u == v && wait && !refused && s.pushed == base
    case PWake(u) => u == v && wait && !refused && s.pushed == base
    case PUnlock(u) => u == v && wait && !refused && s.pushed == base
    case PWrite(u) => u == v && !refused && s.pushed == base
    case PInc(u) => u == v && !refused && s.pushed == base
    case PLockNotify => !refused && s.pushed == base + [v]
    case PNotify => !refused && s.pushed == base + [v]
    case PUnlockNotify => !refused && s.pushed == base + [v]
  }

  lemma PushingStep<T>(s: State<T>, a: Action<T>, cap: nat, v: T, wait: bool, base: seq<T>, refused: bool)
    requires Inv(s, cap) && Enabled(s, a) && !a.Push? && Pushing(s, v, wait, base, refused)
    ensures Pushing(Effect(s, a, cap), v, wait, base, refused || RefusesFull(s, a, cap))
  {
    UsedIs(s, cap);
    hide Used, Stored, CapacityOk;
  }

  lemma RunFirst<T>(s: State<T>, a: Action<T>, steps: seq<Action<T>>, t: State<T>, cap: nat)
    requires Inv(s, cap) && Run(s, [a] + steps, t, cap)
    ensures cap > 0 && |s.data| == cap && Inv(Effect(s, a, cap), cap) && Run(Effect(s, a, cap), steps, t, cap)
  {
    InvSize(s, cap);
    hide Inv, Enabled, Effect;
    var all := [a] + steps;
    assert all[0] == a && all[1..] == steps;
    StepKeeps(s, a, cap);
  }

  ghost predicate NoPush<T>(steps: seq<Action<T>>) {
    forall k :: 0 <= k < |steps| ==> !steps[k].Push?
  }

  lemma {:induction false} PushingRun<T>(s: State<T>, steps: seq<Action<T>>, t: State<T>, cap: nat, v: T, wait: bool,
                                         base: seq<T>, refused: bool)
    requires Inv(s, cap) && Run(s, steps, t, cap) && NoPush(steps) && Pushing(s, v, wait, base, refused)
    ensures cap > 0 && |s.data| == cap
    ensures Pushing(t, v, wait, base, refused || FoundFull(s, steps, cap))
    decreases |steps|
  {
    InvSize(s, cap);
    hide Inv, Enabled, Effect, Pushing, RefusesFull;
    if steps != [] {
      var next := Effect(s, steps[0], cap);
      StepKeeps(s, steps[0], cap);
      InvSize(next, cap);
      PushingStep(s, steps[0], cap, v, wait, base, refused);
      PushingRun(next, steps[1..], t, cap, v, wait, base, refused || RefusesFull(s, steps[0], cap));
    }
  }

  /** A push that has come back appended its own value, and nothing else was appended meanwhile; unless it was a try
      that found the queue full at its check, and then nothing was appended. A waiting push never comes back so. */
  lemma PushReturns<T>(data: seq<T>, before: seq<Action<T>>, s: State<T>, v: T, wait: bool, steps: seq<Action<T>>,
                       t: State<T>)
    requires CapacityOk(|data|)
    requires Inv(Start(data), |data|) && Run(Start(data), before, s, |data|) && Inv(s, |data|)
    requires s.p.PIdle? && Run(s, [Push(v, wait)] + steps, t, |data|) && NoPush(steps) && t.p.PIdle?
    ensures |data| > 0 && |s.data| == |data| && |Effect(s, Push(v, wait), |data|).data| == |data|
    ensures var full := FoundFull(Effect(s, Push(v, wait), |data|), steps, |data|);
            t.pushed == (if full then s.pushed else s.pushed + [v]) && (wait ==> !full)
  {
    var cap := |data|;
    hide Inv, Enabled, Run;
    InvSize(s, cap);
    RunFirst(s, Push(v, wait), steps, t, cap);
    var called := Effect(s, Push(v, wait), cap);
    InvSize(called, cap);
    assert Pushing(called, v, wait, s.pushed, false);
    hide Effect;
    PushingRun(called, steps, t, cap, v, wait, s.pushed, false);
  }

  // ---- popping ----

  // Whether this step is the check of TryPop made while the queue is empty, or that of a stop already requested.
  ghost predicate RefusesPop<T>(s: State<T>, a: Action<T>) {
    a.StepConsumer? && ((s.c.CCheckTry? && Empty(s)) || (s.c.CCheckStop? && s.stop))
  }

  ghost predicate FoundNothing<T>(s: State<T>, steps: seq<Action<T>>, cap: nat)
    requires cap > 0 && |s.data| == cap
    decreases |steps|
  {
    steps != [] &&
    (RefusesPop(s, steps[0])
     || (|Effect(s, steps[0], cap).data| == cap && FoundNothing(Effect(s, steps[0], cap), steps[1..], cap)))
  }

  ghost predicate OneMore<T>(popped: seq<T>, base: seq<T>) {
    |popped| == |base| + 1 && base <= popped
  }

  // Where a call of Pop in this mode stands that found these values popped.
  ghost predicate Popping<T>(s: State<T>, mode: PopMode, base: seq<T>, refused: bool) {
    match s.c
    case CIdle => if refused then !mode.Wait? && s.popped == base else OneMore(s.popped, base)
    case CCheckTry => mode.Try? && !refused && s.popped == base
    case CLock(stops) => !mode.Try? && stops == mode.WaitWithStopToken? && !refused && s.popped == base
    case CCheck(stops) => !mode.Try? && stops == mode.WaitWithStopToken? && !refused && s.popped == base
    case CToSleep(stops) => !mode.Try? && stops == mode.WaitWithStopToken? && !refused && s.popped == base
    case CAsleep(stops) => !mode.Try? && stops == mode.WaitWithStopToken? && !refused && s.popped == base
    case CWake(stops) => !mode.Try? && stops == mode.WaitWithStopToken? && !refused && s.popped == base
    case CCheckStop => mode.WaitWithStopToken? && !refused && s.popped == base
    case CUnlock => !mode.Try? && !refused && s.popped == base
    case CRead => !refused && s.popped == base
    case CInc(_) => !refused && s.popped == base
    case CLockNotify => !refused && OneMore(s.popped, base)
    case CNotify => !refused && OneMore(s.popped, base)
    case CUnlockNotify => !refused && OneMore(s.popped, base)
  }

  lemma PoppingStep<T>(s: State<T>, a: Action<T>, cap: nat, mode: PopMode, base: seq<T>, refused: bool)
    requires Inv(s, cap) && Enabled(s, a) && !a.Pop? && Popping(s, mode, base, refused)
    ensures Popping(Effect(s, a, cap), mode, base, refused || RefusesPop(s, a))
  {
    UsedIs(s, cap);
    hide Used, Stored, CapacityOk;
  }

  ghost predicate NoPop<T>(steps: seq<Action<T>>) {
    forall k :: 0 <= k < |steps| ==> !steps[k].Pop?
  }

  lemma {:induction false} PoppingRun<T>(s: State<T>, steps: seq<Action<T>>, t: State<T>, cap: nat, mode: PopMode,
                                         base: seq<T>, refused: bool)
    requires Inv(s, cap) && Run(s, steps, t, cap) && NoPop(steps) && Popping(s, mode, base, refused)
    ensures cap > 0 && |s.data| == cap
    ensures Popping(t, mode, base, refused || FoundNothing(s, steps, cap))
    decreases |steps|
  {
    InvSize(s, cap);
    hide Inv, Enabled, Effect, Popping, RefusesPop;
    if steps != [] {
      var next := Effect(s, steps[0], cap);
      StepKeeps(s, steps[0], cap);
      InvSize(next, cap);
      PoppingStep(s, steps[0], cap, mode, base, refused);
      PoppingRun(next, steps[1..], t, cap, mode, base, refused || RefusesPop(s, steps[0]));
    }
  }

  /** A pop that has come back took exactly the oldest value that was left, unless it was a try that found the queue empty
      or a wait whose stop was requested; then it took none. A plain wait never comes back so. */
  lemma PopReturns<T>(data: seq<T>, before: seq<Action<T>>, s: State<T>, mode: PopMode, steps: seq<Action<T>>,
                      t: State<T>)
    requires CapacityOk(|data|)
    requires Inv(Start(data), |data|) && Run(Start(data), before, s, |data|) && Inv(s, |data|)
    requires s.c.CIdle? && Run(s, [Pop(mode)] + steps, t, |data|) && NoPop(steps) && t.c.CIdle?
    ensures |data| > 0 && |s.data| == |data| && |Effect(s, Pop(mode), |data|).data| == |data|
    ensures var nothing := FoundNothing(Effect(s, Pop(mode), |data|), steps, |data|);
            && (nothing ==> !mode.Wait? && t.popped == s.popped)
            && (!nothing ==> |s.popped| < |t.pushed| && t.popped == s.popped + [t.pushed[|s.popped|]])
  {
    var cap := |data|;
    hide Inv, Effect, Enabled, Run, Popping, OneMore;
    InvSize(s, cap);
    RunFirst(s, Pop(mode), steps, t, cap);
    var called := Effect(s, Pop(mode), cap);
    InvSize(called, cap);
    PopStarts(s, mode, cap);
    RunKeeps(called, steps, t, cap);
    PoppingRun(called, steps, t, cap, mode, s.popped, false);
    PopEnds(t, mode, s.popped, FoundNothing(called, steps, cap), cap);
  }

  lemma PopStarts<T>(s: State<T>, mode: PopMode, cap: nat)
    requires Inv(s, cap) && s.c.CIdle?
    ensures Popping(Effect(s, Pop(mode), cap), mode, s.popped, false)
  {
    hide Inv;
    InvSize(s, cap);
  }

  lemma PopEnds<T>(t: State<T>, mode: PopMode, base: seq<T>, nothing: bool, cap: nat)
    requires Inv(t, cap) && t.c.CIdle? && Popping(t, mode, base, nothing)
    ensures nothing ==> !mode.Wait? && t.popped == base
    ensures !nothing ==> |base| < |t.pushed| && t.popped == base + [t.pushed[|base|]]
  {
    hide Stored, Placed, WakesComing, Exclusive, CapacityOk;
  }

  // ---- whole runs ----

  // The values handed to calls so far, less those that a try was refused with because the queue was full.
  ghost function HandedOver<T>(handed: seq<T>, s: State<T>, a: Action<T>, cap: nat): seq<T> {
    if a.Push? then handed + [a.v]
    else if RefusesFull(s, a, cap) && handed != [] then handed[..|handed| - 1]
    else handed
  }

  ghost function Handed<T>(handed: seq<T>, s: State<T>, steps: seq<Action<T>>, cap: nat): seq<T>
    requires cap > 0 && |s.data| == cap
    decreases |steps|
  {
    if steps == [] then handed
    else
      var next := Effect(s, steps[0], cap);
      if |next.data| != cap then handed
      else Handed(HandedOver(handed, s, steps[0], cap), next, steps[1..], cap)
  }

  // The value of the running call, until it is pushed.
  function InFlight<T>(p: Producer<T>): seq<T> {
    match p
    case PIdle => []
    case PLockNotify => []
    case PNotify => []
    case PUnlockNotify => []
    case _ => [p.v]
  }

  lemma HandedStep<T>(s: State<T>, a: Action<T>, cap: nat)
    requires Inv(s, cap) && Enabled(s, a)
    ensures var t := Effect(s, a, cap);
            t.pushed + InFlight(t.p) == HandedOver(s.pushed + InFlight(s.p), s, a, cap)
  {
    if a.StepProducer? {
      HandedProducer(s, cap);
    } else {
      hide Inv, ConsumerStep, ProducerStep;
      InvSize(s, cap);
      HandedOther(s, a, cap);
    }
  }

  lemma HandedProducer<T>(s: State<T>, cap: nat)
    requires Inv(s, cap) && Enabled(s, StepProducer)
    ensures var t := ProducerStep(s, cap);
            t.pushed + InFlight(t.p) == HandedOver(s.pushed + InFlight(s.p), s, StepProducer, cap)
  {
    UsedIs(s, cap);
    hide Used, Inv, Enabled;
    if s.p.PCheckTry? {
      assert s.pushed + [s.p.v] != [] && (s.pushed + [s.p.v])[..|s.pushed|] == s.pushed;
    } else if s.p.PInc? {
      assert s.pushed + [s.p.v] + [] == s.pushed + [s.p.v];
    }
  }

  lemma HandedOther<T>(s: State<T>, a: Action<T>, cap: nat)
    requires cap > 0 && |s.data| == cap && Enabled(s, a) && !a.StepProducer?
    ensures var t := Effect(s, a, cap);
            t.pushed + InFlight(t.p) == HandedOver(s.pushed + InFlight(s.p), s, a, cap)
  {
    if a.Push? {
      assert s.pushed + [] == s.pushed;
    }
  }

  lemma {:induction false} HandedRun<T>(s: State<T>, steps: seq<Action<T>>, t: State<T>, cap: nat)
    requires Inv(s, cap) && Run(s, steps, t, cap)
    ensures cap > 0 && |s.data| == cap
    ensures t.pushed + InFlight(t.p) == Handed(s.pushed + InFlight(s.p), s, steps, cap)
    decreases |steps|
  {
    InvSize(s, cap);
    hide Inv, Enabled, Effect, InFlight, HandedOver;
    if steps != [] {
      var next := Effect(s, steps[0], cap);
      StepKeeps(s, steps[0], cap);
      InvSize(next, cap);
      HandedStep(s, steps[0], cap);
      HandedRun(next, steps[1..], t, cap);
    }
  }

  /** Nothing is lost on the way in: at every moment of every run the pushed values and the one in flight are those that
      were handed to calls, in order, but for the tries that found the queue full. */
  lemma NothingLost<T>(data: seq<T>, steps: seq<Action<T>>, s: State<T>)
    requires CapacityOk(|data|)
    requires Inv(Start(data), |data|) && Run(Start(data), steps, s, |data|)
    ensures s.pushed + InFlight(s.p) == Handed([], Start(data), steps, |data|)
  {
    HandedRun(Start(data), steps, s, |data|);
    assert Start(data).pushed + InFlight(Start(data).p) == [];
  }
}
