/** LockRange, TryLockRange and RangeLockGuard as a machine: any number of threads lock ranges of mutexes, each
    range in an order of its own, one mutex operation at a time. */
module RangeLock {
  import opened CanonicalCode
  import opened Sequences

  // ---- TryLockRange without interference ----

  class Mutexes {
    var locked: array<bool>

    constructor (n: nat)
      ensures fresh(locked) && locked.Length == n && forall i :: 0 <= i < n ==> !locked[i]
    {
      locked := new bool[n](_ => false);
    }

    /** The recursion of TryLockRange over the mutexes from begin to end: all of them are taken, or none and the
        result names the first that was already held. */
    method TryLockRange(begin: nat, end: nat) returns (failed: nat)
      requires begin <= end <= locked.Length
      modifies locked
      ensures begin <= failed <= end
      ensures forall i :: begin <= i < failed ==> !old(locked[i])
      ensures failed < end ==> old(locked[failed]) && locked[..] == old(locked[..])
      ensures failed == end ==> forall i :: 0 <= i < locked.Length ==> locked[i] == (begin <= i < end || old(locked[i]))
      decreases end - begin
    {
      if begin == end {
        return end;
      }
      if locked[begin] {
        return begin;
      }
      ghost var was := locked[..];
      locked[begin] := true;
      ghost var taken := locked[..];
      assert forall i :: begin + 1 <= i < locked.Length ==> locked[i] == was[i];
      label Taken:
      failed := TryLockRange(begin + 1, end);
      assert forall i :: begin + 1 <= i < failed ==> !old@Taken(locked[i]) && old@Taken(locked[i]) == was[i];
      if failed != end {
        assert locked[..] == taken == was[begin := true];
        locked[begin] := false;
        assert locked[..] == was;
      }
    }
  }

  // ---- one thread ----

  // What a guard's destructor is followed by: another try from the lock that failed, with the first lock to be
  // released as well, or a fresh start that blocks on the first lock.
  datatype After = Retry(failed: nat) | Restart

  /** Positions are indices into the thread's range; b is the first position of the innermost LockRange call. */
  datatype Pc =
    | Idle
    | Lock(b: nat)
    | Upper(b: nat, next: nat, i: nat)
    | UpperBack(b: nat, next: nat, i: nat, failed: nat)
    | BeginBack(b: nat, failed: nat)
    | TryBegin(b: nat, next: nat)
    | Lower(b: nat, next: nat, i: nat)
    | LowerBack(b: nat, next: nat, i: nat, failed: nat)
    | GuardBack(b: nat, j: nat, after: After)
    | Holding
    | Releasing(j: nat)

  // An outer LockRange(b, end) whose guard is constructing LockRange(next, end).
  datatype Frame = Frame(b: nat, next: nat)

  datatype Thread = Thread(range: seq<nat>, pc: Pc, stack: seq<Frame>)

  // What a thread does next: wait for a lock, try it, release it, or only move on.
  datatype Intent = Waits(p: nat) | Tries(p: nat) | Drops(p: nat) | Moves | Rests

  function IntentOf(t: Thread): Intent {
    var n := |t.range|;
    match t.pc
    case Idle => Rests
    case Lock(b) => Waits(b)
    case Upper(b, next, i) => if i < n then Tries(i) else Moves
    case UpperBack(b, next, i, failed) => if next < i then Drops(i - 1) else Moves
    case BeginBack(b, failed) => Drops(b)
    case TryBegin(b, next) => Tries(b)
    case Lower(b, next, i) => if i < next then Tries(i) else Moves
    case LowerBack(b, next, i, failed) => if b + 1 < i then Drops(i - 1) else Moves
    case GuardBack(b, j, after) => if j < n then Drops(j) else Moves
    case Holding => Rests
    case Releasing(j) => if j < n then Drops(j) else Moves
  }

  // The innermost call returns holding its whole range; an outer guard is then constructed.
  function Return(t: Thread): Thread {
    if t.stack == [] then t.(pc := Holding)
    else
      var f := t.stack[|t.stack| - 1];
      t.(pc := TryBegin(f.b, f.next), stack := t.stack[..|t.stack| - 1])
  }

  // The guard of the call at b starts LockRange(failed, end).
  function Guard(t: Thread, b: nat, failed: nat): Thread {
    t.(pc := Lock(failed), stack := t.stack + [Frame(b, failed)])
  }

  // Where the thread goes after its intent; ok tells whether a try succeeded.
  function Next(t: Thread, ok: bool): Thread {
    var n := |t.range|;
    match t.pc
    case Idle => t
    case Lock(b) => t.(pc := Upper(b, b + 1, b + 1))
    case Upper(b, next, i) =>
      if i >= n then Return(t)
      else if ok then t.(pc := Upper(b, next, i + 1))
      else t.(pc := UpperBack(b, next, i, i))
    case UpperBack(b, next, i, failed) =>
      if next < i then t.(pc := UpperBack(b, next, i - 1, failed)) else t.(pc := BeginBack(b, failed))
    case BeginBack(b, failed) => Guard(t, b, failed)
    case TryBegin(b, next) => if ok then t.(pc := Lower(b, next, b + 1)) else t.(pc := GuardBack(b, next, Restart))
    case Lower(b, next, i) =>
      if i >= next then Return(t)
      else if ok then t.(pc := Lower(b, next, i + 1))
      else t.(pc := LowerBack(b, next, i, i))
    case LowerBack(b, next, i, failed) =>
      if b + 1 < i then t.(pc := LowerBack(b, next, i - 1, failed)) else t.(pc := GuardBack(b, next, Retry(failed)))
    case GuardBack(b, j, after) =>
      if j < n then t.(pc := GuardBack(b, j + 1, after))
      else (match after
            case Retry(failed) => t.(pc := BeginBack(b, failed))
            case Restart => t.(pc := Lock(b)))
    case Holding => t
    case Releasing(j) => if j < n then t.(pc := Releasing(j + 1)) else t.(pc := Idle)
  }

  // The positions a thread holds at each point.
  predicate HeldAt(t: Thread, q: nat) {
    q < |t.range|
    && match t.pc
       case Idle => false
       case Lock(b) => false
       case Upper(b, next, i) => q == b || next <= q < i
       case UpperBack(b, next, i, failed) => q == b || next <= q < i
       case BeginBack(b, failed) => q == b
       case TryBegin(b, next) => next <= q
       case Lower(b, next, i) => b <= q < i || next <= q
       case LowerBack(b, next, i, failed) => b <= q < i || next <= q
       case GuardBack(b, j, after) => j <= q || (after.Retry? && q == b)
       case Holding => true
       case Releasing(j) => j <= q
  }

  predicate StackOk(stack: seq<Frame>, top: nat)
    decreases |stack|
  {
    if stack == [] then top == 0
    else
      var f := stack[|stack| - 1];
      f.b < f.next == top && StackOk(stack[..|stack| - 1], f.b)
  }

  predicate PcOk(t: Thread) {
    var n := |t.range|;
    match t.pc
    case Idle => t.stack == []
    case Lock(b) => b < n && StackOk(t.stack, b)
    case Upper(b, next, i) => b < next <= i <= n && next == b + 1 && StackOk(t.stack, b)
    case UpperBack(b, next, i, failed) => b < next <= i <= failed < n && StackOk(t.stack, b)
    case BeginBack(b, failed) => b < failed < n && StackOk(t.stack, b)
    case TryBegin(b, next) => b < next < n && StackOk(t.stack, b)
    case Lower(b, next, i) => b < i <= next < n && StackOk(t.stack, b)
    case LowerBack(b, next, i, failed) => b < i <= failed < next < n && StackOk(t.stack, b)
    case GuardBack(b, j, after) =>
      b < j <= n && (after.Retry? ==> b < after.failed < n) && StackOk(t.stack, b)
    case Holding => t.stack == []
    case Releasing(j) => j <= n && t.stack == []
  }

  predicate ThreadOk(t: Thread) {
    PcOk(t) && Distinct(t.range)
  }

  // The held positions change by exactly the lock of the intent.
  lemma NextHeld(t: Thread, ok: bool, q: nat)
    requires ThreadOk(t) && q < |t.range|
    ensures Next(t, ok).range == t.range
    ensures var was, now := HeldAt(t, q), HeldAt(Next(t, ok), q);
            match IntentOf(t)
            case Waits(p) => (q == p ==> !was) && (now <==> was || q == p)
            case Tries(p) => (q == p ==> !was) && (now <==> was || (ok && q == p))
            case Drops(p) => (q == p ==> was) && (now <==> was && q != p)
            case Moves => now <==> was
            case Rests => now <==> was
  {
    hide Distinct, StackOk;
    FrameBelow(t);
  }

  // The frame on top of the stack belongs to a call that waits for a guard starting where this call starts.
  lemma FrameBelow(t: Thread)
    requires ThreadOk(t)
    ensures t.stack != [] ==> t.stack[|t.stack| - 1].b < t.stack[|t.stack| - 1].next
    ensures !t.pc.Idle? && !t.pc.Holding? && !t.pc.Releasing? ==>
              t.pc.b == if t.stack == [] then 0 else t.stack[|t.stack| - 1].next
  {
  }

  lemma Pushed(stack: seq<Frame>, b: nat, next: nat)
    requires b < next && StackOk(stack, b)
    ensures StackOk(stack + [Frame(b, next)], next)
  {
    assert (stack + [Frame(b, next)])[..|stack|] == stack;
  }

  lemma Popped(stack: seq<Frame>, top: nat)
    requires StackOk(stack, top)
    ensures if stack == [] then top == 0
            else var f := stack[|stack| - 1]; f.b < f.next == top && StackOk(stack[..|stack| - 1], f.b)
  {
  }

  lemma NextOk(t: Thread, ok: bool)
    requires ThreadOk(t)
    ensures ThreadOk(Next(t, ok)) && Next(t, ok).range == t.range
    ensures match IntentOf(t)
            case Waits(p) => p < |t.range|
            case Tries(p) => p < |t.range|
            case Drops(p) => p < |t.range|
            case Moves => true
            case Rests => true
  {
    hide Distinct, StackOk;
    match t.pc
    case BeginBack(b, failed) => Pushed(t.stack, b, failed);
    case Upper(b, next, i) => Popped(t.stack, b);
    case Lower(b, next, i) => Popped(t.stack, b);
    case _ =>
  }

  // ---- all threads ----

  datatype State = State(owners: seq<Option<nat>>, threads: map<nat, Thread>)

  datatype Action = Call(t: nat, range: seq<nat>) | Step(t: nat) | Unlock(t: nat)

  predicate Enabled(s: State, a: Action) {
    match a
    case Call(t, range) =>
      && (t in s.threads ==> s.threads[t].pc.Idle?)
      && Distinct(range) && forall i :: 0 <= i < |range| ==> range[i] < |s.owners|
    case Step(t) =>
      && t in s.threads && !IntentOf(s.threads[t]).Rests?
      && (IntentOf(s.threads[t]).Waits? ==> !Blocked(s, t))
    case Unlock(t) => t in s.threads && s.threads[t].pc.Holding?
  }

  // The thread waits for a lock that is taken.
  predicate Blocked(s: State, t: nat) {
    && t in s.threads && s.threads[t].pc.Lock? && s.threads[t].pc.b < |s.threads[t].range|
    && s.threads[t].range[s.threads[t].pc.b] < |s.owners|
    && s.owners[s.threads[t].range[s.threads[t].pc.b]].Some?
  }

  predicate InRange(s: State, th: Thread) {
    forall i :: 0 <= i < |th.range| ==> th.range[i] < |s.owners|
  }

  predicate Has(th: Thread, l: nat) {
    exists q :: 0 <= q < |th.range| && th.range[q] == l && HeldAt(th, q)
  }

  /** A mutex is owned by a thread exactly when the thread's program point says it holds it. */
  predicate Inv(s: State) {
    && (forall t :: t in s.threads ==> ThreadOk(s.threads[t]) && InRange(s, s.threads[t]))
    && (forall t, l :: t in s.threads && 0 <= l < |s.owners| ==> (s.owners[l] == Some(t) <==> Has(s.threads[t], l)))
    && (forall l :: 0 <= l < |s.owners| && s.owners[l].Some? ==> s.owners[l].value in s.threads)
  }

  // Carrying out the thread's intent on the mutexes.
  function Owners(s: State, t: nat, ok: bool): seq<Option<nat>>
    requires Inv(s) && t in s.threads
  {
    var th := s.threads[t];
    NextOk(th, ok);
    match IntentOf(th)
    case Waits(p) => s.owners[th.range[p] := Some(t)]
    case Tries(p) => if ok then s.owners[th.range[p] := Some(t)] else s.owners
    case Drops(p) => s.owners[th.range[p] := None]
    case Moves => s.owners
    case Rests => s.owners
  }

  predicate TrySucceeds(s: State, t: nat)
    requires Inv(s) && t in s.threads
  {
    var th := s.threads[t];
    NextOk(th, true);
    IntentOf(th).Tries? && s.owners[th.range[IntentOf(th).p]].None?
  }

  function Effect(s: State, a: Action): State
    requires Inv(s) && Enabled(s, a)
  {
    match a
    case Call(t, range) =>
      s.(threads := s.threads[t := Thread(range, if range == [] then Holding else Lock(0), [])])
    case Step(t) =>
      var ok := TrySucceeds(s, t);
      State(Owners(s, t, ok), s.threads[t := Next(s.threads[t], ok)])
    case Unlock(t) => s.(threads := s.threads[t := s.threads[t].(pc := Releasing(0))])
  }

  // ---- the invariant ----

  lemma HasAfter(s: State, t: nat, l: nat)
    requires Inv(s) && t in s.threads && l < |s.owners|
    requires IntentOf(s.threads[t]).Waits? ==> !Blocked(s, t)
    ensures var ok := TrySucceeds(s, t);
            |Owners(s, t, ok)| == |s.owners|
            && (Owners(s, t, ok)[l] == Some(t) <==> Has(Next(s.threads[t], ok), l))
            && (forall u :: u != t ==> (Owners(s, t, ok)[l] == Some(u) <==> s.owners[l] == Some(u)))
  {
    var th := s.threads[t];
    var ok := TrySucceeds(s, t);
    NextOk(th, ok);
    HasMoves(th, ok, l);
    assert s.owners[l] == Some(t) <==> Has(th, l);
    hide Inv, HeldAt, Next, ThreadOk;
  }

  // What a thread holds after a step, lock by lock.
  lemma HasMoves(th: Thread, ok: bool, l: nat)
    requires ThreadOk(th)
    ensures match IntentOf(th)
            case Waits(p) =>
              p < |th.range| && (Has(Next(th, ok), l) <==> Has(th, l) || th.range[p] == l) && !Has(th, th.range[p])
            case Tries(p) =>
              p < |th.range| && (Has(Next(th, ok), l) <==> Has(th, l) || (ok && th.range[p] == l)) && !Has(th, th.range[p])
            case Drops(p) =>
              p < |th.range| && (Has(Next(th, ok), l) <==> Has(th, l) && th.range[p] != l) && Has(th, th.range[p])
            case Moves => Has(Next(th, ok), l) <==> Has(th, l)
            case Rests => Has(Next(th, ok), l) <==> Has(th, l)
  {
    NextOk(th, ok);
    forall q | 0 <= q < |th.range|
      ensures var was, now := HeldAt(th, q), HeldAt(Next(th, ok), q);
              match IntentOf(th)
              case Waits(p) => (q == p ==> !was) && (now <==> was || q == p)
              case Tries(p) => (q == p ==> !was) && (now <==> was || (ok && q == p))
              case Drops(p) => (q == p ==> was) && (now <==> was && q != p)
              case Moves => now <==> was
              case Rests => now <==> was
    {
      NextHeld(th, ok, q);
    }
    hide HeldAt, Next, PcOk, IntentOf;
  }

  lemma StepKeeps(s: State, a: Action)
    requires Inv(s) && Enabled(s, a)
    ensures Inv(Effect(s, a))
  {
    var t := Effect(s, a);
    match a
    case Call(u, range) =>
      CallKeeps(s, u, range);
    case Step(u) =>
      MoveKeeps(s, u);
    case Unlock(u) =>
      UnlockKeeps(s, u);
  }

  lemma CallKeeps(s: State, u: nat, range: seq<nat>)
    requires Inv(s) && Enabled(s, Call(u, range))
    ensures Inv(Effect(s, Call(u, range)))
  {
    hide IntentOf, Next;
    var t := Effect(s, Call(u, range));
    forall l | 0 <= l < |s.owners|
      ensures s.owners[l] != Some(u) && !Has(t.threads[u], l)
    {
      if u in s.threads {
        assert s.owners[l] == Some(u) <==> Has(s.threads[u], l);
      }
    }
  }

  lemma UnlockKeeps(s: State, u: nat)
    requires Inv(s) && Enabled(s, Unlock(u))
    ensures Inv(Effect(s, Unlock(u)))
  {
    hide IntentOf, Next, Distinct;
    var t := Effect(s, Unlock(u));
    forall q
      ensures HeldAt(t.threads[u], q) == HeldAt(s.threads[u], q)
    {
    }
    forall l | 0 <= l < |s.owners|
      ensures Has(t.threads[u], l) == Has(s.threads[u], l)
    {
      SameHas(s.threads[u], t.threads[u], l);
    }
  }

  lemma SameHas(a: Thread, b: Thread, l: nat)
    requires a.range == b.range && forall q :: HeldAt(a, q) == HeldAt(b, q)
    ensures Has(a, l) == Has(b, l)
  {
    hide HeldAt;
  }

  lemma MoveKeeps(s: State, u: nat)
    requires Inv(s) && Enabled(s, Step(u))
    ensures Inv(Effect(s, Step(u)))
  {
    var ok := TrySucceeds(s, u);
    NextOk(s.threads[u], ok);
    hide IntentOf, Next, HeldAt, ThreadOk, Owners, Has, Blocked;
    var t := Effect(s, Step(u));
    forall l | 0 <= l < |s.owners|
      ensures |t.owners| == |s.owners|
      ensures t.owners[l] == Some(u) <==> Has(t.threads[u], l)
      ensures forall v :: v != u ==> (t.owners[l] == Some(v) <==> s.owners[l] == Some(v))
    {
      HasAfter(s, u, l);
    }
    OwnersLength(s, u, ok);
  }

  lemma OwnersLength(s: State, t: nat, ok: bool)
    requires Inv(s) && t in s.threads
    ensures |Owners(s, t, ok)| == |s.owners|
  {
    NextOk(s.threads[t], ok);
    hide HeldAt, Has, IntentOf, Next, ThreadOk;
  }

  ghost predicate Run(s: State, steps: seq<Action>, t: State)
    requires Inv(s)
    decreases |steps|
  {
    if steps == [] then s == t
    else Enabled(s, steps[0]) && (StepKeeps(s, steps[0]); Run(Effect(s, steps[0]), steps[1..], t))
  }

  function Start(n: nat): State {
    State(seq(n, _ => None), map[])
  }

  lemma StartInv(n: nat)
    ensures Inv(Start(n))
  {
  }

  lemma {:induction false} RunKeeps(s: State, steps: seq<Action>, t: State)
    requires Inv(s) && Run(s, steps, t)
    ensures Inv(t)
    decreases |steps|
  {
    hide Inv, Enabled, Effect;
    if steps == [] {
    } else {
      StepKeeps(s, steps[0]);
      RunKeeps(Effect(s, steps[0]), steps[1..], t);
    }
  }

  // ---- what a run guarantees ----

  predicate Within(l: nat, range: seq<nat>) {
    exists i :: 0 <= i < |range| && range[i] == l
  }

  /** In every run: a thread that returned from LockRange owns exactly the locks of its range, and a thread that
      has not called it, or is done unlocking, owns none. */
  lemma ReturnHoldsRange(n: nat, steps: seq<Action>, s: State, t: nat, l: nat)
    requires Inv(Start(n)) && Run(Start(n), steps, s) && t in s.threads && l < |s.owners|
    ensures s.threads[t].pc.Holding? ==> (s.owners[l] == Some(t) <==> Within(l, s.threads[t].range))
    ensures s.threads[t].pc.Idle? ==> s.owners[l] != Some(t)
    ensures s.owners[l] == Some(t) ==> Within(l, s.threads[t].range)
  {
    RunKeeps(Start(n), steps, s);
    hide Run, Distinct, PcOk;
    assert s.owners[l] == Some(t) <==> Has(s.threads[t], l);
    if s.threads[t].pc.Holding? && Within(l, s.threads[t].range) {
      var i :| 0 <= i < |s.threads[t].range| && s.threads[t].range[i] == l;
      assert HeldAt(s.threads[t], i);
    }
  }

  predicate Inside(t: Thread) {
    !t.pc.Idle? && !t.pc.Holding? && !t.pc.Releasing?
  }

  // A call goes on or returns with its range; it never gives up.
  lemma NextInside(t: Thread, ok: bool)
    requires Inside(t)
    ensures Inside(Next(t, ok)) || Next(t, ok).pc.Holding?
    ensures Next(t, ok).range == t.range
  {
  }

  // What happened to a thread that was inside LockRange and has not unlocked since.
  ghost predicate StillAtIt(s: State, t: nat, range: seq<nat>) {
    t in s.threads && s.threads[t].range == range && (Inside(s.threads[t]) || s.threads[t].pc.Holding?)
  }

  lemma StepStaysAtIt(s: State, a: Action, t: nat, range: seq<nat>)
    requires Inv(s) && Enabled(s, a) && a != Unlock(t) && StillAtIt(s, t, range)
    ensures StillAtIt(Effect(s, a), t, range)
  {
    if a == Step(t) {
      assert Inside(s.threads[t]);
      NextInside(s.threads[t], TrySucceeds(s, t));
    }
    hide Next, Owners, Inv;
  }

  /** LockRange returns in one way only: whatever the other threads do, a thread that entered it is still inside or holds
      the whole of the range it was called with, until it unlocks that range itself. */
  lemma {:induction false} CallEndsHolding(s: State, steps: seq<Action>, s': State, t: nat)
    requires Inv(s) && Run(s, steps, s')
    requires t in s.threads && (Inside(s.threads[t]) || s.threads[t].pc.Holding?)
    requires forall k :: 0 <= k < |steps| ==> steps[k] != Unlock(t)
    ensures StillAtIt(s', t, s.threads[t].range)
    decreases |steps|
  {
    hide Inv, Enabled, Effect;
    if steps != [] {
      StepKeeps(s, steps[0]);
      StepStaysAtIt(s, steps[0], t, s.threads[t].range);
      CallEndsHolding(Effect(s, steps[0]), steps[1..], s', t);
    }
  }

  /** A thread that waits for a lock owns none, so whoever owns that lock is not waiting itself: no circular wait,
      whatever the ranges and their orders. */
  lemma NoCircularWait(n: nat, steps: seq<Action>, s: State, t: nat)
    requires Inv(Start(n)) && Run(Start(n), steps, s) && Blocked(s, t)
    ensures forall l :: 0 <= l < |s.owners| ==> s.owners[l] != Some(t)
    ensures var owner := s.owners[s.threads[t].range[s.threads[t].pc.b]].value;
            owner != t && owner in s.threads && !Blocked(s, owner)
  {
    RunKeeps(Start(n), steps, s);
    hide Run, Distinct, PcOk;
    BlockedHasNone(s, t);
    var l := s.threads[t].range[s.threads[t].pc.b];
    var owner := s.owners[l].value;
    if Blocked(s, owner) {
      BlockedHasNone(s, owner);
    }
  }

  lemma BlockedHasNone(s: State, t: nat)
    requires Inv(s) && Blocked(s, t)
    ensures forall l :: 0 <= l < |s.owners| ==> s.owners[l] != Some(t)
  {
    hide Distinct, PcOk;
    forall l | 0 <= l < |s.owners|
      ensures s.owners[l] != Some(t)
    {
      assert s.owners[l] == Some(t) <==> Has(s.threads[t], l);
    }
  }

  /** While some thread is inside LockRange, some thread can step or is using locks it was granted: the protocol
      itself never stops everyone. */
  lemma SomeoneMoves(n: nat, steps: seq<Action>, s: State, t: nat)
    requires Inv(Start(n)) && Run(Start(n), steps, s)
    requires t in s.threads && !IntentOf(s.threads[t]).Rests?
    ensures exists u :: u in s.threads && (Enabled(s, Step(u)) || s.threads[u].pc.Holding?)
  {
    RunKeeps(Start(n), steps, s);
    if Blocked(s, t) {
      NoCircularWait(n, steps, s, t);
      var owner := s.owners[s.threads[t].range[s.threads[t].pc.b]].value;
      OwnerMoves(s, owner, s.threads[t].range[s.threads[t].pc.b]);
    } else {
      assert Enabled(s, Step(t));
    }
  }

  lemma OwnerMoves(s: State, owner: nat, l: nat)
    requires Inv(s) && owner in s.threads && l < |s.owners| && s.owners[l] == Some(owner) && !Blocked(s, owner)
    ensures Enabled(s, Step(owner)) || s.threads[owner].pc.Holding?
  {
    assert Has(s.threads[owner], l);
  }

  /** A failed try of TryLockRange names a lock that another thread owns at that moment; when the call has undone
      its own locks, the thread holds none of the range it tried. */
  lemma FailedTryNamesOwner(s: State, t: nat)
    requires Inv(s) && t in s.threads && IntentOf(s.threads[t]).Tries? && !TrySucceeds(s, t)
    ensures var p := IntentOf(s.threads[t]).p;
            p < |s.threads[t].range| && s.threads[t].range[p] < |s.owners|
            && s.owners[s.threads[t].range[p]].Some? && s.owners[s.threads[t].range[p]] != Some(t)
  {
    var th := s.threads[t];
    NextOk(th, false);
    HasMoves(th, false, th.range[IntentOf(th).p]);
    hide HeldAt, Next, PcOk, Distinct;
  }
}
