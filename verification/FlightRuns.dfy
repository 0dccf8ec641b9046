/** Whole runs of the flight recorder: every snapshot shows complete records only, counters grow, a crash stays
    visible, and calls made in order leave the last records of the ring in place. */
module FlightRuns {
  import opened Bits
  import opened FlightRecord
  import opened LittleEndian
  import opened FlightRecorder
  import opened Arithmetic

  ghost predicate Run(s: State, steps: seq<Action>, t: State)
    requires Inv(s)
    decreases |steps|
  {
    if steps == [] then s == t
    else Enabled(s, steps[0]) && (StepKeeps(s, steps[0]); Run(Effect(s, steps[0]), steps[1..], t))
  }

  lemma {:induction false} RunKeeps(s: State, steps: seq<Action>, t: State)
    requires Inv(s) && Run(s, steps, t)
    ensures Inv(t)
    decreases |steps|
  {
    hide Inv, Effect, Enabled;
    if steps == [] {
    } else {
      StepKeeps(s, steps[0]);
      RunKeeps(Effect(s, steps[0]), steps[1..], t);
    }
  }

  predicate Began(steps: seq<Action>, e: Event) {
    exists k :: 0 <= k < |steps| && steps[k].Begin? && steps[k].event == e
  }

  lemma {:induction false} HistoryBegan(s: State, steps: seq<Action>, t: State, e: Event)
    requires Inv(s) && Run(s, steps, t) && e in t.history
    ensures e in s.history || Began(steps, e)
    decreases |steps|
  {
    hide Inv, Enabled, AdvanceSlot, AdvanceMax, AdvanceCrashing;
    if steps == [] {
    } else {
      var a := steps[0];
      StepKeeps(s, a);
      HistoryStep(s, a);
      HistoryBegan(Effect(s, a), steps[1..], t, e);
      if Began(steps[1..], e) {
        var k :| 0 <= k < |steps[1..]| && steps[1..][k].Begin? && steps[1..][k].event == e;
        assert steps[k + 1].Begin? && steps[k + 1].event == e;
      } else {
        assert e in s.history || (steps[0].Begin? && steps[0].event == e);
      }
    }
  }

  lemma HistoryStep(s: State, a: Action)
    requires Inv(s) && Enabled(s, a)
    ensures Effect(s, a).history == if a.Begin? then s.history + {a.event} else s.history
  {
    hide Inv, Image, Stores, SlotOf, Power256;
  }

  /** At every point of every run, a committed sequence stands before the complete image of an event that some
      call of the run recorded under it. */
  lemma Snapshot(capacity: nat, steps: seq<Action>, t: State, i: nat)
    requires capacity > 0
    requires Inv(Opened(capacity)) && Run(Opened(capacity), steps, t)
    requires i < |t.slots| && t.slots[i].committed != 0
    ensures exists e :: Began(steps, e) && e.sequence == t.slots[i].committed && t.slots[i].body == Image(e)
  {
    hide Image, Run, Power256;
    RunKeeps(Opened(capacity), steps, t);
    var e := t.slots[i].owner;
    assert SlotGood(t.slots[i], t.history);
    HistoryBegan(Opened(capacity), steps, t, e);
  }

  // ---- the header ----

  predicate Grown(h: Header, k: Header) {
    && h.write <= k.write && h.committed <= k.committed && h.dropped == k.dropped
    && (h.producer == Crashed ==> k.producer == Crashed)
    && (h.producer != Active ==> k.producer != Active)
  }

  lemma StepGrows(s: State, a: Action)
    requires Inv(s) && Enabled(s, a)
    ensures Grown(s.header, Effect(s, a).header)
  {
    hide Image, Stores, SlotOf, Power256, Apply;
    if a.Advance? {
      assert WriterGood(s, s.writers[a.w]);
    }
  }

  /** One step marks the producer crashed only as the end of a crash report, and clean only while it is active. */
  lemma ProducerChanges(s: State, a: Action)
    requires Inv(s) && Enabled(s, a)
    ensures var was, now := s.header.producer, Effect(s, a).header.producer;
            var reported := a.AdvanceCrash? && s.crashing.done == CRASH_WORDS;
            && (now == Crashed <==> was == Crashed || reported)
            && (now == CleanShutdown <==> !reported && (was == CleanShutdown || (was == Active && a.MarkClean?)))
  {
    hide Image, Stores, SlotOf, Power256, Apply;
    if a.Advance? {
      assert WriterGood(s, s.writers[a.w]);
    }
  }

  lemma {:induction false} RunGrows(s: State, steps: seq<Action>, t: State)
    requires Inv(s) && Run(s, steps, t)
    ensures Grown(s.header, t.header)
    decreases |steps|
  {
    hide Inv, Effect, Enabled;
    if steps == [] {
    } else {
      StepKeeps(s, steps[0]);
      StepGrows(s, steps[0]);
      RunGrows(Effect(s, steps[0]), steps[1..], t);
    }
  }

  /** When the producer is marked crashed, all words of the crash report are already stored. */
  lemma CrashedAfterWords(s: State)
    requires Inv(s) && s.crashing.Storing? && Effect(s, AdvanceCrash).crashing.Idle?
    ensures Effect(s, AdvanceCrash).header.producer == Crashed
    ensures Effect(s, AdvanceCrash).header.crash == s.crashing.words
  {
    hide Image, Stores, SlotOf, Power256, Apply;
    assert s.header.crash[..CRASH_WORDS] == s.header.crash;
    assert s.crashing.words[..CRASH_WORDS] == s.crashing.words;
  }

  // ---- calls in order ----

  predicate Recorded(s: State, q: nat) {
    exists e :: e in s.history && e.sequence == q
  }

  // The event before this one in the same slot has returned, and no sequence is used twice.
  predicate InOrder(s: State, a: Action) {
    a.Begin? ==>
      && !Recorded(s, a.event.sequence)
      && (a.event.sequence > s.capacity ==> a.event.sequence - s.capacity in s.finished)
  }

  ghost predicate OrderedRun(s: State, steps: seq<Action>, t: State)
    requires Inv(s)
    decreases |steps|
  {
    if steps == [] then s == t
    else
      && Enabled(s, steps[0]) && InOrder(s, steps[0])
      && (StepKeeps(s, steps[0]); OrderedRun(Effect(s, steps[0]), steps[1..], t))
  }

  predicate Unique(s: State) {
    forall e, f :: e in s.history && f in s.history && e.sequence == f.sequence ==> e == f
  }

  // An event some call is still working on.
  predicate Working(s: State, w: nat, e: Event) {
    w in s.writers && s.writers[w].event == e
  }

  ghost predicate HistoryGood(s: State, e: Event) {
    && (e.sequence > s.capacity ==> e.sequence - s.capacity in s.finished)
    && (e.sequence in s.finished || exists w :: Working(s, w, e))
  }

  // The event is committed: its call returned or is past the slot.
  ghost predicate Committed(s: State, e: Event) {
    e.sequence in s.finished || exists w :: Working(s, w, e) && !InSlot(s.writers[w].phase)
  }

  // The last committed event of a slot whose successor has not begun is still there.
  ghost predicate InPlace(s: State, e: Event)
    requires s.capacity > 0 && |s.slots| == s.capacity
  {
    Committed(s, e) && !Recorded(s, e.sequence + s.capacity) && e.sequence > 0
    ==> s.slots[SlotOf(s.capacity, e.sequence)].committed == e.sequence
        && s.slots[SlotOf(s.capacity, e.sequence)].owner == e
  }

  // Sequences are used once, returned calls were recorded and are counted, and no two calls share an event.
  predicate Books(s: State) {
    && Unique(s)
    && (forall q :: q in s.finished ==> Recorded(s, q) && q <= s.header.committed)
    && (forall w :: w in s.writers ==> s.writers[w].event in s.history && s.writers[w].event.sequence !in s.finished)
    && (forall v, w :: v in s.writers && w in s.writers && v != w ==> s.writers[v].event != s.writers[w].event)
    && (s.header.committed == 0 || Recorded(s, s.header.committed))
  }

  ghost predicate AllGood(s: State) {
    forall e :: e in s.history ==> HistoryGood(s, e)
  }

  ghost predicate AllInPlace(s: State)
    requires s.capacity > 0 && |s.slots| == s.capacity
  {
    forall e :: e in s.history ==> InPlace(s, e)
  }

  ghost predicate OrderInv(s: State) {
    Inv(s) && Books(s) && AllGood(s) && s.capacity > 0 && |s.slots| == s.capacity && AllInPlace(s)
  }

  lemma SlotOfNext(capacity: nat, q: nat)
    requires capacity > 0 && q > capacity
    ensures SlotOf(capacity, q) == SlotOf(capacity, q - capacity)
  {
    ModStep(q - 1 - capacity, capacity);
  }

  lemma ModStep(a: nat, c: nat)
    requires c > 0
    ensures (a + c) % c == a % c
  {
    assert a + c == c * (a / c + 1) + a % c;
    DivUnique(a + c, c, a / c + 1, a % c);
  }

  lemma SlotOfNear(capacity: nat, p: nat, q: nat)
    requires capacity > 0 && 0 < p < q < p + capacity
    ensures SlotOf(capacity, p) != SlotOf(capacity, q)
  {
    var d := (q - 1) / capacity - (p - 1) / capacity;
    assert capacity * d == q - p - (SlotOf(capacity, q) - SlotOf(capacity, p));
    MultipleLarge(capacity, d);
  }

  // Of two events of one slot, the earlier has returned and the one right behind it has begun.
  lemma {:induction false} EarlierDone(s: State, e: Event, f: Event)
    requires OrderInv(s) && e in s.history && f in s.history
    requires f.sequence < e.sequence && SlotOf(s.capacity, f.sequence) == SlotOf(s.capacity, e.sequence)
    ensures f.sequence in s.finished && Recorded(s, f.sequence + s.capacity)
    decreases e.sequence
  {
    hide SlotOf, Inv, InPlace;
    InvParts(s);
    var p := e.sequence - s.capacity;
    if e.sequence < f.sequence + s.capacity {
      SlotOfNear(s.capacity, f.sequence, e.sequence);
    } else {
      assert HistoryGood(s, e);
      SlotOfNext(s.capacity, e.sequence);
      if p == f.sequence {
        assert Recorded(s, e.sequence);
      } else {
        assert Recorded(s, p);
        var g :| g in s.history && g.sequence == p;
        EarlierDone(s, g, f);
      }
    }
  }

  lemma InvParts(s: State)
    requires Inv(s)
    ensures s.capacity > 0 && |s.slots| == s.capacity
    ensures forall e :: e in s.history ==> 0 < e.sequence < Power256(8)
    ensures forall w :: w in s.writers ==> s.writers[w].event in s.history
  {
    hide Image, Stores, SlotOf, Power256, Apply;
    forall w | w in s.writers
      ensures s.writers[w].event in s.history
    {
      assert WriterGood(s, s.writers[w]);
    }
  }

  predicate BeginStep(s: State, w: nat, e: Event, t: State) {
    && w !in s.writers && 0 < e.sequence && !Recorded(s, e.sequence)
    && (e.sequence > s.capacity ==> e.sequence - s.capacity in s.finished)
    && t == s.(writers := s.writers[w := Writer(e, Clear)], history := s.history + {e})
  }

  lemma BeginStepIs(s: State, w: nat, e: Event)
    requires Inv(s) && Enabled(s, Begin(w, e)) && InOrder(s, Begin(w, e))
    ensures BeginStep(s, w, e, Effect(s, Begin(w, e)))
  {
    hide SlotOf, Inv, Power256;
  }

  lemma RecordedStays(s: State, t: State)
    requires s.history <= t.history
    ensures forall q :: Recorded(s, q) ==> Recorded(t, q)
  {
    forall q | Recorded(s, q)
      ensures Recorded(t, q)
    {
      var f :| f in s.history && f.sequence == q;
      assert f in t.history;
    }
  }

  lemma BeginBooks(s: State, w: nat, e: Event, t: State)
    requires Books(s) && BeginStep(s, w, e, t)
    ensures Books(t)
  {
    RecordedStays(s, t);
    assert forall f :: f in s.history ==> Recorded(s, f.sequence);
    hide Recorded;
  }

  lemma BeginGood(s: State, w: nat, e: Event, t: State)
    requires AllGood(s) && BeginStep(s, w, e, t)
    ensures AllGood(t)
  {
    hide Recorded;
    forall f | f in t.history
      ensures HistoryGood(t, f)
    {
      if f == e {
        assert Working(t, w, e);
      } else {
        assert HistoryGood(s, f);
        forall v | Working(s, v, f)
          ensures Working(t, v, f)
        {
        }
      }
    }
  }

  lemma BeginInPlace(s: State, w: nat, e: Event, t: State)
    requires s.capacity > 0 && |s.slots| == s.capacity
    requires Books(s) && AllInPlace(s) && BeginStep(s, w, e, t)
    ensures t.capacity > 0 && |t.slots| == t.capacity && AllInPlace(t)
  {
    RecordedStays(s, t);
    assert forall f :: f in s.history ==> Recorded(s, f.sequence);
    hide SlotOf, Recorded;
    forall f | f in t.history
      ensures InPlace(t, f)
    {
      CommittedBefore(s, w, e, t, f);
      if f != e {
        assert InPlace(s, f);
      } else {
        assert !Committed(t, f);
      }
    }
  }

  lemma CommittedBefore(s: State, w: nat, e: Event, t: State, f: Event)
    requires Books(s) && BeginStep(s, w, e, t)
    ensures Committed(t, f) ==> Committed(s, f)
    ensures f == e ==> !Committed(s, f)
  {
    assert forall g :: g in s.history ==> Recorded(s, g.sequence);
    hide Recorded;
    forall v | Working(t, v, f) && !InSlot(t.writers[v].phase)
      ensures Working(s, v, f) && !InSlot(s.writers[v].phase)
    {
    }
  }

  // What a step on a slot leaves of the rest of the state.
  predicate SlotStep(s: State, w: nat, t: State, i: nat) {
    && w in s.writers && w in t.writers && i < |s.slots| && InSlot(s.writers[w].phase)
    && t.history == s.history && t.finished == s.finished && t.header == s.header && t.capacity == s.capacity
    && t.writers.Keys == s.writers.Keys && t.writers[w].event == s.writers[w].event
    && (forall v :: v in s.writers && v != w ==> t.writers[v] == s.writers[v])
    && |t.slots| == |s.slots| && (forall j :: 0 <= j < |s.slots| && j != i ==> t.slots[j] == s.slots[j])
    && (!InSlot(t.writers[w].phase) ==>
          t.slots[i].committed == s.writers[w].event.sequence && t.slots[i].owner == s.writers[w].event)
  }

  lemma SlotStepIs(s: State, w: nat)
    requires Inv(s) && w in s.writers && InSlot(s.writers[w].phase)
    ensures s.capacity > 0 && s.writers[w].event.sequence > 0
    ensures SlotStep(s, w, AdvanceSlot(s, w), SlotOf(s.capacity, s.writers[w].event.sequence))
  {
    hide Image, Stores, SlotOf, Power256, Apply, StoreOne;
    assert WriterGood(s, s.writers[w]);
  }

  // A step that moves no call's event and leaves history and finished alone keeps the first two parts.
  predicate Quiet(s: State, t: State) {
    && t.history == s.history && t.finished == s.finished && t.capacity == s.capacity
    && t.header.committed == s.header.committed && t.writers.Keys == s.writers.Keys
    && (forall v :: v in s.writers ==> t.writers[v].event == s.writers[v].event)
  }

  lemma QuietBooks(s: State, t: State)
    requires Books(s) && Quiet(s, t)
    ensures Books(t)
  {
    RecordedStays(s, t);
    hide Recorded;
  }

  lemma QuietGood(s: State, t: State)
    requires AllGood(s) && Quiet(s, t)
    ensures AllGood(t)
  {
    forall f | f in t.history
      ensures HistoryGood(t, f)
    {
      assert HistoryGood(s, f);
      forall v | Working(s, v, f)
        ensures Working(t, v, f)
      {
      }
    }
  }

  // While a call is in its slot, no other event of the slot is both committed and the latest.
  lemma OthersReplaced(s: State, w: nat, f: Event)
    requires OrderInv(s) && w in s.writers && f in s.history && f != s.writers[w].event
    requires f.sequence > 0 && s.writers[w].event.sequence > 0
    requires SlotOf(s.capacity, f.sequence) == SlotOf(s.capacity, s.writers[w].event.sequence)
    ensures Recorded(s, f.sequence + s.capacity)
  {
    hide SlotOf, Inv, InPlace, HistoryGood, Recorded;
    var e := s.writers[w].event;
    assert e in s.history && e.sequence != f.sequence && e.sequence !in s.finished;
    if f.sequence < e.sequence {
      EarlierDone(s, e, f);
    } else {
      EarlierDone(s, f, e);
      assert false;
    }
  }

  lemma SlotInPlace(s: State, w: nat, t: State, i: nat)
    requires OrderInv(s) && SlotStep(s, w, t, i)
    requires s.writers[w].event.sequence > 0 && i == SlotOf(s.capacity, s.writers[w].event.sequence)
    ensures AllInPlace(t)
  {
    RecordedStays(t, s);
    RecordedStays(s, t);
    forall f | f in t.history
      ensures InPlace(t, f)
    {
      hide SlotOf, Inv, HistoryGood, Recorded, AllGood;
      assert InPlace(s, f);
      if f == s.writers[w].event {
        OwnSlot(s, w, t, i);
      } else {
        CommittedSame(s, w, t, i, f);
        if f.sequence > 0 && SlotOf(s.capacity, f.sequence) == i {
          OthersReplaced(s, w, f);
        }
      }
    }
  }

  lemma OwnSlot(s: State, w: nat, t: State, i: nat)
    requires Books(s) && SlotStep(s, w, t, i)
    ensures Committed(t, s.writers[w].event) ==> !InSlot(t.writers[w].phase)
  {
    hide Recorded, Unique;
    forall v | Working(t, v, s.writers[w].event)
      ensures v == w
    {
    }
  }

  lemma CommittedSame(s: State, w: nat, t: State, i: nat, f: Event)
    requires SlotStep(s, w, t, i) && f != s.writers[w].event
    ensures Committed(t, f) ==> Committed(s, f)
  {
    forall v | Working(t, v, f) && !InSlot(t.writers[v].phase)
      ensures Working(s, v, f) && !InSlot(s.writers[v].phase)
    {
    }
  }

  // What a step of AtomicMax leaves of the rest of the state.
  predicate MaxStep(s: State, w: nat, t: State) {
    && w in s.writers && !InSlot(s.writers[w].phase)
    && t.history == s.history && t.slots == s.slots && t.capacity == s.capacity
    && (t.header.committed == s.header.committed
        || (t.header.committed == s.writers[w].event.sequence && s.header.committed <= s.writers[w].event.sequence))
    && (forall v :: v in s.writers && v != w ==> v in t.writers && t.writers[v] == s.writers[v])
    && (forall v :: v in t.writers ==> v in s.writers)
    && (if w in t.writers then
          t.writers[w].event == s.writers[w].event && t.finished == s.finished && !InSlot(t.writers[w].phase)
        else
          t.finished == s.finished + {s.writers[w].event.sequence} && s.writers[w].event.sequence <= t.header.committed)
  }

  lemma MaxStepIs(s: State, w: nat)
    requires Inv(s) && w in s.writers && !InSlot(s.writers[w].phase)
    ensures MaxStep(s, w, AdvanceMax(s, w))
  {
    hide Image, Stores, SlotOf, Power256, Apply;
    assert WriterGood(s, s.writers[w]);
  }

  lemma MaxBooks(s: State, w: nat, t: State)
    requires Books(s) && MaxStep(s, w, t)
    ensures Books(t)
  {
    RecordedStays(s, t);
    assert forall g :: g in s.history ==> Recorded(s, g.sequence);
    hide Recorded;
  }

  lemma MaxGood(s: State, w: nat, t: State)
    requires AllGood(s) && MaxStep(s, w, t)
    ensures AllGood(t)
  {
    forall f | f in t.history
      ensures HistoryGood(t, f)
    {
      assert HistoryGood(s, f);
      forall v | Working(s, v, f) && (v != w || w in t.writers)
        ensures Working(t, v, f)
      {
      }
    }
  }

  lemma MaxInPlace(s: State, w: nat, t: State)
    requires s.capacity > 0 && |s.slots| == s.capacity
    requires Books(s) && AllInPlace(s) && MaxStep(s, w, t)
    ensures t.capacity > 0 && |t.slots| == t.capacity && AllInPlace(t)
  {
    RecordedStays(s, t);
    hide SlotOf, Recorded;
    forall f | f in t.history
      ensures InPlace(t, f)
    {
      assert InPlace(s, f);
      MaxCommitted(s, w, t, f);
    }
  }

  lemma MaxCommitted(s: State, w: nat, t: State, f: Event)
    requires Books(s) && MaxStep(s, w, t) && f in s.history
    ensures Committed(t, f) ==> Committed(s, f)
  {
    hide Recorded;
    assert Working(s, w, s.writers[w].event);
    forall v | Working(t, v, f) && !InSlot(t.writers[v].phase)
      ensures Working(s, v, f) && !InSlot(s.writers[v].phase)
    {
    }
  }

  lemma QuietInPlace(s: State, t: State)
    requires s.capacity > 0 && |s.slots| == s.capacity
    requires AllInPlace(s) && Quiet(s, t) && t.slots == s.slots && t.writers == s.writers
    ensures t.capacity > 0 && |t.slots| == t.capacity && AllInPlace(t)
  {
    RecordedStays(s, t);
    hide SlotOf, Recorded;
    forall f | f in t.history
      ensures InPlace(t, f)
    {
      assert InPlace(s, f);
      forall v
        ensures Working(t, v, f) == Working(s, v, f)
      {
      }
    }
  }

  lemma OtherIs(s: State, a: Action)
    requires Inv(s) && Enabled(s, a) && !a.Begin? && !a.Advance?
    ensures var t := Effect(s, a); Quiet(s, t) && t.slots == s.slots && t.writers == s.writers
  {
    hide Image, Stores, SlotOf, Power256, Apply;
  }

  lemma StepOrdered(s: State, a: Action)
    requires OrderInv(s) && Enabled(s, a) && InOrder(s, a)
    ensures OrderInv(Effect(s, a))
  {
    StepKeeps(s, a);
    InvParts(s);
    var t := Effect(s, a);
    hide Inv, Enabled, InOrder, AdvanceSlot, AdvanceMax, AdvanceCrashing;
    hide SlotStep, MaxStep, BeginStep, Books, AllGood, AllInPlace;
    if a.Begin? {
      BeginStepIs(s, a.w, a.event);
      BeginBooks(s, a.w, a.event, t);
      BeginGood(s, a.w, a.event, t);
      BeginInPlace(s, a.w, a.event, t);
    } else if a.Advance? {
      if InSlot(s.writers[a.w].phase) {
        var i := SlotOf(s.capacity, s.writers[a.w].event.sequence);
        SlotStepIs(s, a.w);
        SlotStepQuiet(s, a.w, t, i);
        QuietBooks(s, t);
        QuietGood(s, t);
        SlotInPlace(s, a.w, t, i);
      } else {
        MaxStepIs(s, a.w);
        MaxBooks(s, a.w, t);
        MaxGood(s, a.w, t);
        MaxInPlace(s, a.w, t);
      }
    } else {
      OtherIs(s, a);
      QuietBooks(s, t);
      QuietGood(s, t);
      QuietInPlace(s, t);
    }
  }

  lemma SlotStepQuiet(s: State, w: nat, t: State, i: nat)
    requires SlotStep(s, w, t, i)
    ensures Quiet(s, t) && |t.slots| == |s.slots|
  {
  }

  lemma {:induction false} RunOrdered(s: State, steps: seq<Action>, t: State)
    requires OrderInv(s) && OrderedRun(s, steps, t)
    ensures OrderInv(t)
    decreases |steps|
  {
    hide Inv, Effect, Enabled, InOrder, Unique, HistoryGood, InPlace;
    if steps == [] {
    } else {
      StepOrdered(s, steps[0]);
      RunOrdered(Effect(s, steps[0]), steps[1..], t);
    }
  }

  lemma OpenedOrdered(capacity: nat)
    requires capacity > 0
    ensures OrderInv(Opened(capacity))
  {
    OpenedInv(capacity);
  }
}
