/** The two sequence counters of the recorder's header over whole runs: they are maxima of recorded sequences. */
module FlightCounters {
  import opened FlightRecord
  import opened FlightRecorder
  import opened FlightRuns
  import opened LittleEndian

  // A counter is zero or the sequence of some recorded event.
  ghost predicate FromHistory(value: nat, history: set<Event>) {
    value == 0 || exists e :: e in history && e.sequence == value
  }

  ghost predicate Running(s: State, e: Event) {
    exists w :: w in s.writers && s.writers[w].event == e
  }

  ghost predicate Counted(s: State) {
    && FromHistory(s.header.write, s.history) && FromHistory(s.header.committed, s.history)
    && (forall q :: q in s.finished ==> q <= s.header.committed)
    && (forall e :: e in s.history ==> e.sequence in s.finished || Running(s, e))
  }

  lemma BeginCounts(s: State, w: nat, e: Event)
    requires Inv(s) && Counted(s) && Enabled(s, Begin(w, e))
    ensures Counted(Effect(s, Begin(w, e)))
  {
    hide Inv, SlotOf, Power256;
    var t := Effect(s, Begin(w, e));
    assert t.writers[w].event == e;
    forall f | f in t.history
      ensures f.sequence in t.finished || Running(t, f)
    {
      if f != e && f.sequence !in s.finished {
        var v :| v in s.writers && s.writers[v].event == f;
        assert t.writers[v].event == f;
      }
    }
  }

  lemma SlotCounts(s: State, w: nat)
    requires Inv(s) && Counted(s) && w in s.writers && InSlot(s.writers[w].phase)
    ensures Counted(AdvanceSlot(s, w))
  {
    assert WriterGood(s, s.writers[w]);
    hide Inv, SlotOf, Power256, Stores, StoreOne;
    var t := AdvanceSlot(s, w);
    forall f | f in t.history
      ensures f.sequence in t.finished || Running(t, f)
    {
      if f.sequence !in s.finished {
        var v :| v in s.writers && s.writers[v].event == f;
        assert t.writers[v].event == f;
      }
    }
  }

  lemma MaxCounts(s: State, w: nat)
    requires Inv(s) && Counted(s) && w in s.writers && !InSlot(s.writers[w].phase)
    ensures Counted(AdvanceMax(s, w))
  {
    assert WriterGood(s, s.writers[w]);
    hide Inv, SlotOf, Power256, Stores;
    var t := AdvanceMax(s, w);
    forall f | f in t.history
      ensures f.sequence in t.finished || Running(t, f)
    {
      if f.sequence !in s.finished {
        var v :| v in s.writers && s.writers[v].event == f;
        if v in t.writers {
          assert t.writers[v].event == f;
        }
      }
    }
  }

  lemma StepCounts(s: State, a: Action)
    requires Inv(s) && Counted(s) && Enabled(s, a)
    ensures Counted(Effect(s, a))
  {
    hide Inv, AdvanceSlot, AdvanceMax, Counted, SlotOf;
    if a.Begin? {
      BeginCounts(s, a.w, a.event);
    } else if a.Advance? {
      if InSlot(s.writers[a.w].phase) {
        SlotCounts(s, a.w);
      } else {
        MaxCounts(s, a.w);
      }
    } else {
      OtherCounts(s, a);
    }
  }

  lemma OtherCounts(s: State, a: Action)
    requires Inv(s) && Counted(s) && Enabled(s, a) && !a.Begin? && !a.Advance?
    ensures Counted(Effect(s, a))
  {
    var t := Effect(s, a);
    hide Inv, SlotOf, Power256;
    forall f | f in t.history
      ensures f.sequence in t.finished || Running(t, f)
    {
      assert Running(s, f) ==> Running(t, f);
    }
  }

  lemma {:induction false} RunCounts(s: State, steps: seq<Action>, t: State)
    requires Inv(s) && Counted(s) && Run(s, steps, t)
    ensures Counted(t)
    decreases |steps|
  {
    hide Inv, Enabled, Effect, Counted;
    if steps != [] {
      StepKeeps(s, steps[0]);
      StepCounts(s, steps[0]);
      RunCounts(Effect(s, steps[0]), steps[1..], t);
    }
  }

  /** In every run, whatever the calls overlap: each counter is zero or the sequence of a recorded event, no call has
      returned whose sequence is above the committed counter, and when all calls have returned both counters are the
      largest recorded sequence. */
  lemma CountersAreMaxima(capacity: nat, steps: seq<Action>, t: State)
    requires capacity > 0
    requires Inv(Opened(capacity)) && Run(Opened(capacity), steps, t)
    ensures FromHistory(t.header.write, t.history) && FromHistory(t.header.committed, t.history)
    ensures t.header.committed <= t.header.write
    ensures forall q :: q in t.finished ==> q <= t.header.committed
    ensures t.writers == map[] ==>
              t.header.write == t.header.committed && forall e :: e in t.history ==> e.sequence <= t.header.committed
  {
    RunCounts(Opened(capacity), steps, t);
    RunKeeps(Opened(capacity), steps, t);
    Ordered(t);
    hide Run, Inv, Opened;
    if t.writers == map[] {
      forall e | e in t.history
        ensures e.sequence <= t.header.committed
      {
        assert !Running(t, e);
      }
    }
  }

  lemma Ordered(s: State)
    requires Inv(s)
    ensures s.header.committed <= s.header.write
  {
  }
}
