/** The flight recorder as a machine of atomic steps: any number of Record calls interleave byte by byte, and
    every state in between is a possible crash snapshot. */
module FlightRecorder {
  import opened Arithmetic
  import opened Bits
  import opened FlightRecord
  import opened Sequences
  import opened LittleEndian

  datatype Producer = Active | CleanShutdown | Crashed

  datatype CrashInfo = CrashInfo(words: seq<nat>)

  // The header words that change after Open.
  datatype Header = Header(write: nat, committed: nat, dropped: nat, producer: Producer, crash: seq<nat>)

  // owner is auxiliary: the event whose record was last committed in the slot.
  datatype Slot = Slot(committed: nat, body: seq<byte>, owner: Event)

  /** Where a Record call stands: about to clear the committed sequence, about to do the given store of the body
      (or, after the last, to set the committed sequence), or inside one of the two AtomicMax loops. */
  datatype Phase =
    | Clear
    | Body(done: nat, before: seq<byte>)
    | LoadWrite
    | SwapWrite(observed: nat)
    | LoadCommitted
    | SwapCommitted(observed: nat)

  datatype Writer = Writer(event: Event, phase: Phase)

  datatype Crashing = Idle | Storing(words: seq<nat>, done: nat)

  // history and finished are auxiliary: the events of all calls so far and the sequences of those that returned.
  datatype State = State(capacity: nat, header: Header, slots: seq<Slot>, writers: map<nat, Writer>,
                         crashing: Crashing, history: set<Event>, finished: set<nat>)

  datatype Action =
    | Begin(w: nat, event: Event)
    | Advance(w: nat)
    | BeginCrash(words: seq<nat>)
    | AdvanceCrash
    | MarkClean

  const CRASH_WORDS := 6

  function SlotOf(capacity: nat, sequence: nat): (i: nat)
    requires capacity > 0 && sequence > 0
    ensures i < capacity
  {
    (sequence - 1) % capacity
  }

  /** The first event goes to the first slot, and every next one to the next slot around the ring. */
  lemma SlotsInTurn(capacity: nat, sequence: nat)
    requires capacity > 0 && sequence > 0
    ensures SlotOf(capacity, 1) == 0
    ensures SlotOf(capacity, sequence + 1)
            == if SlotOf(capacity, sequence) + 1 == capacity then 0 else SlotOf(capacity, sequence) + 1
  {
    var q, r := (sequence - 1) / capacity, (sequence - 1) % capacity;
    assert sequence - 1 == capacity * q + r;
    if r + 1 == capacity {
      DivUnique(sequence, capacity, q + 1, 0);
    } else {
      DivUnique(sequence, capacity, q, r + 1);
    }
  }

  predicate InSlot(p: Phase) {
    p.Clear? || p.Body?
  }

  function NullSlot(): Slot {
    Slot(0, Nulls(RECORD_BODY), Event(0, 0, 0, 0, 0, 0, 0, 0, 0, 0, 0, [], []))
  }

  // What Open leaves: a mapping of zeros with the producer marked active.
  function Opened(capacity: nat): State
    requires capacity > 0
  {
    State(capacity, Header(0, 0, 0, Active, seq(CRASH_WORDS, _ => 0)), seq(capacity, _ => NullSlot()),
          map[], Idle, {}, {})
  }

  // ---- steps ----

  // A call with sequence zero returns at once. The assumption on callers is that no second call enters a slot
  // before the first has committed there.
  predicate Enabled(s: State, a: Action)
    requires s.capacity > 0
  {
    match a
    case Begin(w, e) =>
      && w !in s.writers && 0 < e.sequence < Power256(8)
      && forall v | v in s.writers && InSlot(s.writers[v].phase) ::
           s.writers[v].event.sequence > 0
           && SlotOf(s.capacity, s.writers[v].event.sequence) != SlotOf(s.capacity, e.sequence)
    case Advance(w) => w in s.writers
    case BeginCrash(words) => s.crashing.Idle? && |words| == CRASH_WORDS
    case AdvanceCrash => s.crashing.Storing?
    case MarkClean => true
  }

  function SetPhase(s: State, w: nat, p: Phase): State
    requires w in s.writers
  {
    s.(writers := s.writers[w := s.writers[w].(phase := p)])
  }

  function SetSlot(s: State, i: nat, slot: Slot): State
    requires i < |s.slots|
  {
    s.(slots := s.slots[i := slot])
  }

  // Clearing, storing a byte, or committing.
  function AdvanceSlot(s: State, w: nat): State
    requires s.capacity > 0 && |s.slots| == s.capacity
    requires w in s.writers && InSlot(s.writers[w].phase) && s.writers[w].event.sequence > 0
  {
    var writer := s.writers[w];
    var e := writer.event;
    var i := SlotOf(s.capacity, e.sequence);
    var slot := s.slots[i];
    match writer.phase
    case Clear => SetPhase(SetSlot(s, i, slot.(committed := 0)), w, Body(0, slot.body))
    case Body(done, before) =>
      if done < |Stores(e)| then
        SetPhase(SetSlot(s, i, slot.(body := StoreOne(slot.body, Stores(e)[done]))), w, Body(done + 1, before))
      else
        SetPhase(SetSlot(s, i, slot.(committed := e.sequence, owner := e)), w, LoadWrite)
  }

  // One load or one compare-exchange of AtomicMax, first on the write sequence, then on the committed sequence.
  function AdvanceMax(s: State, w: nat): State
    requires w in s.writers && !InSlot(s.writers[w].phase)
  {
    var writer := s.writers[w];
    var value := writer.event.sequence;
    match writer.phase
    case LoadWrite => AfterWrite(s, w, s.header.write, value)
    case SwapWrite(observed) =>
      if s.header.write == observed then SetPhase(s.(header := s.header.(write := value)), w, LoadCommitted)
      else AfterWrite(s, w, s.header.write, value)
    case LoadCommitted => AfterCommitted(s, w, s.header.committed, value)
    case SwapCommitted(observed) =>
      if s.header.committed == observed then Returned(s.(header := s.header.(committed := value)), w)
      else AfterCommitted(s, w, s.header.committed, value)
  }

  function AfterWrite(s: State, w: nat, observed: nat, value: nat): State
    requires w in s.writers
  {
    SetPhase(s, w, if observed < value then SwapWrite(observed) else LoadCommitted)
  }

  function AfterCommitted(s: State, w: nat, observed: nat, value: nat): State
    requires w in s.writers
  {
    if observed < value then SetPhase(s, w, SwapCommitted(observed)) else Returned(s, w)
  }

  function Returned(s: State, w: nat): State
    requires w in s.writers
  {
    s.(writers := s.writers - {w}, finished := s.finished + {s.writers[w].event.sequence})
  }

  // MarkCrashed stores its six words one by one and then the producer state, whatever that was.
  function AdvanceCrashing(s: State): State
    requires s.crashing.Storing? && |s.crashing.words| == |s.header.crash|
  {
    var done := s.crashing.done;
    if done < |s.crashing.words| then
      s.(header := s.header.(crash := s.header.crash[done := s.crashing.words[done]]),
         crashing := Storing(s.crashing.words, done + 1))
    else s.(header := s.header.(producer := Crashed), crashing := Idle)
  }

  function Effect(s: State, a: Action): State
    requires Inv(s) && Enabled(s, a)
  {
    match a
    case Begin(w, e) => s.(writers := s.writers[w := Writer(e, Clear)], history := s.history + {e})
    case Advance(w) => if InSlot(s.writers[w].phase) then AdvanceSlot(s, w) else AdvanceMax(s, w)
    case BeginCrash(words) => s.(crashing := Storing(words, 0))
    case AdvanceCrash => AdvanceCrashing(s)
    case MarkClean => if s.header.producer == Active then s.(header := s.header.(producer := CleanShutdown)) else s
  }

  // ---- the invariant ----

  // A slot is uncommitted or holds the complete image of an event that was recorded under that sequence.
  predicate SlotGood(slot: Slot, history: set<Event>) {
    && |slot.body| == RECORD_BODY
    && (slot.committed != 0 ==>
          slot.owner in history && slot.owner.sequence == slot.committed && slot.body == Image(slot.owner))
  }

  predicate WriterGood(s: State, writer: Writer)
    requires s.capacity > 0 && |s.slots| == s.capacity
  {
    var e := writer.event;
    && e in s.history && 0 < e.sequence < Power256(8)
    && match writer.phase
       case Clear => true
       case Body(done, before) =>
         var slot := s.slots[SlotOf(s.capacity, e.sequence)];
         && done <= |Stores(e)| && slot.committed == 0
         && |before| == RECORD_BODY && slot.body == Apply(before, Stores(e)[..done])
       case LoadWrite => true
       case SwapWrite(observed) => observed < e.sequence
       case LoadCommitted => e.sequence <= s.header.write
       case SwapCommitted(observed) => observed < e.sequence <= s.header.write
  }

  predicate Apart(s: State, v: nat, w: nat)
    requires s.capacity > 0 && v in s.writers && w in s.writers
    requires s.writers[v].event.sequence > 0 && s.writers[w].event.sequence > 0
  {
    v != w && InSlot(s.writers[v].phase) && InSlot(s.writers[w].phase)
    ==> SlotOf(s.capacity, s.writers[v].event.sequence) != SlotOf(s.capacity, s.writers[w].event.sequence)
  }

  predicate CrashGood(s: State) {
    && |s.header.crash| == CRASH_WORDS
    && (s.crashing.Storing? ==>
          |s.crashing.words| == CRASH_WORDS && s.crashing.done <= CRASH_WORDS
          && s.header.crash[..s.crashing.done] == s.crashing.words[..s.crashing.done])
  }

  predicate Inv(s: State) {
    && s.capacity > 0 && |s.slots| == s.capacity
    && (forall i :: 0 <= i < |s.slots| ==> SlotGood(s.slots[i], s.history))
    && (forall e :: e in s.history ==> 0 < e.sequence < Power256(8))
    && (forall w :: w in s.writers ==> WriterGood(s, s.writers[w]))
    && (forall v, w :: v in s.writers && w in s.writers ==> Apart(s, v, w))
    && s.header.committed <= s.header.write && s.header.dropped == 0
    && CrashGood(s)
  }

  lemma OpenedInv(capacity: nat)
    requires capacity > 0
    ensures Inv(Opened(capacity))
  {
  }

  lemma BeginKeeps(s: State, w: nat, e: Event)
    requires Inv(s) && Enabled(s, Begin(w, e))
    ensures Inv(Effect(s, Begin(w, e)))
  {
    hide SlotOf, Stores, Image, Apply, Power256;
    var t := Effect(s, Begin(w, e));
    forall v | v in t.writers
      ensures WriterGood(t, t.writers[v])
    {
      if v != w {
        assert WriterGood(s, s.writers[v]);
      }
    }
    forall u, v | u in t.writers && v in t.writers
      ensures Apart(t, u, v)
    {
      if u != w && v != w {
        assert Apart(s, u, v);
      }
    }
  }

  lemma AdvanceSlotKeeps(s: State, w: nat)
    requires Inv(s) && w in s.writers && InSlot(s.writers[w].phase)
    ensures Inv(AdvanceSlot(s, w))
  {
    hide SlotOf, Stores, Image, Apply, Power256, StoreOne;
    var t := AdvanceSlot(s, w);
    var writer := s.writers[w];
    var e := writer.event;
    var i := SlotOf(s.capacity, e.sequence);
    assert WriterGood(s, writer);
    if writer.phase.Clear? {
      ApplyNone(s.slots[i].body);
      assert Stores(e)[..0] == [];
    } else {
      BodyStep(s.slots[i], writer);
    }
    assert WriterGood(t, t.writers[w]);
    forall v | v in t.writers
      ensures WriterGood(t, t.writers[v])
    {
      if v != w {
        assert WriterGood(s, s.writers[v]);
        assert Apart(s, v, w);
      }
    }
    forall u, v | u in t.writers && v in t.writers
      ensures Apart(t, u, v)
    {
      assert Apart(s, u, v);
    }
  }

  lemma BodyStep(slot: Slot, writer: Writer)
    requires var e := writer.event; writer.phase.Body? && writer.phase.done <= |Stores(e)|
    requires |writer.phase.before| == RECORD_BODY
    requires slot.body == Apply(writer.phase.before, Stores(writer.event)[..writer.phase.done])
    ensures var e := writer.event;
            var k := writer.phase.done;
            if k < |Stores(e)| then StoreOne(slot.body, Stores(e)[k]) == Apply(writer.phase.before, Stores(e)[..k + 1])
            else slot.body == Image(e)
  {
    hide Stores, Image;
    var e, k := writer.event, writer.phase.done;
    if k < |Stores(e)| {
      assert Stores(e)[..k + 1][..k] == Stores(e)[..k];
    } else {
      assert Stores(e)[..k] == Stores(e);
      StoresLeaveImage(writer.phase.before, e);
    }
  }

  // The writers after a step of AtomicMax: all are as good as before.
  lemma MaxKeepsWriter(s: State, w: nat, v: nat)
    requires Inv(s) && w in s.writers && !InSlot(s.writers[w].phase) && v in AdvanceMax(s, w).writers
    ensures v in s.writers && WriterGood(s, s.writers[v]) && s.capacity > 0 && |s.slots| == s.capacity
    ensures var t := AdvanceMax(s, w);
            t.capacity > 0 && |t.slots| == t.capacity && WriterGood(t, t.writers[v])
  {
    assert WriterGood(s, s.writers[v]);
    assert WriterGood(s, s.writers[w]);
    hide SlotOf, Stores, Image, Apply, Power256, Apart, SlotGood, CrashGood, Inv;
  }

  lemma AdvanceMaxKeeps(s: State, w: nat)
    requires Inv(s) && w in s.writers && !InSlot(s.writers[w].phase)
    ensures Inv(AdvanceMax(s, w))
  {
    hide SlotOf, Stores, Image, Apply, Power256;
    var t := AdvanceMax(s, w);
    assert WriterGood(s, s.writers[w]);
    forall v | v in t.writers
      ensures WriterGood(t, t.writers[v])
    {
      MaxKeepsWriter(s, w, v);
    }
    hide WriterGood;
    forall u, v | u in t.writers && v in t.writers
      ensures Apart(t, u, v)
    {
      assert Apart(s, u, v);
    }
  }

  lemma OthersKeep(s: State, a: Action)
    requires Inv(s) && Enabled(s, a) && !a.Begin? && !a.Advance?
    ensures Inv(Effect(s, a))
  {
    hide SlotOf, Stores, Image, Apply, Power256;
    var t := Effect(s, a);
    forall v | v in t.writers
      ensures WriterGood(t, t.writers[v])
    {
      assert WriterGood(s, s.writers[v]);
    }
    forall u, v | u in t.writers && v in t.writers
      ensures Apart(t, u, v)
    {
      assert Apart(s, u, v);
    }
  }

  lemma StepKeeps(s: State, a: Action)
    requires Inv(s) && Enabled(s, a)
    ensures Inv(Effect(s, a))
  {
    hide Inv, AdvanceSlot, AdvanceMax, AdvanceCrashing;
    if a.Begin? {
      BeginKeeps(s, a.w, a.event);
    } else if a.Advance? {
      if InSlot(s.writers[a.w].phase) {
        AdvanceSlotKeeps(s, a.w);
      } else {
        AdvanceMaxKeeps(s, a.w);
      }
    } else {
      OthersKeep(s, a);
    }
  }
}
