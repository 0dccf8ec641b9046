/** The flight recorder's reader: header validation and the reconstruction of the last window of records. */
module FlightReader {
  import opened Bits
  import opened FlightRecord
  import opened LittleEndian
  import opened FlightRecorder
  import opened FlightRuns
  import opened CanonicalCode

  // ---- the header on disk ----

  datatype FileHeader = FileHeader(magic: string, version: nat, headerSize: nat, recordSize: nat, capacity: nat)

  datatype HeaderError = BadMagic | BadVersion | BadSizes | BadCapacity

  const MAGIC := "W7GLFR01"
  const FORMAT_VERSION := 1
  const HEADER_SIZE := 256
  const RECORD_SIZE := 512
  const MINIMUM_CAPACITY := 256
  const MAXIMUM_CAPACITY := 262144

  // None when the header is accepted, else the first reason to refuse it.
  function ValidateHeader(h: FileHeader): Option<HeaderError> {
    if h.magic != MAGIC then Some(BadMagic)
    else if h.version != FORMAT_VERSION then Some(BadVersion)
    else if h.headerSize != HEADER_SIZE || h.recordSize != RECORD_SIZE then Some(BadSizes)
    else if h.capacity < MINIMUM_CAPACITY || h.capacity > MAXIMUM_CAPACITY then Some(BadCapacity)
    else None
  }

  // The header that Open writes for a requested capacity, which it clamps.
  function OpenHeader(requested: nat): FileHeader {
    var capacity := if requested < MINIMUM_CAPACITY then MINIMUM_CAPACITY
                    else if requested > MAXIMUM_CAPACITY then MAXIMUM_CAPACITY
                    else requested;
    FileHeader(MAGIC, FORMAT_VERSION, HEADER_SIZE, RECORD_SIZE, capacity)
  }

  /** Whatever capacity is asked for, the reader accepts the header, and it accepts no other header than one
      that Open can write. */
  lemma HeaderAccepted(h: FileHeader)
    ensures ValidateHeader(h) == None <==> exists requested: nat :: h == OpenHeader(requested)
    ensures ValidateHeader(h) == None
            <==> h == FileHeader("W7GLFR01", 1, 256, 512, h.capacity) && 256 <= h.capacity <= 262144
  {
    if ValidateHeader(h) == None {
      assert h == OpenHeader(h.capacity);
    }
  }

  // ---- the window ----

  // The records that can be read; a truncated file has fewer than the capacity.
  datatype File = File(capacity: nat, committed: nat, dropped: nat, slots: seq<Slot>)

  predicate FileOk(f: File) {
    f.capacity > 0 && forall i :: 0 <= i < |f.slots| ==> |f.slots[i].body| == RECORD_BODY
  }

  function First(f: File): nat {
    if f.committed > f.capacity then f.committed - f.capacity + 1 else if f.committed == 0 then 0 else 1
  }

  function WindowLength(f: File): nat {
    Min(f.committed, f.capacity)
  }

  predicate Accepted(f: File, q: nat)
    requires FileOk(f) && q > 0
  {
    var i := SlotOf(f.capacity, q);
    i < |f.slots| && f.slots[i].committed == q && SequenceOf(f.slots[i].body) == q
  }

  datatype Read = Read(sequence: nat, body: seq<byte>)

  function Taken(f: File, q: nat): Read
    requires FileOk(f) && q > 0 && Accepted(f, q)
  {
    Read(q, Bounded(f.slots[SlotOf(f.capacity, q)].body))
  }

  // The accepted records of sequences first to end - 1, in order.
  function Records(f: File, first: nat, end: nat): seq<Read>
    requires FileOk(f) && first > 0
    decreases end
  {
    if end <= first then []
    else Records(f, first, end - 1) + (if Accepted(f, end - 1) then [Taken(f, end - 1)] else [])
  }

  function Window(f: File): seq<Read>
    requires FileOk(f)
  {
    if First(f) == 0 then [] else Records(f, First(f), f.committed + 1)
  }

  predicate Increasing(r: seq<Read>) {
    forall i, j :: 0 <= i < j < |r| ==> r[i].sequence < r[j].sequence
  }

  lemma {:induction false} RecordsIncreasing(f: File, first: nat, end: nat)
    requires FileOk(f) && first > 0
    ensures Increasing(Records(f, first, end))
    ensures forall i :: 0 <= i < |Records(f, first, end)| ==> first <= Records(f, first, end)[i].sequence < end
    decreases end
  {
    if end > first {
      RecordsIncreasing(f, first, end - 1);
    }
  }

  /** The loop of DecodeFlightRecorder. */
  method Decode(f: File) returns (records: seq<Read>, lost: nat)
    requires FileOk(f)
    ensures records == Window(f)
    ensures |records| + lost == f.dropped + WindowLength(f)
    ensures Increasing(records)
    ensures forall i :: 0 <= i < |records| ==> First(f) <= records[i].sequence <= f.committed
  {
    hide SequenceOf, Bounded, SlotOf;
    var last := f.committed;
    var first := First(f);
    records, lost := [], f.dropped;
    if first != 0 {
      var sequence := first;
      while true
        invariant first <= sequence <= last
        invariant records == Records(f, first, sequence)
        invariant |records| + lost == f.dropped + sequence - first
        decreases last - sequence
      {
        var slot := SlotOf(f.capacity, sequence);
        if slot >= |f.slots| || f.slots[slot].committed != sequence || SequenceOf(f.slots[slot].body) != sequence {
          lost := lost + 1;
        } else {
          records := records + [Read(sequence, Bounded(f.slots[slot].body))];
        }
        if sequence == last {
          break;
        }
        sequence := sequence + 1;
      }
      RecordsIncreasing(f, first, last + 1);
    }
  }

  // ---- reading a snapshot ----

  // The record read is the complete image of the event.
  predicate Shows(r: Read, e: Event) {
    r == Read(e.sequence, Image(e))
  }

  function FileOf(s: State): File {
    File(s.capacity, s.header.committed, s.header.dropped, s.slots)
  }

  /** A record accepted from a snapshot of any run is the complete image of an event recorded in that run under
      that very sequence. */
  lemma AcceptedIsWhole(capacity: nat, steps: seq<Action>, t: State, q: nat)
    requires capacity > 0
    requires Inv(Opened(capacity)) && Run(Opened(capacity), steps, t)
    requires FileOk(FileOf(t)) && q > 0 && Accepted(FileOf(t), q)
    ensures exists e :: Shows(Taken(FileOf(t), q), e) && Began(steps, e) && e.sequence == q
  {
    hide Run, Inv, Image, SequenceOf, Bounded, Power256;
    var i := SlotOf(t.capacity, q);
    Snapshot(capacity, steps, t, i);
    var e :| Began(steps, e) && e.sequence == t.slots[i].committed && t.slots[i].body == Image(e);
    BoundedImage(e);
    assert Taken(FileOf(t), q) == Read(q, Bounded(t.slots[i].body));
    assert Shows(Taken(FileOf(t), q), e);
  }

  lemma SnapshotReadable(s: State)
    requires Inv(s)
    ensures FileOk(FileOf(s))
  {
    hide Image, Stores, SlotOf, Power256, Apply, WriterGood, Apart;
    forall i | 0 <= i < |s.slots|
      ensures |s.slots[i].body| == RECORD_BODY
    {
      assert SlotGood(s.slots[i], s.history);
    }
  }

  // ---- complete runs ----

  // Exactly the sequences 1 to n were recorded and every call has returned.
  predicate Complete(s: State, n: nat) {
    && s.writers == map[]
    && (forall q :: 1 <= q <= n ==> Recorded(s, q))
    && (forall e :: e in s.history ==> 1 <= e.sequence <= n)
  }

  lemma CompleteCommitted(s: State, n: nat)
    requires OrderInv(s) && Complete(s, n)
    ensures s.header.committed == n
    ensures forall q :: 1 <= q <= n ==> q in s.finished
  {
    hide Inv, AllInPlace, SlotOf;
    forall q | 1 <= q <= n
      ensures q in s.finished
    {
      assert Recorded(s, q);
      var e :| e in s.history && e.sequence == q;
      assert HistoryGood(s, e);
    }
    if n > 0 {
      assert n in s.finished;
    }
    if s.header.committed != 0 {
      var e :| e in s.history && e.sequence == s.header.committed;
    }
  }

  lemma CompleteSlot(s: State, n: nat, q: nat)
    requires OrderInv(s) && Complete(s, n)
    requires 0 < q <= n < q + s.capacity
    requires FileOk(FileOf(s))
    ensures Accepted(FileOf(s), q)
    ensures ShowsOne(Taken(FileOf(s), q), s.history, q)
  {
    CompleteCommitted(s, n);
    InvParts(s);
    var i := SlotOf(s.capacity, q);
    assert SlotGood(s.slots[i], s.history);
    hide Inv, SlotOf, Image, SequenceOf, Bounded, Power256, AllGood, Books;
    assert Recorded(s, q);
    var e :| e in s.history && e.sequence == q;
    assert InPlace(s, e);
    assert !Recorded(s, q + s.capacity);
    SequenceOfImage(e);
    BoundedImage(e);
    assert Shows(Taken(FileOf(s), q), e);
  }

  // The records are those of the events from sequence low on, whole and in order.
  predicate WholeFrom(window: seq<Read>, history: set<Event>, low: nat) {
    forall k :: 0 <= k < |window| ==> ShowsOne(window[k], history, low + k)
  }

  lemma {:induction false} CompleteRecords(s: State, n: nat, first: nat, end: nat)
    requires OrderInv(s) && Complete(s, n) && FileOk(FileOf(s))
    requires 0 < first <= end <= n + 1 && n < first + s.capacity
    ensures |Records(FileOf(s), first, end)| == end - first
    ensures WholeFrom(Records(FileOf(s), first, end), s.history, first)
    decreases end
  {
    hide Inv, SlotOf, AllGood, Books, AllInPlace, Accepted, Taken, Complete, FileOk, ShowsOne, WholeFrom;
    if end == first {
      NoneWhole(s.history, first);
    } else {
      CompleteRecords(s, n, first, end - 1);
      CompleteSlot(s, n, end - 1);
      WholeMore(Records(FileOf(s), first, end - 1), Taken(FileOf(s), end - 1), s.history, first);
    }
  }

  // The record is the complete image of a recorded event with sequence q.
  predicate ShowsOne(r: Read, history: set<Event>, q: nat) {
    exists e :: Shows(r, e) && e in history && e.sequence == q
  }

  lemma WholeMore(before: seq<Read>, r: Read, history: set<Event>, low: nat)
    requires WholeFrom(before, history, low)
    requires ShowsOne(r, history, low + |before|)
    ensures WholeFrom(before + [r], history, low)
  {
    hide ShowsOne;
  }

  lemma WindowWhole(s: State, n: nat)
    requires OrderInv(s) && Complete(s, n) && FileOk(FileOf(s)) && s.header.committed == n
    ensures |Window(FileOf(s))| == Min(n, s.capacity)
    ensures WholeFrom(Window(FileOf(s)), s.history, n - Min(n, s.capacity) + 1)
  {
    hide Inv, OrderInv, Complete, Records, FileOk, Books, AllGood, AllInPlace, WholeFrom;
    var f := FileOf(s);
    if First(f) != 0 {
      CompleteRecords(s, n, First(f), n + 1);
    } else {
      NoneWhole(s.history, 1);
    }
  }

  lemma NoneWhole(history: set<Event>, low: nat)
    ensures WholeFrom([], history, low)
  {
  }

  /** When the calls for sequences 1 to n ran in order and returned, the window is the last min(n, capacity)
      events, complete and in order, and nothing is lost. */
  lemma CompleteWindow(capacity: nat, steps: seq<Action>, t: State, n: nat)
    requires capacity > 0
    requires Inv(Opened(capacity)) && OrderedRun(Opened(capacity), steps, t) && Complete(t, n)
    ensures FileOk(FileOf(t)) && t.header.committed == n && t.header.dropped == 0
    ensures |Window(FileOf(t))| == WindowLength(FileOf(t)) == Min(n, capacity)
    ensures WholeFrom(Window(FileOf(t)), t.history, n - Min(n, capacity) + 1)
  {
    hide Inv, OrderedRun, Complete, Window, WholeFrom, FileOk, Books, AllGood, AllInPlace, Opened;
    OpenedOrdered(capacity);
    RunOrdered(Opened(capacity), steps, t);
    CapacityStays(Opened(capacity), steps, t);
    OpenedCapacity(capacity);
    SnapshotReadable(t);
    CompleteCommitted(t, n);
    NothingDropped(t);
    WindowWhole(t, n);
  }

  lemma OpenedCapacity(capacity: nat)
    requires capacity > 0
    ensures Opened(capacity).capacity == capacity
  {
  }

  lemma NothingDropped(s: State)
    requires Inv(s)
    ensures s.header.dropped == 0
  {
  }

  lemma {:induction false} CapacityStays(s: State, steps: seq<Action>, t: State)
    requires Inv(s) && OrderedRun(s, steps, t)
    ensures t.capacity == s.capacity
    decreases |steps|
  {
    hide Inv, Enabled, InOrder, AdvanceSlot, AdvanceMax, AdvanceCrashing;
    if steps == [] {
    } else {
      StepKeeps(s, steps[0]);
      CapacityStep(s, steps[0]);
      CapacityStays(Effect(s, steps[0]), steps[1..], t);
    }
  }

  lemma CapacityStep(s: State, a: Action)
    requires Inv(s) && Enabled(s, a)
    ensures Effect(s, a).capacity == s.capacity
  {
    hide Image, Stores, SlotOf, Power256, Apply;
    if a.Advance? {
      assert WriterGood(s, s.writers[a.w]);
    }
  }
}
