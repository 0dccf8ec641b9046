/** The plugin host: loading in fixed order, event dispatch with re-entrant calls, and shutdown. Everything a plugin
    or the loader may do is an arbitrary script; what the host does to the modules is recorded in a trace. */
module PluginHosting {

  // ---- descriptors ----

  datatype Text = Text(isNull: bool, value: string)

  datatype Descriptor = Descriptor(
    complete: bool, abi: nat, kind: nat, id: Text, name: Text, initialize: bool, shutdown: bool,
    configureCap: bool, evaluateCap: bool, observeCap: bool, unknownCap: bool,
    configure: bool, evaluate: bool, observe: bool)

  datatype Expected = Expected(id: string, kind: nat)

  const ABI_VERSION := 0x00010000
  const TEXT_LIMIT := 512

  function ExpectedPlugins(): seq<Expected> {
    [Expected("org.shadps4.graphics_lab.trace_probe", 3),
     Expected("org.shadps4.graphics_lab.vulkan_lab", 2),
     Expected("org.shadps4.graphics_lab.safe_gpu", 1)]
  }

  predicate ValidRequiredString(t: Text) {
    !t.isNull && 0 < |t.value| <= TEXT_LIMIT
  }

  datatype Rejection =
    | Truncated | WrongAbi | WrongKind | InvalidText | WrongId | MissingLifecycle | UnknownCapability
    | MissingConfigure | MissingEvaluate | MissingObserve | Accepted

  // The first reason to reject a descriptor.
  function ValidateDescriptor(e: Expected, d: Descriptor): Rejection {
    if !d.complete then Truncated
    else if d.abi != ABI_VERSION then WrongAbi
    else if d.kind != e.kind then WrongKind
    else if !ValidRequiredString(d.id) || !ValidRequiredString(d.name) then InvalidText
    else if d.id.value != e.id then WrongId
    else if !d.initialize || !d.shutdown then MissingLifecycle
    else if d.unknownCap then UnknownCapability
    else if d.configureCap && !d.configure then MissingConfigure
    else if d.evaluateCap && !d.evaluate then MissingEvaluate
    else if d.observeCap && !d.observe then MissingObserve
    else Accepted
  }

  // A text that is there and has between 1 and 512 characters.
  predicate ShortText(t: Text) {
    !t.isNull && 1 <= |t.value| && |t.value| < 513
  }

  /** A descriptor is accepted exactly when it is whole, is that of the expected plugin for this interface version, and
      has its lifecycle and every callback that one of its capabilities promises. */
  lemma AcceptedIff(e: Expected, d: Descriptor)
    ensures ValidateDescriptor(e, d) == Accepted <==>
      && d.complete && d.abi == 65536 && d.kind == e.kind && ShortText(d.id) && ShortText(d.name) && d.id.value == e.id
      && d.initialize && d.shutdown && !d.unknownCap
      && (d.configureCap ==> d.configure) && (d.evaluateCap ==> d.evaluate) && (d.observeCap ==> d.observe)
  {
  }

  // ---- what plugins do ----

  /** What happens around one attempt to load a module and in its callbacks: how often the plugin emits events from
      each callback, and where it fails or throws. */
  datatype Script = Script(
    copied: bool, opens: bool, hasQuery: bool, queryOk: bool, descriptor: Descriptor,
    initEmits: nat, initOk: bool, observeEmits: nat -> nat, observeThrows: nat -> bool, stopEmits: nat)

  datatype Call =
    | Open(m: nat)
    | Close(m: nat)
    | InitBegin(m: nat)
    | InitEnd(m: nat, ok: bool)
    | StopBegin(m: nat)
    | StopEnd(m: nat)
    | Observe(m: nat, sequence: nat)
    | Published(sequence: nat)

  // ---- the life of one module ----

  datatype Life = Unopened | Idle | Initializing | Live | Stopping | Stopped | Closed | Broken

  predicate Concerns(c: Call, m: nat) {
    !c.Published? && c.m == m
  }

  /** The calls a module may receive: observe only between a successful initialize and the return of shutdown, and
      one close, never while it is live. Anything else breaks the discipline for good. */
  function NextLife(l: Life, c: Call): Life {
    match c
    case Open(_) => if l == Unopened then Idle else Broken
    case Close(_) => if l == Idle || l == Stopped then Closed else Broken
    case InitBegin(_) => if l == Idle then Initializing else Broken
    case InitEnd(_, ok) => if l == Initializing then (if ok then Live else Idle) else Broken
    case StopBegin(_) => if l == Live then Stopping else Broken
    case StopEnd(_) => if l == Stopping then Stopped else Broken
    case Observe(_, _) => if l == Live || l == Stopping then l else Broken
    case Published(_) => l
  }

  function LifeOf(trace: seq<Call>, m: nat): Life {
    if trace == [] then Unopened
    else
      var before := LifeOf(trace[..|trace| - 1], m);
      var c := trace[|trace| - 1];
      if Concerns(c, m) then NextLife(before, c) else before
  }

  lemma LifeMore(trace: seq<Call>, c: Call, m: nat)
    ensures LifeOf(trace + [c], m) == if Concerns(c, m) then NextLife(LifeOf(trace, m), c) else LifeOf(trace, m)
  {
    assert (trace + [c])[..|trace|] == trace;
  }

  // ---- loaded plugins ----

  datatype Plugin = Plugin(m: nat, id: string, observes: bool, initialized: bool)

  // The observe calls of one event: every initialized observer once, in load order.
  function Deliveries(loaded: seq<Plugin>, sequence: nat): seq<Call> {
    if loaded == [] then []
    else
      var p := loaded[|loaded| - 1];
      Deliveries(loaded[..|loaded| - 1], sequence)
      + (if p.initialized && p.observes then [Observe(p.m, sequence)] else [])
  }

  predicate NoneThrows(loaded: seq<Plugin>, scripts: nat -> Script, sequence: nat) {
    forall k :: 0 <= k < |loaded| && loaded[k].initialized && loaded[k].observes ==>
      !scripts(loaded[k].m).observeThrows(sequence)
  }

  // Modules of initialized plugins may be observed.
  ghost predicate Observable(trace: seq<Call>, loaded: seq<Plugin>) {
    forall k :: 0 <= k < |loaded| && loaded[k].initialized ==> LifeOf(trace, loaded[k].m) in {Live, Stopping}
  }

  // The trace went on without changing the life of any module.
  ghost predicate SameLives(a: seq<Call>, b: seq<Call>) {
    forall m: nat :: LifeOf(a, m) == LifeOf(b, m)
  }

  lemma ObserveSame(trace: seq<Call>, m: nat, sequence: nat)
    requires LifeOf(trace, m) in {Live, Stopping}
    ensures SameLives(trace, trace + [Observe(m, sequence)])
  {
    forall i: nat
      ensures LifeOf(trace, i) == LifeOf(trace + [Observe(m, sequence)], i)
    {
      LifeMore(trace, Observe(m, sequence), i);
    }
  }

  lemma PublishedSame(trace: seq<Call>, sequence: nat)
    ensures SameLives(trace, trace + [Published(sequence)])
  {
    forall i: nat
      ensures LifeOf(trace, i) == LifeOf(trace + [Published(sequence)], i)
    {
      LifeMore(trace, Published(sequence), i);
    }
  }

  ghost predicate AllLive(trace: seq<Call>, loaded: seq<Plugin>) {
    && (forall k :: 0 <= k < |loaded| ==> loaded[k].initialized && LifeOf(trace, loaded[k].m) == Live)
    && (forall j, k :: 0 <= j < k < |loaded| ==> loaded[j].m != loaded[k].m)
  }

  predicate HasModule(loaded: seq<Plugin>, m: nat) {
    exists k :: 0 <= k < |loaded| && loaded[k].m == m
  }

  ghost predicate OthersClosed(trace: seq<Call>, loaded: seq<Plugin>, attempts: nat) {
    forall m: nat ::
      && (m >= attempts ==> LifeOf(trace, m) == Unopened)
      && (!HasModule(loaded, m) ==> LifeOf(trace, m) in {Unopened, Closed})
  }

  // The numbers of the published events, or the modules whose shutdown began, in the order of the trace.
  datatype Pick = Numbers | Stops

  function Picked(calls: seq<Call>, pick: Pick): seq<nat> {
    if calls == [] then []
    else
      var c := calls[|calls| - 1];
      Picked(calls[..|calls| - 1], pick)
      + (if pick.Numbers? && c.Published? then [c.sequence] else if pick.Stops? && c.StopBegin? then [c.m] else [])
  }

  lemma {:induction false} PickedConcat(a: seq<Call>, b: seq<Call>, pick: Pick)
    ensures Picked(a + b, pick) == Picked(a, pick) + Picked(b, pick)
  {
    if b == [] {
      assert a + b == a;
    } else {
      assert (a + b)[..|a + b| - 1] == a + b[..|b| - 1];
      PickedConcat(a, b[..|b| - 1], pick);
    }
  }

  lemma {:induction false} DeliveriesPicked(loaded: seq<Plugin>, sequence: nat, pick: Pick)
    ensures Picked(Deliveries(loaded, sequence), pick) == []
  {
    if loaded == [] {
    } else {
      var k := |loaded| - 1;
      DeliveriesPicked(loaded[..k], sequence, pick);
      if loaded[k].initialized && loaded[k].observes {
        PickedConcat(Deliveries(loaded[..k], sequence), [Observe(loaded[k].m, sequence)], pick);
        PickedOne(Observe(loaded[k].m, sequence), pick);
      } else {
        assert Deliveries(loaded, sequence) == Deliveries(loaded[..k], sequence);
      }
    }
  }

  // What one accepted event adds to the picked values.
  lemma EventPicked(trace: seq<Call>, loaded: seq<Plugin>, sequence: nat)
    ensures var after := trace + [Published(sequence)] + Deliveries(loaded, sequence);
            Picked(after, Numbers) == Picked(trace, Numbers) + [sequence]
            && Picked(after, Stops) == Picked(trace, Stops)
  {
    PickedConcat(trace + [Published(sequence)], Deliveries(loaded, sequence), Numbers);
    PickedConcat(trace + [Published(sequence)], Deliveries(loaded, sequence), Stops);
    DeliveriesPicked(loaded, sequence, Numbers);
    DeliveriesPicked(loaded, sequence, Stops);
    PickedOne(Published(sequence), Numbers);
    PickedOne(Published(sequence), Stops);
    PickedConcat(trace, [Published(sequence)], Numbers);
    PickedConcat(trace, [Published(sequence)], Stops);
  }

  // from + 1, from + 2, ... from + n
  function Following(from: nat, n: nat): (s: seq<nat>)
    ensures |s| == n && forall i :: 0 <= i < n ==> s[i] == from + 1 + i
  {
    seq(n, i requires 0 <= i < n => from + 1 + i)
  }

  // From a to b the trace went on with events numbered consecutively, and stops modules began to shut down.
  ghost predicate Continues(a: seq<Call>, from: nat, b: seq<Call>, number: nat, stops: seq<nat>) {
    && from <= number
    && Picked(b, Numbers) == Picked(a, Numbers) + Following(from, number - from)
    && Picked(b, Stops) == Picked(a, Stops) + stops
  }

  lemma ContinuesNone(a: seq<Call>, from: nat)
    ensures Continues(a, from, a, from, [])
  {
  }

  // All modules but one have the life they had.
  ghost predicate SameBut(a: seq<Call>, b: seq<Call>, m: nat) {
    forall i: nat :: i != m ==> LifeOf(b, i) == LifeOf(a, i)
  }

  lemma StepLife(trace: seq<Call>, c: Call)
    requires !c.Published?
    ensures LifeOf(trace + [c], c.m) == NextLife(LifeOf(trace, c.m), c)
    ensures forall i: nat :: i != c.m ==> LifeOf(trace + [c], i) == LifeOf(trace, i)
  {
    LifeMore(trace, c, c.m);
    forall i: nat | i != c.m
      ensures LifeOf(trace + [c], i) == LifeOf(trace, i)
    {
      LifeMore(trace, c, i);
    }
  }

  lemma ContinuesTrans(a: seq<Call>, from: nat, b: seq<Call>, mid: nat, c: seq<Call>, number: nat,
                       s: seq<nat>, t: seq<nat>)
    requires Continues(a, from, b, mid, s) && Continues(b, mid, c, number, t)
    ensures Continues(a, from, c, number, s + t)
  {
    hide Picked;
    assert Following(from, mid - from) + Following(mid, number - mid) == Following(from, number - from);
  }

  lemma ContinuesQuiet(a: seq<Call>, from: nat, b: seq<Call>, mid: nat, c: seq<Call>, number: nat, s: seq<nat>)
    requires Continues(a, from, b, mid, s) && Continues(b, mid, c, number, [])
    ensures Continues(a, from, c, number, s)
  {
    hide Continues;
    ContinuesTrans(a, from, b, mid, c, number, s, []);
    assert s + [] == s;
  }

  lemma PickedOne(c: Call, pick: Pick)
    ensures Picked([c], pick)
         == if pick.Numbers? && c.Published? then [c.sequence] else if pick.Stops? && c.StopBegin? then [c.m] else []
  {
    assert [c][..0] == [];
    assert Picked([], pick) == [];
  }

  lemma ContinuesCall(a: seq<Call>, from: nat, c: Call)
    requires !c.Published?
    ensures Continues(a, from, a + [c], from, if c.StopBegin? then [c.m] else [])
  {
    PickedOne(c, Numbers);
    PickedOne(c, Stops);
    PickedConcat(a, [c], Numbers);
    PickedConcat(a, [c], Stops);
  }

  // ---- what a session loads ----

  // Everything about the attempt goes well, up to the initialize callback itself.
  ghost predicate Reached(e: Expected, s: Script) {
    s.copied && s.opens && s.hasQuery && s.queryOk && ValidateDescriptor(e, s.descriptor) == Accepted
  }

  ghost predicate Passes(e: Expected, s: Script) {
    Reached(e, s) && s.initOk
  }

  // How many of the first i plugins are present.
  function PresentBefore(present: seq<bool>, i: nat): (n: nat)
    requires i <= |present|
    ensures n <= i
  {
    if i == 0 then 0 else PresentBefore(present, i - 1) + (if present[i - 1] then 1 else 0)
  }

  // The attempt at an expected plugin: those present are tried in turn, each in a module of its own.
  function ModuleOf(first: nat, present: seq<bool>, i: nat): nat
    requires i <= |present|
  {
    first + PresentBefore(present, i)
  }

  function AsLoaded(scripts: nat -> Script, m: nat): Plugin {
    Plugin(m, scripts(m).descriptor.id.value, scripts(m).descriptor.observeCap, true)
  }

  // The plugins loaded among the first i: those present whose attempt passes, in the fixed order.
  ghost function Survivors(scripts: nat -> Script, first: nat, present: seq<bool>, i: nat): seq<Plugin>
    requires i <= |present| <= |ExpectedPlugins()|
  {
    if i == 0 then []
    else
      var m := ModuleOf(first, present, i - 1);
      Survivors(scripts, first, present, i - 1)
      + (if present[i - 1] && Passes(ExpectedPlugins()[i - 1], scripts(m)) then [AsLoaded(scripts, m)] else [])
  }

  ghost predicate AllPass(scripts: nat -> Script, first: nat, present: seq<bool>, i: nat)
    requires i <= |present| <= |ExpectedPlugins()|
  {
    forall j :: 0 <= j < i && present[j] ==> Passes(ExpectedPlugins()[j], scripts(ModuleOf(first, present, j)))
  }

  function Ids(loaded: seq<Plugin>): seq<string> {
    seq(|loaded|, k requires 0 <= k < |loaded| => loaded[k].id)
  }

  // Ids of the expected plugins before the i-th, among which all loaded ones are.
  ghost predicate IdsBefore(ids: set<string>, i: nat)
    requires i <= |ExpectedPlugins()|
  {
    forall id :: id in ids ==> exists j :: 0 <= j < i && ExpectedPlugins()[j].id == id
  }

  lemma NewId(ids: set<string>, i: nat, s: Script)
    requires i < |ExpectedPlugins()| && IdsBefore(ids, i)
    requires ValidateDescriptor(ExpectedPlugins()[i], s.descriptor) == Accepted
    ensures s.descriptor.id.value == ExpectedPlugins()[i].id && s.descriptor.id.value !in ids
    ensures IdsBefore(ids + {s.descriptor.id.value}, i + 1)
  {
    assert "org.shadps4.graphics_lab.trace_probe"[25] == 't';
    assert "org.shadps4.graphics_lab.vulkan_lab"[25] == 'v';
    assert "org.shadps4.graphics_lab.safe_gpu"[25] == 's';
  }

  lemma MoreIds(ids: set<string>, i: nat)
    requires i < |ExpectedPlugins()| && IdsBefore(ids, i)
    ensures IdsBefore(ids, i + 1)
  {
  }

  /** With all three plugins present and well, the trace probe is loaded first, then the Vulkan lab, then the safe GPU. */
  lemma AllLoaded(scripts: nat -> Script, first: nat, present: seq<bool>)
    requires present == [true, true, true] && AllPass(scripts, first, present, 3)
    ensures Ids(Survivors(scripts, first, present, 3)) ==
            ["org.shadps4.graphics_lab.trace_probe", "org.shadps4.graphics_lab.vulkan_lab",
             "org.shadps4.graphics_lab.safe_gpu"]
  {
    assert PresentBefore(present, 1) == 1 && PresentBefore(present, 2) == 2;
    forall j | 0 <= j < 3
      ensures Passes(ExpectedPlugins()[j], scripts(first + j))
      ensures AsLoaded(scripts, first + j).id == ExpectedPlugins()[j].id
    {
      assert ModuleOf(first, present, j) == first + j;
    }
    hide Passes, AsLoaded;
    assert Survivors(scripts, first, present, 1) == [AsLoaded(scripts, first)];
    assert Survivors(scripts, first, present, 2) == [AsLoaded(scripts, first), AsLoaded(scripts, first + 1)];
  }

  // An id is never taken already, so an attempt succeeds exactly when it passes.
  lemma PassesIff(ids: set<string>, i: nat, s: Script)
    requires i < |ExpectedPlugins()| && IdsBefore(ids, i)
    ensures Passes(ExpectedPlugins()[i], s)
            <==> s.copied && s.opens && s.hasQuery && s.queryOk && s.initOk
                 && ValidateDescriptor(ExpectedPlugins()[i], s.descriptor) == Accepted && s.descriptor.id.value !in ids
    ensures IdsBefore(ids, i + 1)
    ensures Passes(ExpectedPlugins()[i], s) ==> IdsBefore(ids + {s.descriptor.id.value}, i + 1)
  {
    hide ValidateDescriptor, ExpectedPlugins;
    MoreIds(ids, i);
    if ValidateDescriptor(ExpectedPlugins()[i], s.descriptor) == Accepted {
      NewId(ids, i, s);
    }
  }

  // How many events an attempt to load publishes: those of the initialize callback, and one when it was loaded.
  ghost function LoadEvents(e: Expected, s: Script): nat {
    if Reached(e, s) then s.initEmits + (if s.initOk then 1 else 0) else 0
  }

  // How many events a shutdown publishes: an announcement and those of the callback for every plugin from k on.
  function StopEvents(scripts: nat -> Script, loaded: seq<Plugin>, k: nat): nat
    requires k <= |loaded|
    decreases |loaded| - k
  {
    if k == |loaded| then 0 else StopEvents(scripts, loaded, k + 1) + 1 + scripts(loaded[k].m).stopEmits
  }

  class PluginHost {
    const scripts: nat -> Script
    var loaded: seq<Plugin>
    var loadedIds: set<string>
    var eventSequence: nat
    var dispatching: bool
    var attempts: nat
    ghost var trace: seq<Call>

    constructor (scripts: nat -> Script)
      ensures Settled() && loaded == [] && trace == []
    {
      this.scripts := scripts;
      loaded, loadedIds, eventSequence, dispatching, attempts, trace := [], {}, 0, false, 0, [];
    }

    /** Between calls of the host: loaded plugins are live, each in its own module, and every other module was never
        opened or has been closed. */
    ghost predicate Settled()
      reads this
    {
      !dispatching && AllLive(trace, loaded) && OthersClosed(trace, loaded, attempts)
    }

    // An observer runs; it may emit events, all of which are refused.
    method CallObserve(p: Plugin, sequence: nat) returns (threw: bool)
      requires dispatching && Observable(trace, loaded) && LifeOf(trace, p.m) in {Live, Stopping}
      modifies this`trace, this`eventSequence, this`dispatching
      ensures dispatching && eventSequence == old(eventSequence)
      ensures trace == old(trace) + [Observe(p.m, sequence)] && SameLives(old(trace), trace)
      ensures threw == scripts(p.m).observeThrows(sequence)
      decreases 1
    {
      ObserveSame(trace, p.m, sequence);
      trace := trace + [Observe(p.m, sequence)];
      ghost var after := trace;
      for i := 0 to scripts(p.m).observeEmits(sequence)
        invariant trace == after && dispatching && eventSequence == old(eventSequence)
      {
        var accepted := PublishEvent(true);
        assert !accepted;
      }
      threw := scripts(p.m).observeThrows(sequence);
    }

    /** PublishEvent: a truncated event and an event from inside an observer are refused without effect. Any other
        gets the next sequence number and reaches each initialized observer once, in load order. */
    method PublishEvent(complete: bool) returns (success: bool)
      requires Observable(trace, loaded)
      modifies this`trace, this`eventSequence, this`dispatching
      ensures dispatching == old(dispatching) && SameLives(old(trace), trace)
      ensures !complete || old(dispatching) ==>
                !success && trace == old(trace) && eventSequence == old(eventSequence)
      ensures complete && !old(dispatching) ==>
                && eventSequence == old(eventSequence) + 1
                && trace == old(trace) + [Published(eventSequence)] + Deliveries(loaded, eventSequence)
                && (success <==> NoneThrows(loaded, scripts, eventSequence))
      decreases if dispatching then 0 else 2
    {
      if !complete || dispatching {
        return false;
      }
      eventSequence := eventSequence + 1;
      var sequence := eventSequence;
      PublishedSame(trace, sequence);
      trace := trace + [Published(sequence)];
      ghost var start := trace;
      dispatching := true;
      success := true;
      for k := 0 to |loaded|
        invariant dispatching && eventSequence == sequence
        invariant SameLives(old(trace), trace)
        invariant trace == start + Deliveries(loaded[..k], sequence)
        invariant success <==> NoneThrows(loaded[..k], scripts, sequence)
      {
        var p := loaded[k];
        assert loaded[..k + 1][..k] == loaded[..k];
        NoneThrowsMore(loaded, scripts, sequence, k);
        if p.initialized && p.observes {
          assert LifeOf(old(trace), p.m) in {Live, Stopping};
          var threw := CallObserve(p, sequence);
          if threw {
            success := false;
          }
        }
      }
      assert loaded[..|loaded|] == loaded;
      dispatching := false;
    }

    // Some number of events from a plugin callback outside dispatch.
    method Emits(n: nat)
      requires Observable(trace, loaded) && !dispatching
      modifies this`trace, this`eventSequence, this`dispatching
      ensures !dispatching && SameLives(old(trace), trace)
      ensures eventSequence == old(eventSequence) + n
      ensures Continues(old(trace), old(eventSequence), trace, eventSequence, [])
    {
      ContinuesNone(trace, eventSequence);
      for i := 0 to n
        invariant !dispatching && SameLives(old(trace), trace)
        invariant eventSequence == old(eventSequence) + i
        invariant Continues(old(trace), old(eventSequence), trace, eventSequence, [])
      {
        PublishOne();
      }
    }

    method PublishOne()
      requires Observable(trace, loaded) && !dispatching
      modifies this`trace, this`eventSequence, this`dispatching
      ensures !dispatching && SameLives(old(trace), trace) && eventSequence == old(eventSequence) + 1
      ensures forall a, from :: Continues(a, from, old(trace), old(eventSequence), [])
                           ==> Continues(a, from, trace, eventSequence, [])
      ensures Continues(old(trace), old(eventSequence), trace, eventSequence, [])
    {
      hide LifeOf, Picked, Deliveries;
      ghost var was := trace;
      var r := PublishEvent(true);
      EventPicked(was, loaded, eventSequence);
      assert Following(old(eventSequence), 1) == [eventSequence];
      forall a, from | Continues(a, from, was, old(eventSequence), [])
        ensures Continues(a, from, trace, eventSequence, [])
      {
        ContinuesQuiet(a, from, was, old(eventSequence), trace, eventSequence, []);
      }
    }

    // A call to a module that is neither an event nor the start of a shutdown.
    ghost method Record(c: Call)
      requires !c.Published? && !c.StopBegin?
      modifies this`trace
      ensures trace == old(trace) + [c]
      ensures LifeOf(trace, c.m) == NextLife(LifeOf(old(trace), c.m), c) && SameBut(old(trace), trace, c.m)
      ensures Continues(old(trace), eventSequence, trace, eventSequence, [])
    {
      StepLife(trace, c);
      ContinuesCall(trace, eventSequence, c);
      trace := trace + [c];
    }

    // Opening the module and checking what it offers; a module that is refused is closed again.
    method OpenAndQuery(e: Expected, s: Script, m: nat) returns (ok: bool)
      requires LifeOf(trace, m) == Unopened
      modifies this`trace
      ensures ok <==> s.copied && s.opens && s.hasQuery && s.queryOk
                      && ValidateDescriptor(e, s.descriptor) == Accepted && s.descriptor.id.value !in loadedIds
      ensures LifeOf(trace, m) == if ok then Idle else if s.copied && s.opens then Closed else Unopened
      ensures SameBut(old(trace), trace, m)
      ensures Continues(old(trace), eventSequence, trace, eventSequence, [])
    {
      hide LifeOf, Continues, ValidateDescriptor;
      ContinuesNone(trace, eventSequence);
      if !s.copied || !s.opens {
        return false;
      }
      ghost var was := trace;
      Record(Open(m));
      ghost var afterOpen := trace;
      if !s.hasQuery || !s.queryOk || ValidateDescriptor(e, s.descriptor) != Accepted
         || s.descriptor.id.value in loadedIds
      {
        Record(Close(m));
        ContinuesQuiet(was, eventSequence, afterOpen, eventSequence, trace, eventSequence, []);
        return false;
      }
      return true;
    }

    // The plugin's initialize callback, which may emit events to the plugins already loaded.
    method RunInitialize(s: Script, m: nat)
      requires !dispatching && AllLive(trace, loaded) && !HasModule(loaded, m) && LifeOf(trace, m) == Idle
      modifies this`trace, this`eventSequence, this`dispatching
      ensures !dispatching && eventSequence == old(eventSequence) + s.initEmits
      ensures LifeOf(trace, m) == (if s.initOk then Live else Idle) && SameBut(old(trace), trace, m)
      ensures Continues(old(trace), old(eventSequence), trace, eventSequence, [])
    {
      hide LifeOf, Continues;
      ghost var start, from := trace, eventSequence;
      Record(InitBegin(m));
      ghost var begun := trace;
      SameButLive(start, begun, loaded, m);
      Emits(s.initEmits);
      ghost var emitted, number := trace, eventSequence;
      ContinuesQuiet(start, from, begun, from, emitted, number, []);
      Record(InitEnd(m, s.initOk));
      ContinuesQuiet(start, from, emitted, number, trace, number, []);
    }

    /** LoadOne: the next attempt to load a plugin. It ends with the plugin at the end of the load order, or with the
        module closed and nothing else changed; the plugin may emit events while it initializes. */
    method LoadOne(e: Expected) returns (ok: bool)
      requires Settled()
      modifies this
      ensures Settled() && attempts == old(attempts) + 1
      ensures scripts(old(attempts)).descriptor.id.value !in old(loadedIds) ==>
                eventSequence == old(eventSequence) + LoadEvents(e, scripts(old(attempts)))
      ensures Continues(old(trace), old(eventSequence), trace, eventSequence, [])
      ensures var s := scripts(old(attempts));
              && (ok <==> s.copied && s.opens && s.hasQuery && s.queryOk && s.initOk
                          && ValidateDescriptor(e, s.descriptor) == Accepted
                          && s.descriptor.id.value !in old(loadedIds))
              && loaded == (if ok then
                              old(loaded) + [Plugin(old(attempts), s.descriptor.id.value, s.descriptor.observeCap, true)]
                            else old(loaded))
              && loadedIds == (if ok then old(loadedIds) + {s.descriptor.id.value} else old(loadedIds))
    {
      hide LifeOf, Continues, ValidateDescriptor, SameLives, AllLive, OthersClosed, HasModule;
      var m := attempts;
      var s := scripts(m);
      ghost var start, from := trace, eventSequence;
      NotLoadedYet(trace, loaded, attempts);
      var found := OpenAndQuery(e, s, m);
      attempts := attempts + 1;
      if !found {
        StillSettled(start, trace, loaded, m);
        return false;
      }
      ghost var idle := trace;
      SameButLive(start, idle, loaded, m);
      var id := s.descriptor.id.value;
      loadedIds := loadedIds + {id};
      RunInitialize(s, m);
      ghost var ended, number := trace, eventSequence;
      ContinuesQuiet(start, from, idle, from, ended, number, []);
      if !s.initOk {
        loadedIds := loadedIds - {id};
        Record(Close(m));
        ContinuesQuiet(start, from, ended, number, trace, number, []);
        StillSettled(start, trace, loaded, m);
        return false;
      }
      ghost var p := Plugin(m, id, s.descriptor.observeCap, true);
      NowLive(start, trace, loaded, p);
      loaded := loaded + [Plugin(m, id, s.descriptor.observeCap, true)];
      LiveObservable(trace, loaded);
      PublishOne();
      ContinuesQuiet(start, from, ended, number, trace, eventSequence, []);
      SettledThrough(ended, trace, loaded, attempts);
      return true;
    }

    // The plugin's shutdown callback; the plugin itself may still observe what it emits there.
    method RunShutdown(p: Plugin, k: nat)
      requires k < |loaded| && loaded[k] == p && p.initialized && LifeOf(trace, p.m) == Live
      requires !dispatching && Observable(trace, loaded)
      modifies this`trace, this`eventSequence, this`dispatching
      ensures !dispatching && eventSequence == old(eventSequence) + scripts(p.m).stopEmits
      ensures LifeOf(trace, p.m) == Stopped && SameBut(old(trace), trace, p.m)
      ensures Continues(old(trace), old(eventSequence), trace, eventSequence, [p.m])
    {
      hide LifeOf, Continues;
      ghost var start, from := trace, eventSequence;
      StepLife(trace, StopBegin(p.m));
      ContinuesCall(trace, eventSequence, StopBegin(p.m));
      trace := trace + [StopBegin(p.m)];
      ghost var begun := trace;
      Emits(scripts(p.m).stopEmits);
      ghost var emitted, number := trace, eventSequence;
      ContinuesQuiet(start, from, begun, from, emitted, number, [p.m]);
      Record(StopEnd(p.m));
      ContinuesQuiet(start, from, emitted, number, trace, number, [p.m]);
    }

    /** Shutdown: every loaded plugin is announced, shut down and closed, in the reverse of the load order. */
    method Shutdown()
      requires Settled()
      modifies this
      ensures Settled() && loaded == [] && loadedIds == {} && attempts == old(attempts)
      ensures eventSequence == old(eventSequence) + StopEvents(scripts, old(loaded), 0)
      ensures Continues(old(trace), old(eventSequence), trace, eventSequence, ModulesBack(old(loaded), 0))
    {
      hide LifeOf, Continues, SameLives, AllLive, OthersClosed, HasModule;
      ghost var list, start, from := loaded, trace, eventSequence;
      ContinuesNone(trace, eventSequence);
      NothingClosed(trace, list, attempts);
      var k := |loaded|;
      while k > 0
        invariant 0 <= k <= |list| && !dispatching && attempts == old(attempts)
        invariant eventSequence == from + StopEvents(scripts, list, k)
        invariant loaded == HalfClosed(list, k) && PartlyClosed(trace, list, k, attempts)
        invariant Continues(start, from, trace, eventSequence, ModulesBack(list, k))
      {
        k := k - 1;
        ghost var before, number := trace, eventSequence;
        var p := loaded[k];
        assert p == list[k];
        PartlyObservable(trace, list, k + 1, attempts);
        PublishOne();
        ghost var announced, announcedNumber := trace, eventSequence;
        ContinuesQuiet(start, from, before, number, trace, eventSequence, ModulesBack(list, k + 1));
        PartlyThrough(before, announced, list, k + 1, attempts);
        PartlyObservable(trace, list, k + 1, attempts);
        if p.initialized {
          RunShutdown(p, k);
        }
        ContinuesTrans(start, from, announced, announcedNumber, trace, eventSequence, ModulesBack(list, k + 1), [p.m]);
        ModulesBackNext(list, k);
        loaded := loaded[k := p.(initialized := false)];
        ghost var stopped := trace;
        Record(Close(p.m));
        ContinuesQuiet(start, from, stopped, eventSequence, trace, eventSequence, ModulesBack(list, k));
        OneMoreClosed(announced, trace, list, k, attempts);
      }
      AllClosed(trace, list, attempts);
      loaded, loadedIds := [], {};
    }

    /** Initialize: whatever was loaded is shut down first, the numbering starts again, and the plugins that are
        present are tried in their fixed order. Before the numbering restarts, the events of the old session, the
        announcements of its shutdown included, are numbered consecutively; after it the new ones are. */
    method Initialize(enabled: bool, isDirectory: bool, present: seq<bool>, sessionOk: bool)
      returns (success: bool, ghost restart: seq<Call>, ghost lastOld: nat)
      requires Settled() && |present| == |ExpectedPlugins()|
      modifies this
      ensures Settled()
      ensures lastOld == old(eventSequence) + StopEvents(scripts, old(loaded), 0)
      ensures Continues(old(trace), old(eventSequence), restart, lastOld, ModulesBack(old(loaded), 0))
      ensures Continues(restart, 0, trace, eventSequence, [])
      ensures !enabled || !isDirectory || true !in present ==> success && loaded == [] && attempts == old(attempts)
      ensures enabled && isDirectory && true in present && !sessionOk ==>
                !success && loaded == [] && attempts == old(attempts)
      ensures enabled && isDirectory && true in present && sessionOk ==>
                && loaded == Survivors(scripts, old(attempts), present, |present|)
                && (success <==> AllPass(scripts, old(attempts), present, |present|))
                && attempts == ModuleOf(old(attempts), present, |present|)
    {
      hide Continues, ModulesBack;
      Shutdown();
      lastOld := eventSequence;
      eventSequence := 0;
      restart := trace;
      ContinuesNone(trace, 0);
      if !enabled || !isDirectory || true !in present {
        return true, restart, lastOld;
      }
      if !sessionOk {
        return false, restart, lastOld;
      }
      success := true;
      ghost var first := attempts;
      hide Settled, Reached, LoadEvents;
      for i := 0 to |present|
        invariant Settled() && IdsBefore(loadedIds, i)
        invariant Continues(restart, 0, trace, eventSequence, [])
        invariant loaded == Survivors(scripts, first, present, i)
        invariant success <==> AllPass(scripts, first, present, i)
        invariant attempts == ModuleOf(first, present, i)
      {
        if present[i] {
          ghost var before, number, ids, script := trace, eventSequence, loadedIds, scripts(attempts);
          var ok := LoadOne(ExpectedPlugins()[i]);
          PassesIff(ids, i, script);
          ContinuesQuiet(restart, 0, before, number, trace, eventSequence, []);
          success := ok && success;
        }
      }
    }
  }

  // ---- what the discipline means ----

  predicate Calls(trace: seq<Call>, c: Call) {
    exists i :: 0 <= i < |trace| && trace[i] == c
  }

  lemma CallsMore(trace: seq<Call>, c: Call, d: Call)
    ensures Calls(trace + [c], d) <==> Calls(trace, d) || c == d
  {
    var all := trace + [c];
    if Calls(trace, d) {
      var i :| 0 <= i < |trace| && trace[i] == d;
      assert all[i] == d;
    }
    assert all[|trace|] == c;
  }

  lemma {:induction false} LiveMeans(trace: seq<Call>, m: nat)
    ensures LifeOf(trace, m) in {Live, Stopping} ==> Calls(trace, InitEnd(m, true)) && !Calls(trace, StopEnd(m))
    ensures LifeOf(trace, m) in {Unopened, Idle, Initializing} ==> !Calls(trace, StopEnd(m))
  {
    if trace == [] {
    } else {
      var front, c := trace[..|trace| - 1], trace[|trace| - 1];
      assert trace == front + [c];
      LiveMeans(front, m);
      LifeMore(front, c, m);
      CallsMore(front, c, InitEnd(m, true));
      CallsMore(front, c, StopEnd(m));
    }
  }

  lemma {:induction false} BrokenStays(trace: seq<Call>, n: nat, m: nat)
    requires n <= |trace| && LifeOf(trace, m) != Broken
    ensures LifeOf(trace[..n], m) != Broken
  {
    if n == |trace| {
      assert trace[..n] == trace;
    } else {
      var front := trace[..|trace| - 1];
      assert trace == front + [trace[|trace| - 1]];
      LifeMore(front, trace[|trace| - 1], m);
      BrokenStays(front, n, m);
      assert front[..n] == trace[..n];
    }
  }

  /** In a trace of a settled host every observe call of a module comes after its successful initialize and before
      the return of its shutdown. */
  lemma ObservedWhileLive(host: PluginHost, i: nat, m: nat, sequence: nat)
    requires host.Settled() && i < |host.trace| && host.trace[i] == Observe(m, sequence)
    ensures Calls(host.trace[..i], InitEnd(m, true)) && !Calls(host.trace[..i], StopEnd(m))
  {
    var trace := host.trace;
    SettledUnbroken(trace, host.loaded, host.attempts, m);
    BrokenStays(trace, i + 1, m);
    assert trace[..i + 1] == trace[..i] + [trace[i]];
    LifeMore(trace[..i], trace[i], m);
    LiveMeans(trace[..i], m);
  }

  lemma SettledUnbroken(trace: seq<Call>, loaded: seq<Plugin>, attempts: nat, m: nat)
    requires AllLive(trace, loaded) && OthersClosed(trace, loaded, attempts)
    ensures LifeOf(trace, m) != Broken
  {
    hide LifeOf;
    if HasModule(loaded, m) {
      var k :| 0 <= k < |loaded| && loaded[k].m == m;
    }
  }

  function CountOf(trace: seq<Call>, c: Call): nat {
    if trace == [] then 0
    else CountOf(trace[..|trace| - 1], c) + (if trace[|trace| - 1] == c then 1 else 0)
  }

  lemma {:induction false} ClosesCounted(trace: seq<Call>, m: nat)
    requires LifeOf(trace, m) != Broken
    ensures CountOf(trace, Open(m)) == (if LifeOf(trace, m) == Unopened then 0 else 1)
    ensures CountOf(trace, Close(m)) == (if LifeOf(trace, m) == Closed then 1 else 0)
  {
    if trace == [] {
    } else {
      var front, c := trace[..|trace| - 1], trace[|trace| - 1];
      assert trace == front + [c];
      LifeMore(front, c, m);
      ClosesCounted(front, m);
    }
  }

  /** After Shutdown, every module that was ever opened was opened once and has been closed exactly once. */
  lemma ClosedExactlyOnce(host: PluginHost, m: nat)
    requires host.Settled() && host.loaded == []
    ensures CountOf(host.trace, Open(m)) == CountOf(host.trace, Close(m)) <= 1
  {
    assert !HasModule(host.loaded, m);
    ClosesCounted(host.trace, m);
  }

  lemma NoneThrowsMore(loaded: seq<Plugin>, scripts: nat -> Script, sequence: nat, k: nat)
    requires k < |loaded|
    ensures NoneThrows(loaded[..k + 1], scripts, sequence)
       <==> NoneThrows(loaded[..k], scripts, sequence)
            && !(loaded[k].initialized && loaded[k].observes && scripts(loaded[k].m).observeThrows(sequence))
  {
    var a, b := loaded[..k], loaded[..k + 1];
    assert forall j :: 0 <= j < k ==> a[j] == b[j];
    if NoneThrows(b, scripts, sequence) {
      assert b[k] == loaded[k];
    }
  }

  lemma NotLoadedYet(trace: seq<Call>, loaded: seq<Plugin>, attempts: nat)
    requires AllLive(trace, loaded) && OthersClosed(trace, loaded, attempts)
    ensures LifeOf(trace, attempts) == Unopened && !HasModule(loaded, attempts)
  {
    hide LifeOf;
  }

  lemma StillSettled(start: seq<Call>, trace: seq<Call>, loaded: seq<Plugin>, m: nat)
    requires AllLive(start, loaded) && OthersClosed(start, loaded, m)
    requires SameBut(start, trace, m) && LifeOf(trace, m) in {Unopened, Closed}
    ensures AllLive(trace, loaded) && OthersClosed(trace, loaded, m + 1)
  {
    NotLoadedYet(start, loaded, m);
    hide LifeOf;
  }

  lemma SameButLive(start: seq<Call>, trace: seq<Call>, loaded: seq<Plugin>, m: nat)
    requires AllLive(start, loaded) && SameBut(start, trace, m) && !HasModule(loaded, m)
    ensures AllLive(trace, loaded) && Observable(trace, loaded)
  {
    hide LifeOf;
  }

  lemma LiveObservable(trace: seq<Call>, loaded: seq<Plugin>)
    requires AllLive(trace, loaded)
    ensures Observable(trace, loaded)
  {
    hide LifeOf;
  }

  lemma NowLive(start: seq<Call>, trace: seq<Call>, loaded: seq<Plugin>, p: Plugin)
    requires AllLive(start, loaded) && OthersClosed(start, loaded, p.m) && SameBut(start, trace, p.m)
    requires p.initialized && LifeOf(trace, p.m) == Live
    ensures AllLive(trace, loaded + [p]) && OthersClosed(trace, loaded + [p], p.m + 1)
  {
    hide LifeOf;
    var all := loaded + [p];
    assert all[|loaded|] == p;
    forall m: nat
      ensures HasModule(all, m) <==> HasModule(loaded, m) || m == p.m
    {
      if HasModule(loaded, m) {
        var k :| 0 <= k < |loaded| && loaded[k].m == m;
        assert all[k].m == m;
      }
    }
  }

  lemma SettledThrough(a: seq<Call>, b: seq<Call>, loaded: seq<Plugin>, attempts: nat)
    requires AllLive(a, loaded) && OthersClosed(a, loaded, attempts) && SameLives(a, b)
    ensures AllLive(b, loaded) && OthersClosed(b, loaded, attempts)
  {
    hide LifeOf;
  }

  // ---- halfway through a shutdown ----

  // The load order with the plugins from k on no longer initialized.
  function HalfClosed(list: seq<Plugin>, k: nat): (r: seq<Plugin>)
    requires k <= |list|
    ensures |r| == |list|
  {
    seq(|list|, i requires 0 <= i < |list| => if i < k then list[i] else list[i].(initialized := false))
  }

  // The modules from the last down to number k.
  function ModulesBack(list: seq<Plugin>, k: nat): seq<nat>
    requires k <= |list|
  {
    seq(|list| - k, i requires 0 <= i < |list| - k => list[|list| - 1 - i].m)
  }

  ghost predicate PartlyClosed(trace: seq<Call>, list: seq<Plugin>, k: nat, attempts: nat)
    requires k <= |list|
  {
    && (forall i :: 0 <= i < |list| ==> list[i].initialized)
    && (forall i, j :: 0 <= i < j < |list| ==> list[i].m != list[j].m)
    && (forall i :: 0 <= i < k ==> LifeOf(trace, list[i].m) == Live)
    && (forall i :: k <= i < |list| ==> LifeOf(trace, list[i].m) == Closed)
    && OthersClosed(trace, list, attempts)
  }

  lemma NothingClosed(trace: seq<Call>, list: seq<Plugin>, attempts: nat)
    requires AllLive(trace, list) && OthersClosed(trace, list, attempts)
    ensures PartlyClosed(trace, list, |list|, attempts) && HalfClosed(list, |list|) == list
    ensures ModulesBack(list, |list|) == []
  {
    hide LifeOf;
  }

  lemma PartlyObservable(trace: seq<Call>, list: seq<Plugin>, k: nat, attempts: nat)
    requires k <= |list| && PartlyClosed(trace, list, k, attempts)
    ensures Observable(trace, HalfClosed(list, k))
    ensures k > 0 ==>
              HalfClosed(list, k)[k - 1] == list[k - 1] && list[k - 1].initialized
              && LifeOf(trace, list[k - 1].m) == Live
  {
    hide LifeOf;
  }

  lemma PartlyThrough(a: seq<Call>, b: seq<Call>, list: seq<Plugin>, k: nat, attempts: nat)
    requires k <= |list| && PartlyClosed(a, list, k, attempts) && SameLives(a, b)
    ensures PartlyClosed(b, list, k, attempts)
  {
    hide LifeOf;
  }

  lemma OneMoreClosed(a: seq<Call>, b: seq<Call>, list: seq<Plugin>, k: nat, attempts: nat)
    requires k < |list| && PartlyClosed(a, list, k + 1, attempts)
    requires SameBut(a, b, list[k].m) && LifeOf(b, list[k].m) == Closed
    ensures PartlyClosed(b, list, k, attempts)
    ensures HalfClosed(list, k + 1)[k := list[k].(initialized := false)] == HalfClosed(list, k)
  {
    hide LifeOf;
    assert HasModule(list, list[k].m);
    assert list[k].m < attempts;
  }

  lemma AllClosed(trace: seq<Call>, list: seq<Plugin>, attempts: nat)
    requires PartlyClosed(trace, list, 0, attempts)
    ensures AllLive(trace, []) && OthersClosed(trace, [], attempts)
  {
    hide LifeOf;
    forall m: nat
      ensures LifeOf(trace, m) in {Unopened, Closed}
    {
      if HasModule(list, m) {
        var k :| 0 <= k < |list| && list[k].m == m;
      }
    }
  }

  lemma ModulesBackNext(list: seq<Plugin>, k: nat)
    requires k < |list|
    ensures ModulesBack(list, k + 1) + [list[k].m] == ModulesBack(list, k)
  {
  }
}
