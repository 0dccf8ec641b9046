/** The 504 bytes of a flight record behind its committed sequence: the byte stores that Record performs, in order,
    and the image they leave whatever the slot held before. */
module FlightRecord {
  import opened Bits
  import opened LittleEndian
  import opened Sequences

  // An event as the caller hands it over; an empty name or payload stands for a null one as well.
  datatype Event = Event(sequence: nat, timestamp: nat, thread: nat, frame: nat, submission: nat, object_: nat,
                         pipeline: nat, shader: nat, kind: nat, stage: nat, result: nat,
                         name: seq<byte>, payload: seq<byte>)

  const RECORD_BODY := 504
  const NAME_AREA := 128
  const PAYLOAD_AREA := 288

  // ---- the stores ----

  datatype Store = Store(at: nat, value: byte)

  // Storing bs one byte after the other from offset at.
  function Put(at: nat, bs: seq<byte>): (p: seq<Store>)
    ensures |p| == |bs| && forall i :: 0 <= i < |p| ==> p[i] == Store(at + i, bs[i])
  {
    seq(|bs|, i requires 0 <= i < |bs| => Store(at + i, bs[i]))
  }

  function StoreOne(body: seq<byte>, w: Store): (r: seq<byte>)
    ensures |r| == |body|
  {
    if w.at < |body| then body[w.at := w.value] else body
  }

  function Apply(body: seq<byte>, p: seq<Store>): (r: seq<byte>)
    ensures |r| == |body|
  {
    if p == [] then body else StoreOne(Apply(body, p[..|p| - 1]), p[|p| - 1])
  }

  lemma {:induction false} ApplyConcat(body: seq<byte>, p: seq<Store>, q: seq<Store>)
    ensures Apply(body, p + q) == Apply(Apply(body, p), q)
  {
    hide StoreOne;
    if q == [] {
      assert p + q == p;
    } else {
      var k := |q| - 1;
      assert (p + q)[..|p| + k] == p + q[..k];
      ApplyConcat(body, p, q[..k]);
    }
  }

  lemma {:induction false} ApplyPut(body: seq<byte>, at: nat, bs: seq<byte>)
    requires at + |bs| <= |body|
    ensures Apply(body, Put(at, bs)) == body[..at] + bs + body[at + |bs|..]
  {
    if bs == [] {
      assert body[..at] + bs + body[at..] == body;
    } else {
      var k := |bs| - 1;
      assert Put(at, bs)[..k] == Put(at, bs[..k]);
      ApplyPut(body, at, bs[..k]);
    }
  }

  function Min(a: nat, b: nat): nat {
    if a < b then a else b
  }

  // Sequence to shader hash on eight bytes each, then type, stage and result on four.
  function Head(e: Event): (b: seq<byte>)
    ensures |b| == 76
  {
    Le(e.sequence, 8) + Le(e.timestamp, 8) + Le(e.thread, 8) + Le(e.frame, 8) + Le(e.submission, 8)
    + Le(e.object_, 8) + Le(e.pipeline, 8) + Le(e.shader, 8) + Le(e.kind, 4) + Le(e.stage, 4) + Le(e.result, 4)
  }

  const NAME_TRUNCATED := 1
  const PAYLOAD_TRUNCATED := 2

  function NameFlag(e: Event): nat {
    if |e.name| > NAME_AREA then NAME_TRUNCATED else 0
  }

  function PayloadFlag(e: Event): nat {
    if |e.payload| > PAYLOAD_AREA then PAYLOAD_TRUNCATED else 0
  }

  function NameStores(e: Event): seq<Store> {
    if e.name == [] then []
    else
      var n := Min(|e.name|, NAME_AREA);
      Put(80, Le(n, 4)) + Put(88, e.name[..n]) + (if |e.name| > n then Put(76, Le(NAME_TRUNCATED, 4)) else [])
  }

  // The flag is or-ed into what the name left; the two bits are distinct.
  function PayloadStores(e: Event): seq<Store> {
    if e.payload == [] then []
    else
      var n := Min(|e.payload|, PAYLOAD_AREA);
      Put(84, Le(n, 4)) + Put(216, e.payload[..n])
      + (if |e.payload| > n then Put(76, Le(NameFlag(e) + PAYLOAD_TRUNCATED, 4)) else [])
  }

  // All stores between clearing and setting the committed sequence: memset first, then the fields.
  function Stores(e: Event): seq<Store> {
    Put(0, Nulls(RECORD_BODY)) + Put(0, Head(e)) + NameStores(e) + PayloadStores(e)
  }

  // ---- the image ----

  datatype Parts = Parts(head: seq<byte>, flags: seq<byte>, nameSize: seq<byte>, payloadSize: seq<byte>,
                         name: seq<byte>, payload: seq<byte>)

  predicate PartsOk(p: Parts) {
    && |p.head| == 76 && |p.flags| == 4 && |p.nameSize| == 4 && |p.payloadSize| == 4
    && |p.name| == NAME_AREA && |p.payload| == PAYLOAD_AREA
  }

  function Laid(p: Parts): (b: seq<byte>)
    requires PartsOk(p)
    ensures |b| == RECORD_BODY
  {
    p.head + p.flags + p.nameSize + p.payloadSize + p.name + p.payload
  }

  function Filled(data: seq<byte>, n: nat): (b: seq<byte>)
    ensures |b| == n
  {
    if |data| >= n then data[..n] else data + Nulls(n - |data|)
  }

  // The complete record of an event.
  function ImageParts(e: Event): (p: Parts)
    ensures PartsOk(p)
  {
    Parts(Head(e), Le(NameFlag(e) + PayloadFlag(e), 4), Le(Min(|e.name|, NAME_AREA), 4),
          Le(Min(|e.payload|, PAYLOAD_AREA), 4), Filled(e.name, NAME_AREA), Filled(e.payload, PAYLOAD_AREA))
  }

  function Image(e: Event): (b: seq<byte>)
    ensures |b| == RECORD_BODY
  {
    Laid(ImageParts(e))
  }

  // Stores that fall into one part change that part alone.
  lemma PutHead(p: Parts, b: seq<byte>)
    requires PartsOk(p) && |b| == 76
    ensures Apply(Laid(p), Put(0, b)) == Laid(p.(head := b))
  {
    ApplyPut(Laid(p), 0, b);
  }

  lemma PutFlags(p: Parts, b: seq<byte>)
    requires PartsOk(p) && |b| == 4
    ensures Apply(Laid(p), Put(76, b)) == Laid(p.(flags := b))
  {
    ApplyPut(Laid(p), 76, b);
  }

  lemma PutNameSize(p: Parts, b: seq<byte>)
    requires PartsOk(p) && |b| == 4
    ensures Apply(Laid(p), Put(80, b)) == Laid(p.(nameSize := b))
  {
    ApplyPut(Laid(p), 80, b);
  }

  lemma PutPayloadSize(p: Parts, b: seq<byte>)
    requires PartsOk(p) && |b| == 4
    ensures Apply(Laid(p), Put(84, b)) == Laid(p.(payloadSize := b))
  {
    ApplyPut(Laid(p), 84, b);
  }

  lemma PutName(p: Parts, b: seq<byte>)
    requires PartsOk(p) && |b| <= NAME_AREA
    ensures Apply(Laid(p), Put(88, b)) == Laid(p.(name := b + p.name[|b|..]))
  {
    ApplyPut(Laid(p), 88, b);
  }

  lemma PutPayload(p: Parts, b: seq<byte>)
    requires PartsOk(p) && |b| <= PAYLOAD_AREA
    ensures Apply(Laid(p), Put(216, b)) == Laid(p.(payload := b + p.payload[|b|..]))
  {
    ApplyPut(Laid(p), 216, b);
  }

  function NullParts(): (p: Parts)
    ensures PartsOk(p)
  {
    Parts(Nulls(76), Nulls(4), Nulls(4), Nulls(4), Nulls(NAME_AREA), Nulls(PAYLOAD_AREA))
  }

  lemma NullsConcat(m: nat, n: nat)
    ensures Nulls(m) + Nulls(n) == Nulls(m + n)
  {
  }

  lemma NullsLaid()
    ensures Laid(NullParts()) == Nulls(RECORD_BODY)
  {
    hide Nulls;
    NullsConcat(76, 4);
    NullsConcat(80, 4);
    NullsConcat(84, 4);
    NullsConcat(88, NAME_AREA);
    NullsConcat(216, PAYLOAD_AREA);
  }

  lemma Cleared(body: seq<byte>)
    requires |body| == RECORD_BODY
    ensures Apply(body, Put(0, Nulls(RECORD_BODY))) == Laid(NullParts())
  {
    hide Nulls, NullParts, Laid;
    NullsLaid();
    ApplyPut(body, 0, Nulls(RECORD_BODY));
  }

  lemma LeZero()
    ensures Le(0, 4) == Nulls(4)
  {
    assert Le(0, 1) == [0] + Le(0, 0);
    assert Le(0, 2) == [0] + Le(0, 1);
    assert Le(0, 3) == [0] + Le(0, 2);
  }

  // The record after the name has been copied.
  function Named(e: Event): (p: Parts)
    ensures PartsOk(p)
  {
    NullParts().(head := Head(e), flags := Le(NameFlag(e), 4), nameSize := Le(Min(|e.name|, NAME_AREA), 4),
                 name := Filled(e.name, NAME_AREA))
  }

  lemma NameStored(e: Event)
    ensures Apply(Laid(NullParts().(head := Head(e))), NameStores(e)) == Laid(Named(e))
  {
    hide Apply, Put, Laid, Head, Le, Nulls;
    LeZero();
    var p := NullParts().(head := Head(e));
    if e.name == [] {
      assert Apply(Laid(p), []) == Laid(p) by {
        ApplyNone(Laid(p));
      }
      FilledNone(NAME_AREA);
    } else {
      var n := Min(|e.name|, NAME_AREA);
      var size, name := Le(n, 4), e.name[..n];
      var flag := if |e.name| > n then Put(76, Le(NAME_TRUNCATED, 4)) else [];
      ApplyConcat(Laid(p), Put(80, size) + Put(88, name), flag);
      ApplyConcat(Laid(p), Put(80, size), Put(88, name));
      PutNameSize(p, size);
      var p1 := p.(nameSize := size);
      PutName(p1, name);
      FilledRest(e.name, NAME_AREA);
      var p2 := p1.(name := name + p1.name[|name|..]);
      if |e.name| > n {
        PutFlags(p2, Le(NAME_TRUNCATED, 4));
      } else {
        ApplyNone(Laid(p2));
      }
    }
  }

  lemma PayloadStored(e: Event)
    ensures Apply(Laid(Named(e)), PayloadStores(e)) == Image(e)
  {
    hide Apply, Put, Laid, Head, Le, Nulls;
    LeZero();
    var p := Named(e);
    if e.payload == [] {
      ApplyNone(Laid(p));
      FilledNone(PAYLOAD_AREA);
    } else {
      var n := Min(|e.payload|, PAYLOAD_AREA);
      var size, payload := Le(n, 4), e.payload[..n];
      var flag := if |e.payload| > n then Put(76, Le(NameFlag(e) + PAYLOAD_TRUNCATED, 4)) else [];
      ApplyConcat(Laid(p), Put(84, size) + Put(216, payload), flag);
      ApplyConcat(Laid(p), Put(84, size), Put(216, payload));
      PutPayloadSize(p, size);
      var p1 := p.(payloadSize := size);
      PutPayload(p1, payload);
      FilledRest(e.payload, PAYLOAD_AREA);
      var p2 := p1.(payload := payload + p1.payload[|payload|..]);
      if |e.payload| > n {
        PutFlags(p2, Le(NameFlag(e) + PAYLOAD_TRUNCATED, 4));
      } else {
        ApplyNone(Laid(p2));
      }
    }
  }

  lemma ApplyNone(body: seq<byte>)
    ensures Apply(body, []) == body
  {
  }

  lemma FilledNone(n: nat)
    ensures Filled([], n) == Nulls(n)
  {
  }

  lemma FilledRest(data: seq<byte>, n: nat)
    ensures var k := Min(|data|, n); Filled(data, n) == data[..k] + Nulls(n)[k..]
  {
  }

  /** Whatever the slot held, the stores of one call leave exactly the image of its event. */
  lemma StoresLeaveImage(body: seq<byte>, e: Event)
    requires |body| == RECORD_BODY
    ensures Apply(body, Stores(e)) == Image(e)
  {
    hide Apply, Put, Laid, Head, Nulls, NameStores, PayloadStores, Named, Image;
    var clear, head := Put(0, Nulls(RECORD_BODY)), Put(0, Head(e));
    ApplyConcat(body, clear + head + NameStores(e), PayloadStores(e));
    ApplyConcat(body, clear + head, NameStores(e));
    ApplyConcat(body, clear, head);
    Cleared(body);
    PutHead(NullParts(), Head(e));
    NameStored(e);
    PayloadStored(e);
  }

  // ---- what the reader takes out of a body ----

  function SequenceOf(body: seq<byte>): nat
    requires |body| == RECORD_BODY
  {
    FromLe(body[..8])
  }

  // The reader bounds the two sizes before it uses them.
  function Bounded(body: seq<byte>): (b: seq<byte>)
    requires |body| == RECORD_BODY
    ensures |b| == RECORD_BODY
  {
    body[..80] + Le(Min(FromLe(body[80..84]), NAME_AREA), 4)
    + Le(Min(FromLe(body[84..88]), PAYLOAD_AREA), 4) + body[88..]
  }

  lemma SequenceOfImage(e: Event)
    requires e.sequence < Power256(8)
    ensures SequenceOf(Image(e)) == e.sequence
  {
    hide Le, FromLe, Power256, Filled;
    assert Head(e)[..8] == Le(e.sequence, 8);
    assert Image(e)[..8] == Head(e)[..8];
    FromLeOfLe(e.sequence, 8);
  }

  lemma BoundedImage(e: Event)
    ensures Bounded(Image(e)) == Image(e)
  {
    hide Le, FromLe, Head, Filled;
    var p := ImageParts(e);
    assert Image(e)[80..84] == p.nameSize && Image(e)[84..88] == p.payloadSize;
    assert Power256(4) > 288 by {
      assert Power256(1) == 256 && Power256(2) == 65536 && Power256(3) == 16777216;
    }
    FromLeOfLe(Min(|e.name|, NAME_AREA), 4);
    FromLeOfLe(Min(|e.payload|, PAYLOAD_AREA), 4);
  }

  // ---- the fields of a record, found by offset and length alone ----

  // The number that a field of the record holds; offsets count from the sequence on, eight bytes into the record.
  function Field(body: seq<byte>, at: nat, width: nat): nat
    requires at + width <= |body|
  {
    FromLe(body[at..at + width])
  }

  // The values fit their fields: eight bytes each down to the shader hash, then four.
  predicate FitsFields(e: Event) {
    && e.sequence < Power256(8) && e.timestamp < Power256(8) && e.thread < Power256(8) && e.frame < Power256(8)
    && e.submission < Power256(8) && e.object_ < Power256(8) && e.pipeline < Power256(8) && e.shader < Power256(8)
    && e.kind < Power256(4) && e.stage < Power256(4) && e.result < Power256(4)
  }

  lemma FieldOfLe(body: seq<byte>, at: nat, width: nat, v: nat)
    requires at + width <= |body| && body[at..at + width] == Le(v, width) && v < Power256(width)
    ensures Field(body, at, width) == v
  {
    FromLeOfLe(v, width);
  }

  // Where the eleven numbers lie.
  lemma HeadFields(e: Event)
    ensures var h := Head(e);
            && h[..8] == Le(e.sequence, 8) && h[8..16] == Le(e.timestamp, 8) && h[16..24] == Le(e.thread, 8)
            && h[24..32] == Le(e.frame, 8) && h[32..40] == Le(e.submission, 8) && h[40..48] == Le(e.object_, 8)
            && h[48..56] == Le(e.pipeline, 8) && h[56..64] == Le(e.shader, 8) && h[64..68] == Le(e.kind, 4)
            && h[68..72] == Le(e.stage, 4) && h[72..76] == Le(e.result, 4)
  {
    hide Le;
  }

  lemma InHead(e: Event, at: nat, width: nat)
    requires at + width <= 76
    ensures Image(e)[at..at + width] == Head(e)[at..at + width]
  {
    hide Head, Le, Filled;
    assert Image(e)[..76] == Head(e);
    assert Image(e)[at..at + width] == Image(e)[..76][at..at + width];
  }

  /** Every number of an event is read back from its place in the record. */
  lemma NumbersOfImage(e: Event)
    requires FitsFields(e)
    ensures var b := Image(e);
            && Field(b, 0, 8) == e.sequence && Field(b, 8, 8) == e.timestamp && Field(b, 16, 8) == e.thread
            && Field(b, 24, 8) == e.frame && Field(b, 32, 8) == e.submission && Field(b, 40, 8) == e.object_
            && Field(b, 48, 8) == e.pipeline && Field(b, 56, 8) == e.shader && Field(b, 64, 4) == e.kind
            && Field(b, 68, 4) == e.stage && Field(b, 72, 4) == e.result
  {
    hide Le, Head, Image, Power256, Field;
    HeadFields(e);
    var b := Image(e);
    InHead(e, 0, 8);
    FieldOfLe(b, 0, 8, e.sequence);
    InHead(e, 8, 8);
    FieldOfLe(b, 8, 8, e.timestamp);
    InHead(e, 16, 8);
    FieldOfLe(b, 16, 8, e.thread);
    InHead(e, 24, 8);
    FieldOfLe(b, 24, 8, e.frame);
    InHead(e, 32, 8);
    FieldOfLe(b, 32, 8, e.submission);
    InHead(e, 40, 8);
    FieldOfLe(b, 40, 8, e.object_);
    InHead(e, 48, 8);
    FieldOfLe(b, 48, 8, e.pipeline);
    InHead(e, 56, 8);
    FieldOfLe(b, 56, 8, e.shader);
    InHead(e, 64, 4);
    FieldOfLe(b, 64, 4, e.kind);
    InHead(e, 68, 4);
    FieldOfLe(b, 68, 4, e.stage);
    InHead(e, 72, 4);
    FieldOfLe(b, 72, 4, e.result);
  }

  lemma TailParts(e: Event)
    ensures var b := Image(e);
            && b[76..80] == Le(NameFlag(e) + PayloadFlag(e), 4)
            && b[80..84] == Le(Min(|e.name|, NAME_AREA), 4) && b[84..88] == Le(Min(|e.payload|, PAYLOAD_AREA), 4)
            && b[88..216] == Filled(e.name, NAME_AREA) && b[216..504] == Filled(e.payload, PAYLOAD_AREA)
  {
    hide Le, Head, Filled, NameFlag, PayloadFlag, Min;
    var p := ImageParts(e);
    assert Image(e)[..76] == p.head;
  }

  lemma FourBytes()
    ensures Power256(4) == 0x1_0000_0000
  {
    assert Power256(1) == 256 && Power256(2) == 65536 && Power256(3) == 16777216;
  }

  lemma FilledIs(data: seq<byte>, n: nat)
    ensures var k := if |data| < n then |data| else n;
            Filled(data, n)[..k] == data[..k] && forall i :: k <= i < n ==> Filled(data, n)[i] == 0
  {
  }

  /** The two texts are read back up to the sizes stored, with zeros after them, and the flags say which was cut. */
  lemma TextsOfImage(e: Event)
    ensures var b := Image(e);
            var n, m := if |e.name| < 128 then |e.name| else 128, if |e.payload| < 288 then |e.payload| else 288;
            && Field(b, 80, 4) == n && Field(b, 84, 4) == m
            && b[88..88 + n] == e.name[..n] && b[216..216 + m] == e.payload[..m]
            && (forall i :: 88 + n <= i < 216 ==> b[i] == 0) && (forall i :: 216 + m <= i < 504 ==> b[i] == 0)
            && Field(b, 76, 4) == (if |e.name| > 128 then 1 else 0) + (if |e.payload| > 288 then 2 else 0)
  {
    hide Le, Head, Image, Power256, Field, Filled;
    var b := Image(e);
    var n, m := Min(|e.name|, NAME_AREA), Min(|e.payload|, PAYLOAD_AREA);
    TailParts(e);
    FourBytes();
    FieldOfLe(b, 76, 4, NameFlag(e) + PayloadFlag(e));
    FieldOfLe(b, 80, 4, n);
    FieldOfLe(b, 84, 4, m);
    FilledIs(e.name, NAME_AREA);
    FilledIs(e.payload, PAYLOAD_AREA);
    TextBytes(b, 88, Filled(e.name, NAME_AREA), e.name, n);
    TextBytes(b, 216, Filled(e.payload, PAYLOAD_AREA), e.payload, m);
  }

  lemma TextBytes(b: seq<byte>, at: nat, area: seq<byte>, data: seq<byte>, k: nat)
    requires at + |area| <= |b| && area == b[at..at + |area|] && k <= |area| && k <= |data|
    requires area[..k] == data[..k] && forall i :: k <= i < |area| ==> area[i] == 0
    ensures b[at..at + k] == data[..k] && forall i :: at + k <= i < at + |area| ==> b[i] == 0
  {
    assert area[..k] == b[at..at + k];
    forall i | at + k <= i < at + |area|
      ensures b[i] == 0
    {
      assert area[i - at] == b[i];
    }
  }
}
