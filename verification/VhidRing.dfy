/** The Windows virtual device: the drop-oldest backlog of host reports with waiting readers, and the ring of replies. */
module VhidRing {
  import opened Bytes
  import opened Vli

  const REPORT_SIZE := 64
  const RING_SLOTS := 64
  const REPLY_SLOTS := 8

  type Frame = seq<byte>

  /** What becomes of an output report: a leading zero report id goes, the rest is cut or padded to the fixed width. */
  function FrameOf(data: seq<byte>): (f: Frame)
    ensures |f| == REPORT_SIZE
  {
    var bare := if |data| > REPORT_SIZE && data[0] == 0 then data[1..] else data;
    var kept := bare[..Min(|bare|, REPORT_SIZE)];
    kept + Zeros(REPORT_SIZE - |kept|)
  }

  /** A full frame arrives unchanged in both shapes. */
  lemma FrameIsKept(f: Frame)
    requires |f| == REPORT_SIZE
    ensures FrameOf(f) == f && FrameOf([0] + f) == f
  {
    assert ([0] + f)[1..] == f;
  }

  /** Byte for byte: the data behind a leading report id, zero where it ends early. */
  lemma FrameByte(data: seq<byte>, i: nat)
    requires i < REPORT_SIZE
    ensures var skip := if |data| > REPORT_SIZE && data[0] == 0 then 1 else 0;
      FrameOf(data)[i] == if i + skip < |data| then data[i + skip] else 0
  {
  }

  // ----- what the backlog does -----

  /** The backlog, oldest first, and the reads that wait for a frame, in order. */
  datatype Backlog = Backlog(frames: seq<Frame>, waiting: seq<nat>, dropped: nat)

  function Keep(frames: seq<Frame>, frame: Frame, slots: nat): seq<Frame>
    requires 0 < slots
  {
    (if |frames| >= slots then frames[1..] else frames) + [frame]
  }

  /** A host report: to the first waiting read if nothing is queued before it, else to the end of the backlog. */
  function Arrive(b: Backlog, frame: Frame): (Backlog, Option<(nat, Frame)>) {
    if b.frames == [] && b.waiting != [] then (b.(waiting := b.waiting[1..]), Some((b.waiting[0], frame)))
    else (b.(frames := Keep(b.frames, frame, RING_SLOTS), dropped := if |b.frames| >= RING_SLOTS then b.dropped + 1 else b.dropped), None)
  }

  datatype ReadResult = TooSmall | Waits | Answered(frame: Frame)

  /** A read: refused if its buffer is too small, else answered with the oldest frame or made to wait. */
  function ReadInto(b: Backlog, id: nat, length: nat): (Backlog, ReadResult) {
    if length < REPORT_SIZE then (b, TooSmall)
    else if b.frames != [] then (b.(frames := b.frames[1..]), Answered(b.frames[0]))
    else (b.(waiting := b.waiting + [id]), Waits)
  }

  /** The reader is handed the very frame that leaves the front of the backlog. */
  lemma ReadIntoExact(b: Backlog, id: nat, length: nat)
    ensures var (after, result) := ReadInto(b, id, length); ReadFits(b, after, id, length, result)
  {
  }

  /** What a read may do, and nothing else. */
  predicate ReadFits(before: Backlog, after: Backlog, id: nat, length: nat, result: ReadResult) {
    match result
    case TooSmall => length < 64 && after == before
    case Answered(f) => 64 <= length && [f] + after.frames == before.frames && after == before.(frames := after.frames)
    case Waits => 64 <= length && before.frames == [] && after == before.(waiting := before.waiting + [id])
  }

  /** What a host report may do: the longest waiting read is handed that report, or it is queued, the oldest frame of a full
      backlog making room. */
  predicate DeliveryFits(before: Backlog, after: Backlog, frame: Frame, to: Option<(nat, Frame)>) {
    match to
    case Some((id, f)) =>
      before.frames == [] && f == frame && [id] + after.waiting == before.waiting && after == before.(waiting := after.waiting)
    case None =>
      && (before.frames != [] || before.waiting == [])
      && if |before.frames| < 64 then after == before.(frames := before.frames + [frame])
         else after == before.(frames := before.frames[1..] + [frame], dropped := before.dropped + 1)
  }

  lemma ArriveExact(b: Backlog, frame: Frame)
    ensures var (after, to) := Arrive(b, frame); DeliveryFits(b, after, frame, to)
  {
  }

  function Without(ids: seq<nat>, id: nat): seq<nat> {
    if ids == [] then [] else (if ids[0] == id then [] else [ids[0]]) + Without(ids[1..], id)
  }

  // ----- the ring -----

  /** The index at most one turn of the ring ahead. */
  function Wrap(x: nat, n: nat): nat {
    if x < n then x else x - n
  }

  lemma WrapIsRemainder(x: nat, n: nat)
    requires 0 < n && x < 2 * n
    ensures x % n == Wrap(x, n)
  {
    if x < n {
      DivMod(x, 0, n, x);
    } else {
      DivMod(x, 1, n, x - n);
    }
  }

  class Ring {
    const slots: array<Frame>
    var head: nat
    var tail: nat
    var count: nat

    ghost predicate Valid()
      reads this
    {
      && slots.Length > 0
      && tail < slots.Length && count <= slots.Length && head == Wrap(tail + count, slots.Length)
    }

    ghost function Contents(): (s: seq<Frame>)
      reads this, slots
      requires Valid()
      ensures |s| == count
    {
      seq(count, i requires 0 <= i < count && Valid() reads this, slots =>
          slots[if tail + i < slots.Length then tail + i else tail + i - slots.Length])
    }

    constructor (size: nat)
      requires size > 0
      ensures Valid() && fresh(slots) && slots.Length == size && Contents() == []
    {
      slots := new Frame[size](_ => Zeros(REPORT_SIZE));
      head, tail, count := 0, 0, 0;
    }

    method Advance()
      requires Valid() && count > 0
      modifies this`tail, this`count
      ensures Valid() && Contents() == old(Contents())[1..]
    {
      ghost var was := Contents();
      var step := (tail + 1) % slots.Length;
      WrapIsRemainder(tail + 1, slots.Length);
      tail := step;
      count := count - 1;
      assert Valid();
      assert forall i :: 0 <= i < count ==> Contents()[i] == was[i + 1];
    }

    method Append(frame: Frame)
      requires Valid() && count < slots.Length
      modifies this`head, this`count, slots
      ensures Valid() && Contents() == old(Contents()) + [frame]
    {
      ghost var was := Contents();
      slots[head] := frame;
      var step := (head + 1) % slots.Length;
      WrapIsRemainder(head + 1, slots.Length);
      head := step;
      count := count + 1;
      assert forall i :: 0 <= i < count - 1 ==> Contents()[i] == was[i];
    }

    /** The oldest frame makes room for the newest. */
    method PutDropOldest(frame: Frame) returns (dropped: bool)
      requires Valid()
      modifies this, slots
      ensures Valid() && Contents() == Keep(old(Contents()), frame, slots.Length)
      ensures dropped == (|old(Contents())| == slots.Length)
    {
      dropped := count == slots.Length;
      if dropped {
        Advance();
      }
      Append(frame);
    }

    method Take() returns (frame: Frame)
      requires Valid() && Contents() != []
      modifies this
      ensures Valid() && [frame] + Contents() == old(Contents())
    {
      frame := slots[tail];
      assert frame == Contents()[0];
      Advance();
    }
  }

  /** The device context: both rings, and the reads the framework holds back. */
  class Device {
    const ring: Ring
    const replies: Ring
    var waiting: seq<nat>
    var dropped: nat

    ghost predicate Valid()
      reads this, ring, replies
    {
      && ring != replies && ring.slots != replies.slots
      && ring.Valid() && ring.slots.Length == RING_SLOTS && replies.Valid() && replies.slots.Length == REPLY_SLOTS
    }

    ghost function Value(): Backlog
      reads this, ring, ring.slots, replies
      requires Valid()
    {
      Backlog(ring.Contents(), waiting, dropped)
    }

    constructor ()
      ensures Valid() && Value() == Backlog([], [], 0) && replies.Contents() == []
      ensures fresh(ring) && fresh(ring.slots) && fresh(replies) && fresh(replies.slots)
    {
      ring := new Ring(RING_SLOTS);
      replies := new Ring(REPLY_SLOTS);
      waiting, dropped := [], 0;
    }

    method DeliverHostReport(data: seq<byte>) returns (reader: Option<(nat, Frame)>)
      requires Valid()
      modifies this, ring, ring.slots
      ensures Valid() && (Value(), reader) == Arrive(old(Value()), FrameOf(data)) && replies.Contents() == old(replies.Contents())
      ensures DeliveryFits(old(Value()), Value(), FrameOf(data), reader)
    {
      var frame := FrameOf(data);
      if ring.count == 0 && |waiting| > 0 {
        reader := Some((waiting[0], frame));
        waiting := waiting[1..];
        return;
      }
      var full := ring.PutDropOldest(frame);
      if full {
        dropped := dropped + 1;
      }
      return None;
    }

    /** A buffer too small for a report is refused before anything is touched. */
    method IoRead(id: nat, length: nat) returns (result: ReadResult)
      requires Valid()
      modifies this, ring
      ensures Valid() && replies.Contents() == old(replies.Contents())
      ensures (Value(), result) == ReadInto(old(Value()), id, length)
      ensures ReadFits(old(Value()), Value(), id, length, result)
    {
      if length < REPORT_SIZE {
        return TooSmall;
      }
      if ring.count > 0 {
        var f := ring.Take();
        return Answered(f);
      }
      waiting := waiting + [id];
      return Waits;
    }

    /** A submitted reply is also kept for a host that polls. */
    method KeepReply(frame: Frame)
      requires Valid()
      modifies replies, replies.slots
      ensures Valid() && replies.Contents() == Keep(old(replies.Contents()), frame, REPLY_SLOTS) && Value() == old(Value())
    {
      var _ := replies.PutDropOldest(frame);
    }

    method GetInputReport() returns (frame: Option<Frame>)
      requires Valid()
      modifies replies
      ensures Valid() && Value() == old(Value())
      ensures match frame
        case None => old(replies.Contents()) == [] && replies.Contents() == []
        case Some(f) => [f] + replies.Contents() == old(replies.Contents())
    {
      if replies.count == 0 {
        return None;
      }
      var f := replies.Take();
      return Some(f);
    }
  }

  // ----- whole runs -----

  datatype Event = HostReport(data: seq<byte>) | ReadRequest(id: nat, length: nat) | ReadCancelled(id: nat)

  /** How a frame left the backlog. */
  datatype Exit = Given(id: nat, frame: Frame) | Lost(frame: Frame)

  /** The backlog with its history: frames received, reads asked and not cancelled, and every exit in order. */
  datatype World = World(b: Backlog, received: seq<Frame>, asked: seq<nat>, exits: seq<Exit>)

  const START := World(Backlog([], [], 0), [], [], [])

  function Step(w: World, e: Event): World {
    match e
    case HostReport(data) =>
      var f := FrameOf(data);
      var (b, to) := Arrive(w.b, f);
      World(b, w.received + [f], w.asked,
            w.exits + if to.Some? then [Given(to.value.0, to.value.1)] else if b.dropped > w.b.dropped then [Lost(w.b.frames[0])] else [])
    case ReadRequest(id, length) =>
      if id in w.asked then w else
        var (b, result) := ReadInto(w.b, id, length);
        World(b, w.received, if result.TooSmall? then w.asked else w.asked + [id],
              w.exits + if result.Answered? then [Given(id, result.frame)] else [])
    case ReadCancelled(id) =>
      if id !in w.b.waiting then w else
        w.(b := w.b.(waiting := Without(w.b.waiting, id)), asked := Without(w.asked, id))
  }

  function Run(es: seq<Event>): World {
    if es == [] then START else Step(Run(es[..|es| - 1]), es[|es| - 1])
  }

  function FramesOf(exits: seq<Exit>): (fs: seq<Frame>)
    ensures |fs| == |exits|
  {
    if exits == [] then [] else FramesOf(exits[..|exits| - 1]) + [exits[|exits| - 1].frame]
  }

  function ReadersOf(exits: seq<Exit>): seq<nat> {
    if exits == [] then [] else
      var e := exits[|exits| - 1];
      ReadersOf(exits[..|exits| - 1]) + if e.Given? then [e.id] else []
  }

  lemma ExitsSnoc(exits: seq<Exit>, e: Exit)
    ensures FramesOf(exits + [e]) == FramesOf(exits) + [e.frame]
    ensures ReadersOf(exits + [e]) == ReadersOf(exits) + if e.Given? then [e.id] else []
  {
    assert (exits + [e])[..|exits|] == exits;
  }

  predicate Distinct(ids: seq<nat>) {
    forall i, j :: 0 <= i < j < |ids| ==> ids[i] != ids[j]
  }

  ghost predicate Inv(w: World) {
    && (w.b.waiting != [] ==> w.b.frames == [])
    && |w.b.frames| <= RING_SLOTS
    && w.received == FramesOf(w.exits) + w.b.frames
    && w.asked == ReadersOf(w.exits) + w.b.waiting
    && Distinct(w.asked)
    && |w.exits| == |ReadersOf(w.exits)| + w.b.dropped
    && forall k :: 0 <= k < |w.exits| && w.exits[k].Lost? ==> k + RING_SLOTS < |w.received|
  }

  lemma {:induction false} WithoutTail(a: seq<nat>, b: seq<nat>, id: nat)
    requires Distinct(a + b) && id in b
    ensures Without(a + b, id) == a + Without(b, id)
  {
    if a == [] {
      assert a + b == b && a + Without(b, id) == Without(b, id);
    } else {
      var i :| 0 <= i < |b| && b[i] == id;
      assert (a + b)[|a| + i] == id && (a + b)[0] == a[0];
      assert (a + b)[1..] == a[1..] + b;
      WithoutTail(a[1..], b, id);
    }
  }

  lemma {:induction false} WithoutDistinct(ids: seq<nat>, id: nat)
    requires Distinct(ids)
    ensures Distinct(Without(ids, id)) && forall x :: x in Without(ids, id) ==> x in ids
  {
    if ids != [] {
      WithoutDistinct(ids[1..], id);
      var rest := Without(ids[1..], id);
      forall i | 0 <= i < |rest|
        ensures rest[i] != ids[0]
      {
        assert rest[i] in rest && rest[i] in ids[1..];
      }
    }
  }

  lemma ArriveKeeps(w: World, data: seq<byte>)
    requires Inv(w)
    ensures Inv(Step(w, HostReport(data)))
  {
    hide FramesOf;
    hide ReadersOf;
    hide FrameOf;
    var f := FrameOf(data);
    var (b, to) := Arrive(w.b, f);
    var after := Step(w, HostReport(data));
    if to.Some? {
      ExitsSnoc(w.exits, Given(to.value.0, f));
    } else if |w.b.frames| >= RING_SLOTS {
      ExitsSnoc(w.exits, Lost(w.b.frames[0]));
      assert w.b.frames == [w.b.frames[0]] + w.b.frames[1..];
    } else {
      assert after.exits == w.exits;
    }
  }

  lemma ReadKeeps(w: World, id: nat, length: nat)
    requires Inv(w)
    ensures Inv(Step(w, ReadRequest(id, length)))
  {
    hide FramesOf;
    hide ReadersOf;
    if id !in w.asked {
      var after := Step(w, ReadRequest(id, length));
      if length >= REPORT_SIZE && w.b.frames != [] {
        ExitsSnoc(w.exits, Given(id, w.b.frames[0]));
        assert w.b.frames == [w.b.frames[0]] + w.b.frames[1..];
      } else {
        assert after.exits == w.exits;
      }
    }
  }

  lemma CancelKeeps(w: World, id: nat)
    requires Inv(w)
    ensures Inv(Step(w, ReadCancelled(id)))
  {
    hide FramesOf;
    hide ReadersOf;
    if id in w.b.waiting {
      WithoutTail(ReadersOf(w.exits), w.b.waiting, id);
      WithoutDistinct(w.asked, id);
    }
  }

  /** A cancelled read waits no longer; every other one does, and nothing else changed. */
  lemma CancelExact(w: World, id: nat)
    ensures var after := Step(w, ReadCancelled(id));
      && (forall x :: x in after.b.waiting <==> x in w.b.waiting && x != id)
      && after.b == w.b.(waiting := after.b.waiting) && after.exits == w.exits && after.received == w.received
  {
    WithoutExact(w.b.waiting, id);
  }

  lemma {:induction false} WithoutExact(ids: seq<nat>, id: nat)
    ensures forall x :: x in Without(ids, id) <==> x in ids && x != id
  {
    if ids != [] {
      WithoutExact(ids[1..], id);
    }
  }

  lemma {:induction false} RunKeeps(es: seq<Event>)
    ensures Inv(Run(es))
    decreases |es|
  {
    hide Inv;
    hide Step;
    if es == [] {
      StartInv();
    } else {
      var w, e := Run(es[..|es| - 1]), es[|es| - 1];
      RunKeeps(es[..|es| - 1]);
      match e
      case HostReport(data) => ArriveKeeps(w, data);
      case ReadRequest(id, length) => ReadKeeps(w, id, length);
      case ReadCancelled(id) => CancelKeeps(w, id);
    }
  }

  lemma StartInv()
    ensures Inv(START)
  {
  }

  /** In every run: reads wait only while nothing is queued; the frames that left, given or lost, and then the backlog are
      exactly the frames received, in order; the reads answered and then those waiting are exactly the reads asked, in order;
      received = given + backlog + dropped; and a frame is lost only after at least 64 later ones arrived. */
  lemma EveryFrameOnceInOrder(es: seq<Event>)
    ensures var w := Run(es);
      && (w.b.waiting == [] || w.b.frames == [])
      && FramesOf(w.exits) + w.b.frames == w.received
      && ReadersOf(w.exits) + w.b.waiting == w.asked && Distinct(w.asked)
      && |w.received| == |ReadersOf(w.exits)| + |w.b.frames| + w.b.dropped
      && (forall k :: 0 <= k < |w.exits| && w.exits[k].Lost? ==> k + RING_SLOTS < |w.received|)
  {
    hide FramesOf;
    hide ReadersOf;
    hide Run;
    RunKeeps(es);
  }
}
