/** The agent's hub between one HID device and the sessions that follow each other, as interleaved steps: every section
    under the mutex, every channel operation and every close is one step of its own. Packets are named by their arrival. */
module HidHub {
  import opened Bytes

  const MAX_PENDING := 64

  /** A subscription: its packet channel, what its reader took from it, the pending packets its `subscribe` call has still
      to move, the older subscription that call has still to close, and whether it is closed itself. */
  datatype Session = Session(queue: seq<nat>, taken: seq<nat>, moving: seq<nat>, closes: Option<nat>, done: bool)

  /** The goroutine that reads the device. */
  datatype Reader = Idle | Got(packet: nat) | Sending(packet: nat, to: nat) | Stopping(closes: Option<nat>) | Stopped

  datatype Hub = Hub(
    active: Option<nat>, pending: seq<nat>, sessions: seq<Session>, reader: Reader,
    arrived: nat, dropped: seq<nat>, abandoned: seq<nat>, written: seq<nat>)

  const START := Hub(None, [], [], Idle, 0, [], [], [])

  datatype Event =
    | Subscribe
    | CloseOlder(s: nat)
    | MoveOne(s: nat)
    | GiveUpMoving(s: nat)
    | Unsubscribe(s: nat)
    | Close(s: nat)
    | Take(s: nat)
    | Arrive
    | Route
    | Send
    | GiveUpSending
    | ReadFails
    | CloseLast
    | Write(s: nat, size: nat, accepted: bool)

  // ----- the steps -----

  function Closed(sessions: seq<Session>, s: nat): seq<Session>
    requires s < |sessions|
  {
    sessions[s := sessions[s].(done := true)]
  }

  predicate Known(h: Hub, s: Option<nat>) {
    s.Some? ==> s.value < |h.sessions|
  }

  predicate Possible(h: Hub, e: Event) {
    match e
    case Subscribe => true
    case CloseOlder(s) => s < |h.sessions| && h.sessions[s].closes.Some? && Known(h, h.sessions[s].closes)
    case MoveOne(s) => s < |h.sessions| && h.sessions[s].closes.None? && h.sessions[s].moving != [] && |h.sessions[s].queue| < MAX_PENDING
    case GiveUpMoving(s) => s < |h.sessions| && h.sessions[s].closes.None? && h.sessions[s].moving != [] && h.sessions[s].done
    case Unsubscribe(s) => s < |h.sessions|
    case Close(s) => s < |h.sessions| && h.active != Some(s)
    case Take(s) => s < |h.sessions| && h.sessions[s].queue != []
    case Arrive => h.reader.Idle?
    case Route => h.reader.Got?
    case Send => h.reader.Sending? && h.reader.to < |h.sessions| && |h.sessions[h.reader.to].queue| < MAX_PENDING
    case GiveUpSending => h.reader.Sending? && h.reader.to < |h.sessions| && h.sessions[h.reader.to].done
    case ReadFails => h.reader.Idle?
    case CloseLast => h.reader.Stopping? && Known(h, h.reader.closes)
    case Write(s, _, _) => s < |h.sessions|
  }

  /** A reply is checked for its size, then for its session; the device may still refuse it. */
  datatype Reply = InvalidPacket | Superseded | DeviceFailure | Written

  function WriteResult(h: Hub, s: nat, size: nat, accepted: bool): Reply
    requires s < |h.sessions|
  {
    if size != 64 then InvalidPacket
    else if h.sessions[s].done || h.active != Some(s) then Superseded
    else if accepted then Written else DeviceFailure
  }

  function Step(h: Hub, e: Event): Hub
    requires Possible(h, e)
  {
    match e
    case Subscribe =>
      h.(active := Some(|h.sessions|), pending := [],
         sessions := h.sessions + [Session([], [], h.pending, h.active, false)])
    case CloseOlder(s) =>
      var older := h.sessions[s].closes.value;
      var marked := h.sessions[s := h.sessions[s].(closes := None)];
      h.(sessions := Closed(marked, older))
    case MoveOne(s) =>
      var x := h.sessions[s];
      h.(sessions := h.sessions[s := x.(queue := x.queue + [x.moving[0]], moving := x.moving[1..])])
    case GiveUpMoving(s) =>
      var x := h.sessions[s];
      h.(sessions := h.sessions[s := x.(moving := [])], abandoned := h.abandoned + x.moving)
    case Unsubscribe(s) => if h.active == Some(s) then h.(active := None) else h
    case Close(s) => h.(sessions := Closed(h.sessions, s))
    case Take(s) =>
      var x := h.sessions[s];
      h.(sessions := h.sessions[s := x.(queue := x.queue[1..], taken := x.taken + [x.queue[0]])])
    case Arrive => h.(reader := Got(h.arrived), arrived := h.arrived + 1)
    case Route =>
      var p := h.reader.packet;
      if h.active.Some? then h.(reader := Sending(p, h.active.value))
      else if |h.pending| < MAX_PENDING then h.(reader := Idle, pending := h.pending + [p])
      else h.(reader := Idle, dropped := h.dropped + [p])
    case Send =>
      var x := h.sessions[h.reader.to];
      h.(reader := Idle, sessions := h.sessions[h.reader.to := x.(queue := x.queue + [h.reader.packet])])
    case GiveUpSending => h.(reader := Idle, abandoned := h.abandoned + [h.reader.packet])
    case ReadFails => h.(active := None, reader := Stopping(h.active))
    case CloseLast => h.(reader := Stopped, sessions := if h.reader.closes.Some? then Closed(h.sessions, h.reader.closes.value) else h.sessions)
    case Write(s, size, accepted) =>
      if WriteResult(h, s, size, accepted) == Written then h.(written := h.written + [s]) else h
  }

  /** All steps in order; one that is not enabled is passed over. */
  function Run(es: seq<Event>): Hub {
    if es == [] then START else
      var h := Run(es[..|es| - 1]);
      if Possible(h, es[|es| - 1]) then Step(h, es[|es| - 1]) else h
  }

  // ----- where a packet is -----

  datatype Place = InHand | Pending | Moving(s: nat) | Held(s: nat) | Queued(s: nat) | Taken(s: nat) | Dropped | Abandoned

  function Box(h: Hub, p: Place): seq<nat> {
    match p
    case InHand => if h.reader.Got? then [h.reader.packet] else []
    case Pending => h.pending
    case Moving(s) => if s < |h.sessions| then h.sessions[s].moving else []
    case Held(s) => if h.reader.Sending? && h.reader.to == s then [h.reader.packet] else []
    case Queued(s) => if s < |h.sessions| then h.sessions[s].queue else []
    case Taken(s) => if s < |h.sessions| then h.sessions[s].taken else []
    case Dropped => h.dropped
    case Abandoned => h.abandoned
  }

  /** The session a packet in this place belongs to. */
  function Owner(p: Place): Option<nat> {
    if p.Moving? || p.Held? || p.Queued? || p.Taken? then Some(p.s) else None
  }

  predicate Distinct(xs: seq<nat>) {
    forall i, j :: 0 <= i < j < |xs| ==> xs[i] != xs[j]
  }

  ghost predicate Placed(h: Hub, x: nat) {
    exists p :: x in Box(h, p)
  }

  /** Every packet that arrived is in exactly one place, once. */
  ghost predicate Accounted(h: Hub) {
    && (forall p :: Distinct(Box(h, p)))
    && (forall p, x :: x in Box(h, p) ==> x < h.arrived)
    && (forall p, q, x :: x in Box(h, p) && x in Box(h, q) ==> p == q)
    && (forall x: nat :: x < h.arrived ==> Placed(h, x))
  }

  /** The packets `xs` go from the front of one box to the end of another, and nothing else changes place. */
  ghost predicate Shifts(h: Hub, k: Hub, a: Place, b: Place, xs: seq<nat>) {
    && a != b && k.arrived == h.arrived
    && Box(h, a) == xs + Box(k, a) && Box(k, b) == Box(h, b) + xs
    && forall p :: p != a && p != b ==> Box(k, p) == Box(h, p)
  }

  /** A packet is after a shift where it was before, unless it moved. */
  lemma AfterShift(h: Hub, k: Hub, a: Place, b: Place, xs: seq<nat>, p: Place, x: nat)
    requires Distinct(Box(h, a)) && Shifts(h, k, a, b, xs)
    ensures x in Box(k, p) <==> (x in Box(h, p) && !(p == a && x in xs)) || (p == b && x in xs)
  {
    hide Box;
    var all, rest := Box(h, a), Box(k, a);
    forall i, j | 0 <= i < |xs| && 0 <= j < |rest|
      ensures xs[i] != rest[j]
    {
      assert all[i] != all[|xs| + j];
    }
  }

  lemma DistinctAfter(h: Hub, k: Hub, a: Place, b: Place, xs: seq<nat>, p: Place)
    requires Accounted(h) && Shifts(h, k, a, b, xs)
    ensures Distinct(Box(k, p))
  {
    hide Box;
    var all, rest, prior := Box(h, a), Box(k, a), Box(h, b);
    if p == a {
      forall i, j | 0 <= i < j < |rest|
        ensures rest[i] != rest[j]
      {
        assert all[|xs| + i] != all[|xs| + j];
      }
    } else if p == b {
      forall i, j | 0 <= i < |prior| && 0 <= j < |xs|
        ensures prior[i] != xs[j]
      {
        assert all[j] in all && prior[i] in prior;
      }
      forall i, j | 0 <= i < j < |xs|
        ensures xs[i] != xs[j]
      {
        assert all[i] != all[j];
      }
    }
  }

  lemma ShiftKeeps(h: Hub, k: Hub, a: Place, b: Place, xs: seq<nat>)
    requires Accounted(h) && Shifts(h, k, a, b, xs)
    ensures Accounted(k)
  {
    hide Box;
    hide Distinct;
    hide Shifts;
    forall p
      ensures Distinct(Box(k, p))
    {
      DistinctAfter(h, k, a, b, xs, p);
    }
    assert k.arrived == h.arrived && forall x :: x in xs ==> x in Box(h, a) by {
      ShiftTakes(h, k, a, b, xs);
    }
    forall p, x | x in Box(k, p)
      ensures x < k.arrived
    {
      AfterShift(h, k, a, b, xs, p, x);
    }
    forall p, q, x | x in Box(k, p) && x in Box(k, q)
      ensures p == q
    {
      AfterShift(h, k, a, b, xs, p, x);
      AfterShift(h, k, a, b, xs, q, x);
    }
    forall x: nat | x < k.arrived
      ensures Placed(k, x)
    {
      assert Placed(h, x);
      var p :| x in Box(h, p);
      var q := if x in xs then b else p;
      AfterShift(h, k, a, b, xs, q, x);
      assert x in Box(k, q);
    }
  }

  lemma ShiftTakes(h: Hub, k: Hub, a: Place, b: Place, xs: seq<nat>)
    requires Shifts(h, k, a, b, xs)
    ensures k.arrived == h.arrived && forall x :: x in xs ==> x in Box(h, a)
  {
    hide Box;
  }

  // ----- the invariant -----

  /** Only the newest session is ever active; channels and backlog keep their bounds. */
  ghost predicate Shaped(h: Hub) {
    && (h.active.Some? ==> h.active.value == |h.sessions| - 1)
    && (h.reader.Sending? ==> h.reader.to < |h.sessions|)
    && (h.reader.Stopping? ==> Known(h, h.reader.closes))
    && |h.pending| <= MAX_PENDING
    && (forall s :: 0 <= s < |h.sessions| ==>
          (h.sessions[s].closes.Some? ==> h.sessions[s].closes.value < s) && |h.sessions[s].queue| <= MAX_PENDING)
  }

  /** The place every step but an arrival moves packets from and to. */
  function Path(h: Hub, e: Event): Option<(Place, Place)>
    requires Possible(h, e)
  {
    match e
    case Subscribe => Some((Pending, Moving(|h.sessions|)))
    case MoveOne(s) => Some((Moving(s), Queued(s)))
    case GiveUpMoving(s) => Some((Moving(s), Abandoned))
    case Take(s) => Some((Queued(s), Taken(s)))
    case Route =>
      if h.active.Some? then Some((InHand, Held(h.active.value)))
      else if |h.pending| < MAX_PENDING then Some((InHand, Pending)) else Some((InHand, Dropped))
    case Send => Some((Held(h.reader.to), Queued(h.reader.to)))
    case GiveUpSending => Some((Held(h.reader.to), Abandoned))
    case _ => None
  }

  /** The packets that move: all of them when a whole list changes hands, else the first. */
  function Moved(h: Hub, e: Event): seq<nat>
    requires Possible(h, e)
  {
    match e
    case Subscribe => h.pending
    case MoveOne(s) => h.sessions[s].moving[..1]
    case GiveUpMoving(s) => h.sessions[s].moving
    case Take(s) => h.sessions[s].queue[..1]
    case Route => [h.reader.packet]
    case Send => [h.reader.packet]
    case GiveUpSending => [h.reader.packet]
    case _ => []
  }

  lemma StepShifts(h: Hub, e: Event)
    requires Possible(h, e) && Path(h, e).Some? && Shaped(h)
    ensures Shifts(h, Step(h, e), Path(h, e).value.0, Path(h, e).value.1, Moved(h, e))
  {
    hide Shifts;
    match e
    case MoveOne(s) => InsideShifts(h, e, s);
    case GiveUpMoving(s) => InsideShifts(h, e, s);
    case Take(s) => InsideShifts(h, e, s);
    case _ => RoutingShifts(h, e);
  }

  lemma InsideShifts(h: Hub, e: Event, s: nat)
    requires Possible(h, e) && e in {MoveOne(s), GiveUpMoving(s), Take(s)}
    ensures Shifts(h, Step(h, e), Path(h, e).value.0, Path(h, e).value.1, Moved(h, e))
  {
  }

  lemma RoutingShifts(h: Hub, e: Event)
    requires Possible(h, e) && Shaped(h) && (e.Subscribe? || e.Route? || e.Send? || e.GiveUpSending?)
    ensures Shifts(h, Step(h, e), Path(h, e).value.0, Path(h, e).value.1, Moved(h, e))
  {
  }

  lemma OthersStay(h: Hub, e: Event)
    requires Possible(h, e) && Path(h, e).None? && !e.Arrive?
    ensures Step(h, e).arrived == h.arrived && forall p :: Box(Step(h, e), p) == Box(h, p)
  {
  }

  lemma ArriveKeeps(h: Hub)
    requires Accounted(h) && h.reader.Idle?
    ensures Accounted(Step(h, Arrive))
  {
    var k := Step(h, Arrive);
    forall p | p != InHand
      ensures Box(k, p) == Box(h, p)
    {
    }
    assert Box(k, InHand) == [h.arrived];
    forall x: nat | x < k.arrived
      ensures Placed(k, x)
    {
      if x == h.arrived {
        assert x in Box(k, InHand);
      } else {
        assert Placed(h, x);
        var p :| x in Box(h, p);
        assert x in Box(k, p);
      }
    }
  }

  lemma ShapedStep(h: Hub, e: Event)
    requires Shaped(h) && Possible(h, e)
    ensures Shaped(Step(h, e))
  {
  }

  lemma StepKeeps(h: Hub, e: Event)
    requires Accounted(h) && Shaped(h) && Possible(h, e)
    ensures Accounted(Step(h, e)) && Shaped(Step(h, e))
  {
    hide Shaped;
    hide Step;
    hide Box;
    hide Distinct;
    hide Shifts;
    ShapedStep(h, e);
    if e.Arrive? {
      ArriveKeeps(h);
    } else if Path(h, e).Some? {
      StepShifts(h, e);
      ShiftKeeps(h, Step(h, e), Path(h, e).value.0, Path(h, e).value.1, Moved(h, e));
    } else {
      OthersStay(h, e);
      StayAccounted(h, Step(h, e));
    }
  }

  lemma StayAccounted(h: Hub, k: Hub)
    requires Accounted(h) && k.arrived == h.arrived && forall p :: Box(k, p) == Box(h, p)
    ensures Accounted(k)
  {
    hide Box;
    forall x: nat | x < k.arrived
      ensures Placed(k, x)
    {
      assert Placed(h, x);
      var p :| x in Box(h, p);
      assert x in Box(k, p);
    }
  }

  /** In every interleaving every packet that arrived is in exactly one place, so it reaches at most one session. */
  lemma {:induction false} EveryPacketAccounted(es: seq<Event>)
    ensures Accounted(Run(es)) && Shaped(Run(es))
    decreases |es|
  {
    hide Accounted;
    hide Shaped;
    hide Step;
    if es == [] {
      StartAccounted();
    } else {
      EveryPacketAccounted(es[..|es| - 1]);
      var h := Run(es[..|es| - 1]);
      if Possible(h, es[|es| - 1]) {
        StepKeeps(h, es[|es| - 1]);
      }
    }
  }

  lemma StartAccounted()
    ensures Accounted(START) && Shaped(START)
  {
    assert forall p :: Box(START, p) == [];
  }

  lemma PathOwners(h: Hub, e: Event)
    requires Possible(h, e) && Shaped(h) && Path(h, e).Some?
    ensures var (a, b) := Path(h, e).value;
      && (Owner(a).Some? ==> Owner(b) == Owner(a) || (b == Abandoned && Owner(a).value < |h.sessions| && h.sessions[Owner(a).value].done))
      && (Owner(a).None? && Owner(b).Some? ==> Owner(b) == Step(h, e).active)
      && a != Dropped && a != Abandoned
  {
  }

  /** A packet given to a session stays that session's until the session takes it, or is abandoned because the session was
      closed; it is given only to the session active at that moment; what is dropped or abandoned stays so. */
  lemma OwnerIsForLife(h: Hub, e: Event, p: Place, q: Place, x: nat)
    requires Accounted(h) && Shaped(h) && Possible(h, e) && x in Box(h, p) && x in Box(Step(h, e), q)
    ensures Owner(p).Some? ==>
      Owner(q) == Owner(p) || (q == Abandoned && Owner(p).value < |h.sessions| && h.sessions[Owner(p).value].done)
    ensures Owner(p).None? && Owner(q).Some? ==> Owner(q) == Step(h, e).active
    ensures p == Dropped || p == Abandoned ==> q == p
  {
    hide Step;
    hide Box;
    hide Path;
    hide Moved;
    hide Distinct;
    hide Shaped;
    hide Possible;
    if e.Arrive? {
      StepKeeps(h, e);
      ArriveStays(h, p);
    } else if Path(h, e).Some? {
      StepShifts(h, e);
      PathOwners(h, e);
      var (a, b) := Path(h, e).value;
      AfterShift(h, Step(h, e), a, b, Moved(h, e), q, x);
      assert q == b && x in Moved(h, e) ==> x in Box(h, a);
    } else {
      OthersStay(h, e);
    }
  }

  lemma ArriveStays(h: Hub, p: Place)
    requires Possible(h, Arrive)
    ensures forall x :: x in Box(h, p) ==> x in Box(Step(h, Arrive), p)
  {
  }

  // ----- what the other steps do -----

  /** A packet is dropped exactly when no session is active and 64 packets already wait. */
  lemma DroppedIff(h: Hub)
    requires Shaped(h) && Possible(h, Route)
    ensures var k := Step(h, Route); var p := h.reader.packet;
      && (k.dropped != h.dropped <==> h.active.None? && |h.pending| == 64)
      && (h.active.Some? ==> k.reader == Sending(p, h.active.value) && k.pending == h.pending)
      && (h.active.None? && |h.pending| < 64 ==> k.pending == h.pending + [p])
      && k.sessions == h.sessions && k.active == h.active
  {
  }

  /** Whoever leaves is active no more, and nobody else is affected; a failed read leaves nobody active. */
  lemma LeavingExact(h: Hub, s: nat)
    ensures Possible(h, Unsubscribe(s)) ==> Step(h, Unsubscribe(s)) == h.(active := if h.active == Some(s) then None else h.active)
    ensures Possible(h, ReadFails) ==>
      (var k := Step(h, ReadFails); k.active.None? && k.reader == Stopping(h.active) && k.sessions == h.sessions && k.pending == h.pending)
  {
  }

  /** The sessions that a step closes: the superseded one, the one that closes itself, the last one after a failed read. */
  function ClosedBy(h: Hub, e: Event): Option<nat> {
    match e
    case CloseOlder(s) => if s < |h.sessions| then h.sessions[s].closes else None
    case Close(s) => Some(s)
    case CloseLast => if h.reader.Stopping? then h.reader.closes else None
    case _ => None
  }

  /** A session is closed after a step exactly if it was before or the step closes it. */
  lemma DoneIff(h: Hub, e: Event, s: nat)
    requires Possible(h, e) && s < |h.sessions|
    ensures s < |Step(h, e).sessions| && (Step(h, e).sessions[s].done <==> h.sessions[s].done || ClosedBy(h, e) == Some(s))
  {
  }

  /** A newcomer is active, not closed, takes the whole backlog along and is to close the session it supersedes. */
  lemma NewcomerTakesOver(h: Hub)
    ensures var k := Step(h, Subscribe); var s := |h.sessions|;
      && |k.sessions| == s + 1 && k.active == Some(s) && k.pending == [] && !k.sessions[s].done
      && k.sessions[s].moving == h.pending && k.sessions[s].closes == h.active && k.sessions[..s] == h.sessions
  {
  }

  // ----- replies -----

  /** From any moment on, only the session that was newest then, or a newer one, gets a reply written to the device. */
  lemma {:induction false} OnlyNewestWrites(es: seq<Event>, more: seq<Event>)
    ensures var h, k := Run(es), Run(es + more);
      && h.written <= k.written && |h.sessions| <= |k.sessions|
      && forall i :: |h.written| <= i < |k.written| ==> k.written[i] >= |h.sessions| - 1
    decreases |more|
  {
    hide Possible;
    hide Shaped;
    hide Accounted;
    hide Step;
    if more == [] {
      assert es + more == es;
    } else {
      var n := |more| - 1;
      var all := es + more;
      assert all[..|all| - 1] == es + more[..n] && all[|all| - 1] == more[n];
      OnlyNewestWrites(es, more[..n]);
      EveryPacketAccounted(es + more[..n]);
      if Possible(Run(es + more[..n]), more[n]) {
        OneWrite(Run(es + more[..n]), more[n]);
      }
    }
  }

  lemma OneWrite(h: Hub, e: Event)
    requires Possible(h, e) && Shaped(h)
    ensures var k := Step(h, e);
      && |h.sessions| <= |k.sessions|
      && (k.written == h.written || k.written == h.written + [|h.sessions| - 1])
  {
  }

  /** A superseded session, or one that unsubscribed, is refused at once and for good, closed or not. */
  lemma SupersededIsRefused(es: seq<Event>, s: nat, size: nat, accepted: bool)
    requires Possible(Run(es), Write(s, size, accepted))
    ensures var h := Run(es);
      && (Step(h, Write(s, size, accepted)) != h <==>
            size == 64 && h.active == Some(s) && !h.sessions[s].done && accepted)
      && (h.active == Some(s) ==> s == |h.sessions| - 1)
  {
    hide Accounted;
    EveryPacketAccounted(es);
  }

  /** The steps from a given state; each must be enabled. */
  predicate Goes(h: Hub, es: seq<Event>, k: Hub)
    decreases |es|
  {
    if es == [] then h == k else Possible(h, es[0]) && Goes(Step(h, es[0]), es[1..], k)
  }

  lemma {:induction false} RunGoes(es: seq<Event>, more: seq<Event>, k: Hub)
    requires Goes(Run(es), more, k)
    ensures Run(es + more) == k
    decreases |more|
  {
    hide Step;
    hide Possible;
    if more == [] {
      assert es + more == es;
    } else {
      var all := es + [more[0]];
      assert all[..|es|] == es;
      assert es + more == all + more[1..];
      RunGoes(all, more[1..], k);
    }
  }

  /** The order between packets that waited and packets that arrive while those are being moved is not kept: packet 1 can
      be in the channel before packet 0. */
  lemma NewerCanOvertake()
    ensures exists es: seq<Event> :: |Run(es).sessions| == 1 && Run(es).sessions[0].queue == [1, 0]
  {
    hide Run;
    hide Goes;
    var waiting, sent, both := Session([], [], [0], None, false), Session([1], [], [0], None, false), Session([1, 0], [], [], None, false);
    var a := Hub(Some(0), [], [waiting], Idle, 1, [], [], []);
    var b := Hub(Some(0), [], [sent], Idle, 2, [], [], []);
    var c := Hub(Some(0), [], [both], Idle, 2, [], [], []);
    EmptyRun();
    var held := Step(Step(START, Arrive), Route);
    assert held.pending == [0];
    assert Step(held, Subscribe).sessions == [waiting];
    GoThree(START, Arrive, Route, Subscribe);
    RunGoes([], [Arrive, Route, Subscribe], a);
    var es := [] + [Arrive, Route, Subscribe];
    var late := Step(Step(a, Arrive), Route);
    assert late.sessions[0].queue + [1] == [1];
    assert Step(late, Send).sessions == [sent];
    GoThree(a, Arrive, Route, Send);
    RunGoes(es, [Arrive, Route, Send], b);
    assert sent.queue + [sent.moving[0]] == [1, 0] && sent.moving[1..] == [];
    assert Step(b, MoveOne(0)).sessions == [both];
    GoOne(b, MoveOne(0));
    RunGoes(es + [Arrive, Route, Send], [MoveOne(0)], c);
  }

  lemma GoOne(h: Hub, e: Event)
    requires Possible(h, e)
    ensures Goes(h, [e], Step(h, e))
  {
    assert [e][1..] == [];
  }

  lemma GoThree(h: Hub, e: Event, f: Event, g: Event)
    requires Possible(h, e) && Possible(Step(h, e), f) && Possible(Step(Step(h, e), f), g)
    ensures Goes(h, [e, f, g], Step(Step(Step(h, e), f), g))
  {
    hide Step;
    GoOne(Step(Step(h, e), f), g);
    assert [e, f, g][1..] == [f, g] && [f, g][1..] == [g];
  }

  lemma EmptyRun()
    ensures Run([]) == START
  {
  }
}
