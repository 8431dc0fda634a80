/** Whole runs of the authenticator: commands, decisions, timeouts, interruptions and store restores in any mix, with one
    request waiting at a time, checked against a policy that knows only what can be observed. */
module Runs {
  import opened Bytes
  import opened RequestParsers
  import opened StoreImage
  import opened Persistence
  import opened Gate
  import opened Handlers

  // ----- what can be observed -----

  datatype What =
    | PromptShown(id: u32)
    | Verdict(id: u32, allow: bool)
    | Approved(id: u32)
    | Refused(id: u32)
    | GaveUp(id: u32)
    | GrantUsed
    | Blocked
    | Ended
    | Replied(answer: Answer)

  datatype Entry = Entry(at: nat, what: What)

  /** An answer that releases key material, changes the credentials or reports the user's consent. */
  predicate Releases(w: What) {
    w.Replied? && !w.answer.Failed? && !w.answer.Info?
  }

  /** The entries that move the gate. */
  predicate MovesGate(w: What) {
    w.PromptShown? || w.Verdict? || w.Approved? || w.Refused? || w.GaveUp?
  }

  // ----- the policy -----

  /** What getNextAssertion can still serve: slots in their order, until when, for whom and over what. */
  datatype Offer = Offer(rest: seq<byte>, until: nat, rpId: seq<byte>, hash: seq<byte>)

  datatype GateView = Quiet | Open(since: nat) | Shut(since: nat) | Asked(id: u32) | Judged(id: u32, allow: bool)

  /** Everything the policy remembers of a log. */
  datatype Monitor = Monitor(
    gate: GateView, prompts: nat, askedAt: nat, offer: Option<Offer>, startedAt: nat, approved: bool, lastAt: nat)

  const START := Monitor(Quiet, 0, 0, None, 0, false, 0)

  function GateAfter(g: GateView, e: Entry): GateView {
    match e.what
    case PromptShown(id) => Asked(id)
    case Verdict(id, allow) => Judged(id, allow)
    case Approved(_) => Open(e.at)
    case Refused(_) => Shut(e.at)
    case GaveUp(_) => Quiet
    case _ => g
  }

  function OfferAfter(m: Monitor, e: Entry): Option<Offer> {
    match e.what
    case Ended => None
    case Replied(FirstServed(slots, _, _, rpId, hash)) =>
      if |slots| > 1 then Some(Offer(slots[1..], e.at + ASSERT_WINDOW_MS, rpId, hash)) else None
    case Replied(NextServed(_, _, _, _)) =>
      if m.offer.Some? && |m.offer.value.rest| > 1
      then Some(m.offer.value.(rest := m.offer.value.rest[1..], until := e.at + ASSERT_WINDOW_MS)) else None
    case _ => m.offer
  }

  function Observe(m: Monitor, e: Entry): Monitor {
    Monitor(
      GateAfter(m.gate, e),
      if e.what.PromptShown? then m.prompts + 1 else m.prompts,
      if e.what.PromptShown? then e.at else m.askedAt,
      OfferAfter(m, e),
      if e.what.GrantUsed? then e.at else if e.what.Approved? then m.askedAt else m.startedAt,
      e.what.Approved? || e.what.GrantUsed?,
      e.at)
  }

  /** What the policy lets happen next. */
  predicate Permitted(m: Monitor, e: Entry) {
    && m.lastAt <= e.at
    && match e.what
       case PromptShown(id) =>
         && id == (m.prompts + 1) % TWO_32
         && (m.gate.Quiet? || (m.gate.Open? && m.gate.since + GRANT_MS <= e.at) || (m.gate.Shut? && m.gate.since + DENY_MS <= e.at))
       case Verdict(id, _) => m.gate == Asked(id) || (m.gate.Judged? && m.gate.id == id)
       case Approved(id) => m.gate == Judged(id, true)
       case Refused(id) =>
         m.gate == Judged(id, false) || ((m.gate == Asked(id) || (m.gate.Judged? && m.gate.id == id)) && m.askedAt + WAIT_MS <= e.at)
       case GaveUp(id) => m.gate == Asked(id) || (m.gate.Judged? && m.gate.id == id)
       case GrantUsed => m.gate.Open? && e.at < m.gate.since + GRANT_MS
       case Blocked => m.gate.Shut? && e.at < m.gate.since + DENY_MS
       case Ended => true
       case Replied(answer) =>
         && (Releases(e.what) ==> m.approved && e.at == m.lastAt)
         && (answer.FirstServed? ==> answer.slots != [] && Ascending(answer.slots))
         && (answer.NextServed? ==>
               && m.offer.Some? && m.startedAt < m.offer.value.until && [answer.slot] <= m.offer.value.rest
               && answer.rpId == m.offer.value.rpId && answer.hash == m.offer.value.hash)
  }

  function Watch(log: seq<Entry>): Monitor {
    if log == [] then START else Observe(Watch(log[..|log| - 1]), log[|log| - 1])
  }

  predicate Obeys(log: seq<Entry>) {
    log == [] || (Obeys(log[..|log| - 1]) && Permitted(Watch(log[..|log| - 1]), log[|log| - 1]))
  }

  // ----- the system -----

  datatype Phase =
    | Idle
    | Waiting(plan: Plan, since: nat)
    | Returned(plan: Plan, since: nat, end: WaitEnd)

  datatype System = System(dev: Device, phase: Phase, now: nat, log: seq<Entry>)

  datatype Event =
    | Tick(ms: nat)
    | Command(msg: seq<byte>, luck: Luck)
    | Decision(allow: bool, id: u32, checkId: bool)
    | WaitEnds(end: WaitEnd)
    | Continue(luck: Luck)
    | StoreReplaced(store: Store)

  function Boot(store: Store): System {
    System(Device(CLOSED, store, Continuation(false, Zeros(MAX_CREDS), 0, 0, 0, Zeros(32), [])), Idle, 0, [])
  }

  function Say(log: seq<Entry>, at: nat, what: What): seq<Entry> {
    log + [Entry(at, what)]
  }

  /** The approved request runs to its end. */
  function Complete(s: System, plan: Plan, luck: Luck): System
    requires s.dev.Shaped() && WellPlanned(plan) && luck.Shaped()
  {
    var (dev, answer) := Finish(s.dev, plan, s.now, luck);
    s.(dev := dev, phase := Idle, log := Say(s.log, s.now, Replied(answer)))
  }

  function Refuse(s: System): System {
    s.(phase := Idle, log := Say(s.log, s.now, Replied(Failed(NotPermitted))))
  }

  /** A request asks for approval. */
  function AskFor(s: System, plan: Plan, luck: Luck): System
    requires s.dev.Shaped() && WellPlanned(plan) && luck.Shaped()
  {
    var (gate, begun) := Begin(s.dev.gate, s.now);
    var next := s.(dev := s.dev.(gate := gate));
    match begun
    case Cooldown => Refuse(next.(log := Say(s.log, s.now, Blocked)))
    case Granted => Complete(next.(log := Say(s.log, s.now, GrantUsed)), plan, luck)
    case Prompted => next.(phase := Waiting(plan, s.now), log := Say(s.log, s.now, PromptShown(gate.requestId)))
  }

  /** A message from the host; the continuation it clears shows in the log. */
  function Receive(s: System, msg: seq<byte>, luck: Luck): System
    requires s.dev.Shaped() && s.dev.cont.count <= MAX_CREDS && luck.Shaped()
  {
    var (cont, prepared) := Prepare(s.dev, msg, s.now);
    var next := s.(dev := s.dev.(cont := cont), log := if cont == s.dev.cont then s.log else Say(s.log, s.now, Ended));
    match prepared
    case Answered(answer) => next.(log := Say(next.log, s.now, Replied(answer)))
    case Ask(plan) =>
      PlansFit(s.dev, msg, s.now);
      AskFor(next, plan, luck)
  }

  lemma PlansFit(d: Device, msg: seq<byte>, now: nat)
    requires d.Shaped() && d.cont.count <= MAX_CREDS
    ensures var p := Prepare(d, msg, now).1; p.Ask? ==> WellPlanned(p.plan)
  {
    hide ParseGetAssertion;
    hide ParseMakeCredential;
    hide IsSelection;
    if msg != [] && msg[0] == GET_ASSERTION {
      var req := ParseGetAssertion(msg[1..]);
      if req.Some? {
        CollectExact(d.store.creds, MAX_CREDS, req.value.rpId.value, req.value.allow);
        var slots := Collect(d.store.creds, MAX_CREDS, req.value.rpId.value, req.value.allow);
        forall i | 0 <= i < |slots|
          ensures slots[i] < MAX_CREDS
        {
          assert slots[i] in slots;
        }
      }
    }
  }

  /** The lock is taken again and the handler goes on. */
  function Wake(s: System, luck: Luck): System
    requires s.phase.Returned? && s.dev.Shaped() && WellPlanned(s.phase.plan) && luck.Shaped()
  {
    var (gate, ok) := Resume(s.dev.gate, s.phase.end, s.now);
    var next := s.(dev := s.dev.(gate := gate));
    var id := s.dev.gate.requestId;
    if ok then Complete(next.(log := Say(s.log, s.now, Approved(id))), s.phase.plan, luck)
    else Refuse(next.(log := Say(s.log, s.now, if s.phase.end == Interrupted then GaveUp(id) else Refused(id))))
  }

  /** When a wait can end how: the condition is looked at first, then the signal, then the clock. */
  predicate CanEnd(s: System, end: WaitEnd)
    requires s.phase.Waiting?
  {
    match end
    case Woken => s.dev.gate.decided
    case Interrupted => !s.dev.gate.decided
    case TimedOut => !s.dev.gate.decided && s.phase.since + WAIT_MS <= s.now
  }

  predicate Possible(s: System, e: Event) {
    match e
    case Tick(_) => true
    case Command(_, luck) => s.phase.Idle? && luck.Shaped()
    case Decision(_, _, _) => true
    case WaitEnds(end) => s.phase.Waiting? && CanEnd(s, end)
    case Continue(luck) => s.phase.Returned? && luck.Shaped()
    case StoreReplaced(store) => |store.creds| == MAX_CREDS
  }

  /** Enough shape for every section to run. */
  predicate Formed(s: System) {
    s.dev.Shaped() && s.dev.cont.count <= MAX_CREDS && (!s.phase.Idle? ==> WellPlanned(s.phase.plan))
  }

  function Step(s: System, e: Event): System
    requires Formed(s) && Possible(s, e)
  {
    match e
    case Tick(ms) => s.(now := s.now + ms)
    case Command(msg, luck) => Receive(s, msg, luck)
    case Decision(allow, id, checkId) =>
      var (gate, d) := Decide(s.dev.gate, allow, id, checkId);
      s.(dev := s.dev.(gate := gate), log := if d == Accepted then Say(s.log, s.now, Verdict(gate.requestId, allow)) else s.log)
    case WaitEnds(end) => s.(phase := Returned(s.phase.plan, s.phase.since, end))
    case Continue(luck) => Wake(s, luck)
    case StoreReplaced(store) => s.(dev := s.dev.(store := store))
  }

  // ----- the system obeys the policy -----

  /** The gate fields, seen from the log. */
  predicate GateTied(g: GateState, phase: Phase, m: Monitor) {
    && g.requestId == m.prompts % TWO_32
    && match m.gate
       case Quiet => phase.Idle? && !g.pending && !g.grantValid && !g.denyValid
       case Open(since) => phase.Idle? && !g.pending && g.grantValid && g.grantExpires == since + GRANT_MS && !g.denyValid
       case Shut(since) => phase.Idle? && !g.pending && g.denyValid && g.denyExpires == since + DENY_MS && !g.grantValid
       case Asked(id) =>
         !phase.Idle? && g.pending && !g.decided && g.requestId == id && !g.grantValid && !g.denyValid
         && (phase.Returned? ==> phase.end != Woken)
       case Judged(id, allow) =>
         !phase.Idle? && g.pending && g.decided && g.allowed == allow && g.requestId == id && !g.grantValid && !g.denyValid
  }

  /** The continuation fields, seen from the log; without an offer no client data hash is kept. */
  predicate OfferTied(c: Continuation, offer: Option<Offer>) {
    && |c.slots| == MAX_CREDS && c.count <= MAX_CREDS
    && (offer.None? <==> !c.valid)
    && (!c.valid ==> c.hash == Zeros(32))
    && (c.valid ==> c.next < c.count && offer == Some(Offer(c.slots[c.next..c.count], c.expires, c.rpId, c.hash)))
  }

  predicate PhaseTied(s: System, m: Monitor) {
    match s.phase
    case Idle => true
    case _ =>
      && WellPlanned(s.phase.plan)
      && s.phase.since == m.askedAt
      && (s.phase.Returned? && s.phase.end == TimedOut ==> s.phase.since + WAIT_MS <= s.now)
      && PlanTied(s.dev.cont, s.phase.plan, s.phase.since)
  }

  /** A request for the next assertion speaks of what was on offer when it began; every other request began by ending the
      offer. What is to be registered fits its fields. */
  predicate PlanTied(c: Continuation, plan: Plan, since: nat) {
    match plan
    case Next(slot, served, rpId, hash) =>
      && c.valid && served == c.next + 1 && c.next < c.count <= |c.slots| && slot == c.slots[c.next] && since < c.expires
      && rpId == c.rpId && hash == c.hash
    case Create(req) => !c.valid && Fits(req)
    case _ => !c.valid
  }

  ghost predicate Inv(s: System) {
    var m := Watch(s.log);
    && Obeys(s.log)
    && |s.dev.store.creds| == MAX_CREDS
    && m.lastAt <= s.now
    && GateTied(s.dev.gate, s.phase, m)
    && OfferTied(s.dev.cont, m.offer)
    && PhaseTied(s, m)
  }

  lemma InvFormed(s: System)
    requires Inv(s)
    ensures Formed(s)
  {
  }

  lemma Said(log: seq<Entry>, at: nat, what: What)
    ensures Watch(Say(log, at, what)) == Observe(Watch(log), Entry(at, what))
    ensures Obeys(Say(log, at, what)) <==> Obeys(log) && Permitted(Watch(log), Entry(at, what))
  {
    var all := Say(log, at, what);
    assert all[..|all| - 1] == log;
  }

  /** An approved request is about to run: the approval is the last thing in the log. */
  ghost predicate Ready(s: System, plan: Plan) {
    var m := Watch(s.log);
    && Obeys(s.log) && m.approved && m.lastAt == s.now
    && |s.dev.store.creds| == MAX_CREDS && GateTied(s.dev.gate, Idle, m) && OfferTied(s.dev.cont, m.offer)
    && WellPlanned(plan) && PlanTied(s.dev.cont, plan, m.startedAt)
  }

  lemma FinishTied(d: Device, plan: Plan, now: nat, luck: Luck, m: Monitor)
    requires |d.store.creds| == MAX_CREDS && OfferTied(d.cont, m.offer) && WellPlanned(plan) && luck.Shaped()
    requires m.approved && m.lastAt == now && PlanTied(d.cont, plan, m.startedAt)
    ensures var (after, answer) := Finish(d, plan, now, luck);
      var e := Entry(now, Replied(answer));
      && Permitted(m, e) && OfferTied(after.cont, Observe(m, e).offer)
      && after.gate == d.gate && |after.store.creds| == MAX_CREDS
      && (plan.Next? ==> answer != Failed(NotAllowed))
  {
    hide NewCredential;
    hide Excluded;
    hide FreeSlot;
    var c := d.cont;
    match plan
    case Assert(req, slots) =>
      var o := Opened(c, req, slots, now);
      if |slots| > 1 {
        assert o.slots[1..o.count] == slots[1..];
      }
    case Next(slot, _, _, _) =>
      var rest := c.slots[c.next..c.count];
      assert rest[1..] == c.slots[c.next + 1..c.count];
      assert rest[..1] == [slot];
    case _ =>
  }

  lemma CompleteKeeps(s: System, plan: Plan, luck: Luck)
    requires Ready(s, plan) && luck.Shaped()
    ensures Inv(Complete(s, plan, luck))
  {
    hide Finish;
    hide OfferTied;
    hide PlanTied;
    hide Permitted;
    hide WellPlanned;
    OfferShape(s.dev.cont, Watch(s.log).offer);
    FinishTied(s.dev, plan, s.now, luck, Watch(s.log));
    var (dev, answer) := Finish(s.dev, plan, s.now, luck);
    Said(s.log, s.now, Replied(answer));
  }

  lemma OfferShape(c: Continuation, offer: Option<Offer>)
    requires OfferTied(c, offer)
    ensures |c.slots| == MAX_CREDS && c.count <= MAX_CREDS
  {
  }

  /** A refused request leaves everything but the log as it is. */
  lemma RefuseKeeps(s: System)
    requires Inv(s.(phase := Idle)) && Watch(s.log).lastAt == s.now
    ensures Inv(Refuse(s))
  {
    hide OfferTied;
    Said(s.log, s.now, Replied(Failed(NotPermitted)));
  }

  /** The gate's answer to a new request is the one the policy permits. */
  lemma BeginTied(g: GateState, now: nat, m: Monitor, waiting: Phase)
    requires GateTied(g, Idle, m) && m.lastAt <= now && waiting.Waiting?
    ensures var (gate, begun) := Begin(g, now);
      var e := Entry(now, match begun case Cooldown => Blocked case Granted => GrantUsed case Prompted => PromptShown(gate.requestId));
      Permitted(m, e) && GateTied(gate, if begun == Prompted then waiting else Idle, Observe(m, e))
  {
  }

  lemma AskForKeeps(s: System, plan: Plan, luck: Luck)
    requires Inv(s) && s.phase.Idle? && WellPlanned(plan) && luck.Shaped()
    requires PlanTied(s.dev.cont, plan, s.now)
    ensures Inv(AskFor(s, plan, luck))
  {
    hide OfferTied;
    hide PlanTied;
    hide GateTied;
    hide Permitted;
    hide WellPlanned;
    hide Complete;
    hide Refuse;
    hide Begin;
    hide Watch;
    hide Obeys;
    var m := Watch(s.log);
    OfferShape(s.dev.cont, m.offer);
    BeginTied(s.dev.gate, s.now, m, Waiting(plan, s.now));
    var (gate, begun) := Begin(s.dev.gate, s.now);
    var next := s.(dev := s.dev.(gate := gate));
    match begun
    case Cooldown =>
      Said(s.log, s.now, Blocked);
      RefuseKeeps(next.(log := Say(s.log, s.now, Blocked)));
    case Granted =>
      Said(s.log, s.now, GrantUsed);
      CompleteKeeps(next.(log := Say(s.log, s.now, GrantUsed)), plan, luck);
    case Prompted =>
      Said(s.log, s.now, PromptShown(gate.requestId));
  }

  lemma PrepareTied(d: Device, msg: seq<byte>, now: nat, offer: Option<Offer>)
    requires |d.store.creds| == MAX_CREDS && OfferTied(d.cont, offer)
    ensures var (cont, prepared) := Prepare(d, msg, now);
      && OfferTied(cont, if cont == d.cont then offer else None)
      && (prepared.Ask? ==> PlanTied(cont, prepared.plan, now))
      && (prepared.Answered? ==> prepared.answer.Failed? || prepared.answer.Info?)
  {
    hide ParseGetAssertion;
    hide ParseMakeCredential;
    hide IsSelection;
    hide Collect;
    hide Fits;
    if msg != [] {
      ParsedFits(msg[1..]);
    }
  }

  lemma ReceiveKeeps(s: System, msg: seq<byte>, luck: Luck)
    requires Inv(s) && s.phase.Idle? && luck.Shaped()
    ensures Inv(Receive(s, msg, luck))
  {
    hide Prepare;
    hide AskFor;
    hide OfferTied;
    hide PlanTied;
    hide WellPlanned;
    hide GateTied;
    OfferShape(s.dev.cont, Watch(s.log).offer);
    PrepareTied(s.dev, msg, s.now, Watch(s.log).offer);
    PlansFit(s.dev, msg, s.now);
    var (cont, prepared) := Prepare(s.dev, msg, s.now);
    var next := s.(dev := s.dev.(cont := cont), log := if cont == s.dev.cont then s.log else Say(s.log, s.now, Ended));
    Said(s.log, s.now, Ended);
    GateUnmoved(s.dev.gate, s.phase, Watch(s.log), Entry(s.now, Ended));
    match prepared
    case Answered(answer) =>
      Said(next.log, s.now, Replied(answer));
      GateUnmoved(s.dev.gate, s.phase, Watch(next.log), Entry(s.now, Replied(answer)));
    case Ask(plan) =>
      AskForKeeps(next, plan, luck);
  }

  lemma GateUnmoved(g: GateState, phase: Phase, m: Monitor, e: Entry)
    requires GateTied(g, phase, m) && !MovesGate(e.what)
    ensures GateTied(g, phase, Observe(m, e))
  {
  }

  lemma WakeKeeps(s: System, luck: Luck)
    requires Inv(s) && s.phase.Returned? && luck.Shaped()
    ensures Inv(Wake(s, luck))
  {
    hide OfferTied;
    hide PlanTied;
    hide WellPlanned;
    hide Complete;
    hide Refuse;
    OfferShape(s.dev.cont, Watch(s.log).offer);
    var (gate, ok) := Resume(s.dev.gate, s.phase.end, s.now);
    var next := s.(dev := s.dev.(gate := gate));
    var id := s.dev.gate.requestId;
    if ok {
      Said(s.log, s.now, Approved(id));
      CompleteKeeps(next.(log := Say(s.log, s.now, Approved(id))), s.phase.plan, luck);
    } else {
      var what := if s.phase.end == Interrupted then GaveUp(id) else Refused(id);
      Said(s.log, s.now, what);
      RefuseKeeps(next.(log := Say(s.log, s.now, what)));
    }
  }

  lemma DecideTied(g: GateState, allow: bool, id: u32, checkId: bool, phase: Phase, m: Monitor, now: nat)
    requires GateTied(g, phase, m) && m.lastAt <= now
    ensures var (gate, d) := Decide(g, allow, id, checkId);
      var e := Entry(now, Verdict(gate.requestId, allow));
      if d == Accepted then !phase.Idle? && Permitted(m, e) && GateTied(gate, phase, Observe(m, e)) else gate == g
  {
  }

  lemma DecisionKeeps(s: System, allow: bool, id: u32, checkId: bool)
    requires Inv(s) && Formed(s)
    ensures Inv(Step(s, Decision(allow, id, checkId)))
  {
    hide OfferTied;
    hide PlanTied;
    hide GateTied;
    hide Permitted;
    hide WellPlanned;
    hide Decide;
    hide Watch;
    hide Obeys;
    DecideTied(s.dev.gate, allow, id, checkId, s.phase, Watch(s.log), s.now);
    var (gate, d) := Decide(s.dev.gate, allow, id, checkId);
    Said(s.log, s.now, Verdict(gate.requestId, allow));
  }

  lemma StepKeeps(s: System, e: Event)
    requires Inv(s) && Formed(s) && Possible(s, e)
    ensures Inv(Step(s, e))
  {
    hide OfferTied;
    hide PlanTied;
    hide WellPlanned;
    hide Receive;
    hide Wake;
    match e
    case Tick(_) =>
    case Command(msg, luck) => ReceiveKeeps(s, msg, luck);
    case Decision(allow, id, checkId) => DecisionKeeps(s, allow, id, checkId);
    case WaitEnds(end) =>
    case Continue(luck) => WakeKeeps(s, luck);
    case StoreReplaced(_) =>
  }
}
