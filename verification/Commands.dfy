/** What each command does, from every state a run can reach: at once, under the grant, or after the prompt. */
module Commands {
  import opened Bytes
  import opened RequestParsers
  import opened StoreImage
  import Persistence
  import opened Gate
  import opened Handlers
  import opened Runs

  // ----- how a command ends -----

  predicate CoolingDown(s: System) { WindowsLeft(s.dev.gate, s.now).1 > 0 }

  predicate GrantOpen(s: System) { WindowsLeft(s.dev.gate, s.now).0 > 0 }

  /** The exchange is over, and this was its answer. */
  predicate Ends(after: System, answer: Answer) {
    after.phase.Idle? && after.log != [] && after.log[|after.log| - 1] == Entry(after.now, Replied(answer))
  }

  predicate SameStore(s: System, after: System) { after.dev.store == s.dev.store }

  /** Answered without asking anybody: gate and store are as before. */
  predicate Told(s: System, after: System, answer: Answer) {
    Ends(after, answer) && after.dev.gate == s.dev.gate && SameStore(s, after)
  }

  /** A prompt is up, nothing else has happened yet. */
  predicate Waits(s: System, after: System, plan: Plan) {
    && after.phase == Waiting(plan, s.now) && SameStore(s, after) && after.dev.gate.pending && !after.dev.gate.decided
    && after.log != [] && after.log[|after.log| - 1] == Entry(s.now, PromptShown(after.dev.gate.requestId))
  }

  // ----- what an approved request does -----

  predicate NamesUsedId(creds: seq<Credential>, list: seq<Descriptor>) {
    exists i, k :: 0 <= i < |list| && 0 <= k < |creds| && list[i].present && creds[k].inUse && creds[k].credId == list[i].id
  }

  predicate FirstFree(creds: seq<Credential>, at: nat) {
    at < |creds| && !creds[at].inUse && forall k :: 0 <= k < at ==> creds[k].inUse
  }

  /** Only this slot changed. */
  predicate OnlySlot(before: Store, after: Store, at: nat) {
    && |after.creds| == |before.creds| && at < |before.creds| && after == before.(creds := after.creds)
    && forall k :: 0 <= k < |before.creds| && k != at ==> after.creds[k] == before.creds[k]
  }

  /** A registration: refused for an excluded credential or for want of a slot, else made in the first free one. */
  ghost predicate Registered(s: System, after: System, req: MakeReq, luck: Luck)
    requires req.rpId.Some? && req.userId.Some?
  {
    var creds := s.dev.store.creds;
    if NamesUsedId(creds, req.exclude) then Ends(after, Failed(Exists)) && SameStore(s, after)
    else if forall k :: 0 <= k < |creds| ==> creds[k].inUse then Ends(after, Failed(NoSpace)) && SameStore(s, after)
    else exists at: byte ::
      && FirstFree(creds, at) && OnlySlot(s.dev.store, after.dev.store, at)
      && if luck.crypto then Ends(after, Created(at)) && Holds(after.dev.store.creds[at], req, luck)
         else Ends(after, Failed(CryptoFailure)) && !after.dev.store.creds[at].inUse
  }

  /** The counter goes up by one, and only it. */
  predicate Counted(s: System, after: System) {
    after.dev.store == s.dev.store.(signCount := (s.dev.store.signCount + 1) % TWO_32)
  }

  /** The first assertion: no secret and a failed derivation are told before anything is signed. */
  predicate Signed(s: System, after: System, req: AssertReq, slots: seq<byte>, luck: Luck)
    requires slots != [] && slots[0] < |s.dev.store.creds| && req.rpId.Some? && req.hash.Some?
  {
    var c := s.dev.store.creds[slots[0]];
    if req.hmac.Some? && c.hmacSecret == Zeros(32) then Ends(after, Failed(InvalidOption)) && SameStore(s, after)
    else if req.hmac.Some? && luck.hmac.Some? then Ends(after, Failed(luck.hmac.value)) && SameStore(s, after)
    else
      && Counted(s, after)
      && var namesUser := !(req.allow != [] && |slots| == 1 && !c.resident);
         Ends(after, if luck.crypto then FirstServed(slots, after.dev.store.signCount, namesUser, req.rpId.value, req.hash.value)
                     else Failed(CryptoFailure))
  }

  ghost predicate Carried(s: System, after: System, plan: Plan, luck: Luck)
    requires WellPlanned(plan) && |s.dev.store.creds| == MAX_CREDS
  {
    match plan
    case Assert(req, slots) => Signed(s, after, req, slots, luck)
    case Next(slot, _, rpId, hash) =>
      Counted(s, after)
      && Ends(after, if luck.crypto then NextServed(slot, after.dev.store.signCount, rpId, hash) else Failed(CryptoFailure))
    case Create(req) => Registered(s, after, req, luck)
    case Dummy => Ends(after, DummyCreated) && SameStore(s, after)
    case Wipe => Ends(after, Wiped) && Persistence.Blank(after.dev.store, luck.random)
    case Select => Ends(after, Selected) && SameStore(s, after)
  }

  /** A request that needs the user: refused in the cooldown, carried out in the grant window, else it waits. */
  ghost predicate Asks(s: System, after: System, plan: Plan, luck: Luck)
    requires WellPlanned(plan) && |s.dev.store.creds| == MAX_CREDS
  {
    if CoolingDown(s) then Told(s, after, Failed(NotPermitted))
    else if GrantOpen(s) then Carried(s, after, plan, luck)
    else Waits(s, after, plan)
  }

  // ----- carrying out -----

  lemma ExcludedIff(creds: seq<Credential>, list: seq<Descriptor>)
    ensures Excluded(creds, list) <==> NamesUsedId(creds, list)
  {
    forall i, k | 0 <= i < |list| && 0 <= k < |creds| && list[i].present && creds[k].inUse && creds[k].credId == list[i].id
      ensures Excluded(creds, list)
    {
      assert FindById(creds, list[i].id) < |creds|;
    }
    forall i | 0 <= i < |list| && list[i].present && FindById(creds, list[i].id) < |creds|
      ensures NamesUsedId(creds, list)
    {
      var k := FindById(creds, list[i].id);
      assert creds[k].inUse;
    }
  }

  lemma CreateRegisters(s: System, after: System, dev: Device, req: MakeReq, luck: Luck)
    requires dev.Shaped() && dev.store == s.dev.store && WellPlanned(Create(req)) && Fits(req) && luck.Shaped()
    requires var (d, answer) := FinishCreate(dev, req, luck); after.dev.store == d.store && Ends(after, answer)
    ensures Registered(s, after, req, luck)
  {
    hide Excluded;
    hide NewCredential;
    hide Fits;
    hide Holds;
    ExcludedIff(s.dev.store.creds, req.exclude);
    FittingIsKept(req, luck);
    var at := FreeSlot(s.dev.store.creds);
    if at < MAX_CREDS && !Excluded(s.dev.store.creds, req.exclude) {
      assert FirstFree(s.dev.store.creds, at);
      assert OnlySlot(s.dev.store, after.dev.store, at);
    }
  }

  lemma CompleteCarries(s: System, run: System, plan: Plan, since: nat, luck: Luck)
    requires run.dev.Shaped() && WellPlanned(plan) && luck.Shaped() && PlanTied(run.dev.cont, plan, since)
    requires run.dev.store == s.dev.store
    ensures Carried(s, Complete(run, plan, luck), plan, luck)
  {
    hide FinishCreate;
    hide Persistence.Blank;
    hide Registered;
    hide Fits;
    if plan.Create? {
      CreateRegisters(s, Complete(run, plan, luck), run.dev, plan.make, luck);
    }
  }

  lemma CommandAsks(s: System, msg: seq<byte>, plan: Plan, luck: Luck)
    requires Inv(s) && Formed(s) && s.phase.Idle? && luck.Shaped() && Prepare(s.dev, msg, s.now).1 == Ask(plan)
    ensures WellPlanned(plan) && Asks(s, Step(s, Command(msg, luck)), plan, luck)
  {
    hide Prepare;
    hide Carried;
    hide Complete;
    hide WellPlanned;
    hide PlanTied;
    hide OfferTied;
    hide GateTied;
    hide Watch;
    hide Obeys;
    PlansFit(s.dev, msg, s.now);
    PrepareTied(s.dev, msg, s.now, Watch(s.log).offer);
    var cont := Prepare(s.dev, msg, s.now).0;
    OfferShape(cont, if cont == s.dev.cont then Watch(s.log).offer else None);
    var next := s.(dev := s.dev.(cont := cont), log := if cont == s.dev.cont then s.log else Say(s.log, s.now, Ended));
    var (gate, begun) := Begin(s.dev.gate, s.now);
    if begun == Granted {
      CompleteCarries(s, next.(dev := next.dev.(gate := gate), log := Say(next.log, s.now, GrantUsed)), plan, s.now, luck);
    }
  }

  lemma CommandTells(s: System, msg: seq<byte>, answer: Answer, luck: Luck)
    requires Formed(s) && s.phase.Idle? && luck.Shaped() && Prepare(s.dev, msg, s.now).1 == Answered(answer)
    ensures Told(s, Step(s, Command(msg, luck)), answer)
  {
    hide Prepare;
  }

  // ----- command by command -----

  /** authenticatorReset erases everything, once it is approved. */
  lemma ResetErases(s: System, rest: seq<byte>, luck: Luck)
    requires Inv(s) && s.phase.Idle? && luck.Shaped()
    ensures Formed(s) && Asks(s, Step(s, Command([0x07] + rest, luck)), Wipe, luck)
  {
    hide Asks;
    hide WellPlanned;
    assert ([0x07] + rest)[0] == RESET;
    CommandAsks(s, [0x07] + rest, Wipe, luck);
  }

  /** authenticatorSelection changes nothing, once it is approved. */
  lemma SelectionKeeps(s: System, rest: seq<byte>, luck: Luck)
    requires Inv(s) && s.phase.Idle? && luck.Shaped()
    ensures Formed(s) && Asks(s, Step(s, Command([0x0b] + rest, luck)), Select, luck)
  {
    hide Asks;
    assert ([0x0b] + rest)[0] == SELECTION;
    CommandAsks(s, [0x0b] + rest, Select, luck);
  }

  /** The bytes of a text. */
  predicate Spells(b: seq<byte>, text: string) {
    |b| == |text| && forall i :: 0 <= i < |text| ==> b[i] == text[i] as int
  }

  /** The two requests that only ask for a touch: Windows' device selection and Chromium's touch collector. */
  predicate AsksForTouch(req: MakeReq)
    requires req.rpId.Some?
  {
    || (Spells(req.rpId.value, "SelectDevice") && Spells(req.userName, "SelectDevice"))
    || (Spells(req.rpId.value, ".dummy") && Spells(req.userName, "dummy"))
  }

  lemma TouchIsSelection(req: MakeReq)
    requires req.rpId.Some?
    ensures IsSelection(req) <==> AsksForTouch(req)
  {
    assert Spells(SELECT_DEVICE, "SelectDevice") && Spells(DOT_DUMMY, ".dummy") && Spells(DUMMY, "dummy");
    SpelledSame(req.rpId.value, SELECT_DEVICE, "SelectDevice");
    SpelledSame(req.userName, SELECT_DEVICE, "SelectDevice");
    SpelledSame(req.rpId.value, DOT_DUMMY, ".dummy");
    SpelledSame(req.userName, DUMMY, "dummy");
  }

  lemma SpelledSame(a: seq<byte>, b: seq<byte>, text: string)
    requires Spells(b, text)
    ensures Spells(a, text) <==> a == b
  {
  }

  /** authenticatorMakeCredential: what is refused without a prompt, what only collects a touch, and what registers. */
  lemma MakeCredentialDoes(s: System, buf: seq<byte>, luck: Luck)
    requires Inv(s) && s.phase.Idle? && luck.Shaped()
    ensures Formed(s)
    ensures var after := Step(s, Command([0x01] + buf, luck));
      match ParseMakeCredential(buf)
      case Err(Invalid) => Told(s, after, Failed(Malformed))
      case Err(UnsupportedAlgorithm) => Told(s, after, Failed(Unsupported))
      case Ok(req) =>
        if AsksForTouch(req) then Asks(s, after, Dummy, luck)
        else if req.pinAuth then Told(s, after, Failed(PinNotSet))
        else if req.options.upDisabled then Told(s, after, Failed(InvalidOption))
        else Asks(s, after, Create(req), luck)
  {
    hide Asks;
    hide Told;
    hide IsSelection;
    hide AsksForTouch;
    hide Step;
    hide ParseMakeCredential;
    hide GateTied;
    hide Watch;
    hide Obeys;
    hide OfferTied;
    var msg := [0x01] + buf;
    assert msg[0] == MAKE_CREDENTIAL && msg[1..] == buf;
    InvFormed(s);
    var req := ParseMakeCredential(buf);
    if req.Ok? {
      TouchIsSelection(req.value);
    }
    match Prepare(s.dev, msg, s.now).1
    case Answered(answer) => CommandTells(s, msg, answer, luck);
    case Ask(plan) => CommandAsks(s, msg, plan, luck);
  }

  /** A credential in use for this relying party, named by its id or by an https URL of its host, and listed if there is a
      list. */
  predicate Answers(c: Credential, rpId: seq<byte>, allow: seq<Descriptor>) {
    && c.inUse
    && (var stored := CStr(c.rpId);
        || stored == rpId
        || (&& stored != [] && SLASH !in stored && HTTPS + stored <= rpId
            && (|rpId| == 8 + |stored| || rpId[8 + |stored|] == SLASH)))
    && (allow == [] || exists i :: 0 <= i < |allow| && allow[i].present && allow[i].id == c.credId)
  }

  /** All slots whose credential answers, in increasing order. */
  ghost predicate AreTheAnswers(creds: seq<Credential>, req: AssertReq, slots: seq<byte>)
    requires req.rpId.Some?
  {
    && (forall i, j :: 0 <= i < j < |slots| ==> slots[i] < slots[j])
    && forall s :: s in slots <==> 0 <= s < |creds| && Answers(creds[s], req.rpId.value, req.allow)
  }

  lemma CollectedAnswer(creds: seq<Credential>, req: AssertReq)
    requires |creds| == MAX_CREDS && req.rpId.Some?
    ensures AreTheAnswers(creds, req, Collect(creds, MAX_CREDS, req.rpId.value, req.allow))
  {
    hide CStr;
    hide RpMatches;
    hide Collect;
    CollectExact(creds, MAX_CREDS, req.rpId.value, req.allow);
    forall s | 0 <= s < |creds|
      ensures Matches(creds[s], req.rpId.value, req.allow) <==> Answers(creds[s], req.rpId.value, req.allow)
    {
      RpMatchesIff(CStr(creds[s].rpId), req.rpId.value);
    }
  }

  /** authenticatorGetAssertion: what is refused without a prompt, and what is signed, for exactly the matching slots. */
  lemma GetAssertionDoes(s: System, buf: seq<byte>, luck: Luck)
    requires Inv(s) && s.phase.Idle? && luck.Shaped()
    ensures Formed(s)
    ensures var after := Step(s, Command([0x02] + buf, luck));
      match ParseGetAssertion(buf)
      case None => Told(s, after, Failed(Malformed))
      case Some(req) =>
        var slots := Collect(s.dev.store.creds, MAX_CREDS, req.rpId.value, req.allow);
        && AreTheAnswers(s.dev.store.creds, req, slots)
        && if req.pinAuth then Told(s, after, Failed(PinNotSet))
           else if slots == [] then Told(s, after, Failed(if req.options.upDisabled then UpRequired else NoEntry))
           else WellPlanned(Assert(req, slots)) && Asks(s, after, Assert(req, slots), luck)
  {
    hide Asks;
    hide Told;
    hide Step;
    hide ParseGetAssertion;
    hide Collect;
    hide GateTied;
    hide Watch;
    hide Obeys;
    hide OfferTied;
    hide WellPlanned;
    hide AreTheAnswers;
    var msg := [0x02] + buf;
    assert msg[0] == GET_ASSERTION && msg[1..] == buf;
    InvFormed(s);
    if ParseGetAssertion(buf).Some? {
      CollectedAnswer(s.dev.store.creds, ParseGetAssertion(buf).value);
    }
    match Prepare(s.dev, msg, s.now).1
    case Answered(answer) => CommandTells(s, msg, answer, luck);
    case Ask(plan) => CommandAsks(s, msg, plan, luck);
  }

  /** authenticatorGetNextAssertion: refused when nothing is on offer, the offer is over or its next credential is gone; else
      the next credential signs, for the relying party and over the hash of the getAssertion that made the offer. */
  lemma GetNextAssertionDoes(s: System, rest: seq<byte>, luck: Luck)
    requires Inv(s) && s.phase.Idle? && luck.Shaped()
    ensures Formed(s)
    ensures var after := Step(s, Command([0x08] + rest, luck));
      match Watch(s.log).offer
      case None => Told(s, after, Failed(NotAllowed))
      case Some(Offer(left, until, rpId, hash)) =>
        && left != []
        && if until <= s.now then Told(s, after, Failed(NotAllowed))
           else if left[0] >= MAX_CREDS || !s.dev.store.creds[left[0]].inUse then Told(s, after, Failed(NoEntry))
           else Asks(s, after, Next(left[0], s.dev.cont.next + 1, rpId, hash), luck)
  {
    hide Asks;
    hide Told;
    hide Step;
    hide GateTied;
    hide Watch;
    hide Obeys;
    var msg := [0x08] + rest;
    assert msg[0] == GET_NEXT_ASSERTION;
    InvFormed(s);
    match Prepare(s.dev, msg, s.now).1
    case Answered(answer) => CommandTells(s, msg, answer, luck);
    case Ask(plan) => CommandAsks(s, msg, plan, luck);
  }

  /** Every other message is answered on the spot. */
  lemma OthersAreTold(s: System, msg: seq<byte>, luck: Luck)
    requires Inv(s) && s.phase.Idle? && luck.Shaped() && (msg == [] || msg[0] !in {0x01, 0x02, 0x07, 0x08, 0x0b})
    ensures Formed(s)
    ensures Told(s, Step(s, Command(msg, luck)),
      if msg == [] then Failed(Malformed) else if msg[0] == 0x04 then Info
      else if msg[0] == 0x06 then Failed(InvalidCommand) else Failed(UnknownCommand))
  {
    hide Told;
    hide Step;
    hide GateTied;
    hide Watch;
    hide Obeys;
    InvFormed(s);
    CommandTells(s, msg, Prepare(s.dev, msg, s.now).1.answer, luck);
  }

  /** After the prompt: carried out exactly when the wait was woken by an allow, with the slots and texts it was asked with. */
  lemma ContinueDoes(s: System, luck: Luck)
    requires Inv(s) && s.phase.Returned? && luck.Shaped()
    ensures Formed(s)
    ensures var after := Step(s, Event.Continue(luck));
      if s.phase.end == Woken && s.dev.gate.allowed then Carried(s, after, s.phase.plan, luck)
      else Ends(after, Failed(NotPermitted)) && SameStore(s, after)
  {
    hide Carried;
    hide Complete;
    hide GateTied;
    hide Watch;
    hide Obeys;
    hide PlanTied;
    hide WellPlanned;
    var (gate, ok) := Resume(s.dev.gate, s.phase.end, s.now);
    var next := s.(dev := s.dev.(gate := gate));
    if ok {
      CompleteCarries(s, next.(log := Say(s.log, s.now, Approved(s.dev.gate.requestId))), s.phase.plan, s.phase.since, luck);
    }
  }
}
