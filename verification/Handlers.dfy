/** The CTAP command handlers: what happens before the approval is asked for, and what happens once it is there. */
module Handlers {
  import opened Bytes
  import opened Cbor
  import opened RequestParsers
  import opened StoreImage
  import opened Persistence
  import opened Gate

  const MAKE_CREDENTIAL: byte := 0x01
  const GET_ASSERTION: byte := 0x02
  const GET_INFO: byte := 0x04
  const CLIENT_PIN: byte := 0x06
  const RESET: byte := 0x07
  const GET_NEXT_ASSERTION: byte := 0x08
  const SELECTION: byte := 0x0b

  const ASSERT_WINDOW_MS := 30000

  const HTTPS: seq<byte> := [0x68, 0x74, 0x74, 0x70, 0x73, 0x3a, 0x2f, 0x2f]
  const SLASH: byte := 0x2f
  const SELECT_DEVICE: seq<byte> := [0x53, 0x65, 0x6c, 0x65, 0x63, 0x74, 0x44, 0x65, 0x76, 0x69, 0x63, 0x65]
  const DOT_DUMMY: seq<byte> := [0x2e, 0x64, 0x75, 0x6d, 0x6d, 0x79]
  const DUMMY: seq<byte> := [0x64, 0x75, 0x6d, 0x6d, 0x79]
  const DEFAULT_USER: seq<byte> := [0x61, 0x62, 0x6b, 0x2d, 0x75, 0x73, 0x65, 0x72]

  datatype Error =
    | NotPermitted | NoEntry | Malformed | Unsupported | Exists | NoSpace | PinNotSet | InvalidOption
    | UpRequired | NotAllowed | InvalidCommand | UnknownCommand | CryptoFailure

  /** What a command is answered with; the constructors between `FirstServed` and `Selected` need an approval. An assertion
      is signed for a relying party id, over a client data hash. */
  datatype Answer =
    | Failed(error: Error)
    | Info
    | FirstServed(slots: seq<byte>, counter: u32, withUser: bool, rpId: seq<byte>, hash: seq<byte>)
    | NextServed(slot: byte, counter: u32, rpId: seq<byte>, hash: seq<byte>)
    | Created(at: byte)
    | DummyCreated
    | Wiped
    | Selected

  /** The continuation fields; `slots` is the whole array of the device. */
  datatype Continuation = Continuation(
    valid: bool, slots: seq<byte>, count: nat, next: nat, expires: nat, hash: seq<byte>, rpId: seq<byte>)

  datatype Device = Device(gate: GateState, store: Store, cont: Continuation) {
    predicate Shaped() { |store.creds| == MAX_CREDS && |cont.slots| == MAX_CREDS }
  }

  /** What a request still has to do once it is approved. */
  datatype Plan =
    | Assert(req: AssertReq, slots: seq<byte>)
    | Next(slot: byte, served: nat, rpId: seq<byte>, hash: seq<byte>)
    | Create(make: MakeReq)
    | Dummy
    | Wipe
    | Select

  /** The outcome of the part before the approval. */
  datatype Prepared = Answered(answer: Answer) | Ask(plan: Plan)

  /** What the randomness source and the primitives deliver. */
  datatype Luck = Luck(
    hmac: Option<Error>, crypto: bool, credId: seq<byte>, privKey: seq<byte>, pubKey: seq<byte>, secret: seq<byte>, random: Random)
  {
    predicate Shaped() {
      |credId| == 32 && |privKey| == 32 && |pubKey| == 64 && |secret| == 32 && random.Valid()
    }
  }

  // ----- which credentials answer a request -----

  /** Everything before the first slash. */
  function Host(s: seq<byte>): (h: seq<byte>)
    ensures |h| <= |s| && h == s[..|h|] && SLASH !in h && (|h| < |s| ==> s[|h|] == SLASH)
  {
    if s == [] || s[0] == SLASH then [] else
      var rest := Host(s[1..]);
      [s[0]] + rest
  }

  function RpMatches(stored: seq<byte>, requested: seq<byte>): bool {
    stored == requested ||
    (HTTPS <= requested && var host := Host(requested[8..]); host != [] && stored == host)
  }

  /** A stored relying party answers its own id and any https URL whose host part is exactly that id. */
  lemma RpMatchesIff(stored: seq<byte>, requested: seq<byte>)
    ensures RpMatches(stored, requested) <==>
      stored == requested ||
      (&& stored != [] && SLASH !in stored && HTTPS + stored <= requested
       && (|requested| == 8 + |stored| || requested[8 + |stored|] == SLASH))
  {
    if HTTPS <= requested {
      var rest := requested[8..];
      assert requested == HTTPS + rest;
      var host := Host(rest);
      assert HTTPS + host == requested[..8 + |host|];
      if HTTPS + stored <= requested && SLASH !in stored && (|requested| == 8 + |stored| || requested[8 + |stored|] == SLASH) {
        assert stored == requested[..8 + |stored|][8..] == rest[..|stored|];
        HostUnique(rest, stored);
      }
    } else {
      assert HTTPS + stored <= requested ==> HTTPS <= requested;
    }
  }

  /** The host is the one slash-free prefix that ends the text or stands before a slash. */
  lemma {:induction false} HostUnique(s: seq<byte>, h: seq<byte>)
    requires |h| <= |s| && h == s[..|h|] && SLASH !in h && (|h| < |s| ==> s[|h|] == SLASH)
    ensures Host(s) == h
  {
    if h == [] {
    } else {
      assert h[0] == s[0] && h[0] in h;
      assert h[1..] == s[1..][..|h| - 1];
      HostUnique(s[1..], h[1..]);
    }
  }

  lemma OwnRpMatches(rpId: seq<byte>)
    ensures RpMatches(rpId, rpId)
  {
  }

  predicate AllowMatches(allow: seq<Descriptor>, credId: seq<byte>) {
    allow == [] || Listed(allow, credId)
  }

  predicate Listed(list: seq<Descriptor>, credId: seq<byte>) {
    exists i :: 0 <= i < |list| && list[i].present && list[i].id == credId
  }

  predicate Matches(c: Credential, rpId: seq<byte>, allow: seq<Descriptor>) {
    c.inUse && RpMatches(CStr(c.rpId), rpId) && AllowMatches(allow, c.credId)
  }

  /** The matching slots among the first `n`, in slot order. */
  function Collect(creds: seq<Credential>, n: nat, rpId: seq<byte>, allow: seq<Descriptor>): (slots: seq<byte>)
    requires n <= |creds| <= MAX_CREDS
    ensures |slots| <= n
  {
    if n == 0 then [] else
      Collect(creds, n - 1, rpId, allow) + if Matches(creds[n - 1], rpId, allow) then [n - 1] else []
  }

  /** Exactly the matching slots, each once, in increasing order. */
  lemma {:induction false} CollectExact(creds: seq<Credential>, n: nat, rpId: seq<byte>, allow: seq<Descriptor>)
    requires n <= |creds| <= MAX_CREDS
    ensures var slots := Collect(creds, n, rpId, allow);
      && Ascending(slots)
      && (forall i :: i in slots <==> 0 <= i < n && Matches(creds[i], rpId, allow))
  {
    hide Matches;
    if n > 0 {
      CollectExact(creds, n - 1, rpId, allow);
      var before := Collect(creds, n - 1, rpId, allow);
      forall i | 0 <= i < |before|
        ensures before[i] < n - 1
      {
        assert before[i] in before;
      }
    }
  }

  /** The first slot in use with this id, or the number of slots. */
  function FindById(creds: seq<Credential>, id: seq<byte>): (i: nat)
    ensures i <= |creds|
    ensures i < |creds| ==> creds[i].inUse && creds[i].credId == id
    ensures forall j :: 0 <= j < i ==> !(creds[j].inUse && creds[j].credId == id)
  {
    if creds == [] || (creds[0].inUse && creds[0].credId == id) then 0 else
      var k := FindById(creds[1..], id);
      assert forall j :: 0 < j < 1 + k ==> creds[j] == creds[1..][j - 1];
      1 + k
  }

  predicate Excluded(creds: seq<Credential>, list: seq<Descriptor>) {
    exists i :: 0 <= i < |list| && list[i].present && FindById(creds, list[i].id) < |creds|
  }

  function FreeSlot(creds: seq<Credential>): (i: nat)
    ensures i <= |creds|
    ensures i < |creds| ==> !creds[i].inUse
    ensures forall j :: 0 <= j < i ==> creds[j].inUse
  {
    if creds == [] || !creds[0].inUse then 0 else
      var k := FreeSlot(creds[1..]);
      assert forall j :: 0 < j < 1 + k ==> creds[j] == creds[1..][j - 1];
      1 + k
  }

  // ----- a registration -----

  /** `strscpy` of a string into a zeroed field. */
  function Field(s: seq<byte>, size: nat): (f: seq<byte>)
    requires size > 0
    ensures |f| == size && 0 in f
  {
    var kept := s[..Min(|s|, size - 1)];
    var f := kept + Zeros(size - |kept|);
    assert f[size - 1] == 0;
    f
  }

  function NewCredential(req: MakeReq, luck: Luck): (c: Credential)
    requires req.rpId.Some? && req.userId.Some? && luck.Shaped()
    ensures c.Valid() && c.inUse
  {
    var id := req.userId.value[..Min(|req.userId.value|, 64)];
    var name := if req.userName != [] then req.userName else DEFAULT_USER;
    Credential(true, req.options.rk, |id|, luck.credId, id + Zeros(64 - |id|), Field(req.rpId.value, 128), Field(name, 64),
               Field(if req.userDisplay != [] then req.userDisplay else name, 64), luck.privKey, luck.pubKey,
               if req.hmacSecret then luck.secret else Zeros(32))
  }

  // ----- before the approval -----

  function Cleared(c: Continuation): Continuation {
    c.(valid := false, count := 0, next := 0, hash := Zeros(32))
  }

  predicate IsSelection(req: MakeReq) {
    (req.rpId == Some(SELECT_DEVICE) && req.userName == SELECT_DEVICE) || (req.rpId == Some(DOT_DUMMY) && req.userName == DUMMY)
  }

  function PrepareMake(req: MakeReq): Prepared {
    if IsSelection(req) then Ask(Dummy)
    else if req.pinAuth then Answered(Failed(PinNotSet))
    else if req.options.upDisabled then Answered(Failed(InvalidOption))
    else Ask(Create(req))
  }

  function PrepareAssert(creds: seq<Credential>, req: AssertReq): Prepared
    requires |creds| == MAX_CREDS && req.rpId.Some?
  {
    var slots := Collect(creds, MAX_CREDS, req.rpId.value, req.allow);
    if req.pinAuth then Answered(Failed(PinNotSet))
    else if slots == [] then Answered(Failed(if req.options.upDisabled then UpRequired else NoEntry))
    else Ask(Assert(req, slots))
  }

  /** The continuation can serve another assertion now. */
  predicate CanContinue(c: Continuation, now: nat) {
    c.valid && c.next < c.count && now < c.expires
  }

  function PrepareNext(d: Device, now: nat): (Continuation, Prepared)
    requires d.Shaped() && d.cont.count <= MAX_CREDS
  {
    if !CanContinue(d.cont, now) then (Cleared(d.cont), Answered(Failed(NotAllowed))) else
      var slot := d.cont.slots[d.cont.next];
      if slot >= MAX_CREDS || !d.store.creds[slot].inUse then (Cleared(d.cont), Answered(Failed(NoEntry)))
      else (d.cont, Ask(Next(slot, d.cont.next + 1, d.cont.rpId, d.cont.hash)))
  }

  /** The dispatcher up to the approval. A getAssertion that does not parse leaves the continuation alone; every other
      command but getNextAssertion clears it. */
  function Prepare(d: Device, msg: seq<byte>, now: nat): (Continuation, Prepared)
    requires d.Shaped() && d.cont.count <= MAX_CREDS
  {
    if msg == [] then (d.cont, Answered(Failed(Malformed)))
    else if msg[0] == GET_NEXT_ASSERTION then PrepareNext(d, now)
    else if msg[0] == GET_ASSERTION then
      var req := ParseGetAssertion(msg[1..]);
      if req.None? then (d.cont, Answered(Failed(Malformed)))
      else (Cleared(d.cont), PrepareAssert(d.store.creds, req.value))
    else
      (Cleared(d.cont),
       if msg[0] == GET_INFO then Answered(Info)
       else if msg[0] == MAKE_CREDENTIAL then
         var req := ParseMakeCredential(msg[1..]);
         if req.Ok? then PrepareMake(req.value)
         else Answered(Failed(if req.error == Invalid then Malformed else Unsupported))
       else if msg[0] == RESET then Ask(Wipe)
       else if msg[0] == SELECTION then Ask(Select)
       else if msg[0] == CLIENT_PIN then Answered(Failed(InvalidCommand))
       else Answered(Failed(UnknownCommand)))
  }

  // ----- after the approval -----

  /** Slot numbers in strictly increasing order, so each at most once. */
  predicate Ascending(slots: seq<byte>) {
    forall i, j :: 0 <= i < j < |slots| ==> slots[i] < slots[j]
  }

  predicate WellPlanned(plan: Plan) {
    match plan
    case Assert(req, slots) =>
      && 0 < |slots| <= MAX_CREDS && Ascending(slots) && (forall i :: 0 <= i < |slots| ==> slots[i] < MAX_CREDS)
      && req.rpId.Some? && req.hash.Some?
    case Next(slot, _, _, _) => slot < MAX_CREDS
    case Create(req) => req.rpId.Some? && req.userId.Some?
    case _ => true
  }

  /** The continuation a getAssertion with several matches opens; one with a single match leaves the fields alone. */
  function Opened(c: Continuation, req: AssertReq, slots: seq<byte>, now: nat): Continuation
    requires |slots| <= |c.slots| && req.rpId.Some? && req.hash.Some?
  {
    if |slots| <= 1 then c else
      Continuation(true, slots + c.slots[|slots|..], |slots|, 1, now + ASSERT_WINDOW_MS, req.hash.value, req.rpId.value)
  }

  function Advanced(c: Continuation, now: nat): Continuation {
    if c.next + 1 >= c.count then Cleared(c) else c.(next := c.next + 1, expires := now + ASSERT_WINDOW_MS)
  }

  function HmacError(c: Credential, luck: Luck): Option<Error> {
    if c.hmacSecret == Zeros(32) then Some(InvalidOption) else luck.hmac
  }

  function FinishAssert(d: Device, req: AssertReq, slots: seq<byte>, now: nat, luck: Luck): (Device, Answer)
    requires d.Shaped() && WellPlanned(Assert(req, slots))
  {
    var c := d.store.creds[slots[0]];
    if req.hmac.Some? && HmacError(c, luck).Some? then (d, Failed(HmacError(c, luck).value)) else
      var bumped := Bumped(d.store);
      if !luck.crypto then (d.(store := bumped), Failed(CryptoFailure))
      else (d.(store := bumped, cont := Opened(d.cont, req, slots, now)),
            FirstServed(slots, bumped.signCount, req.allow == [] || |slots| > 1 || c.resident, req.rpId.value, req.hash.value))
  }

  function FinishNext(d: Device, slot: byte, served: nat, rpId: seq<byte>, hash: seq<byte>, now: nat, luck: Luck): (Device, Answer)
    requires d.Shaped() && slot < MAX_CREDS
  {
    if !d.cont.valid || d.cont.next + 1 != served then (d, Failed(NotAllowed)) else
      var bumped := Bumped(d.store);
      if !luck.crypto then (d.(store := bumped), Failed(CryptoFailure))
      else (d.(store := bumped, cont := Advanced(d.cont, now)), NextServed(slot, bumped.signCount, rpId, hash))
  }

  function FinishCreate(d: Device, req: MakeReq, luck: Luck): (Device, Answer)
    requires d.Shaped() && WellPlanned(Create(req)) && luck.Shaped()
  {
    var slot := FreeSlot(d.store.creds);
    if Excluded(d.store.creds, req.exclude) then (d, Failed(Exists))
    else if slot >= MAX_CREDS then (d, Failed(NoSpace))
    else if !luck.crypto then (d.(store := WithSlot(d.store, slot, NO_CRED)), Failed(CryptoFailure))
    else (d.(store := WithSlot(d.store, slot, NewCredential(req, luck))), Created(slot))
  }

  function Finish(d: Device, plan: Plan, now: nat, luck: Luck): (Device, Answer)
    requires d.Shaped() && WellPlanned(plan) && luck.Shaped()
  {
    match plan
    case Assert(req, slots) => FinishAssert(d, req, slots, now, luck)
    case Next(slot, served, rpId, hash) => FinishNext(d, slot, served, rpId, hash, now, luck)
    case Create(req) => FinishCreate(d, req, luck)
    case Dummy => (d, DummyCreated)
    case Wipe => (d.(store := NewStore(luck.random)), Wiped)
    case Select => (d, Selected)
  }

  // ----- what a parsed request is like -----

  predicate Fits(req: MakeReq) {
    && (req.rpId.Some? ==> |req.rpId.value| < MAX_RP_ID && 0 !in req.rpId.value)
    && (req.userId.Some? ==> |req.userId.value| <= MAX_USER_ID)
    && |req.userName| < MAX_USER_NAME && 0 !in req.userName && |req.userDisplay| < MAX_USER_NAME && 0 !in req.userDisplay
  }

  lemma {:induction false} RpFieldsFit(buf: seq<byte>, pos: nat, count: nat, rp: Option<seq<byte>>)
    requires pos <= |buf| && (rp.Some? ==> |rp.value| < MAX_RP_ID && 0 !in rp.value)
    ensures var r := RpFields(buf, pos, count, rp);
      r.Some? && r.value.0.Some? ==> |r.value.0.value| < MAX_RP_ID && 0 !in r.value.0.value
    decreases |buf| - pos, count
  {
    hide ReadText;
    if count > 0 {
      var key := ReadText(buf, pos);
      if key.Some? {
        var text := ReadText(buf, key.value.1);
        if text.Some? {
          RpFieldsFit(buf, text.value.1, count - 1,
                      if key.value.0 == KEY_ID && |text.value.0| < MAX_RP_ID then Some(CStr(text.value.0)) else rp);
        }
      }
    }
  }

  lemma UserFieldFits(buf: seq<byte>, pos: nat, key: seq<byte>, req: MakeReq)
    requires pos <= |buf| && Fits(req)
    ensures var r := UserField(buf, pos, key, req); r.Some? ==> Fits(r.value.0)
  {
    hide ReadText;
    hide ReadBytes;
    hide Skip;
  }

  lemma {:induction false} UserFieldsFit(buf: seq<byte>, pos: nat, count: nat, req: MakeReq)
    requires pos <= |buf| && Fits(req)
    ensures var r := UserFields(buf, pos, count, req); r.Some? ==> Fits(r.value.0)
    decreases |buf| - pos, count
  {
    hide ReadText;
    hide UserField;
    hide Fits;
    if count > 0 {
      var key := ReadText(buf, pos);
      if key.Some? {
        var next := UserField(buf, key.value.1, key.value.0, req);
        if next.Some? {
          UserFieldFits(buf, key.value.1, key.value.0, req);
          UserFieldsFit(buf, next.value.1, count - 1, next.value.0);
        }
      }
    }
  }

  lemma RpPart(req: MakeReq, next: MakeReq)
    requires Fits(req) && next == req.(rpId := next.rpId)
    ensures Fits(next) <==> (next.rpId.Some? ==> |next.rpId.value| < MAX_RP_ID && 0 !in next.rpId.value)
  {
  }

  lemma SamePartsFit(req: MakeReq, next: MakeReq)
    requires Fits(req) && next.rpId == req.rpId && next.userId == req.userId
    requires next.userName == req.userName && next.userDisplay == req.userDisplay
    ensures Fits(next)
  {
  }

  lemma MakeFieldFits(buf: seq<byte>, pos: nat, key: s64, req: MakeReq)
    requires pos <= |buf| && Fits(req)
    ensures var r := MakeField(buf, pos, key, req); r.Ok? ==> Fits(r.value.0)
  {
    hide RpFields;
    hide UserFields;
    hide Descriptors;
    hide Params;
    hide MakeExtensions;
    hide ParseOptions;
    hide ReadBytes;
    hide ReadArray;
    hide ReadMap;
    hide ReadUint;
    hide Skip;
    hide CStr;
    hide Fits;
    var r := MakeField(buf, pos, key, req);
    var entries := ReadMap(buf, pos);
    if key == 2 && entries.Some? {
      RpPart(req, req);
      RpFieldsFit(buf, entries.value.1, entries.value.0, req.rpId);
      if r.Ok? {
        RpPart(req, r.value.0);
      }
    } else if key == 3 && entries.Some? {
      UserFieldsFit(buf, entries.value.1, entries.value.0, req);
    } else if r.Ok? {
      SamePartsFit(req, r.value.0);
    }
  }

  lemma {:induction false} MakeFieldsFit(buf: seq<byte>, pos: nat, count: nat, req: MakeReq)
    requires pos <= |buf| && Fits(req)
    ensures var r := MakeFields(buf, pos, count, req); r.Ok? ==> Fits(r.value.0)
    decreases |buf| - pos, count
  {
    hide MakeField;
    hide ReadInt;
    hide Fits;
    if count > 0 {
      var key := ReadInt(buf, pos);
      if key.Some? {
        MakeFieldFits(buf, key.value.1, key.value.0, req);
        var next := MakeField(buf, key.value.1, key.value.0, req);
        if next.Ok? {
          MakeFieldsFit(buf, next.value.1, count - 1, next.value.0);
        }
      }
    }
  }

  // ----- registrations can be used -----

  lemma FieldHolds(s: seq<byte>, size: nat)
    requires |s| < size && 0 !in s
    ensures CStr(Field(s, size)) == s
  {
    var f := Field(s, size);
    assert s[..Min(|s|, size - 1)] == s;
    assert f[..|s|] == s;
    CStrUnique(f, s);
  }

  /** The credential is in use and holds what the request named, text for text, and the new key material. */
  predicate Holds(c: Credential, req: MakeReq, luck: Luck)
    requires req.rpId.Some? && req.userId.Some?
  {
    && c.inUse && CStr(c.rpId) == req.rpId.value
    && c.userIdLen == |req.userId.value| <= |c.userId| && c.userId[..c.userIdLen] == req.userId.value
    && CStr(c.userName) == (if req.userName == [] then DEFAULT_USER else req.userName)
    && CStr(c.userDisplay) == (if req.userDisplay == [] then CStr(c.userName) else req.userDisplay)
    && c.resident == req.options.rk && c.credId == luck.credId && c.privKey == luck.privKey && c.pubKey == luck.pubKey
    && c.hmacSecret == (if req.hmacSecret then luck.secret else Zeros(32))
  }

  lemma ParsedFits(buf: seq<byte>)
    ensures var req := ParseMakeCredential(buf); req.Ok? ==> Fits(req.value)
  {
    hide MakeFields;
    var count := ReadMap(buf, 0);
    if count.Some? {
      MakeFieldsFit(buf, count.value.1, count.value.0, EMPTY_MAKE);
    }
  }

  /** Every parsed request is kept. */
  lemma RegistrationKeepsRequest(buf: seq<byte>, luck: Luck)
    requires ParseMakeCredential(buf).Ok? && luck.Shaped()
    ensures var req := ParseMakeCredential(buf).value; Holds(NewCredential(req, luck), req, luck)
  {
    hide ParseMakeCredential;
    hide Holds;
    hide NewCredential;
    ParsedFits(buf);
    FittingIsKept(ParseMakeCredential(buf).value, luck);
  }

  lemma FittingIsKept(req: MakeReq, luck: Luck)
    requires req.rpId.Some? && req.userId.Some? && Fits(req) && luck.Shaped()
    ensures Holds(NewCredential(req, luck), req, luck)
  {
    hide CStr;
    hide Field;
    FieldHolds(req.rpId.value, 128);
    FieldHolds(req.userName, 64);
    FieldHolds(req.userDisplay, 64);
    FieldHolds(DEFAULT_USER, 64);
    assert req.userId.value[..Min(|req.userId.value|, 64)] == req.userId.value;
  }

  /** What a parsed makeCredential registers is exactly what later requests find: the new slot, and no other slot that was
      not found before, answers a getAssertion for that relying party, listed or not, and its id is excluded from then on. */
  lemma RegisteredIsFound(d: Device, buf: seq<byte>, luck: Luck, allow: seq<Descriptor>, exclude: seq<Descriptor>)
    requires d.Shaped() && luck.Shaped()
    requires var req := ParseMakeCredential(buf); req.Ok? && FinishCreate(d, req.value, luck).1.Created?
    ensures var req := ParseMakeCredential(buf).value;
      var (after, answer) := FinishCreate(d, req, luck);
      && (answer.at in Collect(after.store.creds, MAX_CREDS, req.rpId.value, allow) <==> AllowMatches(allow, luck.credId))
      && (forall i, rp :: i != answer.at ==> (i in Collect(after.store.creds, MAX_CREDS, rp, allow) <==> i in Collect(d.store.creds, MAX_CREDS, rp, allow)))
      && (Listed(exclude, luck.credId) ==> Excluded(after.store.creds, exclude))
  {
    hide Collect;
    hide AllowMatches;
    hide Field;
    hide FindById;
    hide FreeSlot;
    hide MakeFields;
    hide RpMatches;
    hide CStr;
    var count := ReadMap(buf, 0).value;
    MakeFieldsFit(buf, count.1, count.0, EMPTY_MAKE);
    var req := ParseMakeCredential(buf).value;
    var (after, answer) := FinishCreate(d, req, luck);
    var c := NewCredential(req, luck);
    FieldHolds(req.rpId.value, 128);
    OwnRpMatches(req.rpId.value);
    CollectExact(after.store.creds, MAX_CREDS, req.rpId.value, allow);
    assert after.store.creds[answer.at] == c;
    forall i, rp | i != answer.at
      ensures i in Collect(after.store.creds, MAX_CREDS, rp, allow) <==> i in Collect(d.store.creds, MAX_CREDS, rp, allow)
    {
      CollectExact(after.store.creds, MAX_CREDS, rp, allow);
      CollectExact(d.store.creds, MAX_CREDS, rp, allow);
    }
    if Listed(exclude, luck.credId) {
      var i :| 0 <= i < |exclude| && exclude[i].present && exclude[i].id == luck.credId;
      assert FindById(after.store.creds, exclude[i].id) < MAX_CREDS;
    }
  }
}
