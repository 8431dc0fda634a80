/** The handlers as the driver runs them: loops over the slots, fields changed in place under the lock. */
module KeyDriver {
  import opened Bytes
  import opened RequestParsers
  import opened StoreImage
  import opened Persistence
  import opened Gate
  import opened Handlers
  import RequestReaders

  /** `strchr` for the slash, then the comparison with the stored id. */
  method RpMatchesRequest(stored: seq<byte>, requested: seq<byte>) returns (ok: bool)
    ensures ok == RpMatches(stored, requested)
  {
    if stored == requested {
      return true;
    }
    if !(HTTPS <= requested) {
      return false;
    }
    var host := requested[8..];
    var n := 0;
    while n < |host| && host[n] != SLASH
      invariant n <= |host| && forall k :: 0 <= k < n ==> host[k] != SLASH
    {
      n := n + 1;
    }
    HostUnique(host, host[..n]);
    return n > 0 && stored == host[..n];
  }

  method CredentialMatchesAllow(allow: seq<Descriptor>, cred: Credential) returns (ok: bool)
    ensures ok == AllowMatches(allow, cred.credId)
  {
    if |allow| == 0 {
      return true;
    }
    for i := 0 to |allow|
      invariant forall k :: 0 <= k < i ==> !(allow[k].present && allow[k].id == cred.credId)
    {
      if allow[i].present && allow[i].id == cred.credId {
        return true;
      }
    }
    return false;
  }

  method CollectCredentials(creds: seq<Credential>, rpId: seq<byte>, allow: seq<Descriptor>) returns (slots: seq<byte>)
    requires |creds| == MAX_CREDS
    ensures slots == Collect(creds, MAX_CREDS, rpId, allow)
  {
    hide RpMatches;
    hide AllowMatches;
    hide CStr;
    slots := [];
    var i := 0;
    while i < MAX_CREDS && |slots| < MAX_CREDS
      invariant i <= MAX_CREDS && |slots| <= i
      invariant slots == Collect(creds, i, rpId, allow)
    {
      if creds[i].inUse {
        var rp := RpMatchesRequest(CStr(creds[i].rpId), rpId);
        if rp {
          var listed := CredentialMatchesAllow(allow, creds[i]);
          if listed {
            slots := slots + [i];
          }
        }
      }
      i := i + 1;
    }
  }

  method FindCredentialById(creds: seq<Credential>, id: seq<byte>) returns (i: nat)
    ensures i == FindById(creds, id)
  {
    i := 0;
    while i < |creds|
      invariant i <= |creds| && forall k :: 0 <= k < i ==> !(creds[k].inUse && creds[k].credId == id)
    {
      if creds[i].inUse && creds[i].credId == id {
        return;
      }
      i := i + 1;
    }
  }

  method AnyExcluded(creds: seq<Credential>, list: seq<Descriptor>) returns (yes: bool)
    ensures yes == Excluded(creds, list)
  {
    for i := 0 to |list|
      invariant forall k :: 0 <= k < i ==> !(list[k].present && FindById(creds, list[k].id) < |creds|)
    {
      if list[i].present {
        var at := FindCredentialById(creds, list[i].id);
        if at < |creds| {
          return true;
        }
      }
    }
    return false;
  }

  method AllocCredential(creds: seq<Credential>) returns (i: nat)
    ensures i == FreeSlot(creds)
  {
    i := 0;
    while i < |creds| && creds[i].inUse
      invariant i <= |creds| && forall k :: 0 <= k < i ==> creds[k].inUse
    {
      i := i + 1;
    }
  }

  /** The device state the handlers work on. */
  class Key {
    const gate: AuthGate
    const slots: array<byte>
    var store: Store
    var valid: bool
    var count: nat
    var next: nat
    var expires: nat
    var hash: seq<byte>
    var rpId: seq<byte>

    ghost predicate Valid()
      reads this
    {
      |store.creds| == MAX_CREDS && slots.Length == MAX_CREDS && count <= MAX_CREDS
    }

    ghost function Cont(): Continuation
      reads this, slots
    {
      Continuation(valid, slots[..], count, next, expires, hash, rpId)
    }

    ghost function Value(): Device
      reads this, gate, slots
    {
      Device(gate.Value(), store, Cont())
    }

    constructor (store: Store)
      requires |store.creds| == MAX_CREDS
      ensures Valid() && fresh(gate) && fresh(slots)
      ensures Value() == Device(CLOSED, store, Continuation(false, Zeros(MAX_CREDS), 0, 0, 0, Zeros(32), []))
    {
      gate := new AuthGate();
      slots := new byte[MAX_CREDS](_ => 0);
      this.store := store;
      valid, count, next, expires, hash, rpId := false, 0, 0, 0, Zeros(32), [];
      new;
      assert slots[..] == Zeros(MAX_CREDS);
    }

    method ClearAssertState()
      requires Valid()
      modifies this
      ensures Valid() && Value() == old(Value()).(cont := Cleared(old(Cont())))
    {
      valid, count, next, hash := false, 0, 0, Zeros(32);
    }

    method GetAssertionLocked(req: AssertReq) returns (p: Prepared)
      requires Valid() && req.rpId.Some?
      modifies this
      ensures Valid() && Value() == old(Value()).(cont := Cleared(old(Cont())))
      ensures p == PrepareAssert(store.creds, req)
    {
      hide Collect;
      ClearAssertState();
      if req.pinAuth {
        return Answered(Failed(PinNotSet));
      }
      var found := CollectCredentials(store.creds, req.rpId.value, req.allow);
      if req.options.upDisabled && found == [] {
        return Answered(Failed(UpRequired));
      }
      if found == [] {
        return Answered(Failed(NoEntry));
      }
      return Ask(Assert(req, found));
    }

    method GetNextAssertionLocked(now: nat) returns (p: Prepared)
      requires Valid()
      modifies this
      ensures Valid() && Value() == old(Value()).(cont := PrepareNext(old(Value()), now).0)
      ensures p == PrepareNext(old(Value()), now).1
    {
      if !valid || next >= count || !(now < expires) {
        ClearAssertState();
        return Answered(Failed(NotAllowed));
      }
      var slot := slots[next];
      if slot >= MAX_CREDS || !store.creds[slot].inUse {
        ClearAssertState();
        return Answered(Failed(NoEntry));
      }
      return Ask(Next(slot, next + 1, rpId, hash));
    }

    /** The dispatcher, up to the approval. */
    method Dispatch(msg: seq<byte>, now: nat) returns (p: Prepared)
      requires Valid()
      modifies this
      ensures Valid() && (Cont(), p) == Prepare(old(Value()), msg, now)
      ensures store == old(store) && gate.Value() == old(gate.Value())
    {
      hide PrepareAssert;
      hide PrepareNext;
      hide PrepareMake;
      hide ParseGetAssertion;
      hide ParseMakeCredential;
      if |msg| == 0 {
        return Answered(Failed(Malformed));
      }
      var cmd := msg[0];
      if cmd != GET_NEXT_ASSERTION && cmd != GET_ASSERTION {
        ClearAssertState();
      }
      if cmd == GET_INFO {
        return Answered(Info);
      } else if cmd == MAKE_CREDENTIAL {
        var req := RequestReaders.ReadMakeCredential(msg[1..]);
        if req.Ok? {
          return PrepareMake(req.value);
        }
        return Answered(Failed(if req.error == Invalid then Malformed else Unsupported));
      } else if cmd == GET_ASSERTION {
        var req := RequestReaders.ReadGetAssertion(msg[1..]);
        if req.None? {
          return Answered(Failed(Malformed));
        }
        p := GetAssertionLocked(req.value);
        return;
      } else if cmd == GET_NEXT_ASSERTION {
        p := GetNextAssertionLocked(now);
        return;
      } else if cmd == RESET {
        return Ask(Wipe);
      } else if cmd == SELECTION {
        return Ask(Select);
      } else if cmd == CLIENT_PIN {
        return Answered(Failed(InvalidCommand));
      }
      return Answered(Failed(UnknownCommand));
    }

    /** The approved getAssertion: bump, sign, and keep the other slots for later. */
    method ServeFirst(req: AssertReq, found: seq<byte>, now: nat, luck: Luck) returns (answer: Answer)
      requires Valid() && WellPlanned(Assert(req, found))
      modifies this, slots
      ensures Valid() && (Value(), answer) == FinishAssert(old(Value()), req, found, now, luck)
    {
      hide HmacError;
      var cred := store.creds[found[0]];
      if req.hmac.Some? {
        var error := HmacError(cred, luck);
        if error.Some? {
          return Failed(error.value);
        }
      }
      store := store.(signCount := (store.signCount + 1) % TWO_32);
      if !luck.crypto {
        return Failed(CryptoFailure);
      }
      if |found| > 1 {
        forall i | 0 <= i < |found| {
          slots[i] := found[i];
        }
        assert slots[..] == found + old(slots[..])[|found|..];
        hash, rpId := req.hash.value, req.rpId.value;
        count, next, expires, valid := |found|, 1, now + ASSERT_WINDOW_MS, true;
      }
      return FirstServed(found, store.signCount, |req.allow| == 0 || |found| > 1 || cred.resident,
                         req.rpId.value, req.hash.value);
    }

    /** The approved getNextAssertion: the continuation is looked at again, the lock having been dropped. */
    method ServeNext(slot: byte, served: nat, rp: seq<byte>, over: seq<byte>, now: nat, luck: Luck) returns (answer: Answer)
      requires Valid() && slot < MAX_CREDS
      modifies this
      ensures Valid() && (Value(), answer) == FinishNext(old(Value()), slot, served, rp, over, now, luck)
    {
      if !valid || next + 1 != served {
        return Failed(NotAllowed);
      }
      store := store.(signCount := (store.signCount + 1) % TWO_32);
      if !luck.crypto {
        return Failed(CryptoFailure);
      }
      next := next + 1;
      answer := NextServed(slot, store.signCount, rp, over);
      if next >= count {
        ClearAssertState();
      } else {
        expires := now + ASSERT_WINDOW_MS;
      }
    }

    method Register(req: MakeReq, luck: Luck) returns (answer: Answer)
      requires Valid() && WellPlanned(Create(req)) && luck.Shaped()
      modifies this
      ensures Valid() && (Value(), answer) == FinishCreate(old(Value()), req, luck)
    {
      hide NewCredential;
      hide Excluded;
      hide FreeSlot;
      var excluded := AnyExcluded(store.creds, req.exclude);
      if excluded {
        return Failed(Exists);
      }
      var slot := AllocCredential(store.creds);
      if slot >= MAX_CREDS {
        return Failed(NoSpace);
      }
      store := store.(creds := store.creds[slot := NewCredential(req, luck)]);
      if !luck.crypto {
        store := store.(creds := store.creds[slot := NO_CRED]);
        assert store.creds == old(store).creds[slot := NO_CRED];
        return Failed(CryptoFailure);
      }
      return Created(slot);
    }

    /** The approved request, whichever it is. */
    method Complete(plan: Plan, now: nat, luck: Luck) returns (answer: Answer)
      requires Valid() && WellPlanned(plan) && luck.Shaped()
      modifies this, slots
      ensures Valid() && (Value(), answer) == Finish(old(Value()), plan, now, luck)
    {
      hide FinishAssert;
      hide FinishNext;
      hide FinishCreate;
      match plan
      case Assert(req, found) => answer := ServeFirst(req, found, now, luck);
      case Next(slot, served, rp, over) => answer := ServeNext(slot, served, rp, over, now, luck);
      case Create(req) => answer := Register(req, luck);
      case Dummy => answer := DummyCreated;
      case Wipe =>
        store := NewStore(luck.random);
        answer := Wiped;
      case Select => answer := Selected;
    }
  }
}
