/** The authenticator's runs and its file together: what an approved request changes is what is saved, and what is saved is
    what the next boot answers with. */
module PersistedRuns {
  import opened Bytes
  import opened RequestParsers
  import opened StoreImage
  import opened Gate
  import opened Handlers
  import R = Runs
  import P = Persistence

  /** The running authenticator, and memory and file as the save and load code sees them. */
  datatype Joint = Joint(run: R.System, world: P.World)

  /** A step of the authenticator, with the fate of the save it may make; a save, a restore from the file, or the PIN reset
      asked for by the control command. */
  datatype Event =
    | Act(step: R.Event, outcome: P.WriteOutcome)
    | Save(outcome: P.WriteOutcome)
    | Restore(readFails: bool)
    | PinReset(outcome: P.WriteOutcome)

  // ----- what an approved request does to the store -----

  /** What the end of an approved request means to the save code, if anything. */
  function Effect(d: Device, plan: Plan, luck: Luck, outcome: P.WriteOutcome): Option<P.Event>
    requires d.Shaped() && WellPlanned(plan) && luck.Shaped()
  {
    match plan
    case Assert(req, slots) =>
      if req.hmac.Some? && HmacError(d.store.creds[slots[0]], luck).Some? then None
      else Some(if luck.crypto then P.Sign(outcome) else P.SignFails)
    case Next(_, served, _, _) =>
      if !d.cont.valid || d.cont.next + 1 != served then None
      else Some(if luck.crypto then P.Sign(outcome) else P.SignFails)
    case Create(req) =>
      var slot := FreeSlot(d.store.creds);
      if Excluded(d.store.creds, req.exclude) || slot >= MAX_CREDS then None
      else Some(if luck.crypto then P.Register(slot, NewCredential(req, luck), outcome) else P.RegisterFails(slot))
    case Wipe => Some(P.Reset(luck.random, outcome))
    case _ => None
  }

  lemma EffectIsStep(d: Device, plan: Plan, now: nat, luck: Luck, outcome: P.WriteOutcome, w: P.World, crc: Checksum, legacy: Checksum)
    requires d.Shaped() && WellPlanned(plan) && luck.Shaped()
    requires w.store == d.store && w.loaded && w.store.Valid()
    ensures var e := Effect(d, plan, luck, outcome); var after := Finish(d, plan, now, luck).0.store;
      if e.None? then after == d.store
      else P.Possible(w, e.value) && P.Step(w, e.value, crc, legacy).store == after && P.Step(w, e.value, crc, legacy).loaded
  {
    hide NewCredential;
    hide Excluded;
    hide FreeSlot;
    hide HmacError;
    hide StoreImage.Save;
  }

  /** The request that a step carries to its end, on the device as it then is. */
  function Completed(s: R.System, e: R.Event): Option<(Device, Plan, Luck)>
    requires R.Formed(s) && R.Possible(s, e)
    ensures var r := Completed(s, e); r.Some? ==> r.value.0.Shaped() && WellPlanned(r.value.1) && r.value.2.Shaped()
    ensures var r := Completed(s, e); r.Some? ==> r.value.0.store == s.dev.store
  {
    match e
    case Command(msg, luck) =>
      var (cont, prepared) := Prepare(s.dev, msg, s.now);
      var (gate, begun) := Begin(s.dev.gate, s.now);
      if prepared.Ask? && begun == Granted then
        R.PlansFit(s.dev, msg, s.now);
        ContShape(s.dev, msg, s.now);
        Some((s.dev.(gate := gate, cont := cont), prepared.plan, luck))
      else None
    case Continue(luck) =>
      var (gate, ok) := Resume(s.dev.gate, s.phase.end, s.now);
      if ok then Some((s.dev.(gate := gate), s.phase.plan, luck)) else None
    case _ => None
  }

  lemma ContShape(d: Device, msg: seq<byte>, now: nat)
    requires d.Shaped() && d.cont.count <= MAX_CREDS
    ensures |Prepare(d, msg, now).0.slots| == MAX_CREDS
  {
    hide ParseGetAssertion;
    hide ParseMakeCredential;
    hide Collect;
    hide IsSelection;
  }

  lemma CompletedIsFinish(s: R.System, e: R.Event)
    requires R.Formed(s) && R.Possible(s, e) && !e.StoreReplaced?
    ensures var c := Completed(s, e); var after := R.Step(s, e);
      && after.dev.store == (if c.None? then s.dev.store else Finish(c.value.0, c.value.1, s.now, c.value.2).0.store)
      && (c.Some? ==> after.log != [] && after.log[|after.log| - 1].what == R.Replied(Finish(c.value.0, c.value.1, s.now, c.value.2).1))
  {
    hide Prepare;
    hide Finish;
    hide Begin;
    hide Resume;
    hide Decide;
    hide WellPlanned;
    if e.Command? {
      R.PlansFit(s.dev, e.msg, s.now);
      ContShape(s.dev, e.msg, s.now);
    }
  }

  // ----- the two machines in step -----

  ghost predicate Inv(j: Joint, crc: Checksum, legacy: Checksum) {
    R.Inv(j.run) && P.Inv(j.world, crc, legacy) && j.world.loaded && j.world.store == j.run.dev.store
  }

  predicate Possible(j: Joint, e: Event) {
    match e
    case Act(step, _) => R.Possible(j.run, step) && !step.StoreReplaced?
    case _ => true
  }

  /** The save code's side of a step of the authenticator. */
  function Follow(s: R.System, w: P.World, e: R.Event, outcome: P.WriteOutcome, crc: Checksum, legacy: Checksum): P.World
    requires R.Formed(s) && R.Possible(s, e) && w.store.Valid()
  {
    var c := Completed(s, e);
    if c.None? then w else
      var effect := Effect(c.value.0, c.value.1, c.value.2, outcome);
      if effect.None? || !P.Possible(w, effect.value) then w else P.Step(w, effect.value, crc, legacy)
  }

  function Adopted(j: Joint, w: P.World): Joint {
    Joint(j.run.(dev := j.run.dev.(store := w.store)), w)
  }

  function Step(j: Joint, e: Event, crc: Checksum, legacy: Checksum): Joint
    requires R.Formed(j.run) && Possible(j, e) && j.world.store.Valid()
  {
    match e
    case Act(step, outcome) => Joint(R.Step(j.run, step), Follow(j.run, j.world, step, outcome, crc, legacy))
    case Save(outcome) => j.(world := P.Step(j.world, P.Persist(outcome), crc, legacy))
    case Restore(readFails) => Adopted(j, P.Step(j.world, P.Restore(readFails), crc, legacy))
    case PinReset(outcome) => Adopted(j, P.Step(j.world, P.PinReset(outcome), crc, legacy))
  }

  lemma FollowKeeps(s: R.System, w: P.World, e: R.Event, outcome: P.WriteOutcome, crc: Checksum, legacy: Checksum)
    requires R.Formed(s) && R.Possible(s, e) && !e.StoreReplaced?
    requires P.Inv(w, crc, legacy) && w.loaded && w.store == s.dev.store && w.store.Valid()
    ensures var k := Follow(s, w, e, outcome, crc, legacy);
      P.Inv(k, crc, legacy) && k.loaded && k.store == R.Step(s, e).dev.store
  {
    hide P.Inv;
    hide P.Step;
    hide R.Step;
    hide Effect;
    hide Completed;
    hide Finish;
    CompletedIsFinish(s, e);
    var c := Completed(s, e);
    if c.Some? {
      EffectIsStep(c.value.0, c.value.1, s.now, c.value.2, outcome, w, crc, legacy);
      var effect := Effect(c.value.0, c.value.1, c.value.2, outcome);
      if effect.Some? {
        P.StepKeeps(w, effect.value, crc, legacy);
      }
    }
  }

  lemma AdoptedKeeps(j: Joint, e: P.Event, crc: Checksum, legacy: Checksum)
    requires Inv(j, crc, legacy) && j.world.store.Valid() && (e.Restore? || e.PinReset?)
    ensures Inv(Adopted(j, P.Step(j.world, e, crc, legacy)), crc, legacy)
  {
    hide P.Inv;
    hide StoreImage.Save;
    hide LoadFile;
    P.StepKeeps(j.world, e, crc, legacy);
    var w := P.Step(j.world, e, crc, legacy);
    ValidStore(w, crc, legacy);
    ReplacedKeeps(j.run, w.store);
  }

  lemma ValidStore(w: P.World, crc: Checksum, legacy: Checksum)
    requires P.Inv(w, crc, legacy)
    ensures w.store.Valid()
  {
  }

  lemma ReplacedKeeps(s: R.System, store: Store)
    requires R.Inv(s) && |store.creds| == MAX_CREDS
    ensures R.Inv(s.(dev := s.dev.(store := store)))
  {
    hide R.Obeys;
    hide R.Watch;
  }

  lemma StepKeeps(j: Joint, e: Event, crc: Checksum, legacy: Checksum)
    requires Inv(j, crc, legacy) && R.Formed(j.run) && j.world.store.Valid() && Possible(j, e)
    ensures Inv(Step(j, e, crc, legacy), crc, legacy)
  {
    hide P.Inv;
    hide R.Inv;
    hide Follow;
    hide R.Step;
    match e
    case Act(step, outcome) =>
      R.StepKeeps(j.run, step);
      FollowKeeps(j.run, j.world, step, outcome, crc, legacy);
    case Save(outcome) =>
      P.StepKeeps(j.world, P.Persist(outcome), crc, legacy);
      SavingKeepsMemory(j.world, outcome, crc, legacy);
    case Restore(readFails) => AdoptedKeeps(j, P.Restore(readFails), crc, legacy);
    case PinReset(outcome) => AdoptedKeeps(j, P.PinReset(outcome), crc, legacy);
  }

  lemma SavingKeepsMemory(w: P.World, outcome: P.WriteOutcome, crc: Checksum, legacy: Checksum)
    requires w.store.Valid()
    ensures var k := P.Step(w, P.Persist(outcome), crc, legacy); k.store == w.store && k.loaded == w.loaded
  {
    hide StoreImage.Save;
  }

  // ----- whole runs -----

  /** A device that booted on any file and loaded its store. */
  function Start(file: Option<seq<byte>>, random: P.Random, crc: Checksum, legacy: Checksum): (j: Joint)
    requires random.Valid()
    ensures Inv(j, crc, legacy)
  {
    P.BootInv(file, crc, legacy);
    P.StepKeeps(P.Boot(file), P.Load(false, random), crc, legacy);
    var w := P.Step(P.Boot(file), P.Load(false, random), crc, legacy);
    ValidStore(w, crc, legacy);
    BootInv(w.store);
    Joint(R.Boot(w.store), w)
  }

  lemma BootInv(store: Store)
    requires |store.creds| == MAX_CREDS
    ensures R.Inv(R.Boot(store))
  {
  }

  function Run(file: Option<seq<byte>>, random: P.Random, es: seq<Event>, crc: Checksum, legacy: Checksum): (j: Joint)
    requires random.Valid()
    ensures Inv(j, crc, legacy)
    decreases |es|
  {
    if es == [] then Start(file, random, crc, legacy) else
      var before := Run(file, random, es[..|es| - 1], crc, legacy);
      var e := es[|es| - 1];
      ReadyFor(before, crc, legacy);
      if Possible(before, e) then
        StepKeeps(before, e, crc, legacy);
        Step(before, e, crc, legacy)
      else before
  }

  lemma ReadyFor(j: Joint, crc: Checksum, legacy: Checksum)
    requires Inv(j, crc, legacy)
    ensures R.Formed(j.run) && j.world.store.Valid()
  {
    ValidStore(j.world, crc, legacy);
    R.InvFormed(j.run);
  }

  /** Two stores with the same credentials in use answer every request from the same slots. */
  lemma {:induction false} SameAnswers(a: Store, b: Store, n: nat, rpId: seq<byte>, allow: seq<Descriptor>)
    requires |a.creds| == |b.creds| == MAX_CREDS && n <= MAX_CREDS && P.SameInUse(a, b)
    ensures Collect(a.creds, n, rpId, allow) == Collect(b.creds, n, rpId, allow)
    decreases n
  {
    hide RpMatches;
    hide AllowMatches;
    hide CStr;
    if n > 0 {
      SameAnswers(a, b, n - 1, rpId, allow);
      assert a.creds[n - 1].inUse == b.creds[n - 1].inUse;
    }
  }

  /** In every run: while nothing is waiting to be saved, the file alone answers every request from the slots that memory
      would, so a reboot changes no answer. */
  lemma FileAnswersLikeMemory(file: Option<seq<byte>>, random: P.Random, es: seq<Event>, rpId: seq<byte>, allow: seq<Descriptor>,
                              crc: Checksum, legacy: Checksum)
    requires random.Valid() && !Run(file, random, es, crc, legacy).world.dirty
    ensures var j := Run(file, random, es, crc, legacy);
      var f := P.ReadFile(j.world, false, crc, legacy);
      && f.Some? && |f.value.creds| == |j.run.dev.store.creds| == MAX_CREDS
      && Collect(f.value.creds, MAX_CREDS, rpId, allow) == Collect(j.run.dev.store.creds, MAX_CREDS, rpId, allow)
  {
    hide Run;
    hide LoadFile;
    hide R.Inv;
    hide SameCred;
    var j := Run(file, random, es, crc, legacy);
    ValidStore(j.world, crc, legacy);
    SameAnswers(P.ReadFile(j.world, false, crc, legacy).value, j.run.dev.store, MAX_CREDS, rpId, allow);
  }

  /** An answer that changed the store. */
  predicate ChangesStore(a: Answer) { a.FirstServed? || a.NextServed? || a.Created? || a.Wiped? }

  lemma ChangesAreWritten(d: Device, plan: Plan, now: nat, luck: Luck, w: P.World, crc: Checksum, legacy: Checksum)
    requires d.Shaped() && WellPlanned(plan) && luck.Shaped() && w.store == d.store && w.loaded && w.store.Valid()
    requires ChangesStore(Finish(d, plan, now, luck).1)
    ensures var e := Effect(d, plan, luck, P.Written);
      && e.Some? && P.Possible(w, e.value)
      && var k := P.Step(w, e.value, crc, legacy); !k.dirty && k.unsaved == 0
  {
    hide NewCredential;
    hide Excluded;
    hide FreeSlot;
    hide HmacError;
    hide StoreImage.Save;
  }

  lemma CleanFile(w: P.World, crc: Checksum, legacy: Checksum)
    requires P.Inv(w, crc, legacy) && w.loaded && !w.dirty && w.unsaved == 0
    ensures var f := P.ReadFile(w, false, crc, legacy);
      f.Some? && |f.value.creds| == |w.store.creds| == MAX_CREDS && P.SameInUse(f.value, w.store) && f.value.signCount == w.store.signCount
  {
    hide LoadFile;
    hide SameCred;
  }

  /** In every reachable state: an assertion, registration or reset that is answered, its save having been written, is in the
      file: the same credentials in use and the very counter that was signed. */
  lemma SuccessReachesFile(j: Joint, step: R.Event, crc: Checksum, legacy: Checksum)
    requires Inv(j, crc, legacy) && Possible(j, Act(step, P.Written))
    ensures R.Formed(j.run) && j.world.store.Valid()
    ensures var c := Completed(j.run, step);
      c.Some? && ChangesStore(Finish(c.value.0, c.value.1, j.run.now, c.value.2).1) ==>
        var after := Step(j, Act(step, P.Written), crc, legacy);
        var f := P.ReadFile(after.world, false, crc, legacy);
        && !after.world.dirty && f.Some? && |f.value.creds| == |after.run.dev.store.creds| == MAX_CREDS
        && P.SameInUse(f.value, after.run.dev.store) && f.value.signCount == after.run.dev.store.signCount
  {
    hide P.Inv;
    hide P.Step;
    hide P.ReadFile;
    hide P.SameInUse;
    hide R.Inv;
    hide R.Step;
    hide R.Formed;
    hide Effect;
    hide Completed;
    hide Finish;
    ReadyFor(j, crc, legacy);
    var c := Completed(j.run, step);
    if c.Some? && ChangesStore(Finish(c.value.0, c.value.1, j.run.now, c.value.2).1) {
      FollowKeeps(j.run, j.world, step, P.Written, crc, legacy);
      ChangesAreWritten(c.value.0, c.value.1, j.run.now, c.value.2, j.world, crc, legacy);
      CleanFile(Follow(j.run, j.world, step, P.Written, crc, legacy), crc, legacy);
    }
  }

  lemma CreatedIsRegistered(d: Device, plan: Plan, now: nat, luck: Luck, w: P.World, crc: Checksum, legacy: Checksum)
    requires d.Shaped() && WellPlanned(plan) && luck.Shaped() && w.store == d.store && w.loaded && w.store.Valid()
    requires Finish(d, plan, now, luck).1.Created?
    ensures var e := Effect(d, plan, luck, P.Written); var (after, answer) := Finish(d, plan, now, luck);
      && e.Some? && P.Possible(w, e.value) && !P.Step(w, e.value, crc, legacy).dirty
      && answer.at < MAX_CREDS == |after.store.creds| && after.store.creds[answer.at].inUse
  {
    hide NewCredential;
    hide Excluded;
    hide FreeSlot;
    hide HmacError;
    hide StoreImage.Save;
  }

  lemma FileHolds(w: P.World, slot: nat, crc: Checksum, legacy: Checksum)
    requires P.Inv(w, crc, legacy) && w.loaded && !w.dirty && slot < MAX_CREDS == |w.store.creds| && w.store.creds[slot].inUse
    ensures var f := P.ReadFile(w, false, crc, legacy);
      f.Some? && |f.value.creds| == MAX_CREDS && f.value.creds[slot].inUse && SameCred(f.value.creds[slot], w.store.creds[slot])
  {
    hide LoadFile;
    hide SameCred;
  }

  /** In every reachable state: a step that carries a request to a registration and writes the file leaves the new credential
      in the file, in its slot, with nothing waiting to be saved. */
  lemma RegistrationReachesFile(j: Joint, step: R.Event, crc: Checksum, legacy: Checksum)
    requires Inv(j, crc, legacy) && Possible(j, Act(step, P.Written))
    ensures R.Formed(j.run) && j.world.store.Valid()
    ensures var c := Completed(j.run, step);
      c.Some? && Finish(c.value.0, c.value.1, j.run.now, c.value.2).1.Created? ==>
        var slot := Finish(c.value.0, c.value.1, j.run.now, c.value.2).1.at;
        var after := Step(j, Act(step, P.Written), crc, legacy);
        var f := P.ReadFile(after.world, false, crc, legacy);
        && after.run.log != [] && after.run.log[|after.run.log| - 1].what == R.Replied(Created(slot))
        && !after.world.dirty && after.world.store == after.run.dev.store
        && f.Some? && slot < |f.value.creds| == |after.run.dev.store.creds|
        && f.value.creds[slot].inUse && SameCred(f.value.creds[slot], after.run.dev.store.creds[slot])
  {
    hide P.Inv;
    hide P.Step;
    hide P.ReadFile;
    hide R.Inv;
    hide R.Step;
    hide R.Formed;
    hide Effect;
    hide Completed;
    hide Finish;
    hide SameCred;
    ReadyFor(j, crc, legacy);
    var c := Completed(j.run, step);
    if c.Some? && Finish(c.value.0, c.value.1, j.run.now, c.value.2).1.Created? {
      CompletedIsFinish(j.run, step);
      FollowKeeps(j.run, j.world, step, P.Written, crc, legacy);
      CreatedIsRegistered(c.value.0, c.value.1, j.run.now, c.value.2, j.world, crc, legacy);
      FileHolds(Follow(j.run, j.world, step, P.Written, crc, legacy), Finish(c.value.0, c.value.1, j.run.now, c.value.2).1.at, crc, legacy);
    }
  }
}
