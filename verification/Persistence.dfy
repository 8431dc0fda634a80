/** The dirty / persist protocol of the store: memory and file through every kind of success and failure. */
module Persistence {
  import opened Bytes
  import opened StoreImage

  /** How one attempt to write the file ends; a short write leaves a truncated file. */
  datatype WriteOutcome = Written | OpenFails | AllocFails | Short(kept: nat)

  /** Random material for a new store. */
  datatype Random = Random(aaguid: seq<byte>, pinToken: seq<byte>) {
    predicate Valid() { |aaguid| == 16 && |pinToken| == 32 }
  }

  /** Memory, flags and file; `unsaved` counts signature counter bumps that were neither saved nor loaded. */
  datatype World = World(store: Store, loaded: bool, dirty: bool, file: Option<seq<byte>>, unsaved: nat)

  datatype Event =
    | Load(readFails: bool, random: Random)
    | Restore(readFails: bool)
    | Persist(outcome: WriteOutcome)
    | Sign(outcome: WriteOutcome)
    | SignFails
    | Register(slot: nat, cred: Credential, outcome: WriteOutcome)
    | RegisterFails(slot: nat)
    | Reset(random: Random, outcome: WriteOutcome)
    | PinReset(outcome: WriteOutcome)
    | Reboot

  function NoCreds(): (s: seq<Credential>)
    ensures |s| == MAX_CREDS && forall i :: 0 <= i < MAX_CREDS ==> s[i] == NO_CRED
  {
    seq(MAX_CREDS, _ => NO_CRED)
  }

  function EmptyStore(): (s: Store)
    ensures s.Valid()
  {
    assert NO_CRED.rpId[0] == 0 && NO_CRED.userName[0] == 0 && NO_CRED.userDisplay[0] == 0;
    Store(0, Zeros(16), false, 0, Zeros(16), Zeros(32), NoCreds())
  }

  /** No slot in use, no PIN, all retries left, the counter at zero, and fresh identity and token. */
  predicate Blank(s: Store, random: Random) {
    && |s.creds| == MAX_CREDS && (forall i :: 0 <= i < MAX_CREDS ==> !s.creds[i].inUse)
    && s.signCount == 0 && !s.pinSet && s.pinRetries == 8 && s.aaguid == random.aaguid && s.pinToken == random.pinToken
  }

  function NewStore(random: Random): (s: Store)
    ensures random.Valid() ==> s.Valid()
    ensures Blank(s, random)
  {
    assert NO_CRED.rpId[0] == 0 && NO_CRED.userName[0] == 0 && NO_CRED.userDisplay[0] == 0;
    Store(0, random.aaguid, false, PIN_RETRIES_DEFAULT, Zeros(16), random.pinToken, NoCreds())
  }

  function ReadFile(w: World, readFails: bool, crc: Checksum, legacy: Checksum): (r: Option<Store>)
    ensures r.Some? ==> r.value.Valid()
  {
    if readFails || w.file.None? then None else LoadFile(w.file.value, crc, legacy)
  }

  function DropPin(s: Store): Store {
    s.(pinSet := false, pinHash := Zeros(16), pinRetries := PIN_RETRIES_DEFAULT)
  }

  /** A store just read: adopted clean, except that dropping a legacy PIN makes it dirty. */
  function Adopt(w: World, s: Store): World {
    w.(store := if s.pinSet then DropPin(s) else s, loaded := true, dirty := s.pinSet, unsaved := 0)
  }

  function AfterLoad(w: World, readFails: bool, random: Random, crc: Checksum, legacy: Checksum): World {
    if w.loaded then w else
      match ReadFile(w, readFails, crc, legacy)
      case Some(s) => Adopt(w, s)
      case None => w.(store := NewStore(random), loaded := true, dirty := true, unsaved := 0)
  }

  function AfterRestore(w: World, readFails: bool, crc: Checksum, legacy: Checksum): World {
    match ReadFile(w, readFails, crc, legacy)
    case Some(s) => Adopt(w, s)
    case None => w
  }

  function AfterPersist(w: World, outcome: WriteOutcome, crc: Checksum): World
    requires w.store.Shaped()
  {
    if !w.dirty then w else
      match outcome
      case Written => w.(dirty := false, file := Some(Save(w.store, crc)), unsaved := 0)
      case OpenFails => w
      case AllocFails => w
      case Short(kept) => w.(file := Some(Save(w.store, crc)[..kept % SIZE]))
  }

  /** Memory now holds `s`, not yet saved. */
  function Changed(w: World, s: Store): World {
    w.(store := s, dirty := true)
  }

  function WithSlot(s: Store, slot: nat, cred: Credential): Store
    requires slot < |s.creds|
  {
    s.(creds := s.creds[slot := cred])
  }

  function Bumped(s: Store): Store {
    s.(signCount := (s.signCount + 1) % TWO_32)
  }

  predicate Possible(w: World, e: Event) {
    match e
    case Register(slot, cred, _) =>
      w.loaded && slot < MAX_CREDS && |w.store.creds| == MAX_CREDS && !w.store.creds[slot].inUse && cred.inUse && cred.Valid()
    case RegisterFails(slot) => w.loaded && slot < MAX_CREDS && |w.store.creds| == MAX_CREDS && !w.store.creds[slot].inUse
    case Sign(_) => w.loaded
    case SignFails => w.loaded
    case Load(_, random) => random.Valid()
    case Reset(random, _) => random.Valid()
    case _ => true
  }

  function Step(w: World, e: Event, crc: Checksum, legacy: Checksum): World
    requires w.store.Valid() && Possible(w, e)
  {
    match e
    case Load(readFails, random) => AfterLoad(w, readFails, random, crc, legacy)
    case Restore(readFails) => AfterRestore(w, readFails, crc, legacy)
    case Persist(outcome) => AfterPersist(w, outcome, crc)
    case Sign(outcome) => AfterPersist(Changed(w, Bumped(w.store)), outcome, crc)
    case SignFails => w.(store := Bumped(w.store), unsaved := w.unsaved + 1)
    case Register(slot, cred, outcome) => AfterPersist(Changed(w, WithSlot(w.store, slot, cred)), outcome, crc)
    case RegisterFails(slot) => w.(store := WithSlot(w.store, slot, NO_CRED))
    case Reset(random, outcome) => AfterPersist(Changed(w, NewStore(random)), outcome, crc)
    case PinReset(outcome) => AfterPersist(Changed(w, DropPin(w.store)), outcome, crc)
    case Reboot => w.(store := EmptyStore(), loaded := false, dirty := false, unsaved := 0)
  }

  // ----- the invariant -----

  /** The same slots are in use, with the same credentials to every reader. */
  ghost predicate SameInUse(a: Store, b: Store)
    requires |a.creds| == MAX_CREDS && |b.creds| == MAX_CREDS
  {
    forall i :: 0 <= i < MAX_CREDS ==>
      a.creds[i].inUse == b.creds[i].inUse && (a.creds[i].inUse ==> SameCred(a.creds[i], b.creds[i]))
  }

  /** Whenever the store is loaded and not dirty, the file loads, with the same credentials in use and a counter that is
      exactly the unsaved bumps behind memory's. */
  ghost predicate Inv(w: World, crc: Checksum, legacy: Checksum) {
    && w.store.Valid()
    && (w.loaded ==> !w.store.pinSet)
    && (w.loaded && !w.dirty ==>
          var f := ReadFile(w, false, crc, legacy);
          && f.Some? && !f.value.pinSet && SameInUse(f.value, w.store)
          && w.store.signCount == (f.value.signCount + w.unsaved) % TWO_32)
  }

  lemma NoCredValid()
    ensures NO_CRED.Valid() && !NO_CRED.inUse
  {
    assert NO_CRED.rpId[0] == 0 && NO_CRED.userName[0] == 0 && NO_CRED.userDisplay[0] == 0;
  }

  lemma PersistKeeps(w: World, outcome: WriteOutcome, crc: Checksum, legacy: Checksum)
    requires w.store.Valid() && (w.loaded ==> !w.store.pinSet) && (w.dirty || Inv(w, crc, legacy))
    ensures Inv(AfterPersist(w, outcome, crc), crc, legacy)
  {
    hide SameCred;
    hide LoadV2;
    hide Save;
    if w.dirty && outcome.Written? {
      LoadSaved(w.store, crc, legacy);
      var img := Save(w.store, crc);
      assert img[..SIZE] == img;
    }
  }

  lemma AdoptKeeps(w: World, s: Store, crc: Checksum, legacy: Checksum)
    requires ReadFile(w, false, crc, legacy) == Some(s)
    ensures Inv(Adopt(w, s), crc, legacy)
  {
    hide LoadFile;
  }

  lemma StepKeeps(w: World, e: Event, crc: Checksum, legacy: Checksum)
    requires Inv(w, crc, legacy) && Possible(w, e)
    ensures Inv(Step(w, e, crc, legacy), crc, legacy)
  {
    hide LoadFile;
    hide SameCred;
    hide Save;
    hide AfterPersist;
    match e
    case Load(readFails, random) =>
      if !w.loaded && ReadFile(w, readFails, crc, legacy).Some? {
        AdoptKeeps(w, ReadFile(w, false, crc, legacy).value, crc, legacy);
      }
    case Restore(readFails) =>
      if ReadFile(w, readFails, crc, legacy).Some? {
        AdoptKeeps(w, ReadFile(w, false, crc, legacy).value, crc, legacy);
      }
    case Persist(outcome) =>
      PersistKeeps(w, outcome, crc, legacy);
    case Sign(outcome) =>
      PersistKeeps(Changed(w, Bumped(w.store)), outcome, crc, legacy);
    case SignFails =>
      assert ((w.store.signCount + 1) % TWO_32) == Bumped(w.store).signCount;
    case Register(slot, cred, outcome) =>
      PersistKeeps(Changed(w, WithSlot(w.store, slot, cred)), outcome, crc, legacy);
    case RegisterFails(slot) =>
      NoCredValid();
    case Reset(random, outcome) =>
      PersistKeeps(Changed(w, NewStore(random)), outcome, crc, legacy);
    case PinReset(outcome) =>
      PersistKeeps(Changed(w, DropPin(w.store)), outcome, crc, legacy);
    case Reboot =>
  }

  // ----- whole runs -----

  /** Run the events in order; an event that cannot happen in its state is skipped. */
  function Run(w: World, es: seq<Event>, crc: Checksum, legacy: Checksum): (r: World)
    requires w.store.Valid()
    ensures r.store.Valid()
    decreases |es|
  {
    if es == [] then w else
      var before := Run(w, es[..|es| - 1], crc, legacy);
      var e := es[|es| - 1];
      if Possible(before, e) then
        ValidStep(before, e, crc, legacy);
        Step(before, e, crc, legacy)
      else before
  }

  lemma ValidStep(w: World, e: Event, crc: Checksum, legacy: Checksum)
    requires w.store.Valid() && Possible(w, e)
    ensures Step(w, e, crc, legacy).store.Valid()
  {
    hide LoadFile;
    hide Save;
    NoCredValid();
  }

  /** A device that has just booted, whatever its file holds. */
  function Boot(file: Option<seq<byte>>): World {
    World(EmptyStore(), false, false, file, 0)
  }

  lemma {:induction false} InvariantOverRuns(file: Option<seq<byte>>, es: seq<Event>, crc: Checksum, legacy: Checksum)
    ensures Inv(Run(Boot(file), es, crc, legacy), crc, legacy)
    decreases |es|
  {
    hide Inv;
    hide Step;
    if es == [] {
      BootInv(file, crc, legacy);
    } else {
      var before := Run(Boot(file), es[..|es| - 1], crc, legacy);
      InvariantOverRuns(file, es[..|es| - 1], crc, legacy);
      if Possible(before, es[|es| - 1]) {
        StepKeeps(before, es[|es| - 1], crc, legacy);
      }
    }
  }

  lemma BootInv(file: Option<seq<byte>>, crc: Checksum, legacy: Checksum)
    ensures Inv(Boot(file), crc, legacy)
  {
  }

  lemma RebootAndLoad(w: World, random: Random, crc: Checksum, legacy: Checksum)
    requires Inv(w, crc, legacy) && w.loaded && !w.dirty
    ensures var again := AfterLoad(w.(store := EmptyStore(), loaded := false, dirty := false, unsaved := 0), false, random, crc, legacy);
      && again.loaded && !again.dirty && SameInUse(again.store, w.store)
      && (again.store.signCount <= w.store.signCount <==> again.store.signCount + w.unsaved % TWO_32 < TWO_32)
  {
    hide LoadFile;
    hide SameCred;
    var f := ReadFile(w, false, crc, legacy).value;
    assert (f.signCount + w.unsaved) % TWO_32 == (f.signCount + w.unsaved % TWO_32) % TWO_32;
  }

  lemma RunSnoc(w: World, es: seq<Event>, e: Event, crc: Checksum, legacy: Checksum)
    requires w.store.Valid()
    ensures var before := Run(w, es, crc, legacy);
      Run(w, es + [e], crc, legacy) == if Possible(before, e) then Step(before, e, crc, legacy) else before
  {
    hide Step;
    assert (es + [e])[..|es|] == es;
  }

  /** After any run, a clean loaded store survives a reboot: the next load finds the same credentials in use, and a sign
      count that is no greater than the one lost exactly when no unsaved bump wrapped the 32-bit counter. */
  lemma CleanStoreSurvivesReboot(file: Option<seq<byte>>, es: seq<Event>, random: Random, crc: Checksum, legacy: Checksum)
    requires random.Valid()
    requires var w := Run(Boot(file), es, crc, legacy); w.loaded && !w.dirty
    ensures var w := Run(Boot(file), es, crc, legacy);
      var again := Run(Boot(file), es + [Reboot] + [Load(false, random)], crc, legacy);
      && again.loaded && !again.dirty && SameInUse(again.store, w.store)
      && (again.store.signCount <= w.store.signCount <==> again.store.signCount + w.unsaved % TWO_32 < TWO_32)
  {
    hide AfterLoad;
    hide SameInUse;
    hide Run;
    hide Inv;
    InvariantOverRuns(file, es, crc, legacy);
    RunSnoc(Boot(file), es, Reboot, crc, legacy);
    RunSnoc(Boot(file), es + [Reboot], Load(false, random), crc, legacy);
    RebootAndLoad(Run(Boot(file), es, crc, legacy), random, crc, legacy);
  }

  // ----- what a load and a restore bring -----

  /** Memory is the store in the file, but for a legacy PIN, which is dropped and has to be saved. */
  predicate Adopted(before: World, f: Store, after: World) {
    && after.loaded && after.file == before.file && after.dirty == f.pinSet && after.unsaved == 0
    && after.store.creds == f.creds && after.store.signCount == f.signCount
    && after.store.aaguid == f.aaguid && after.store.pinToken == f.pinToken && !after.store.pinSet
    && (!f.pinSet ==> after.store == f)
  }

  /** A restore brings back the store in the file whatever was in memory, saved or not; without a readable file it changes
      nothing. */
  lemma RestoreBringsFile(w: World, readFails: bool, crc: Checksum, legacy: Checksum)
    ensures var after := AfterRestore(w, readFails, crc, legacy);
      var f := if readFails || w.file.None? then None else LoadFile(w.file.value, crc, legacy);
      if f.Some? then Adopted(w, f.value, after) else after == w
  {
    hide LoadFile;
  }

  /** The first load brings the store in the file, or makes a blank one that has to be saved; a later one changes nothing. */
  lemma LoadBringsFile(w: World, readFails: bool, random: Random, crc: Checksum, legacy: Checksum)
    ensures var after := AfterLoad(w, readFails, random, crc, legacy);
      var f := if readFails || w.file.None? then None else LoadFile(w.file.value, crc, legacy);
      if w.loaded then after == w
      else if f.Some? then Adopted(w, f.value, after)
      else Blank(after.store, random) && after.loaded && after.dirty && after.file == w.file
  {
    hide LoadFile;
  }

  /** What becomes of an attempt to save: written, memory is clean and the file is its image; not begun, nothing changed; cut
      short, memory stays dirty and the file is refused from then on. A clean store is not written. */
  lemma SaveOutcomes(w: World, outcome: WriteOutcome, crc: Checksum, legacy: Checksum)
    requires w.store.Shaped()
    ensures var k := AfterPersist(w, outcome, crc);
      && k.store == w.store && k.loaded == w.loaded
      && (!w.dirty ==> k == w)
      && (w.dirty ==>
            match outcome
            case Written => !k.dirty && k.unsaved == 0 && k.file == Some(Save(w.store, crc))
            case Short(_) => k.dirty && ReadFile(k, false, crc, legacy) == None
            case _ => k == w)
  {
    hide Save;
    hide LoadV2;
    hide LeValue;
    if w.dirty && outcome.Short? {
      var img := Save(w.store, crc);
      var cut := img[..outcome.kept % SIZE];
      if |cut| == SIZE_V1 {
        SavedVersion(w.store, crc);
        assert cut[4..8] == img[4..8];
      }
    }
  }

  lemma SavedVersion(s: Store, crc: Checksum)
    requires s.Shaped()
    ensures U32At(Save(s, crc), 4) == 2
  {
    hide SaveBody;
    SealFields(2, crc(SaveBody(s)), SaveBody(s));
  }

  // ----- where the code is not what its comments say -----

  /** An upgraded version 1 store is left clean, so nothing rewrites the file as version 2, except when a legacy PIN was dropped. */
  lemma UpgradeLeavesDirtyIff(w: World, random: Random, crc: Checksum, legacy: Checksum)
    requires !w.loaded && w.file.Some? && |w.file.value| == SIZE_V1 && ReadFile(w, false, crc, legacy).Some?
    ensures AfterLoad(w, false, random, crc, legacy).dirty <==> ReadFile(w, false, crc, legacy).value.pinSet
  {
  }

  /** The control command that clears PIN state keeps the persisted credentials exactly if the store is loaded or
      nothing was in use in the file: before the first load it writes out the empty memory. */
  lemma PinResetKeepsCredentialsIff(w: World, crc: Checksum, legacy: Checksum)
    requires Inv(w, crc, legacy) && ReadFile(w, false, crc, legacy).Some?
    requires if w.loaded then !w.dirty else w.store == EmptyStore()
    ensures var f := ReadFile(w, false, crc, legacy).value;
      var g := ReadFile(Step(w, PinReset(Written), crc, legacy), false, crc, legacy);
      g.Some? && (SameInUse(g.value, f) <==> w.loaded || forall i :: 0 <= i < MAX_CREDS ==> !f.creds[i].inUse)
  {
    hide SameCred;
    hide LoadV2;
    hide LoadV1;
    hide Save;
    var s := DropPin(w.store);
    LoadSaved(s, crc, legacy);
    var img := Save(s, crc);
    assert img[..SIZE] == img;
    var f := ReadFile(w, false, crc, legacy).value;
    var g := CleanStore(s);
    if w.loaded {
      forall i | 0 <= i < MAX_CREDS && f.creds[i].inUse
        ensures SameCred(g.creds[i], f.creds[i])
      {
        SameCredSymmetric(f.creds[i], w.store.creds[i]);
        SameCredTransitive(g.creds[i], s.creds[i], f.creds[i]);
      }
    } else {
      assert forall i :: 0 <= i < MAX_CREDS ==> !g.creds[i].inUse;
    }
  }

  /** A device that has just booted, with one credential in its file: the PIN reset leaves a file with none. */
  lemma PinResetLosesCredential(cred: Credential, crc: Checksum, legacy: Checksum)
    requires cred.Valid() && cred.inUse
    ensures EmptyStore().creds[0 := cred] != []
    ensures var s := EmptyStore().(creds := EmptyStore().creds[0 := cred]);
      s.Shaped() && var w := Boot(Some(Save(s, crc)));
      var before, after := ReadFile(w, false, crc, legacy), ReadFile(Step(w, PinReset(Written), crc, legacy), false, crc, legacy);
      && before.Some? && before.value.creds[0].inUse
      && after.Some? && forall i :: 0 <= i < MAX_CREDS ==> !after.value.creds[i].inUse
  {
    hide SameCred;
    hide LoadV2;
    hide Save;
    NoCredValid();
    var s := EmptyStore().(creds := EmptyStore().creds[0 := cred]);
    assert s.Valid();
    LoadSaved(s, crc, legacy);
    var img := Save(s, crc);
    assert img[..SIZE] == img;
    var none := DropPin(EmptyStore());
    LoadSaved(none, crc, legacy);
    var blank := Save(none, crc);
    assert blank[..SIZE] == blank;
  }

  lemma SameCredSymmetric(a: Credential, b: Credential)
    requires SameCred(a, b)
    ensures SameCred(b, a)
  {
    hide CStr;
  }

  lemma SameCredTransitive(a: Credential, b: Credential, c: Credential)
    requires SameCred(a, b) && SameCred(b, c)
    ensures SameCred(a, c)
  {
    hide CStr;
  }
}
