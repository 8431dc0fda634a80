/** The companion's slot edits and imports, and the kernel store each of them produces. */
module CompanionEdits {
  import opened Bytes
  import opened StoreImage
  import opened CompanionStore

  // ----- version 1 upgrade -----

  lemma V1SlotCommutes(v1: seq<byte>)
    requires |v1| == CRED_SIZE_V1
    ensures LoadCred(v1 + Zeros(32)) == LoadCredV1(v1)
  {
    var s := v1 + Zeros(32);
    assert s[4..36] == v1[4..36] && s[36..100] == v1[36..100] && s[100..228] == v1[100..228];
    assert s[228..292] == v1[228..292] && s[292..356] == v1[292..356];
    assert s[356..388] == v1[356..388] && s[388..452] == v1[388..452] && s[452..484] == Zeros(32);
  }

  lemma UpgradedView(bytes: seq<byte>)
    requires |bytes| >= SIZE_V1
    ensures KernelView(Upgraded(bytes))
         == LoadHeader(bytes, seq(MAX_CREDS, i requires 0 <= i < MAX_CREDS => LoadCredV1(SlotV1(bytes[..SIZE_V1], i))))
  {
    hide LoadCred;
    hide LoadCredV1;
    hide LoadHeader;
    hide Flatten;
    var raw, slots := Upgraded(bytes), UpgradedSlots(bytes);
    assert raw[OFF_SIGN_COUNT..HEADER_SIZE] == bytes[OFF_SIGN_COUNT..HEADER_SIZE];
    SameHeader(raw, bytes);
    var v1 := seq(MAX_CREDS, i requires 0 <= i < MAX_CREDS => LoadCredV1(SlotV1(bytes[..SIZE_V1], i)));
    var v2 := seq(MAX_CREDS, i requires 0 <= i < MAX_CREDS => LoadCred(Slot(raw, i)));
    forall i | 0 <= i < MAX_CREDS
      ensures v1[i] == v2[i]
    {
      FlattenAt(slots, CRED_SIZE, i);
      var o := SlotOffset(i);
      assert raw[o..o + CRED_SIZE] == Flatten(slots)[CRED_SIZE * i..CRED_SIZE * i + CRED_SIZE];
      V1SlotCommutes(SlotV1(bytes[..SIZE_V1], i));
    }
    assert v1 == v2;
  }

  /** For every version 1 image the companion accepts: its upgrade, resealed and loaded by the kernel as version 2,
      is the store the kernel's own version 1 loader makes of the same image. */
  lemma UpgradePathsCommute(bytes: seq<byte>, crc: Checksum, legacy: Checksum)
    requires Parse(bytes, crc).Some? && U32At(bytes, 4) == 1
    ensures var loaded := LoadV1(bytes[..SIZE_V1], crc, legacy);
      && loaded.Some?
      && LoadV2(ToBytes(Parse(bytes, crc).value, crc), crc, legacy) == loaded
      && forall i :: 0 <= i < MAX_CREDS ==> loaded.value.creds[i].hmacSecret == Zeros(32)
  {
    hide LoadHeader;
    hide LeValue;
    hide Upgraded;
    var v1 := bytes[..SIZE_V1];
    assert v1[0..4] == bytes[0..4] && v1[4..8] == bytes[4..8] && v1[8..12] == bytes[8..12];
    assert v1[OFF_SIGN_COUNT..] == bytes[OFF_SIGN_COUNT..SIZE_V1];
    assert Sealed(v1, 1, crc, legacy);
    ResealedIsAccepted(Upgraded(bytes), crc, legacy);
    UpgradedView(bytes);
    assert v1[OFF_SIGN_COUNT..HEADER_SIZE] == bytes[OFF_SIGN_COUNT..HEADER_SIZE];
    SameHeader(v1, bytes);
    HeaderKeepsCreds(v1, seq(MAX_CREDS, i requires 0 <= i < MAX_CREDS => LoadCredV1(SlotV1(v1, i))));
  }

  /** File against file: the kernel reading a version 1 file itself and the kernel reading the companion's upgrade of it agree
      exactly when the file has the exact version 1 size; the companion also takes longer ones, which the kernel refuses. */
  lemma FileUpgradeCommutesIff(bytes: seq<byte>, crc: Checksum, legacy: Checksum)
    requires Parse(bytes, crc).Some? && U32At(bytes, 4) == 1
    ensures var resealed := ToBytes(Parse(bytes, crc).value, crc);
      && LoadFile(resealed, crc, legacy).Some?
      && (LoadFile(bytes, crc, legacy) == LoadFile(resealed, crc, legacy) <==> |bytes| == SIZE_V1)
      && (|bytes| != SIZE_V1 ==> LoadFile(bytes, crc, legacy).None?)
  {
    hide LoadV1;
    hide ToBytes;
    UpgradePathsCommute(bytes, crc, legacy);
    var resealed := ToBytes(Parse(bytes, crc).value, crc);
    assert resealed[..SIZE] == resealed;
    if |bytes| == SIZE_V1 {
      assert bytes[..SIZE_V1] == bytes;
    } else if |bytes| >= SIZE {
      assert bytes[..SIZE][4..8] == bytes[4..8];
    }
  }

  lemma HeaderKeepsCreds(img: seq<byte>, creds: seq<Credential>)
    requires |img| >= HEADER_SIZE
    ensures LoadHeader(img, creds).creds == creds
  {
  }

  /** A version 2 image the companion accepts comes back from parse and reseal byte for byte. */
  lemma ParseResealIdentity(img: seq<byte>, crc: Checksum)
    requires |img| == SIZE && Parse(img, crc).Some? && U32At(img, 4) == 2
    ensures ToBytes(Parse(img, crc).value, crc) == img
  {
    hide LeBytes;
    hide LeValue;
    var body := img[OFF_SIGN_COUNT..];
    assert img[..SIZE] == img && img[OFF_SIGN_COUNT..SIZE] == body;
    LeBytesOfValue(img[0..4]);
    LeBytesOfValue(img[4..8]);
    LeBytesOfValue(img[8..12]);
    assert img == img[0..4] + img[4..8] + img[8..12] + body;
  }

  // ----- slot edits -----

  lemma PutInSlot(raw: seq<byte>, k: nat, rel: nat, s: seq<byte>, i: nat)
    requires |raw| == SIZE && k < MAX_CREDS && rel + |s| <= CRED_SIZE && i < MAX_CREDS
    ensures var edited := Put(raw, SlotOffset(k) + rel, s);
      && Slot(edited, i) == (if i == k then Put(Slot(raw, k), rel, s) else Slot(raw, i))
      && edited[OFF_SIGN_COUNT..HEADER_SIZE] == raw[OFF_SIGN_COUNT..HEADER_SIZE]
  {
    var edited := Put(raw, SlotOffset(k) + rel, s);
    var x, y := Slot(edited, i), if i == k then Put(Slot(raw, k), rel, s) else Slot(raw, i);
    forall j | 0 <= j < CRED_SIZE
      ensures x[j] == y[j]
    {
      assert x[j] == edited[SlotOffset(i) + j];
    }
  }

  /** An edit inside one slot changes that slot's credential in the kernel's view and nothing else. */
  lemma EditView(raw: seq<byte>, k: nat, rel: nat, s: seq<byte>)
    requires |raw| == SIZE && k < MAX_CREDS && rel + |s| <= CRED_SIZE
    ensures var v := KernelView(raw);
      KernelView(Put(raw, SlotOffset(k) + rel, s))
      == v.(creds := v.creds[k := LoadCred(Put(Slot(raw, k), rel, s))])
  {
    hide LoadCred;
    hide Put;
    var edited := Put(raw, SlotOffset(k) + rel, s);
    var v := KernelView(raw);
    PutInSlot(raw, k, rel, s, k);
    SameHeader(edited, raw);
    forall i | 0 <= i < MAX_CREDS
      ensures Slot(edited, i) == if i == k then Put(Slot(raw, k), rel, s) else Slot(raw, i)
    {
      PutInSlot(raw, k, rel, s, i);
    }
    assert KernelView(edited).creds == v.creds[k := LoadCred(Put(Slot(raw, k), rel, s))];
  }

  method WithoutSlot(raw: seq<byte>, slot: nat) returns (r: seq<byte>)
    requires |raw| == SIZE && slot < MAX_CREDS
    ensures r == Put(raw, SlotOffset(slot), Zeros(CRED_SIZE))
  {
    var copy := new byte[SIZE](i requires 0 <= i < SIZE => raw[i]);
    assert copy[..] == raw;
    forall i | 0 <= i < CRED_SIZE {
      copy[SlotOffset(slot) + i] := 0;
    }
    return copy[..];
  }

  /** Deleting a slot leaves the kernel an empty slot, private key included, and every other slot as it was. */
  lemma DeleteIsExact(raw: seq<byte>, slot: nat)
    requires |raw| == SIZE && slot < MAX_CREDS
    ensures var v := KernelView(raw);
      KernelView(Put(raw, SlotOffset(slot), Zeros(CRED_SIZE))) == v.(creds := v.creds[slot := NO_CRED])
  {
    hide LoadCred;
    hide KernelView;
    EditView(raw, slot, 0, Zeros(CRED_SIZE));
    var z := Zeros(CRED_SIZE);
    assert Put(Slot(raw, slot), 0, z) == z;
    EmptySlotLoads();
  }

  lemma EmptySlotLoads()
    ensures LoadCred(Zeros(CRED_SIZE)) == NO_CRED
  {
    var z := Zeros(CRED_SIZE);
    assert z[4..36] == Zeros(32) && z[36..100] == Zeros(64) && z[356..388] == Zeros(32) && z[388..452] == Zeros(64);
    assert z[452..484] == Zeros(32);
    assert Terminated(z[100..228]) == Zeros(128) && Terminated(z[228..292]) == Zeros(64) && Terminated(z[292..356]) == Zeros(64);
  }

  method WithRenamedSlot(raw: seq<byte>, slot: nat, userName: seq<byte>, userDisplay: seq<byte>) returns (r: seq<byte>)
    requires |raw| == SIZE && slot < MAX_CREDS
    ensures r == Put(Put(raw, SlotOffset(slot) + OFF_USER_NAME, NameBytes(userName, LEN_NAME)),
                     SlotOffset(slot) + OFF_USER_DISPLAY, NameBytes(userDisplay, LEN_NAME))
  {
    hide NameBytes;
    var copy := new byte[SIZE](i requires 0 <= i < SIZE => raw[i]);
    assert copy[..] == raw;
    WriteCString(copy, SlotOffset(slot) + OFF_USER_NAME, LEN_NAME, userName);
    WriteCString(copy, SlotOffset(slot) + OFF_USER_DISPLAY, LEN_NAME, userDisplay);
    return copy[..];
  }

  lemma NameTerminated(value: seq<byte>)
    ensures Terminated(NameBytes(value, LEN_NAME)) == NameBytes(value, LEN_NAME)
  {
    hide Truncated;
    assert NameBytes(value, LEN_NAME)[LEN_NAME - 1] == 0;
  }

  lemma PutName(slot: seq<byte>, value: seq<byte>)
    requires |slot| == CRED_SIZE
    ensures var n := NameBytes(value, LEN_NAME);
      && LoadCred(Put(slot, OFF_USER_NAME, n)) == LoadCred(slot).(userName := n)
      && LoadCred(Put(slot, OFF_USER_DISPLAY, n)) == LoadCred(slot).(userDisplay := n)
  {
    hide NameBytes;
    hide Terminated;
    NameTerminated(value);
    var n := NameBytes(value, LEN_NAME);
    var a, b := Put(slot, OFF_USER_NAME, n), Put(slot, OFF_USER_DISPLAY, n);
    assert a[4..36] == slot[4..36] && a[36..100] == slot[36..100] && a[100..228] == slot[100..228] && a[228..292] == n;
    assert a[292..356] == slot[292..356] && a[356..388] == slot[356..388] && a[388..452] == slot[388..452] && a[452..484] == slot[452..484];
    assert b[4..36] == slot[4..36] && b[36..100] == slot[36..100] && b[100..228] == slot[100..228] && b[228..292] == slot[228..292];
    assert b[292..356] == n && b[356..388] == slot[356..388] && b[388..452] == slot[388..452] && b[452..484] == slot[452..484];
  }

  /** Renaming changes the two name fields of the chosen credential and nothing else. */
  lemma RenameIsExact(raw: seq<byte>, slot: nat, userName: seq<byte>, userDisplay: seq<byte>)
    requires |raw| == SIZE && slot < MAX_CREDS
    ensures var v := KernelView(raw);
      var name, display := NameBytes(userName, LEN_NAME), NameBytes(userDisplay, LEN_NAME);
      KernelView(Put(Put(raw, SlotOffset(slot) + OFF_USER_NAME, name), SlotOffset(slot) + OFF_USER_DISPLAY, display))
      == v.(creds := v.creds[slot := v.creds[slot].(userName := name, userDisplay := display)])
  {
    hide NameBytes;
    hide LoadCred;
    var name, display := NameBytes(userName, LEN_NAME), NameBytes(userDisplay, LEN_NAME);
    var once := Put(raw, SlotOffset(slot) + OFF_USER_NAME, name);
    EditView(raw, slot, OFF_USER_NAME, name);
    PutName(Slot(raw, slot), userName);
    EditView(once, slot, OFF_USER_DISPLAY, display);
    PutInSlot(raw, slot, OFF_USER_NAME, name, slot);
    PutName(Slot(once, slot), userDisplay);
    var v := KernelView(raw);
    assert v.creds[slot := v.creds[slot].(userName := name)][slot := v.creds[slot].(userName := name, userDisplay := display)]
        == v.creds[slot := v.creds[slot].(userName := name, userDisplay := display)];
  }

  // ----- records -----

  /** One credential as the companion handles it; texts are their UTF-8 bytes. */
  datatype Record = Record(
    resident: bool, userIdLen: int, credId: seq<byte>, userId: seq<byte>, rpId: seq<byte>,
    userName: seq<byte>, userDisplay: seq<byte>, privKey: seq<byte>, pubKey: seq<byte>, hmacSecret: seq<byte>)

  /** At most `size` bytes copied into a zeroed field. */
  function Fit(s: seq<byte>, size: nat): (r: seq<byte>)
    ensures |r| == size
  {
    s[..Min(|s|, size)] + Zeros(size - Min(|s|, size))
  }

  function Clamp(n: int): byte {
    if n < 0 then 0 else if n > 64 then 64 else n
  }

  /** The credential a record becomes. */
  function CredOf(r: Record): (c: Credential)
    ensures c.Valid() && c.inUse
  {
    Credential(true, r.resident, Clamp(r.userIdLen), Fit(r.credId, 32), Fit(r.userId, 64), NameBytes(r.rpId, 128),
               NameBytes(r.userName, 64), NameBytes(r.userDisplay, 64), Fit(r.privKey, 32), Fit(r.pubKey, 64), Fit(r.hmacSecret, 32))
  }

  /** Its 484 bytes, field by field as they are written. */
  function RecordBytes(r: Record): (s: seq<byte>)
    ensures |s| == CRED_SIZE && s[0] == 1
  {
    [1] + [if r.resident then 1 else 0] + [Clamp(r.userIdLen)] + [0] + Fit(r.credId, 32) + Fit(r.userId, 64)
    + NameBytes(r.rpId, 128) + NameBytes(r.userName, 64) + NameBytes(r.userDisplay, 64)
    + Fit(r.privKey, 32) + Fit(r.pubKey, 64) + Fit(r.hmacSecret, 32)
  }

  lemma FieldTerminated(value: seq<byte>, size: nat)
    requires size > 0
    ensures Terminated(NameBytes(value, size)) == NameBytes(value, size)
  {
    hide Truncated;
    assert NameBytes(value, size)[size - 1] == 0;
  }

  lemma RecordLoads(r: Record)
    ensures LoadCred(RecordBytes(r)) == CredOf(r)
  {
    hide NameBytes;
    hide Fit;
    hide RecordBytes;
    hide Terminated;
    FieldTerminated(r.rpId, 128);
    FieldTerminated(r.userName, 64);
    FieldTerminated(r.userDisplay, 64);
    RecordPieces(r);
  }

  lemma RecordPieces(r: Record)
    ensures var s := RecordBytes(r);
      && s[1] == (if r.resident then 1 else 0) && s[2] == Clamp(r.userIdLen)
      && s[4..36] == Fit(r.credId, 32) && s[36..100] == Fit(r.userId, 64) && s[100..228] == NameBytes(r.rpId, 128)
      && s[228..292] == NameBytes(r.userName, 64) && s[292..356] == NameBytes(r.userDisplay, 64)
      && s[356..388] == Fit(r.privKey, 32) && s[388..452] == Fit(r.pubKey, 64) && s[452..484] == Fit(r.hmacSecret, 32)
  {
    hide NameBytes;
    hide Fit;
  }

  /** The companion's notion of an occupied slot. */
  predicate Occupied(raw: seq<byte>, slot: nat)
    requires |raw| == SIZE && slot < MAX_CREDS
  {
    raw[SlotOffset(slot)] == 1
  }

  /** Companion and kernel agree on a slot exactly when its first byte is 0 or 1; the kernel takes any other byte for occupied. */
  lemma OccupiedAgreesIff(raw: seq<byte>, slot: nat)
    requires |raw| == SIZE && slot < MAX_CREDS
    ensures KernelView(raw).creds[slot].inUse == Occupied(raw, slot) <==> raw[SlotOffset(slot)] <= 1
  {
    assert Slot(raw, slot)[0] == raw[SlotOffset(slot)];
  }

  function FirstFreeSlot(raw: seq<byte>, from: nat): (slot: nat)
    requires |raw| == SIZE && from <= MAX_CREDS
    ensures from <= slot <= MAX_CREDS
    ensures slot < MAX_CREDS ==> !Occupied(raw, slot)
    ensures forall i :: from <= i < slot ==> Occupied(raw, i)
    decreases MAX_CREDS - from
  {
    if from == MAX_CREDS || !Occupied(raw, from) then from else FirstFreeSlot(raw, from + 1)
  }

  /** The blob with `r` in its first free slot, or nothing when there is none. */
  function WithRecord(raw: seq<byte>, r: Record): (out: Option<seq<byte>>)
    requires |raw| == SIZE
    ensures out.Some? ==> |out.value| == SIZE
  {
    var slot := FirstFreeSlot(raw, 0);
    if slot == MAX_CREDS then None else Some(Put(raw, SlotOffset(slot), RecordBytes(r)))
  }

  /** `withCredential`, in place on a fresh copy: wipe the slot, then write field after field. */
  method WithCredential(raw: seq<byte>, r: Record) returns (out: Option<seq<byte>>)
    requires |raw| == SIZE
    ensures out == WithRecord(raw, r)
  {
    var slot := 0;
    while slot < MAX_CREDS && Occupied(raw, slot)
      invariant slot <= MAX_CREDS && FirstFreeSlot(raw, 0) == FirstFreeSlot(raw, slot)
    {
      slot := slot + 1;
    }
    if slot == MAX_CREDS {
      return None;
    }
    var copy := new byte[SIZE](i requires 0 <= i < SIZE => raw[i]);
    assert copy[..] == raw;
    WriteRecord(copy, SlotOffset(slot), r);
    return Some(copy[..]);
  }

  method WriteBytes(a: array<byte>, at: nat, piece: seq<byte>, ghost base: nat, ghost was: seq<byte>, ghost done: seq<byte>)
    requires |was| == a.Length && at == base + |done| && at + |piece| <= a.Length
    requires a[..] == Put(was, base, done)
    modifies a
    ensures a[..] == Put(was, base, done + piece)
  {
    assert a[..at] == was[..base] + done;
    forall i | 0 <= i < |piece| {
      a[at + i] := piece[i];
    }
  }

  method WriteRecord(copy: array<byte>, base: nat, r: Record)
    requires base + CRED_SIZE <= copy.Length
    modifies copy
    ensures copy[..] == Put(old(copy[..]), base, RecordBytes(r))
  {
    hide NameBytes;
    hide Fit;
    hide Put;
    ghost var was := copy[..];
    PutNothing(was, base);
    ghost var d0 := [1] + [if r.resident then 1 else 0] + [Clamp(r.userIdLen)] + [0];
    WriteBytes(copy, base, [1] + [if r.resident then 1 else 0] + [Clamp(r.userIdLen)] + [0], base, was, []);
    assert [] + d0 == d0;
    WriteBytes(copy, base + 4, Fit(r.credId, 32), base, was, d0);
    ghost var d1 := d0 + Fit(r.credId, 32);
    WriteBytes(copy, base + 36, Fit(r.userId, 64), base, was, d1);
    ghost var d2 := d1 + Fit(r.userId, 64);
    WriteBytes(copy, base + 100, NameBytes(r.rpId, 128), base, was, d2);
    ghost var d3 := d2 + NameBytes(r.rpId, 128);
    WriteBytes(copy, base + 228, NameBytes(r.userName, 64), base, was, d3);
    ghost var d4 := d3 + NameBytes(r.userName, 64);
    WriteBytes(copy, base + 292, NameBytes(r.userDisplay, 64), base, was, d4);
    ghost var d5 := d4 + NameBytes(r.userDisplay, 64);
    WriteBytes(copy, base + 356, Fit(r.privKey, 32), base, was, d5);
    ghost var d6 := d5 + Fit(r.privKey, 32);
    WriteBytes(copy, base + 388, Fit(r.pubKey, 64), base, was, d6);
    ghost var d7 := d6 + Fit(r.pubKey, 64);
    WriteBytes(copy, base + 452, Fit(r.hmacSecret, 32), base, was, d7);
  }

  lemma PutNothing(was: seq<byte>, base: nat)
    requires base <= |was|
    ensures Put(was, base, []) == was
  {
  }

  /** Adding a record gives the kernel exactly that credential, in the first slot the companion calls free. */
  lemma AddIsExact(raw: seq<byte>, r: Record)
    requires |raw| == SIZE && WithRecord(raw, r).Some?
    ensures var v := KernelView(raw);
      KernelView(WithRecord(raw, r).value) == v.(creds := v.creds[FirstFreeSlot(raw, 0) := CredOf(r)])
  {
    hide LoadCred;
    hide RecordBytes;
    hide KernelView;
    hide Put;
    hide Slot;
    hide CredOf;
    var slot := FirstFreeSlot(raw, 0);
    EditView(raw, slot, 0, RecordBytes(r));
    PutWhole(Slot(raw, slot), RecordBytes(r));
    RecordLoads(r);
  }

  // ----- import -----

  /** The credential id stored in a slot. */
  function IdAt(raw: seq<byte>, slot: nat): (id: seq<byte>)
    requires |raw| == SIZE && slot < MAX_CREDS
  {
    Slot(raw, slot)[4..36]
  }

  /** Two occupied slots never hold the same credential id. */
  ghost predicate DistinctIds(raw: seq<byte>)
    requires |raw| == SIZE
  {
    forall i, j :: 0 <= i < j < MAX_CREDS && Occupied(raw, i) && Occupied(raw, j) ==> IdAt(raw, i) != IdAt(raw, j)
  }

  /** `known` is exactly the set of ids in the blob. */
  ghost predicate KnownIds(raw: seq<byte>, known: set<seq<byte>>)
    requires |raw| == SIZE
  {
    && (forall i :: 0 <= i < MAX_CREDS && Occupied(raw, i) ==> IdAt(raw, i) in known)
    && (forall id :: id in known ==> exists i :: 0 <= i < MAX_CREDS && Occupied(raw, i) && IdAt(raw, i) == id)
  }

  /** Every occupied slot of `a` is byte for byte the same in `b`. */
  ghost predicate KeepsOccupied(a: seq<byte>, b: seq<byte>)
    requires |a| == SIZE && |b| == SIZE
  {
    forall i :: 0 <= i < MAX_CREDS && Occupied(a, i) ==> Occupied(b, i) && Slot(b, i) == Slot(a, i)
  }

  lemma AddedSlot(raw: seq<byte>, r: Record, i: nat)
    requires |raw| == SIZE && WithRecord(raw, r).Some? && |r.credId| == 32 && i < MAX_CREDS
    ensures var next := WithRecord(raw, r).value;
      if i == FirstFreeSlot(raw, 0) then Occupied(next, i) && IdAt(next, i) == r.credId && !Occupied(raw, i)
      else Slot(next, i) == Slot(raw, i) && (Occupied(next, i) <==> Occupied(raw, i)) && IdAt(next, i) == IdAt(raw, i)
  {
    hide RecordBytes;
    hide Slot;
    hide Put;
    hide IdAt;
    hide Occupied;
    var slot, bytes := FirstFreeSlot(raw, 0), RecordBytes(r);
    var next := Put(raw, SlotOffset(slot), bytes);
    PutInSlot(raw, slot, 0, bytes, i);
    PutWhole(Slot(raw, slot), bytes);
    SlotFacts(next, i);
    SlotFacts(raw, i);
    RecordId(r);
  }

  lemma PutWhole(img: seq<byte>, bytes: seq<byte>)
    requires |img| == |bytes|
    ensures Put(img, 0, bytes) == bytes
  {
  }

  lemma SlotFacts(raw: seq<byte>, i: nat)
    requires |raw| == SIZE && i < MAX_CREDS
    ensures Occupied(raw, i) <==> Slot(raw, i)[0] == 1
    ensures IdAt(raw, i) == Slot(raw, i)[4..36]
  {
    assert Slot(raw, i)[0] == raw[SlotOffset(i)];
  }

  lemma AddedSlots(raw: seq<byte>, r: Record, known: set<seq<byte>>)
    requires |raw| == SIZE && WithRecord(raw, r).Some? && |r.credId| == 32 && KnownIds(raw, known) && r.credId !in known
    ensures var next := WithRecord(raw, r).value;
      && KnownIds(next, known + {r.credId}) && KeepsOccupied(raw, next) && (DistinctIds(raw) ==> DistinctIds(next))
  {
    hide IdAt;
    hide Occupied;
    hide Slot;
    hide WithRecord;
    hide FirstFreeSlot;
    var slot := FirstFreeSlot(raw, 0);
    var next := WithRecord(raw, r).value;
    forall i | 0 <= i < MAX_CREDS
      ensures if i == slot then Occupied(next, i) && IdAt(next, i) == r.credId && !Occupied(raw, i)
              else Slot(next, i) == Slot(raw, i) && (Occupied(next, i) <==> Occupied(raw, i)) && IdAt(next, i) == IdAt(raw, i)
    {
      AddedSlot(raw, r, i);
    }
    SlotExists(raw, r);
    forall id | id in known + {r.credId}
      ensures exists i :: 0 <= i < MAX_CREDS && Occupied(next, i) && IdAt(next, i) == id
    {
      if id == r.credId {
        assert Occupied(next, slot) && IdAt(next, slot) == id;
      } else {
        var i :| 0 <= i < MAX_CREDS && Occupied(raw, i) && IdAt(raw, i) == id;
        assert Occupied(next, i) && IdAt(next, i) == id;
      }
    }
  }

  lemma SlotExists(raw: seq<byte>, r: Record)
    requires |raw| == SIZE && WithRecord(raw, r).Some?
    ensures FirstFreeSlot(raw, 0) < MAX_CREDS
  {
  }

  lemma RecordId(r: Record)
    requires |r.credId| == 32
    ensures RecordBytes(r)[4..36] == r.credId
  {
    hide NameBytes;
    assert Fit(r.credId, 32) == r.credId;
    hide Fit;
  }

  /** The ids the import starts from. */
  method ExistingIds(raw: seq<byte>) returns (known: set<seq<byte>>)
    requires |raw| == SIZE
    ensures KnownIds(raw, known)
  {
    known := {};
    for slot := 0 to MAX_CREDS
      invariant forall i :: 0 <= i < slot && Occupied(raw, i) ==> IdAt(raw, i) in known
      invariant forall id :: id in known ==> exists i :: 0 <= i < slot && Occupied(raw, i) && IdAt(raw, i) == id
    {
      if Occupied(raw, slot) {
        known := known + {IdAt(raw, slot)};
      }
    }
  }

  datatype ImportOutcome = ImportOutcome(next: seq<byte>, imported: nat, skipped: nat, full: bool)

  ghost predicate HasId(raw: seq<byte>, id: seq<byte>)
    requires |raw| == SIZE
  {
    exists i :: 0 <= i < MAX_CREDS && Occupied(raw, i) && IdAt(raw, i) == id
  }

  /** Record `k` is the first with its id, and the store does not have that id. */
  ghost predicate New(store: seq<byte>, records: seq<Record>, k: nat)
    requires |store| == SIZE && k < |records|
  {
    !HasId(store, records[k].credId) && forall j :: 0 <= j < k ==> records[j].credId != records[k].credId
  }

  /** The numbers of the new records among the first `n`, in order. */
  ghost function NewOnes(store: seq<byte>, records: seq<Record>, n: nat): (ks: seq<nat>)
    requires |store| == SIZE && n <= |records|
    ensures |ks| <= n && forall j :: 0 <= j < |ks| ==> ks[j] < n
  {
    if n == 0 then [] else NewOnes(store, records, n - 1) + if New(store, records, n - 1) then [n - 1] else []
  }

  lemma {:induction false} NewOnesGrow(store: seq<byte>, records: seq<Record>, m: nat, n: nat)
    requires |store| == SIZE && m <= n <= |records|
    ensures |NewOnes(store, records, m)| <= |NewOnes(store, records, n)|
    decreases n
  {
    hide New;
    if m < n {
      NewOnesGrow(store, records, m, n - 1);
    }
  }

  lemma NoNewOnes(store: seq<byte>, records: seq<Record>)
    requires |store| == SIZE
    ensures NewOnes(store, records, 0) == []
  {
  }

  lemma NewOnesStep(store: seq<byte>, records: seq<Record>, k: nat)
    requires |store| == SIZE && k < |records|
    ensures NewOnes(store, records, k + 1)
         == if New(store, records, k) then NewOnes(store, records, k) + [k] else NewOnes(store, records, k)
  {
    hide New;
  }

  /** The free slots below `n`, in order. */
  function FreeSlots(raw: seq<byte>, n: nat): (slots: seq<nat>)
    requires |raw| == SIZE && n <= MAX_CREDS
    ensures forall i :: i in slots <==> 0 <= i < n && !Occupied(raw, i)
    ensures forall i, j :: 0 <= i < j < |slots| ==> slots[i] < slots[j]
    ensures forall j :: 0 <= j < |slots| ==> slots[j] < n
  {
    if n == 0 then [] else
      var before := FreeSlots(raw, n - 1);
      before + if Occupied(raw, n - 1) then [] else [n - 1]
  }

  /** The records numbered `ks` stand in the first of the slots `free`, in order; every other byte is as in `store`. */
  ghost predicate Placed(store: seq<byte>, records: seq<Record>, ks: seq<nat>, free: seq<nat>, next: seq<byte>)
    requires |store| == SIZE && (forall j :: 0 <= j < |ks| ==> ks[j] < |records|)
    requires forall j :: 0 <= j < |free| ==> free[j] < MAX_CREDS
  {
    && |next| == SIZE && |ks| <= |free| && next[..HEADER_SIZE] == store[..HEADER_SIZE]
    && (forall j :: 0 <= j < |ks| ==> Slot(next, free[j]) == RecordBytes(records[ks[j]]))
    && forall i :: 0 <= i < MAX_CREDS && i !in free[..|ks|] ==> Slot(next, i) == Slot(store, i)
  }

  lemma NothingPlaced(store: seq<byte>, records: seq<Record>, free: seq<nat>)
    requires |store| == SIZE && forall j :: 0 <= j < |free| ==> free[j] < MAX_CREDS
    ensures Placed(store, records, [], free, store)
  {
  }

  lemma PlacedOccupies(store: seq<byte>, records: seq<Record>, ks: seq<nat>, next: seq<byte>, i: nat)
    requires |store| == SIZE && (forall j :: 0 <= j < |ks| ==> ks[j] < |records|) && i < MAX_CREDS
    requires var free := FreeSlots(store, MAX_CREDS); Placed(store, records, ks, free, next)
    ensures Occupied(next, i) <==> Occupied(store, i) || i in FreeSlots(store, MAX_CREDS)[..|ks|]
  {
    hide Slot;
    hide RecordBytes;
    hide Occupied;
    SlotFacts(next, i);
    SlotFacts(store, i);
    var free := FreeSlots(store, MAX_CREDS);
    if i in free[..|ks|] {
      var j :| 0 <= j < |ks| && free[j] == i;
      assert Slot(next, free[j]) == RecordBytes(records[ks[j]]);
    }
  }

  lemma NextFreeSlot(store: seq<byte>, records: seq<Record>, ks: seq<nat>, next: seq<byte>)
    requires |store| == SIZE && forall j :: 0 <= j < |ks| ==> ks[j] < |records|
    requires var free := FreeSlots(store, MAX_CREDS); Placed(store, records, ks, free, next)
    ensures var free := FreeSlots(store, MAX_CREDS);
      FirstFreeSlot(next, 0) == if |ks| < |free| then free[|ks|] else MAX_CREDS
  {
    hide Placed;
    hide Occupied;
    hide FirstFreeSlot;
    hide FreeSlots;
    assert |next| == SIZE && |ks| <= |FreeSlots(store, MAX_CREDS)| by {
      PlacedShape(store, records, ks, FreeSlots(store, MAX_CREDS), next);
    }
    var free := FreeSlots(store, MAX_CREDS);
    forall i | 0 <= i < MAX_CREDS
      ensures Occupied(next, i) <==> Occupied(store, i) || i in free[..|ks|]
    {
      PlacedOccupies(store, records, ks, next, i);
    }
    var slot := FirstFreeSlot(next, 0);
    if |ks| < |free| {
      assert free[|ks|] in free;
      assert !Occupied(next, free[|ks|]);
    }
    if slot < MAX_CREDS {
      assert slot in free;
    }
  }

  lemma PlacedShape(store: seq<byte>, records: seq<Record>, ks: seq<nat>, free: seq<nat>, next: seq<byte>)
    requires |store| == SIZE && (forall j :: 0 <= j < |ks| ==> ks[j] < |records|)
    requires forall j :: 0 <= j < |free| ==> free[j] < MAX_CREDS
    requires Placed(store, records, ks, free, next)
    ensures |next| == SIZE && |ks| <= |free|
  {
  }

  /** One more record goes into the next of the free slots. */
  lemma PlaceOne(store: seq<byte>, records: seq<Record>, ks: seq<nat>, next: seq<byte>, k: nat)
    requires |store| == SIZE && (forall j :: 0 <= j < |ks| ==> ks[j] < |records|) && k < |records| && |next| == SIZE
    requires Placed(store, records, ks, FreeSlots(store, MAX_CREDS), next)
    requires WithRecord(next, records[k]).Some?
    ensures Placed(store, records, ks + [k], FreeSlots(store, MAX_CREDS), WithRecord(next, records[k]).value)
  {
    hide Slot;
    hide RecordBytes;
    hide Put;
    hide Occupied;
    hide FreeSlots;
    hide FirstFreeSlot;
    var free := FreeSlots(store, MAX_CREDS);
    NextFreeSlot(store, records, ks, next);
    var slot, bytes := free[|ks|], RecordBytes(records[k]);
    var after := Put(next, SlotOffset(slot), bytes);
    HeaderStays(next, slot, bytes);
    forall i | 0 <= i < MAX_CREDS
      ensures Slot(after, i) == if i == slot then bytes else Slot(next, i)
    {
      PutInSlot(next, slot, 0, bytes, i);
      PutWhole(Slot(next, slot), bytes);
    }
    assert free[..|ks| + 1] == free[..|ks|] + [slot];
  }

  lemma HeaderStays(raw: seq<byte>, slot: nat, bytes: seq<byte>)
    requires |raw| == SIZE && slot < MAX_CREDS && |bytes| == CRED_SIZE
    ensures Put(raw, SlotOffset(slot), bytes)[..HEADER_SIZE] == raw[..HEADER_SIZE]
  {
  }

  /** What the kernel sees after an import: each new record's credential in its slot, everything else as before. */
  lemma PlacedAreSeen(store: seq<byte>, records: seq<Record>, ks: seq<nat>, free: seq<nat>, next: seq<byte>)
    requires |store| == SIZE && (forall j :: 0 <= j < |ks| ==> ks[j] < |records|)
    requires forall j :: 0 <= j < |free| ==> free[j] < MAX_CREDS
    requires Placed(store, records, ks, free, next)
    ensures |next| == SIZE && |ks| <= |free|
    ensures var v, w := KernelView(store), KernelView(next);
      && w == v.(creds := w.creds)
      && (forall j :: 0 <= j < |ks| ==> w.creds[free[j]] == CredOf(records[ks[j]]))
      && forall i :: 0 <= i < MAX_CREDS && i !in free[..|ks|] ==> w.creds[i] == v.creds[i]
  {
    hide Slot;
    hide RecordBytes;
    hide LoadCred;
    hide CredOf;
    assert next[OFF_SIGN_COUNT..HEADER_SIZE] == next[..HEADER_SIZE][OFF_SIGN_COUNT..] == store[OFF_SIGN_COUNT..HEADER_SIZE];
    SameHeader(next, store);
    forall j | 0 <= j < |ks|
      ensures KernelView(next).creds[free[j]] == CredOf(records[ks[j]])
    {
      RecordLoads(records[ks[j]]);
    }
  }

  /** The import loop. The new records up to the end, or up to the one that finds the store full, stand in the first free
      slots in record order, and every other byte stays; existing credentials stay, ids end pairwise distinct if they
      started so, and every record is either imported or skipped unless there are more new ones than free slots. */
  method Import(store: seq<byte>, records: seq<Record>) returns (o: ImportOutcome)
    requires |store| == SIZE
    requires forall k :: 0 <= k < |records| ==> |records[k].credId| == 32
    ensures |o.next| == SIZE && KeepsOccupied(store, o.next) && (DistinctIds(store) ==> DistinctIds(o.next))
    ensures !o.full ==> o.imported + o.skipped == |records|
    ensures !o.full ==> forall id :: HasId(o.next, id) <==> HasId(store, id) || exists k :: 0 <= k < |records| && records[k].credId == id
    ensures o.full ==> o.imported + o.skipped < |records| && FirstFreeSlot(o.next, 0) == MAX_CREDS
    ensures o.imported == 0 ==> o.next == store
    ensures var n := o.imported + o.skipped; var ks := NewOnes(store, records, n); var free := FreeSlots(store, MAX_CREDS);
      && o.imported == |ks| && Placed(store, records, ks, free, o.next)
      && (o.full ==> New(store, records, n) && |ks| == |free|)
      && (o.full <==> |NewOnes(store, records, |records|)| > |free|)
  {
    hide New;
    hide NewOnes;
    hide FreeSlots;
    hide Placed;
    hide KeepsOccupied;
    hide DistinctIds;
    hide Occupied;
    hide IdAt;
    hide KnownIds;
    hide HasId;
    hide WithRecord;
    hide FirstFreeSlot;
    var known := ExistingIds(store);
    ghost var existing := known;
    var next := store;
    var imported, skipped := 0, 0;
    ghost var free := FreeSlots(store, MAX_CREDS);
    NothingPlaced(store, records, free);
    NoNewOnes(store, records);
    KeepsItself(store);
    KnownMeansHas(store, existing);
    for k := 0 to |records|
      invariant |next| == SIZE && KeepsOccupied(store, next) && (DistinctIds(store) ==> DistinctIds(next))
      invariant imported + skipped == k
      invariant known == existing + (set j | 0 <= j < k :: records[j].credId) && KnownIds(next, known)
      invariant imported == 0 ==> next == store
      invariant imported == |NewOnes(store, records, k)| && Placed(store, records, NewOnes(store, records, k), free, next)
    {
      var record := records[k];
      NewOnesStep(store, records, k);
      NewMeansUnknown(store, records, k, existing);
      if record.credId in known {
        skipped := skipped + 1;
        continue;
      }
      var updated := WithCredential(next, record);
      if updated.None? {
        FullStore(next, record);
        NextFreeSlot(store, records, NewOnes(store, records, k), next);
        NewOnesGrow(store, records, k + 1, |records|);
        PlacedShape(store, records, NewOnes(store, records, k), free, next);
        return ImportOutcome(next, imported, skipped, true);
      }
      AddedSlots(next, record, known);
      KeepsThrough(store, next, updated.value);
      PlaceOne(store, records, NewOnes(store, records, k), next, k);
      known := known + {record.credId};
      next := updated.value;
      imported := imported + 1;
    }
    KnownMeansHas(next, known);
    PlacedShape(store, records, NewOnes(store, records, |records|), free, next);
    return ImportOutcome(next, imported, skipped, false);
  }

  lemma KnownMeansHas(raw: seq<byte>, known: set<seq<byte>>)
    requires |raw| == SIZE && KnownIds(raw, known)
    ensures forall id :: id in known <==> HasId(raw, id)
  {
    forall id
      ensures id in known <==> HasId(raw, id)
    {
    }
  }

  lemma KeepsItself(raw: seq<byte>)
    requires |raw| == SIZE
    ensures KeepsOccupied(raw, raw)
  {
  }

  lemma KeepsThrough(a: seq<byte>, b: seq<byte>, c: seq<byte>)
    requires |a| == SIZE && |b| == SIZE && |c| == SIZE && KeepsOccupied(a, b) && KeepsOccupied(b, c)
    ensures KeepsOccupied(a, c)
  {
    hide Occupied;
    hide Slot;
  }

  lemma NewMeansUnknown(store: seq<byte>, records: seq<Record>, k: nat, existing: set<seq<byte>>)
    requires |store| == SIZE && k < |records| && forall id :: id in existing <==> HasId(store, id)
    ensures New(store, records, k) <==> records[k].credId !in existing + (set j | 0 <= j < k :: records[j].credId)
  {
    hide HasId;
  }

  lemma FullStore(raw: seq<byte>, r: Record)
    requires |raw| == SIZE && WithRecord(raw, r).None?
    ensures FirstFreeSlot(raw, 0) == MAX_CREDS
  {
  }
}
