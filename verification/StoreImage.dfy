/** The persisted store, version 2 and version 1: exact byte layout, the two kernel loaders and the serializer. */
module StoreImage {
  import opened Bytes

  const MAGIC := 0x4142_4646
  const MAX_CREDS := 32
  const HEADER_SIZE := 84
  const CRED_SIZE := 484
  const CRED_SIZE_V1 := 452
  const SIZE := 15572
  const SIZE_V1 := 14548
  const OFF_SIGN_COUNT := 12
  const PIN_RETRIES_DEFAULT := 8

  /** CRC-32 is taken as given: any function of the covered bytes. */
  type Checksum = seq<byte> -> u32

  /** `struct abk_fido_credential`: every field with its full array, strings included. */
  datatype Credential = Credential(
    inUse: bool, resident: bool, userIdLen: byte, credId: seq<byte>, userId: seq<byte>, rpId: seq<byte>,
    userName: seq<byte>, userDisplay: seq<byte>, privKey: seq<byte>, pubKey: seq<byte>, hmacSecret: seq<byte>)
  {
    predicate Shaped() {
      && |credId| == 32 && |userId| == 64 && |rpId| == 128 && |userName| == 64 && |userDisplay| == 64
      && |privKey| == 32 && |pubKey| == 64 && |hmacSecret| == 32
    }
    /** What every loader and every registration leaves behind: strings end inside their fields, user ids fit. */
    predicate Valid() {
      Shaped() && userIdLen <= 64 && 0 in rpId && 0 in userName && 0 in userDisplay
    }
  }

  const NO_CRED := Credential(false, false, 0, Zeros(32), Zeros(64), Zeros(128), Zeros(64), Zeros(64), Zeros(32), Zeros(64), Zeros(32))

  datatype Store = Store(
    signCount: u32, aaguid: seq<byte>, pinSet: bool, pinRetries: byte, pinHash: seq<byte>, pinToken: seq<byte>, creds: seq<Credential>)
  {
    predicate Shaped() {
      && |aaguid| == 16 && |pinHash| == 16 && |pinToken| == 32 && |creds| == MAX_CREDS
      && forall i :: 0 <= i < MAX_CREDS ==> creds[i].Shaped()
    }
    predicate Valid() {
      Shaped() && forall i :: 0 <= i < MAX_CREDS ==> creds[i].Valid()
    }
  }

  // ----- strings in fields -----

  /** A loaded string field: its last byte is forced to NUL. */
  function Terminated(s: seq<byte>): (r: seq<byte>)
    requires |s| > 0
    ensures |r| == |s| && 0 in r
  {
    var r := s[..|s| - 1] + [0];
    assert r[|s| - 1] == 0;
    r
  }

  /** `strscpy` into a zeroed field of the same size: the C string, cut to leave a NUL, zero filled. */
  function StrCopy(s: seq<byte>): (r: seq<byte>)
    requires |s| > 0
    ensures |r| == |s| && 0 in r
  {
    var c := CStr(s)[..Min(|CStr(s)|, |s| - 1)];
    var r := c + Zeros(|s| - |c|);
    assert r[|s| - 1] == 0;
    r
  }

  /** Copying keeps the C string of a field that holds one, and a second copy changes nothing more. */
  lemma StrCopyExact(s: seq<byte>)
    requires 0 in s
    ensures CStr(StrCopy(s)) == CStr(s)
    ensures StrCopy(StrCopy(s)) == StrCopy(s) && Terminated(StrCopy(s)) == StrCopy(s)
  {
    hide CStr;
    hide StrCopy;
    hide Terminated;
    PaddedCopy(s);
    PaddedReads(CStr(s), |s| - |CStr(s)|);
    PaddedCopy(StrCopy(s));
  }

  lemma PaddedReads(c: seq<byte>, n: nat)
    requires 0 !in c && n > 0
    ensures var r := c + Zeros(n); CStr(r) == c && 0 in r && Terminated(r) == r
  {
    hide CStr;
    var z := Zeros(n);
    var r := c + z;
    assert z[n - 1] == 0 && z[0] == 0;
    assert r[|c| + (n - 1)] == z[n - 1];
    assert r == r[..|r| - 1] + [0];
    assert r[..|c|] == c && r[|c|] == z[0];
    CStrUnique(r, c);
  }

  lemma PaddedCopy(s: seq<byte>)
    requires 0 in s
    ensures StrCopy(s) == CStr(s) + Zeros(|s| - |CStr(s)|)
  {
    hide CStr;
    var c := CStr(s);
    assert Min(|c|, |s| - 1) == |c|;
    assert c[..|c|] == c;
  }

  // ----- one credential slot -----

  function SaveCred(c: Credential): (s: seq<byte>)
    requires c.Shaped()
    ensures |s| == CRED_SIZE
  {
    [if c.inUse then 1 else 0] + [if c.resident then 1 else 0] + [c.userIdLen] + [0] + c.credId + c.userId
    + StrCopy(c.rpId) + StrCopy(c.userName) + StrCopy(c.userDisplay) + c.privKey + c.pubKey + c.hmacSecret
  }

  function LoadCred(s: seq<byte>): (c: Credential)
    requires |s| == CRED_SIZE
    ensures c.Valid()
  {
    Credential(s[0] != 0, s[1] != 0, Min(s[2], 64), s[4..36], s[36..100], Terminated(s[100..228]),
               Terminated(s[228..292]), Terminated(s[292..356]), s[356..388], s[388..452], s[452..484])
  }

  /** A version 1 slot is a version 2 slot without its last 32 bytes. */
  function LoadCredV1(s: seq<byte>): (c: Credential)
    requires |s| == CRED_SIZE_V1
    ensures c.Valid()
  {
    Credential(s[0] != 0, s[1] != 0, Min(s[2], 64), s[4..36], s[36..100], Terminated(s[100..228]),
               Terminated(s[228..292]), Terminated(s[292..356]), s[356..388], s[388..452], Zeros(32))
  }

  /** The credential with every string cut clean behind its terminator. */
  function Clean(c: Credential): Credential
    requires c.Shaped()
  {
    c.(rpId := StrCopy(c.rpId), userName := StrCopy(c.userName), userDisplay := StrCopy(c.userDisplay))
  }

  /** Same credential to every C reader: all fields equal, strings up to their terminators. */
  ghost predicate SameCred(a: Credential, b: Credential) {
    && a == b.(rpId := a.rpId, userName := a.userName, userDisplay := a.userDisplay)
    && CStr(a.rpId) == CStr(b.rpId) && CStr(a.userName) == CStr(b.userName) && CStr(a.userDisplay) == CStr(b.userDisplay)
  }

  lemma SlotFields(c: Credential)
    requires c.Shaped()
    ensures var s := SaveCred(c);
      && s[0] == (if c.inUse then 1 else 0) && s[1] == (if c.resident then 1 else 0) && s[2] == c.userIdLen
      && s[4..36] == c.credId && s[36..100] == c.userId && s[100..228] == StrCopy(c.rpId)
      && s[228..292] == StrCopy(c.userName) && s[292..356] == StrCopy(c.userDisplay)
      && s[356..388] == c.privKey && s[388..452] == c.pubKey && s[452..484] == c.hmacSecret
  {
    hide StrCopy;
  }

  lemma LoadSavedCred(c: Credential)
    requires c.Valid()
    ensures LoadCred(SaveCred(c)) == Clean(c)
    ensures SameCred(Clean(c), c) && Clean(c).Valid() && SaveCred(Clean(c)) == SaveCred(c)
  {
    hide SaveCred;
    hide CStr;
    SlotFields(c);
    StrCopyExact(c.rpId);
    StrCopyExact(c.userName);
    StrCopyExact(c.userDisplay);
    SaveCleaned(c);
  }

  lemma SaveCleaned(c: Credential)
    requires c.Valid()
    ensures SaveCred(Clean(c)) == SaveCred(c)
  {
    hide StrCopy;
    StrCopyExact(c.rpId);
    StrCopyExact(c.userName);
    StrCopyExact(c.userDisplay);
  }

  // ----- the whole image -----

  function Flatten(slots: seq<seq<byte>>): seq<byte> {
    if slots == [] then [] else Flatten(slots[..|slots| - 1]) + slots[|slots| - 1]
  }

  lemma {:induction false} FlattenAt(slots: seq<seq<byte>>, size: nat, i: nat)
    requires i < |slots| && forall j :: 0 <= j < |slots| ==> |slots[j]| == size
    ensures |Flatten(slots)| == size * |slots| && 0 <= size * i && size * i + size <= |Flatten(slots)|
    ensures Flatten(slots)[size * i..size * i + size] == slots[i]
    decreases |slots|
  {
    var n := |slots| - 1;
    if n == 0 {
      assert Flatten(slots[..0]) == [];
      assert Flatten(slots) == slots[0];
    } else {
      var front := slots[..n];
      FlattenAt(front, size, if i < n then i else n - 1);
      assert size * |slots| == size * n + size;
      InFront(Flatten(front), slots[n], if i < n then size * i else |Flatten(front)|, size);
    }
  }

  lemma InFront(front: seq<byte>, last: seq<byte>, at: nat, size: nat)
    requires |last| == size && (at + size <= |front| || at == |front|)
    ensures (front + last)[at..at + size] == if at == |front| && size > 0 then last else front[at..at + size]
  {
  }

  function Slot(img: seq<byte>, i: nat): (s: seq<byte>)
    requires |img| == SIZE && i < MAX_CREDS
    ensures |s| == CRED_SIZE
  {
    img[HEADER_SIZE + CRED_SIZE * i..HEADER_SIZE + CRED_SIZE * i + CRED_SIZE]
  }

  function SlotV1(img: seq<byte>, i: nat): (s: seq<byte>)
    requires |img| == SIZE_V1 && i < MAX_CREDS
    ensures |s| == CRED_SIZE_V1
  {
    img[HEADER_SIZE + CRED_SIZE_V1 * i..HEADER_SIZE + CRED_SIZE_V1 * i + CRED_SIZE_V1]
  }

  function U32At(img: seq<byte>, off: nat): (v: u32)
    requires off + 4 <= |img|
  {
    LeBytesOfValue(img[off..off + 4]);
    Pow256Small();
    LeValue(img[off..off + 4])
  }

  /** Magic, version, and one of the two checksums over everything from the sign count on. */
  predicate Sealed(img: seq<byte>, version: u32, crc: Checksum, legacy: Checksum)
    requires |img| >= HEADER_SIZE
  {
    && U32At(img, 0) == MAGIC && U32At(img, 4) == version
    && (U32At(img, 8) == crc(img[OFF_SIGN_COUNT..]) || U32At(img, 8) == legacy(img[OFF_SIGN_COUNT..]))
  }

  function LoadHeader(img: seq<byte>, creds: seq<Credential>): Store
    requires |img| >= HEADER_SIZE
  {
    Store(U32At(img, 12), img[16..32], img[32] != 0, img[33], img[36..52], img[52..84], creds)
  }

  function LoadV2(img: seq<byte>, crc: Checksum, legacy: Checksum): (r: Option<Store>)
    requires |img| == SIZE
    ensures r.Some? ==> r.value.Valid()
  {
    if Sealed(img, 2, crc, legacy)
    then Some(LoadHeader(img, seq(MAX_CREDS, i requires 0 <= i < MAX_CREDS => LoadCred(Slot(img, i)))))
    else None
  }

  function LoadV1(img: seq<byte>, crc: Checksum, legacy: Checksum): (r: Option<Store>)
    requires |img| == SIZE_V1
    ensures r.Some? ==> r.value.Valid()
  {
    if Sealed(img, 1, crc, legacy)
    then Some(LoadHeader(img, seq(MAX_CREDS, i requires 0 <= i < MAX_CREDS => LoadCredV1(SlotV1(img, i)))))
    else None
  }

  /** A file's content as the reader takes it: its first 15572 bytes, and only the two exact sizes are images. */
  function LoadFile(file: seq<byte>, crc: Checksum, legacy: Checksum): (r: Option<Store>)
    ensures r.Some? ==> r.value.Valid()
  {
    if |file| >= SIZE then LoadV2(file[..SIZE], crc, legacy)
    else if |file| == SIZE_V1 then LoadV1(file, crc, legacy)
    else None
  }

  function SavedSlots(creds: seq<Credential>): (s: seq<seq<byte>>)
    requires forall i :: 0 <= i < |creds| ==> creds[i].Shaped()
    ensures |s| == |creds| && forall i :: 0 <= i < |s| ==> |s[i]| == CRED_SIZE && s[i] == SaveCred(creds[i])
  {
    seq(|creds|, i requires 0 <= i < |creds| => SaveCred(creds[i]))
  }

  function SaveHeader(s: Store): (h: seq<byte>)
    requires |s.aaguid| == 16 && |s.pinHash| == 16 && |s.pinToken| == 32
    ensures |h| == HEADER_SIZE - OFF_SIGN_COUNT
  {
    LeBytes(s.signCount, 4) + s.aaguid + [if s.pinSet then 1 else 0] + [s.pinRetries] + Zeros(2) + s.pinHash + s.pinToken
  }

  /** Everything the checksum covers. */
  function SaveBody(s: Store): seq<byte>
    requires s.Shaped()
  {
    SaveHeader(s) + Flatten(SavedSlots(s.creds))
  }

  function Seal(version: u32, crcValue: u32, body: seq<byte>): seq<byte> {
    LeBytes(MAGIC, 4) + LeBytes(version, 4) + LeBytes(crcValue, 4) + body
  }

  function Save(s: Store, crc: Checksum): (img: seq<byte>)
    requires s.Shaped()
    ensures |img| == SIZE
  {
    FlattenAt(SavedSlots(s.creds), CRED_SIZE, 0);
    Seal(2, crc(SaveBody(s)), SaveBody(s))
  }

  lemma SealFields(version: u32, crcValue: u32, body: seq<byte>)
    ensures var img := Seal(version, crcValue, body);
      |img| == OFF_SIGN_COUNT + |body| && img[OFF_SIGN_COUNT..] == body
      && img[0..4] == LeBytes(MAGIC, 4) && img[4..8] == LeBytes(version, 4) && img[8..12] == LeBytes(crcValue, 4)
      && LeValue(img[0..4]) == MAGIC && LeValue(img[4..8]) == version && LeValue(img[8..12]) == crcValue
  {
    hide LeBytes;
    hide LeValue;
    Pow256Small();
    LeValueOfBytes(MAGIC, 4);
    LeValueOfBytes(version, 4);
    LeValueOfBytes(crcValue, 4);
  }

  /** The image is the seal of its own body: magic, this version, and this sum of everything behind. */
  predicate SealedBy(img: seq<byte>, version: u32, sum: Checksum) {
    |img| >= OFF_SIGN_COUNT && img == Seal(version, sum(img[OFF_SIGN_COUNT..]), img[OFF_SIGN_COUNT..])
  }

  lemma SealedByIff(img: seq<byte>, version: u32, sum: Checksum)
    requires |img| >= HEADER_SIZE
    ensures SealedBy(img, version, sum)
       <==> U32At(img, 0) == MAGIC && U32At(img, 4) == version && U32At(img, 8) == sum(img[OFF_SIGN_COUNT..])
  {
    hide LeBytes;
    hide LeValue;
    var body := img[OFF_SIGN_COUNT..];
    SealFields(version, sum(body), body);
    LeBytesOfValue(img[0..4]);
    LeBytesOfValue(img[4..8]);
    LeBytesOfValue(img[8..12]);
    assert img == img[0..4] + img[4..8] + img[8..12] + body;
  }

  /** Which files the kernel loads: those that begin with a whole version 2 image, and those that are a version 1 image, each
      under the current checksum or the legacy one. */
  lemma LoadsIff(file: seq<byte>, crc: Checksum, legacy: Checksum)
    ensures LoadFile(file, crc, legacy).Some? <==>
      || (|file| >= SIZE && (SealedBy(file[..SIZE], 2, crc) || SealedBy(file[..SIZE], 2, legacy)))
      || (|file| == SIZE_V1 && (SealedBy(file, 1, crc) || SealedBy(file, 1, legacy)))
  {
    hide SealedBy;
    hide LoadHeader;
    if |file| >= SIZE {
      SealedByIff(file[..SIZE], 2, crc);
      SealedByIff(file[..SIZE], 2, legacy);
    } else if |file| == SIZE_V1 {
      SealedByIff(file, 1, crc);
      SealedByIff(file, 1, legacy);
    }
  }

  lemma HeaderFields(s: Store)
    requires |s.aaguid| == 16 && |s.pinHash| == 16 && |s.pinToken| == 32
    ensures var h := SaveHeader(s);
      && LeValue(h[0..4]) == s.signCount && h[4..20] == s.aaguid && h[20] == (if s.pinSet then 1 else 0)
      && h[21] == s.pinRetries && h[24..40] == s.pinHash && h[40..72] == s.pinToken
  {
    hide LeBytes;
    hide LeValue;
    Pow256Small();
    LeValueOfBytes(s.signCount, 4);
    assert SaveHeader(s)[0..4] == LeBytes(s.signCount, 4);
  }

  lemma BodyFields(s: Store)
    requires s.Shaped()
    ensures var b := SaveBody(s);
      && |b| == SIZE - OFF_SIGN_COUNT
      && LeValue(b[0..4]) == s.signCount && b[4..20] == s.aaguid && b[20] == (if s.pinSet then 1 else 0)
      && b[21] == s.pinRetries && b[24..40] == s.pinHash && b[40..72] == s.pinToken
      && b[72..] == Flatten(SavedSlots(s.creds))
  {
    hide LeValue;
    hide Flatten;
    hide SaveHeader;
    FlattenAt(SavedSlots(s.creds), CRED_SIZE, 0);
    HeaderFields(s);
    var h, b := SaveHeader(s), SaveBody(s);
    assert b[0..4] == h[0..4] && b[4..20] == h[4..20] && b[24..40] == h[24..40] && b[40..72] == h[40..72];
  }

  lemma SavedSlot(s: Store, crc: Checksum, i: nat)
    requires s.Shaped() && i < MAX_CREDS
    ensures Slot(Save(s, crc), i) == SaveCred(s.creds[i])
  {
    hide Flatten;
    hide SaveCred;
    hide SaveBody;
    hide Seal;
    BodyFields(s);
    SealFields(2, crc(SaveBody(s)), SaveBody(s));
    FlattenAt(SavedSlots(s.creds), CRED_SIZE, i);
    var img := Save(s, crc);
    var o := HEADER_SIZE + CRED_SIZE * i;
    assert img[o..o + CRED_SIZE] == img[OFF_SIGN_COUNT..][72..][CRED_SIZE * i..CRED_SIZE * i + CRED_SIZE];
  }

  function CleanStore(s: Store): Store
    requires s.Shaped()
  {
    s.(creds := seq(MAX_CREDS, i requires 0 <= i < MAX_CREDS => Clean(s.creds[i])))
  }

  /** Saving and loading is the identity up to the bytes behind each string's terminator. */
  lemma LoadSaved(s: Store, crc: Checksum, legacy: Checksum)
    requires s.Valid()
    ensures LoadV2(Save(s, crc), crc, legacy) == Some(CleanStore(s))
    ensures forall i :: 0 <= i < MAX_CREDS ==> SameCred(CleanStore(s).creds[i], s.creds[i])
  {
    hide SaveCred;
    hide LoadCred;
    hide Clean;
    hide SaveBody;
    hide Seal;
    hide LeValue;
    hide SameCred;
    BodyFields(s);
    SealFields(2, crc(SaveBody(s)), SaveBody(s));
    var img := Save(s, crc);
    assert img[12..16] == img[12..][0..4];
    assert img[32] == img[12..][20] && img[33] == img[12..][21];
    assert img[16..32] == img[12..][4..20];
    assert img[36..52] == img[12..][24..40];
    assert img[52..84] == img[12..][40..72];
    forall i | 0 <= i < MAX_CREDS
      ensures LoadCred(Slot(img, i)) == Clean(s.creds[i]) && SameCred(Clean(s.creds[i]), s.creds[i])
    {
      SavedSlot(s, crc, i);
      LoadSavedCred(s.creds[i]);
    }
    assert Sealed(img, 2, crc, legacy);
    var loaded := LoadV2(img, crc, legacy).value;
    assert loaded.creds == CleanStore(s).creds;
    assert loaded.signCount == s.signCount && loaded.aaguid == s.aaguid && loaded.pinSet == s.pinSet;
    assert loaded.pinRetries == s.pinRetries && loaded.pinHash == s.pinHash && loaded.pinToken == s.pinToken;
  }

  /** A second round trip changes no byte: what was loaded from a saved image is saved as the same image. */
  lemma SaveLoadSave(s: Store, crc: Checksum, legacy: Checksum)
    requires s.Valid()
    ensures var r := LoadV2(Save(s, crc), crc, legacy);
      r.Some? && Save(r.value, crc) == Save(s, crc)
  {
    hide SaveCred;
    hide LoadCred;
    hide Clean;
    hide LoadV2;
    hide Seal;
    hide Flatten;
    LoadSaved(s, crc, legacy);
    var c := CleanStore(s);
    forall i | 0 <= i < MAX_CREDS
      ensures c.creds[i].Shaped() && SaveCred(c.creds[i]) == SaveCred(s.creds[i])
    {
      LoadSavedCred(s.creds[i]);
    }
    assert SavedSlots(c.creds) == SavedSlots(s.creds);
  }
}
