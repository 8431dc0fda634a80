/** Reading a slot back as a record: what the companion shows, exports and imports again. */
module CompanionRecords {
  import opened Bytes
  import opened StoreImage
  import opened CompanionStore
  import opened CompanionEdits
  import opened Utf8
  import Handlers

  /** The record in the bytes of an occupied slot. */
  function RecordOf(s: seq<byte>, greed: Greed): (r: Option<Record>)
    requires |s| == CRED_SIZE
  {
    if s[0] != 1 then None else
      Some(Record(s[1] != 0, s[2], s[4..36], s[36..100], Decoded(CStr(s[100..228]), greed), Decoded(CStr(s[228..292]), greed),
                  Decoded(CStr(s[292..356]), greed), s[356..388], s[388..452], s[452..484]))
  }

  /** `credentialAt`. */
  method CredentialAt(raw: seq<byte>, slot: nat, greed: Greed) returns (r: Option<Record>)
    requires |raw| == SIZE && slot < MAX_CREDS
    ensures r == RecordOf(Slot(raw, slot), greed)
  {
    hide CStr;
    hide Decoded;
    hide Slot;
    hide SlotOffset;
    hide RecordOf;
    var base := SlotOffset(slot);
    HeadBytes(raw, slot);
    SlotReads(raw, slot, greed);
    if raw[base] != 1 {
      return None;
    }
    var rpId := ReadCString(raw, base + 100, 128, greed);
    var userName := ReadCString(raw, base + 228, 64, greed);
    var userDisplay := ReadCString(raw, base + 292, 64, greed);
    return Some(Record(raw[base + 1] != 0, raw[base + 2], raw[base + 4..base + 36], raw[base + 36..base + 100], rpId, userName,
                       userDisplay, raw[base + 356..base + 388], raw[base + 388..base + 452], raw[base + 452..base + 484]));
  }

  lemma SlotReads(raw: seq<byte>, slot: nat, greed: Greed)
    requires |raw| == SIZE && slot < MAX_CREDS
    ensures var base := SlotOffset(slot);
      RecordOf(Slot(raw, slot), greed) == if raw[base] != 1 then None else
        Some(Record(raw[base + 1] != 0, raw[base + 2], raw[base + 4..base + 36], raw[base + 36..base + 100],
                    Decoded(CStr(raw[base + 100..base + 228]), greed), Decoded(CStr(raw[base + 228..base + 292]), greed),
                    Decoded(CStr(raw[base + 292..base + 356]), greed),
                    raw[base + 356..base + 388], raw[base + 388..base + 452], raw[base + 452..base + 484]))
  {
    hide CStr;
    hide Decoded;
    hide Slot;
    hide SlotOffset;
    HeadBytes(raw, slot);
    Piece(raw, slot, 4, 36);
    Piece(raw, slot, 36, 100);
    Piece(raw, slot, 100, 228);
    Piece(raw, slot, 228, 292);
    Piece(raw, slot, 292, 356);
    Piece(raw, slot, 356, 388);
    Piece(raw, slot, 388, 452);
    Piece(raw, slot, 452, 484);
  }

  lemma HeadBytes(raw: seq<byte>, slot: nat)
    requires |raw| == SIZE && slot < MAX_CREDS
    ensures var base, s := SlotOffset(slot), Slot(raw, slot);
      raw[base] == s[0] && raw[base + 1] == s[1] && raw[base + 2] == s[2]
  {
  }

  lemma Piece(raw: seq<byte>, slot: nat, lo: nat, hi: nat)
    requires |raw| == SIZE && slot < MAX_CREDS && lo <= hi <= CRED_SIZE
    ensures raw[SlotOffset(slot) + lo..SlotOffset(slot) + hi] == Slot(raw, slot)[lo..hi]
  {
    SubSlice(raw, SlotOffset(slot), SlotOffset(slot) + CRED_SIZE, lo, hi);
  }

  /** A record whose fields have their sizes and whose texts are well formed and fit with their terminators. */
  predicate Portable(r: Record) {
    && 0 <= r.userIdLen <= 64 && |r.credId| == 32 && |r.userId| == 64 && |r.privKey| == 32 && |r.pubKey| == 64
    && |r.hmacSecret| == 32 && PortableText(r.rpId, 128) && PortableText(r.userName, 64) && PortableText(r.userDisplay, 64)
  }

  predicate PortableText(t: seq<byte>, size: nat) {
    |t| < size && 0 !in t && WellFormed(t)
  }

  /** What a reader finds of a text that was written into a field. */
  lemma WrittenText(value: seq<byte>, size: nat)
    requires 0 < size && 0 !in value
    ensures CStr(NameBytes(value, size)) == Truncated(value, size - 1)
    ensures |value| < size ==> CStr(NameBytes(value, size)) == value
  {
    hide WellFormed;
    var f, t := NameBytes(value, size), Truncated(value, size - 1);
    assert f[..|t|] == t && f[|t|] == 0;
    CStrUnique(f, t);
  }

  lemma FitWhole(s: seq<byte>, size: nat)
    requires |s| == size
    ensures Fit(s, size) == s
  {
  }

  lemma PortableTextKept(value: seq<byte>, size: nat, greed: Greed)
    requires PortableText(value, size)
    ensures Decoded(CStr(NameBytes(value, size)), greed) == value
  {
    hide CStr;
    hide Decoded;
    hide NameBytes;
    WrittenText(value, size);
    DecodedSameIff(value, greed);
  }

  lemma WrittenRecord(r: Record, greed: Greed)
    requires Portable(r)
    ensures RecordOf(RecordBytes(r), greed) == Some(r)
  {
    hide NameBytes;
    hide CStr;
    hide Fit;
    hide Decoded;
    hide PortableText;
    hide RecordBytes;
    PortableTextKept(r.rpId, 128, greed);
    PortableTextKept(r.userName, 64, greed);
    PortableTextKept(r.userDisplay, 64, greed);
    FitWhole(r.credId, 32);
    FitWhole(r.userId, 64);
    FitWhole(r.privKey, 32);
    FitWhole(r.pubKey, 64);
    FitWhole(r.hmacSecret, 32);
    RecordPieces(r);
  }

  /** What is added to a store that has room is read back from it, field by field, and every other slot reads as before. */
  lemma AddThenRead(raw: seq<byte>, r: Record, slot: nat, greed: Greed)
    requires |raw| == SIZE && WithRecord(raw, r).Some? && Portable(r) && slot < MAX_CREDS
    ensures var next := WithRecord(raw, r).value;
      RecordOf(Slot(next, slot), greed) == if slot == FirstFreeSlot(raw, 0) then Some(r) else RecordOf(Slot(raw, slot), greed)
  {
    hide RecordOf;
    hide RecordBytes;
    hide Put;
    hide Slot;
    hide FirstFreeSlot;
    hide Portable;
    var k := FirstFreeSlot(raw, 0);
    SlotExists(raw, r);
    PutInSlot(raw, k, 0, RecordBytes(r), slot);
    PutWhole(Slot(raw, k), RecordBytes(r));
    WrittenRecord(r, greed);
  }

  /** The texts of a slot end inside their fields and its user id length is in range: what every kernel save leaves. */
  predicate WellKept(s: seq<byte>)
    requires |s| == CRED_SIZE
  {
    s[2] <= 64 && 0 in s[100..228] && 0 in s[228..292] && 0 in s[292..356]
  }

  /** All three texts of a credential are well-formed UTF-8; the kernel stores any bytes. */
  predicate TextsWellFormed(c: Credential) {
    WellFormed(CStr(c.rpId)) && WellFormed(CStr(c.userName)) && WellFormed(CStr(c.userDisplay))
  }

  /** An occupied slot that the kernel keeps reads as a record with the kernel's own fields, except for its texts: those are
      the kernel's, and the record is portable, exactly when they are well formed. */
  lemma KeptSlotsArePortable(s: seq<byte>, greed: Greed)
    requires |s| == CRED_SIZE && RecordOf(s, greed).Some? && WellKept(s)
    ensures var r, c := RecordOf(s, greed).value, LoadCred(s);
      && c.inUse && c.resident == r.resident && c.userIdLen == r.userIdLen && c.credId == r.credId && c.userId == r.userId
      && c.privKey == r.privKey && c.pubKey == r.pubKey && c.hmacSecret == r.hmacSecret
      && (CStr(c.rpId) == r.rpId <==> WellFormed(CStr(c.rpId)))
      && (CStr(c.userName) == r.userName <==> WellFormed(CStr(c.userName)))
      && (CStr(c.userDisplay) == r.userDisplay <==> WellFormed(CStr(c.userDisplay)))
      && (TextsWellFormed(c) ==> Portable(r))
  {
    hide CStr;
    hide Terminated;
    hide Decoded;
    hide WellFormed;
    TerminatedReads(s[100..228]);
    TerminatedReads(s[228..292]);
    TerminatedReads(s[292..356]);
    DecodedSameIff(CStr(s[100..228]), greed);
    DecodedSameIff(CStr(s[228..292]), greed);
    DecodedSameIff(CStr(s[292..356]), greed);
  }

  lemma TerminatedReads(f: seq<byte>)
    requires 0 in f
    ensures CStr(Terminated(f)) == CStr(f)
  {
    hide CStr;
    var c, t := CStr(f), Terminated(f);
    assert t[..|c|] == c;
    if |c| < |f| - 1 {
      assert t[|c|] == f[|c|];
    }
    CStrUnique(t, c);
  }

  /** A text that is read, written and read again by the kernel is the same exactly when it is well formed. */
  lemma CopiedText(t: seq<byte>, size: nat, greed: Greed)
    requires |t| < size && 0 !in t
    ensures CStr(NameBytes(Decoded(t, greed), size)) == t <==> WellFormed(t)
  {
    hide CStr;
    hide NameBytes;
    hide Decoded;
    hide WellFormed;
    hide Truncated;
    var d := Decoded(t, greed);
    DecodedIsWellFormed(t, greed);
    DecodedSameIff(t, greed);
    WrittenText(d, size);
    TruncatedIsWellFormed(d, size - 1);
  }

  lemma CopiedCredential(s: seq<byte>, greed: Greed)
    requires |s| == CRED_SIZE && RecordOf(s, greed).Some? && WellKept(s)
    ensures SameCred(CredOf(RecordOf(s, greed).value), LoadCred(s)) <==> TextsWellFormed(LoadCred(s))
  {
    hide CStr;
    hide NameBytes;
    hide Decoded;
    hide WellFormed;
    hide Terminated;
    hide Fit;
    TerminatedReads(s[100..228]);
    TerminatedReads(s[228..292]);
    TerminatedReads(s[292..356]);
    CopiedText(CStr(s[100..228]), 128, greed);
    CopiedText(CStr(s[228..292]), 64, greed);
    CopiedText(CStr(s[292..356]), 64, greed);
    FitWhole(s[4..36], 32);
    FitWhole(s[36..100], 64);
    FitWhole(s[356..388], 32);
    FitWhole(s[388..452], 64);
    FitWhole(s[452..484], 32);
  }

  lemma ViewOfSlot(raw: seq<byte>, i: nat)
    requires |raw| == SIZE && i < MAX_CREDS
    ensures |KernelView(raw).creds| == MAX_CREDS && KernelView(raw).creds[i] == LoadCred(Slot(raw, i))
  {
    hide LoadCred;
    hide Slot;
  }

  /** Export and import: the record of a kept slot, added to any store with room, is the same credential to the kernel
      exactly when its three texts are well-formed UTF-8; then the companion reads the same record again, too. */
  lemma ExportImportExact(source: seq<byte>, from: nat, raw: seq<byte>, greed: Greed)
    requires |source| == SIZE && from < MAX_CREDS && |raw| == SIZE
    requires RecordOf(Slot(source, from), greed).Some? && WellKept(Slot(source, from))
    requires WithRecord(raw, RecordOf(Slot(source, from), greed).value).Some?
    ensures |KernelView(source).creds| == MAX_CREDS
    ensures var r := RecordOf(Slot(source, from), greed).value;
      var c := KernelView(source).creds[from];
      var next, k := WithRecord(raw, r).value, FirstFreeSlot(raw, 0);
      && k < MAX_CREDS && |KernelView(next).creds| == MAX_CREDS
      && (SameCred(KernelView(next).creds[k], c) <==> TextsWellFormed(c))
      && (TextsWellFormed(c) ==> RecordOf(Slot(next, k), greed) == Some(r))
  {
    hide RecordOf;
    hide WellKept;
    hide Portable;
    hide KernelView;
    hide LoadCred;
    hide Slot;
    hide WithRecord;
    hide CredOf;
    hide SameCred;
    hide FirstFreeSlot;
    hide TextsWellFormed;
    var r := RecordOf(Slot(source, from), greed).value;
    var k := FirstFreeSlot(raw, 0);
    KeptSlotsArePortable(Slot(source, from), greed);
    SlotExists(raw, r);
    AddIsExact(raw, r);
    ViewOfSlot(source, from);
    ViewOfSlot(raw, k);
    CopiedCredential(Slot(source, from), greed);
    if TextsWellFormed(LoadCred(Slot(source, from))) {
      AddThenRead(raw, r, k, greed);
    }
  }

  /** A relying party id of the bytes 62 FF 63, which the kernel accepts and keeps, is imported as another one, and the copy
      does not answer for the original. */
  lemma MalformedRpIdIsLost(source: seq<byte>, from: nat, raw: seq<byte>, greed: Greed)
    requires |source| == SIZE && from < MAX_CREDS && |raw| == SIZE
    requires RecordOf(Slot(source, from), greed).Some? && CStr(Slot(source, from)[100..228]) == [0x62, 0xff, 0x63]
    requires WithRecord(raw, RecordOf(Slot(source, from), greed).value).Some?
    ensures var r := RecordOf(Slot(source, from), greed).value;
      var next, k := WithRecord(raw, r).value, FirstFreeSlot(raw, 0);
      && k < MAX_CREDS && |KernelView(next).creds| == MAX_CREDS
      && CStr(KernelView(next).creds[k].rpId) == [0x62, 0xef, 0xbf, 0xbd, 0x63]
      && !Handlers.RpMatches(CStr(KernelView(next).creds[k].rpId), [0x62, 0xff, 0x63])
  {
    hide KernelView;
    hide CStr;
    hide Decoded;
    hide WithRecord;
    hide FirstFreeSlot;
    hide NameBytes;
    hide Slot;
    var r := RecordOf(Slot(source, from), greed).value;
    MalformedExample(greed);
    SlotExists(raw, r);
    AddIsExact(raw, r);
    ViewOfSlot(raw, 0);
    WrittenText(r.rpId, 128);
  }
}
