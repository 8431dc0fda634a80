/** The loaders and the serializer over the driver's live store: credential arrays filled slot by slot. */
module StoreDriver {
  import opened Bytes
  import opened StoreImage

  /** `struct abk_fido_store`. */
  class LiveStore {
    var signCount: u32
    var aaguid: seq<byte>
    var pinSet: bool
    var pinRetries: byte
    var pinHash: seq<byte>
    var pinToken: seq<byte>
    const creds: array<Credential>

    ghost function Value(): Store
      reads this, creds
    {
      Store(signCount, aaguid, pinSet, pinRetries, pinHash, pinToken, creds[..])
    }

    constructor ()
      ensures fresh(creds) && Value() == Store(0, Zeros(16), false, 0, Zeros(16), Zeros(32), seq(MAX_CREDS, _ => NO_CRED))
    {
      signCount, aaguid, pinSet, pinRetries, pinHash, pinToken := 0, Zeros(16), false, 0, Zeros(16), Zeros(32);
      creds := new Credential[MAX_CREDS](_ => NO_CRED);
      new;
      assert creds[..] == seq(MAX_CREDS, _ => NO_CRED);
    }

    method TakeHeader(disk: seq<byte>)
      requires |disk| >= HEADER_SIZE
      modifies this
      ensures Value() == LoadHeader(disk, old(creds[..]))
    {
      signCount := U32At(disk, 12);
      aaguid := disk[16..32];
      pinSet := disk[32] != 0;
      pinRetries := disk[33];
      pinHash := disk[36..52];
      pinToken := disk[52..84];
    }

    /** Version 2: nothing changes unless the image is sealed. */
    method FromDisk(disk: seq<byte>, crc: Checksum, legacy: Checksum) returns (ok: bool)
      requires |disk| == SIZE && creds.Length == MAX_CREDS
      modifies this, creds
      ensures ok == LoadV2(disk, crc, legacy).Some?
      ensures Value() == if ok then LoadV2(disk, crc, legacy).value else old(Value())
    {
      if U32At(disk, 0) != MAGIC || U32At(disk, 4) != 2 {
        return false;
      }
      if U32At(disk, 8) != crc(disk[OFF_SIGN_COUNT..]) && U32At(disk, 8) != legacy(disk[OFF_SIGN_COUNT..]) {
        return false;
      }
      for i := 0 to MAX_CREDS
        invariant forall k :: 0 <= k < i ==> creds[k] == LoadCred(Slot(disk, k))
      {
        creds[i] := LoadCred(Slot(disk, i));
      }
      assert creds[..] == LoadV2(disk, crc, legacy).value.creds;
      TakeHeader(disk);
      return true;
    }

    /** Version 1: as above with the shorter slots; every hmac secret ends up zero. */
    method FromDiskV1(disk: seq<byte>, crc: Checksum, legacy: Checksum) returns (ok: bool)
      requires |disk| == SIZE_V1 && creds.Length == MAX_CREDS
      modifies this, creds
      ensures ok == LoadV1(disk, crc, legacy).Some?
      ensures Value() == if ok then LoadV1(disk, crc, legacy).value else old(Value())
    {
      if U32At(disk, 0) != MAGIC || U32At(disk, 4) != 1 {
        return false;
      }
      if U32At(disk, 8) != crc(disk[OFF_SIGN_COUNT..]) && U32At(disk, 8) != legacy(disk[OFF_SIGN_COUNT..]) {
        return false;
      }
      for i := 0 to MAX_CREDS
        invariant forall k :: 0 <= k < i ==> creds[k] == LoadCredV1(SlotV1(disk, k))
      {
        creds[i] := LoadCredV1(SlotV1(disk, i));
      }
      assert creds[..] == LoadV1(disk, crc, legacy).value.creds;
      TakeHeader(disk);
      return true;
    }

    function Header(): (h: seq<byte>)
      reads this, creds
      requires |aaguid| == 16 && |pinHash| == 16 && |pinToken| == 32
      ensures h == SaveHeader(Value())
    {
      LeBytes(signCount, 4) + aaguid + [if pinSet then 1 else 0] + [pinRetries] + Zeros(2) + pinHash + pinToken
    }

    /** The image of the live store, written front to back into a zeroed buffer and sealed last. */
    method ToDisk(disk: array<byte>, crc: Checksum)
      requires disk.Length == SIZE && Value().Shaped()
      modifies disk
      ensures disk[..] == Save(Value(), crc)
    {
      hide Flatten;
      hide LeBytes;
      hide SaveHeader;
      forall i | 0 <= i < SIZE {
        disk[i] := 0;
      }
      var front := LeBytes(MAGIC, 4) + LeBytes(2, 4) + Zeros(4) + Header();
      assert disk[..] == [] + Zeros(SIZE);
      Fill(disk, 0, front, []);
      assert [] + front == front;
      WriteSlots(disk, front);
      FlattenAt(SavedSlots(creds[..]), CRED_SIZE, 0);
      assert front[..8] == LeBytes(MAGIC, 4) + LeBytes(2, 4) && front[OFF_SIGN_COUNT..] == SaveHeader(Value());
      assert disk[..8] == front[..8];
      assert disk[OFF_SIGN_COUNT..] == SaveBody(Value());
      WriteSum(disk, crc);
    }

    /** The checksum goes in last, over everything behind it. */
    method WriteSum(disk: array<byte>, crc: Checksum)
      requires disk.Length == SIZE
      modifies disk
      ensures disk[..] == old(disk[..8]) + LeBytes(crc(old(disk[OFF_SIGN_COUNT..])), 4) + old(disk[OFF_SIGN_COUNT..])
    {
      var sum := LeBytes(crc(disk[OFF_SIGN_COUNT..]), 4);
      forall i | 0 <= i < 4 {
        disk[8 + i] := sum[i];
      }
    }

    method WriteSlots(disk: array<byte>, ghost front: seq<byte>)
      requires disk.Length == SIZE && Value().Shaped() && |front| == HEADER_SIZE
      requires disk[..] == front + Zeros(SIZE - HEADER_SIZE)
      modifies disk
      ensures disk[..] == front + Flatten(SavedSlots(Value().creds))
    {
      hide SaveCred;
      ghost var slots := SavedSlots(Value().creds);
      assert front + Flatten(slots[..0]) == front;
      for i := 0 to MAX_CREDS
        invariant |Flatten(slots[..i])| == CRED_SIZE * i
        invariant disk[..] == front + Flatten(slots[..i]) + Zeros(SIZE - HEADER_SIZE - CRED_SIZE * i)
      {
        Fill(disk, HEADER_SIZE + CRED_SIZE * i, SaveCred(creds[i]), front + Flatten(slots[..i]));
        assert slots[..i + 1][..i] == slots[..i];
        assert front + Flatten(slots[..i]) + slots[i] == front + Flatten(slots[..i + 1]);
      }
      assert slots[..MAX_CREDS] == slots;
      assert front + Flatten(slots) + Zeros(0) == front + Flatten(slots);
    }
  }

  /** Write the next piece of a buffer that is still zero behind what is done. */
  method Fill(disk: array<byte>, at: nat, piece: seq<byte>, ghost done: seq<byte>)
    requires at == |done| && at + |piece| <= disk.Length && disk[..] == done + Zeros(disk.Length - at)
    modifies disk
    ensures disk[..] == done + piece + Zeros(disk.Length - at - |piece|)
  {
    assert disk[..at] == done;
    forall i | 0 <= i < |piece| {
      disk[at + i] := piece[i];
    }
  }
}
