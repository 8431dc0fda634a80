/** Loading, restoring and persisting as the driver's functions do it, field by field under the lock. */
module PersistDriver {
  import opened Bytes
  import opened StoreImage
  import opened Persistence

  class Storage {
    var store: Store
    var loaded: bool
    var dirty: bool
    var file: Option<seq<byte>>
    ghost var unsaved: nat

    ghost function Value(): World
      reads this
    {
      World(store, loaded, dirty, file, unsaved)
    }

    constructor (file: Option<seq<byte>>)
      ensures Value() == Boot(file)
    {
      store, loaded, dirty, this.file, unsaved := EmptyStore(), false, false, file, 0;
    }

    /** Read and check the file; a version 1 image sets the dirty flag at once. */
    method ReadStore(readFails: bool, crc: Checksum, legacy: Checksum) returns (r: Option<Store>)
      modifies this`dirty
      ensures r == ReadFile(Value(), readFails, crc, legacy)
      ensures r.None? ==> dirty == old(dirty)
    {
      if readFails || file.None? {
        return None;
      }
      var image := if |file.value| > SIZE then file.value[..SIZE] else file.value;
      if |image| == SIZE {
        assert image == file.value[..SIZE];
        return LoadV2(image, crc, legacy);
      } else if |image| == SIZE_V1 {
        r := LoadV1(image, crc, legacy);
        if r.Some? {
          dirty := true;
        }
        return;
      }
      return None;
    }

    /** The flags start over; only dropping a legacy PIN leaves something to save. */
    method FinalizeRestored()
      modifies this
      ensures Value() == Adopt(old(Value()), old(store)).(loaded := old(loaded))
    {
      dirty, unsaved := false, 0;
      if store.pinSet {
        store := store.(pinSet := false, pinHash := Zeros(16), pinRetries := PIN_RETRIES_DEFAULT);
        dirty := true;
      }
    }

    method LoadStore(readFails: bool, random: Random, crc: Checksum, legacy: Checksum)
      modifies this
      ensures Value() == AfterLoad(old(Value()), readFails, random, crc, legacy)
    {
      if loaded {
        return;
      }
      var read := ReadStore(readFails, crc, legacy);
      if read.Some? {
        store := read.value;
        FinalizeRestored();
        loaded := true;
        return;
      }
      loaded := true;
      store := NewStore(random);
      dirty, unsaved := true, 0;
    }

    method RestorePersisted(readFails: bool, crc: Checksum, legacy: Checksum) returns (ok: bool)
      modifies this
      ensures Value() == AfterRestore(old(Value()), readFails, crc, legacy)
      ensures ok == ReadFile(old(Value()), readFails, crc, legacy).Some?
    {
      var read := ReadStore(readFails, crc, legacy);
      if read.None? {
        return false;
      }
      store := read.value;
      loaded := true;
      FinalizeRestored();
      return true;
    }

    /** Nothing to do while clean; a failed attempt keeps the flag so that the next change retries. */
    method MaybePersist(outcome: WriteOutcome, crc: Checksum)
      requires store.Shaped()
      modifies this
      ensures Value() == AfterPersist(old(Value()), outcome, crc)
    {
      if !dirty || outcome.AllocFails? || outcome.OpenFails? {
        return;
      }
      var image := Save(store, crc);
      if outcome.Written? {
        file := Some(image);
        dirty, unsaved := false, 0;
      } else {
        file := Some(image[..outcome.kept % SIZE]);
      }
    }
  }
}
