/** The companion's editor of the same bytes: parsing with the version 1 upgrade, slot edits, resealing. */
module CompanionStore {
  import opened Bytes
  import opened StoreImage
  import opened Utf8

  const OFF_USER_NAME := 228
  const OFF_USER_DISPLAY := 292
  const LEN_NAME := 64

  /** `s` written over the bytes of `img` from `off` on. */
  function Put(img: seq<byte>, off: nat, s: seq<byte>): (r: seq<byte>)
    requires off + |s| <= |img|
    ensures |r| == |img|
  {
    img[..off] + s + img[off + |s|..]
  }

  function SlotOffset(slot: nat): (off: nat)
    requires slot < MAX_CREDS
    ensures off + CRED_SIZE <= SIZE
  {
    HEADER_SIZE + CRED_SIZE * slot
  }

  // ----- strings (RFC 3629 section 3) -----

  /** The nearest position at or before `n` that is not inside a character. */
  function Back(e: seq<byte>, n: nat): (m: nat)
    requires n < |e|
    ensures m <= n
  {
    if n > 0 && IsCont(e[n]) then Back(e, n - 1) else n
  }

  function Truncated(e: seq<byte>, limit: nat): (r: seq<byte>)
    ensures |r| <= limit
  {
    if |e| <= limit then e else e[..Back(e, limit)]
  }

  /** A string field of `size` bytes: truncated to leave a NUL, zero filled. */
  function NameBytes(value: seq<byte>, size: nat): (r: seq<byte>)
    requires size > 0
    ensures |r| == size && 0 in r
  {
    var t := Truncated(value, size - 1);
    var r := t + Zeros(size - |t|);
    assert r[size - 1] == 0;
    r
  }

  /** An encoded text, character by character. */
  predicate Characters(chars: seq<seq<byte>>) {
    forall i :: 0 <= i < |chars| ==>
      |chars[i]| > 0 && !IsCont(chars[i][0]) && forall j :: 1 <= j < |chars[i]| ==> IsCont(chars[i][j])
  }

  lemma {:induction false} BackInside(e: seq<byte>, from: nat, n: nat)
    requires from <= n < |e| && !IsCont(e[from]) && forall j :: from < j <= n ==> IsCont(e[j])
    ensures Back(e, n) == from
    decreases n
  {
    if n > from {
      BackInside(e, from, n - 1);
    }
  }

  lemma {:induction false} BackInPrefix(a: seq<byte>, b: seq<byte>, n: nat)
    requires n < |a|
    ensures Back(a + b, n) == Back(a, n)
    decreases n
  {
    if n > 0 {
      BackInPrefix(a, b, n - 1);
    }
  }

  /** Truncation keeps whole characters only, and as many of them as fit. */
  lemma {:induction false} TruncatedIsLongestPrefix(chars: seq<seq<byte>>, limit: nat) returns (k: nat)
    requires Characters(chars)
    ensures k <= |chars| && Truncated(Flatten(chars), limit) == Flatten(chars[..k])
    ensures k < |chars| ==> |Flatten(chars[..k + 1])| > limit
    decreases |chars|
  {
    var e := Flatten(chars);
    if |e| <= limit {
      k := |chars|;
      assert chars[..k] == chars;
    } else {
      var n := |chars| - 1;
      var front, c := chars[..n], chars[n];
      var f := Flatten(front);
      assert e == f + c;
      if |f| > limit {
        k := TruncatedIsLongestPrefix(front, limit);
        BackInPrefix(f, c, limit);
        assert f[..Back(f, limit)] == e[..Back(e, limit)];
        assert front[..k] == chars[..k];
        assert k < n ==> front[..k + 1] == chars[..k + 1];
      } else {
        k := n;
        assert e[|f|] == c[0];
        forall j | |f| < j <= limit
          ensures IsCont(e[j])
        {
          assert e[j] == c[j - |f|];
        }
        BackInside(e, |f|, limit);
        assert e[..|f|] == f;
        assert chars[..n + 1] == chars;
      }
    }
  }

  /** `writeCString`, in place. */
  method WriteCString(a: array<byte>, offset: nat, maxLen: nat, value: seq<byte>)
    requires 0 < maxLen && offset + maxLen <= a.Length
    modifies a
    ensures a[..] == Put(old(a[..]), offset, NameBytes(value, maxLen))
  {
    hide NameBytes;
    hide Put;
    var length := CutLength(value, maxLen - 1);
    ghost var img := a[..];
    CopyIn(a, offset, Zeros(maxLen));
    CopyIn(a, offset, value[..length]);
    NamePadded(value, maxLen, length);
    PutOver(img, offset, maxLen, value[..length]);
  }

  method CopyIn(a: array<byte>, at: nat, piece: seq<byte>)
    requires at + |piece| <= a.Length
    modifies a
    ensures a[..] == Put(old(a[..]), at, piece)
  {
    forall i | 0 <= i < |piece| {
      a[at + i] := piece[i];
    }
  }

  lemma PutOver(img: seq<byte>, at: nat, size: nat, s: seq<byte>)
    requires at + size <= |img| && |s| <= size
    ensures Put(Put(img, at, Zeros(size)), at, s) == Put(img, at, s + Zeros(size - |s|))
  {
  }

  /** The scan back to a character boundary. */
  method CutLength(value: seq<byte>, limit: nat) returns (length: nat)
    ensures length <= |value| && length <= limit && value[..length] == Truncated(value, limit)
  {
    length := Min(|value|, limit);
    if length < |value| {
      while length > 0 && IsCont(value[length])
        invariant length < |value| && length <= limit
        invariant Back(value, length) == Back(value, limit)
      {
        length := length - 1;
      }
    }
  }

  lemma NamePadded(value: seq<byte>, size: nat, length: nat)
    requires 0 < size && length <= |value| && length < size && value[..length] == Truncated(value, size - 1)
    ensures NameBytes(value, size) == value[..length] + Zeros(size - length)
  {
  }

  /** `readCString`: everything before the first NUL, decoded with replacement. */
  method ReadCString(raw: seq<byte>, offset: nat, maxLen: nat, greed: Greed) returns (r: seq<byte>)
    requires offset + maxLen <= |raw|
    ensures r == Decoded(CStr(raw[offset..offset + maxLen]), greed)
  {
    var end := offset;
    while end < offset + maxLen && raw[end] != 0
      invariant offset <= end <= offset + maxLen && 0 !in raw[offset..end]
    {
      assert raw[offset..end + 1] == raw[offset..end] + [raw[end]];
      end := end + 1;
    }
    CStrUnique(raw[offset..offset + maxLen], raw[offset..end]);
    return Decoded(raw[offset..end], greed);
  }

  /** A well-formed text stays well formed when it is cut to fit a field. */
  lemma TruncatedIsWellFormed(e: seq<byte>, limit: nat)
    requires WellFormed(e)
    ensures WellFormed(Truncated(e, limit))
  {
    if |e| > limit {
      BackStops(e, limit);
      CutIsWellFormed(e, Back(e, limit));
    }
  }

  lemma {:induction false} BackStops(e: seq<byte>, n: nat)
    requires n < |e|
    ensures Back(e, n) > 0 ==> !IsCont(e[Back(e, n)])
    decreases n
  {
    if n > 0 && IsCont(e[n]) {
      BackStops(e, n - 1);
    }
  }

  // ----- parse and reseal -----

  function ToBytes(raw: seq<byte>, crc: Checksum): (img: seq<byte>)
    requires |raw| == SIZE
    ensures |img| == SIZE
  {
    Seal(2, crc(raw[OFF_SIGN_COUNT..]), raw[OFF_SIGN_COUNT..])
  }

  function UpgradedSlots(bytes: seq<byte>): (slots: seq<seq<byte>>)
    requires |bytes| >= SIZE_V1
    ensures |slots| == MAX_CREDS && forall i :: 0 <= i < MAX_CREDS ==> |slots[i]| == CRED_SIZE
  {
    seq(MAX_CREDS, i requires 0 <= i < MAX_CREDS => SlotV1(bytes[..SIZE_V1], i) + Zeros(CRED_SIZE - CRED_SIZE_V1))
  }

  /** The version 1 layout stretched to version 2 slots; the header keeps its bytes. */
  function Upgraded(bytes: seq<byte>): (raw: seq<byte>)
    requires |bytes| >= SIZE_V1
    ensures |raw| == SIZE
  {
    FlattenAt(UpgradedSlots(bytes), CRED_SIZE, 0);
    bytes[..HEADER_SIZE] + Flatten(UpgradedSlots(bytes))
  }

  function Parse(bytes: seq<byte>, crc: Checksum): (r: Option<seq<byte>>)
    ensures r.Some? ==> |r.value| == SIZE
  {
    if |bytes| < HEADER_SIZE || U32At(bytes, 0) != MAGIC then None
    else if U32At(bytes, 4) == 2 && |bytes| >= SIZE then
      if crc(bytes[OFF_SIGN_COUNT..SIZE]) != U32At(bytes, 8) then None else Some(bytes[..SIZE])
    else if U32At(bytes, 4) == 1 && |bytes| >= SIZE_V1 then
      if crc(bytes[OFF_SIGN_COUNT..SIZE_V1]) != U32At(bytes, 8) then None else Some(Upgraded(bytes))
    else None
  }

  /** Which blobs the companion accepts: those that begin with a whole version 2 or version 1 image under the current
      checksum; a legacy checksum, which the kernel takes, is refused. */
  lemma ParsesIff(bytes: seq<byte>, crc: Checksum)
    ensures Parse(bytes, crc).Some? <==>
      || (|bytes| >= SIZE && SealedBy(bytes[..SIZE], 2, crc))
      || (|bytes| >= SIZE_V1 && SealedBy(bytes[..SIZE_V1], 1, crc))
  {
    hide SealedBy;
    hide LeValue;
    hide Upgraded;
    if |bytes| >= SIZE {
      SealedByIff(bytes[..SIZE], 2, crc);
      PrefixFields(bytes, SIZE);
    }
    if |bytes| >= SIZE_V1 {
      SealedByIff(bytes[..SIZE_V1], 1, crc);
      PrefixFields(bytes, SIZE_V1);
    }
  }

  lemma PrefixFields(bytes: seq<byte>, n: nat)
    requires HEADER_SIZE <= n <= |bytes|
    ensures var p := bytes[..n];
      && p[OFF_SIGN_COUNT..] == bytes[OFF_SIGN_COUNT..n]
      && U32At(p, 0) == U32At(bytes, 0) && U32At(p, 4) == U32At(bytes, 4) && U32At(p, 8) == U32At(bytes, 8)
  {
    hide LeValue;
    var p := bytes[..n];
    assert p[0..4] == bytes[0..4] && p[4..8] == bytes[4..8] && p[8..12] == bytes[8..12];
  }

  /** Every image the kernel writes is accepted as it is. */
  lemma SavedIsAccepted(s: Store, crc: Checksum)
    requires s.Shaped()
    ensures Parse(Save(s, crc), crc) == Some(Save(s, crc))
  {
    hide Seal;
    hide SaveBody;
    hide LeValue;
    hide Upgraded;
    var img := Save(s, crc);
    SealFields(2, crc(SaveBody(s)), SaveBody(s));
    assert img[..SIZE] == img && img[OFF_SIGN_COUNT..SIZE] == img[OFF_SIGN_COUNT..];
  }

  method ParseBlob(bytes: seq<byte>, crc: Checksum) returns (r: Option<seq<byte>>)
    ensures r == Parse(bytes, crc)
  {
    if |bytes| < HEADER_SIZE {
      return None;
    }
    if U32At(bytes, 0) != MAGIC {
      return None;
    }
    var version := U32At(bytes, 4);
    if version == 2 && |bytes| >= SIZE {
      return if crc(bytes[OFF_SIGN_COUNT..SIZE]) != U32At(bytes, 8) then None else Some(bytes[..SIZE]);
    } else if version == 1 && |bytes| >= SIZE_V1 {
      if crc(bytes[OFF_SIGN_COUNT..SIZE_V1]) != U32At(bytes, 8) {
        return None;
      }
      var normalized := new byte[SIZE](_ => 0);
      forall i | 0 <= i < HEADER_SIZE {
        normalized[i] := bytes[i];
      }
      assert normalized[..] == bytes[..HEADER_SIZE] + Zeros(SIZE - HEADER_SIZE);
      CopySlots(bytes, normalized);
      return Some(normalized[..]);
    }
    return None;
  }

  method CopySlots(bytes: seq<byte>, normalized: array<byte>)
    requires |bytes| >= SIZE_V1 && normalized.Length == SIZE
    requires normalized[..] == bytes[..HEADER_SIZE] + Zeros(SIZE - HEADER_SIZE)
    modifies normalized
    ensures normalized[..] == Upgraded(bytes)
  {
    hide Flatten;
    ghost var slots := UpgradedSlots(bytes);
    ghost var header := bytes[..HEADER_SIZE];
    FlattenFront(header, slots, 0);
    for slot := 0 to MAX_CREDS
      invariant |Flatten(slots[..slot])| == CRED_SIZE * slot
      invariant normalized[..] == header + Flatten(slots[..slot]) + Zeros(SIZE - HEADER_SIZE - CRED_SIZE * slot)
    {
      CopySlot(bytes, normalized, slot, header + Flatten(slots[..slot]));
      FlattenFront(header, slots, slot);
    }
    assert slots[..MAX_CREDS] == slots;
    FlattenAt(slots, CRED_SIZE, 0);
    assert header + Flatten(slots) + Zeros(0) == header + Flatten(slots);
  }

  lemma FlattenFront(header: seq<byte>, slots: seq<seq<byte>>, n: nat)
    requires n < |slots|
    ensures header + Flatten(slots[..n]) + slots[n] == header + Flatten(slots[..n + 1])
    ensures |Flatten(slots[..n + 1])| == |Flatten(slots[..n])| + |slots[n]|
    ensures header + Flatten(slots[..0]) == header && Flatten(slots[..0]) == []
  {
    assert slots[..n + 1][..n] == slots[..n];
  }

  method CopySlot(bytes: seq<byte>, normalized: array<byte>, slot: nat, ghost done: seq<byte>)
    requires |bytes| >= SIZE_V1 && normalized.Length == SIZE && slot < MAX_CREDS && |done| == SlotOffset(slot)
    requires normalized[..] == done + Zeros(SIZE - SlotOffset(slot))
    modifies normalized
    ensures normalized[..] == done + UpgradedSlots(bytes)[slot] + Zeros(SIZE - SlotOffset(slot) - CRED_SIZE)
  {
    var v1Base := HEADER_SIZE + slot * CRED_SIZE_V1;
    var v2Base := HEADER_SIZE + slot * CRED_SIZE;
    assert normalized[..v2Base] == done;
    forall i | 0 <= i < CRED_SIZE_V1 {
      normalized[v2Base + i] := bytes[v1Base + i];
    }
    assert SlotV1(bytes[..SIZE_V1], slot) == bytes[v1Base..v1Base + CRED_SIZE_V1];
  }

  // ----- what the kernel sees of the companion's bytes -----

  /** The store the kernel's version 2 field reader finds in raw bytes, seal aside. */
  function KernelView(raw: seq<byte>): Store
    requires |raw| == SIZE
  {
    LoadHeader(raw, seq(MAX_CREDS, i requires 0 <= i < MAX_CREDS => LoadCred(Slot(raw, i))))
  }

  /** Every resealed blob is accepted by the kernel, and read as what the companion holds. */
  lemma ResealedIsAccepted(raw: seq<byte>, crc: Checksum, legacy: Checksum)
    requires |raw| == SIZE
    ensures LoadV2(ToBytes(raw, crc), crc, legacy) == Some(KernelView(raw))
  {
    hide LeValue;
    hide LeBytes;
    hide Seal;
    hide LoadCred;
    var body := raw[OFF_SIGN_COUNT..];
    var img := ToBytes(raw, crc);
    SealFields(2, crc(body), body);
    SameHeader(img, raw);
    forall i | 0 <= i < MAX_CREDS
      ensures Slot(img, i) == Slot(raw, i)
    {
      var o := SlotOffset(i);
      assert img[o..o + CRED_SIZE] == img[OFF_SIGN_COUNT..][o - OFF_SIGN_COUNT..o - OFF_SIGN_COUNT + CRED_SIZE];
      assert raw[o..o + CRED_SIZE] == raw[OFF_SIGN_COUNT..][o - OFF_SIGN_COUNT..o - OFF_SIGN_COUNT + CRED_SIZE];
    }
    assert Sealed(img, 2, crc, legacy);
    assert LoadV2(img, crc, legacy).value.creds == KernelView(raw).creds;
  }

  lemma SubSlice(a: seq<byte>, lo: nat, hi: nat, i: nat, j: nat)
    requires lo <= hi <= |a| && i <= j <= hi - lo
    ensures a[lo..hi][i..j] == a[lo + i..lo + j]
  {
    var x, y := a[lo..hi][i..j], a[lo + i..lo + j];
    assert forall k :: 0 <= k < |x| ==> x[k] == y[k];
  }

  lemma SameHeader(a: seq<byte>, b: seq<byte>)
    requires |a| >= HEADER_SIZE && |b| >= HEADER_SIZE && a[OFF_SIGN_COUNT..HEADER_SIZE] == b[OFF_SIGN_COUNT..HEADER_SIZE]
    ensures forall creds :: LoadHeader(a, creds) == LoadHeader(b, creds)
  {
    var h, g := a[OFF_SIGN_COUNT..HEADER_SIZE], b[OFF_SIGN_COUNT..HEADER_SIZE];
    assert h[20] == a[32] && h[21] == a[33] && g[20] == b[32] && g[21] == b[33];
    SubSlice(a, 12, 84, 0, 4);
    SubSlice(b, 12, 84, 0, 4);
    SubSlice(a, 12, 84, 4, 20);
    SubSlice(b, 12, 84, 4, 20);
    SubSlice(a, 12, 84, 24, 40);
    SubSlice(b, 12, 84, 24, 40);
    SubSlice(a, 12, 84, 40, 72);
    SubSlice(b, 12, 84, 40, 72);
  }
}
