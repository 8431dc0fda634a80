/** What a client reads in the responses: each field at its offset, each member under its key. */
module ResponseFields {
  import opened Bytes
  import opened Cbor
  import opened CborMaps
  import opened RequestParsers
  import opened Responses
  import E = Envelopes

  // ----- authenticator data by offset (WebAuthn section 6.1) -----

  /** The 37 bytes every authenticator data begins with: relying party hash, flags, big-endian counter. */
  predicate Begins(d: seq<byte>, rpHash: seq<byte>, flags: byte, signCount: u32) {
    |d| >= 37 && d[..32] == rpHash && d[32] == flags && BeValue(d[33..37]) == signCount
  }

  lemma HeaderBegins(rpHash: seq<byte>, flags: byte, signCount: u32, rest: seq<byte>)
    requires |rpHash| == 32
    ensures Begins(AuthHeader(rpHash, flags, signCount) + rest, rpHash, flags, signCount)
  {
    hide BeBytes;
    hide BeValue;
    Pow256Small();
    BeValueOfBytes(signCount, 4);
    var d := AuthHeader(rpHash, flags, signCount) + rest;
    assert d[33..37] == BeBytes(signCount, 4);
  }

  /** An assertion says user present and verified, and carries the hmac output, if any, as its only extension. */
  lemma AssertionDataFields(rpHash: seq<byte>, signCount: u32, hmac: Option<seq<byte>>)
    requires |rpHash| == 32 && (hmac.Some? ==> |hmac.value| == 64)
    ensures var d := AssertAuthData(rpHash, signCount, hmac);
      && Begins(d, rpHash, 0x05, signCount)
      && d[37..] == if hmac.Some? then Encode(HmacExtension(hmac.value)) else []
    ensures hmac.Some? ==> Lookup(HmacExtension(hmac.value).items, Text(HMAC_SECRET)) == Some(ByteString(hmac.value))
  {
    hide Encode;
    hide AuthHeader;
    hide Begins;
    HeaderBegins(rpHash, 0x05, signCount, if hmac.Some? then Encode(HmacExtension(hmac.value)) else []);
    if hmac.Some? {
      LookupPair(Text(HMAC_SECRET), ByteString(hmac.value), [], Text(HMAC_SECRET));
    }
  }

  /** A registration also says that a credential is attached: the authenticator's id, the credential id with its length, and
      behind them the key, which the reader finds at offset 87. */
  lemma RegistrationDataFields(rpHash: seq<byte>, signCount: u32, aaguid: seq<byte>, credId: seq<byte>, xy: seq<byte>, hmac: bool)
    requires |rpHash| == 32 && |aaguid| == 16 && |credId| == 32 && |xy| == 64
    ensures var d := MakeAuthData(rpHash, signCount, aaguid, credId, xy, hmac);
      && Begins(d, rpHash, 0x45, signCount)
      && |d| >= 164 && d[37..53] == aaguid && BeValue(d[53..55]) == 32 && d[55..87] == credId
      && ReadCoseKey(d, 87) == Some((xy, 164))
      && d[164..] == if hmac then Encode(HmacCreated()) else []
    ensures Lookup(HmacCreated().items, Text(HMAC_SECRET)) == Some(Bool(true))
  {
    hide Encode;
    hide AuthHeader;
    hide Begins;
    hide BeBytes;
    hide BeValue;
    hide ReadCoseKey;
    hide CoseItem;
    Pow256Small();
    BeValueOfBytes(32, 2);
    var h, key := AuthHeader(rpHash, 0x45, signCount), Encode(CoseItem(xy));
    var tail := if hmac then Encode(HmacCreated()) else [];
    var d := MakeAuthData(rpHash, signCount, aaguid, credId, xy, hmac);
    var rest := aaguid + BeBytes(32, 2) + credId + key + tail;
    assert d == h + rest;
    HeaderBegins(rpHash, 0x45, signCount, rest);
    CoseSize(xy);
    assert d[37..53] == aaguid && d[53..55] == BeBytes(32, 2) && d[55..87] == credId;
    assert d[87..87 + |key|] == key && d[164..] == tail;
    CoseRoundTrip(d, 87, xy);
    LookupPair(Text(HMAC_SECRET), Bool(true), [], Text(HMAC_SECRET));
  }

  // ----- members by key -----

  /** The value of the first member with this key. */
  function Lookup(items: seq<Item>, key: Item): Option<Item> {
    if |items| < 2 then None else if items[0] == key then Some(items[1]) else Lookup(items[2..], key)
  }

  lemma LookupPair(k: Item, v: Item, rest: seq<Item>, key: Item)
    requires k.WellFormed() && v.WellFormed() && AllWellFormed(rest)
    ensures Lookup(Pair(k, v, rest), key) == if k == key then Some(v) else Lookup(rest, key)
    ensures Lookup([], key) == None
  {
    assert Pair(k, v, rest)[2..] == rest;
  }

  /** Which credential signed, the signed data and the signature; the account exactly when it is to be named, and the number
      of credentials exactly when there are several. */
  lemma AssertionMembers(credId: seq<byte>, authData: seq<byte>, sig: seq<byte>, account: Option<Account>, total: u32)
    requires |credId| < TWO_64 && |authData| < TWO_64 && |sig| < TWO_64 && (account.Some? ==> account.value.Valid())
    ensures var items := AssertionItem(credId, authData, sig, account, total).items;
      && Lookup(items, Int(1)) == Some(CredentialItem(credId))
      && Lookup(items, Int(2)) == Some(ByteString(authData))
      && Lookup(items, Int(3)) == Some(ByteString(sig))
      && Lookup(items, Int(4)) == (if account.Some? then Some(AccountItem(account.value)) else None)
      && Lookup(items, Int(5)) == (if total > 1 then Some(Int(total)) else None)
    ensures var items := CredentialItem(credId).items;
      Lookup(items, Text(KEY_ID)) == Some(ByteString(credId)) && Lookup(items, Text(KEY_TYPE)) == Some(Text(PUBLIC_KEY))
  {
    hide Pair;
    hide Lookup;
    hide ByteString;
    hide CredentialItem;
    hide AccountItem;
    IntsDiffer();
    var last := AccountTail(account, total);
    forall key | key in {Int(1), Int(2), Int(3), Int(4), Int(5)}
      ensures Lookup(AssertionItem(credId, authData, sig, account, total).items, key)
           == if key == Int(1) then Some(CredentialItem(credId)) else if key == Int(2) then Some(ByteString(authData))
              else if key == Int(3) then Some(ByteString(sig)) else Lookup(last, key)
    {
      LookupPair(Int(1), CredentialItem(credId), Pair(Int(2), ByteString(authData), Pair(Int(3), ByteString(sig), last)), key);
      LookupPair(Int(2), ByteString(authData), Pair(Int(3), ByteString(sig), last), key);
      LookupPair(Int(3), ByteString(sig), last, key);
    }
    TailMembers(account, total);
    CredentialMembers(credId);
  }

  lemma IntsDiffer()
    ensures Int(1) != Int(2) && Int(1) != Int(3) && Int(1) != Int(4) && Int(1) != Int(5) && Int(2) != Int(3)
    ensures Int(2) != Int(4) && Int(2) != Int(5) && Int(3) != Int(4) && Int(3) != Int(5) && Int(4) != Int(5)
  {
  }

  lemma TailMembers(account: Option<Account>, total: u32)
    requires account.Some? ==> account.value.Valid()
    ensures var items := AccountTail(account, total);
      && Lookup(items, Int(4)) == (if account.Some? then Some(AccountItem(account.value)) else None)
      && Lookup(items, Int(5)) == (if total > 1 then Some(Int(total)) else None)
  {
    hide Pair;
    hide Lookup;
    hide AccountItem;
    IntsDiffer();
    forall key | key in {Int(4), Int(5)}
      ensures Lookup(CountTail(total), key) == if total > 1 && key == Int(5) then Some(Int(total)) else None
      ensures account.Some? ==>
        (Lookup(Pair(Int(4), AccountItem(account.value), CountTail(total)), key)
         == if key == Int(4) then Some(AccountItem(account.value)) else Lookup(CountTail(total), key))
    {
      LookupPair(Int(5), Int(total), [], key);
      if account.Some? {
        LookupPair(Int(4), AccountItem(account.value), CountTail(total), key);
      }
    }
  }

  lemma CredentialMembers(credId: seq<byte>)
    requires |credId| < TWO_64
    ensures var items := CredentialItem(credId).items;
      Lookup(items, Text(KEY_ID)) == Some(ByteString(credId)) && Lookup(items, Text(KEY_TYPE)) == Some(Text(PUBLIC_KEY))
  {
    hide Pair;
    hide Lookup;
    var tail := Pair(Text(KEY_TYPE), Text(PUBLIC_KEY), []);
    LookupPair(Text(KEY_ID), ByteString(credId), tail, Text(KEY_ID));
    LookupPair(Text(KEY_ID), ByteString(credId), tail, Text(KEY_TYPE));
    LookupPair(Text(KEY_TYPE), Text(PUBLIC_KEY), [], Text(KEY_TYPE));
  }

  /** A descriptor of a request says the same: a public key with this id. */
  lemma DescriptorMembers(id: seq<byte>)
    requires |id| < TWO_64
    ensures var items := E.DescriptorItem(id).items;
      Lookup(items, Text(KEY_ID)) == Some(ByteString(id)) && Lookup(items, Text(KEY_TYPE)) == Some(Text(PUBLIC_KEY))
  {
    hide Pair;
    hide Lookup;
    var tail := Pair(Text(KEY_ID), ByteString(id), []);
    LookupPair(Text(KEY_TYPE), Text(PUBLIC_KEY), tail, Text(KEY_ID));
    LookupPair(Text(KEY_TYPE), Text(PUBLIC_KEY), tail, Text(KEY_TYPE));
    LookupPair(Text(KEY_ID), ByteString(id), [], Text(KEY_ID));
  }

  /** The account's id and name, and its display name exactly when that says more than the name. */
  lemma AccountMembers(a: Account)
    requires a.Valid()
    ensures var items := AccountItem(a).items;
      && Lookup(items, Text(KEY_ID)) == Some(ByteString(a.id)) && Lookup(items, Text(KEY_NAME)) == Some(Text(a.name))
      && Lookup(items, Text(KEY_DISPLAY)) == (if a.display != [] && a.display != a.name then Some(Text(a.display)) else None)
  {
    hide Pair;
    hide Lookup;
    var tail := Pair(Text(KEY_NAME), Text(a.name), DisplayTail(a));
    forall key | key in {Text(KEY_ID), Text(KEY_NAME), Text(KEY_DISPLAY)}
      ensures Lookup(AccountItem(a).items, key) == if key == Text(KEY_ID) then Some(ByteString(a.id))
              else if key == Text(KEY_NAME) then Some(Text(a.name)) else Lookup(DisplayTail(a), key)
    {
      LookupPair(Text(KEY_ID), ByteString(a.id), tail, key);
      LookupPair(Text(KEY_NAME), Text(a.name), DisplayTail(a), key);
    }
    LookupPair(Text(KEY_DISPLAY), Text(a.display), [], Text(KEY_DISPLAY));
  }

  /** Format, signed data and statement of a registration; the statement names ES256 and carries the signature. */
  lemma AttestationMembers(authData: seq<byte>, sig: seq<byte>)
    requires |authData| < TWO_64 && |sig| < TWO_64
    ensures var items := AttestationItem(authData, sig).items;
      && Lookup(items, Int(1)) == Some(Text(KEY_PACKED)) && Lookup(items, Int(2)) == Some(ByteString(authData))
      && Lookup(items, Int(3)) == Some(StatementItem(sig))
    ensures var items := StatementItem(sig).items;
      Lookup(items, Text(KEY_ALG)) == Some(Int(-7)) && Lookup(items, Text(KEY_SIG)) == Some(ByteString(sig))
  {
    hide Pair;
    hide Lookup;
    hide StatementItem;
    IntsDiffer();
    forall key | key in {Int(1), Int(2), Int(3)}
      ensures Lookup(AttestationItem(authData, sig).items, key)
           == if key == Int(1) then Some(Text(KEY_PACKED)) else if key == Int(2) then Some(ByteString(authData)) else Some(StatementItem(sig))
    {
      LookupPair(Int(1), Text(KEY_PACKED), Pair(Int(2), ByteString(authData), Pair(Int(3), StatementItem(sig), [])), key);
      LookupPair(Int(2), ByteString(authData), Pair(Int(3), StatementItem(sig), []), key);
      LookupPair(Int(3), StatementItem(sig), [], key);
    }
    StatementMembers(sig);
  }

  lemma StatementMembers(sig: seq<byte>)
    requires |sig| < TWO_64
    ensures var items := StatementItem(sig).items;
      Lookup(items, Text(KEY_ALG)) == Some(Int(-7)) && Lookup(items, Text(KEY_SIG)) == Some(ByteString(sig))
  {
    hide Pair;
    hide Lookup;
    var tail := Pair(Text(KEY_SIG), ByteString(sig), []);
    LookupPair(Text(KEY_ALG), Int(-7), tail, Text(KEY_ALG));
    LookupPair(Text(KEY_ALG), Int(-7), tail, Text(KEY_SIG));
    LookupPair(Text(KEY_SIG), ByteString(sig), [], Text(KEY_SIG));
  }
}
