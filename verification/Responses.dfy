/** The success payloads of makeCredential, getAssertion and getNextAssertion, and the COSE key inside them. */
module Responses {
  import opened Bytes
  import opened Cbor
  import opened CborMaps
  import opened CborIo
  import opened RequestParsers

  const MAX_CBOR := 1536
  const MAX_SIG_DER := 80
  const MAX_CREDS := 32
  const AUTH_HEADER := 37
  const COSE_SIZE := 77
  const COSE_ARRAY := 128
  const HASH_SIZE := 32
  const ASSERT_ARRAY := 200
  const ASSERT_SIGN_ARRAY := 256
  const MAKE_ARRAY := 512
  const MAKE_SIGN_ARRAY := 1024
  const KEY_PACKED: seq<byte> := [0x70, 0x61, 0x63, 0x6b, 0x65, 0x64]
  const KEY_SIG: seq<byte> := [0x73, 0x69, 0x67]
  const FLAG_UP := 0x01
  const FLAG_UV := 0x04
  const FLAG_AT := 0x40

  /** The intended output so far is `p`: latched exactly if it is too long, otherwise in the buffer. */
  ghost predicate Holds(w: Writer, p: seq<byte>)
    reads w, w.buf
  {
    w.Valid() && w.err == (|p| > w.buf.Length) && (!w.err ==> w.Contents() == p)
  }

  lemma Held(w: Writer, p: seq<byte>)
    requires Holds(w, p) && |p| <= w.buf.Length
    ensures w.pos <= w.buf.Length && w.buf[..w.pos] == p
  {
  }

  method NewWriter(buf: array<byte>) returns (w: Writer)
    ensures fresh(w) && w.buf == buf && Holds(w, [])
  {
    w := new Writer(buf);
  }

  method OpenMap(w: Writer, pairs: nat)
    requires Holds(w, []) && pairs < TWO_64
    modifies w, w.buf
    ensures Holds(w, EncodeHead(Shortest(5, pairs)))
  {
    w.PutHead(5, pairs);
    assert [] + EncodeHead(Shortest(5, pairs)) == EncodeHead(Shortest(5, pairs));
  }

  method AddHead(w: Writer, ghost p: seq<byte>, pairs: nat)
    requires Holds(w, p) && pairs < TWO_64
    modifies w, w.buf
    ensures Holds(w, p + EncodeHead(Shortest(5, pairs)))
  {
    hide EncodeHead;
    w.PutHead(5, pairs);
  }

  method AddInt(w: Writer, ghost p: seq<byte>, v: s64)
    requires Holds(w, p)
    modifies w, w.buf
    ensures Holds(w, p + Encode(Int(v)))
  {
    hide Encode;
    w.PutInt(v);
  }

  method AddStr(w: Writer, ghost p: seq<byte>, major: nat, s: seq<byte>)
    requires Holds(w, p) && (major == 2 || major == 3) && |s| < TWO_64
    modifies w, w.buf
    ensures Holds(w, p + Encode(Str(Shortest(major, |s|), s)))
  {
    hide Encode;
    w.PutStr(major, s);
  }

  lemma StrSize(major: nat, s: seq<byte>)
    requires (major == 2 || major == 3) && |s| < TWO_64
    ensures |s| < |Encode(Str(Shortest(major, |s|), s))| <= |s| + 9
  {
  }

  lemma IntSize(v: s64)
    ensures 0 < |Encode(Int(v))| <= 9
  {
  }

  // ----- COSE key -----

  function CoseItem(xy: seq<byte>): (item: Item)
    requires |xy| == 64
    ensures item.WellFormed()
  {
    Map(Pair(Int(1), Int(2), Pair(Int(3), Int(ALG_ES256), CosePoint(xy))))
  }

  function CosePoint(xy: seq<byte>): (items: seq<Item>)
    requires |xy| == 64
    ensures AllWellFormed(items) && |items| == 6
  {
    Pair(Int(-1), Int(1), Pair(Int(-2), ByteString(xy[..32]), Pair(Int(-3), ByteString(xy[32..]), [])))
  }

  lemma CoseStep(buf: seq<byte>, pos: nat, count: nat, c: Cose, key: s64, p: nat, r: Option<(Cose, nat)>)
    requires count > 0 && Has(buf, pos, Encode(Int(key))) && p == pos + |Encode(Int(key))|
    requires CoseField(buf, p, key, c) == r
    ensures CoseFields(buf, pos, count, c) == if r.None? then None else CoseFields(buf, r.value.1, count - 1, r.value.0)
  {
    hide CoseField;
    hide Encode;
    hide ReadInt;
    ReadIntItem(buf, pos, key);
  }

  lemma CoseDone(buf: seq<byte>, pos: nat, c: Cose)
    ensures pos <= |buf| ==> CoseFields(buf, pos, 0, c) == Some((c, pos))
  {
  }

  lemma CosePointOf(buf: seq<byte>, pos: nat, x: seq<byte>, y: seq<byte>, c: Cose)
    requires |x| == 32 && |y| == 32
    requires Has(buf, pos, EncodeAll(Pair(Int(-2), ByteString(x), Pair(Int(-3), ByteString(y), []))))
    ensures CoseFields(buf, pos, 2, c)
         == Some((c.(x := Some(x), y := Some(y)),
                  pos + |EncodeAll(Pair(Int(-2), ByteString(x), Pair(Int(-3), ByteString(y), [])))|))
  {
    hide Encode;
    hide Pair;
    hide ReadString;
    hide ByteString;
    hide CoseFields;
    CoseDone(buf, pos + |EncodeAll(Pair(Int(-2), ByteString(x), Pair(Int(-3), ByteString(y), [])))|, c.(x := Some(x), y := Some(y)));
    var p2, q2 := NextPair(buf, pos, Int(-2), ByteString(x), Pair(Int(-3), ByteString(y), []));
    ReadBytesItem(buf, p2, x);
    var c2 := c.(x := Some(x));
    CoseStep(buf, pos, 2, c, -2, p2, Some((c2, q2)));
    var p3, q3 := NextPair(buf, q2, Int(-3), ByteString(y), []);
    ReadBytesItem(buf, p3, y);
    CoseStep(buf, q2, 1, c2, -3, p3, Some((c2.(y := Some(y)), q3)));
  }

  lemma CoseCurveOf(buf: seq<byte>, pos: nat, xy: seq<byte>, c: Cose)
    requires |xy| == 64 && Has(buf, pos, EncodeAll(CosePoint(xy)))
    ensures CoseFields(buf, pos, 3, c)
         == Some((c.(crv := true, x := Some(xy[..32]), y := Some(xy[32..])), pos + |EncodeAll(CosePoint(xy))|))
  {
    hide Encode;
    hide Pair;
    hide ReadInt;
    hide ByteString;
    hide CoseFields;
    var x, y := xy[..32], xy[32..];
    var p1, q1 := NextPair(buf, pos, Int(-1), Int(1), Pair(Int(-2), ByteString(x), Pair(Int(-3), ByteString(y), [])));
    ReadIntItem(buf, p1, 1);
    var c1 := c.(crv := true);
    CoseStep(buf, pos, 3, c, -1, p1, Some((c1, q1)));
    CosePointOf(buf, q1, x, y, c1);
  }

  /** Wherever a written COSE key stands, the reader returns its 64-byte point and stops behind it. */
  lemma CoseRoundTrip(buf: seq<byte>, pos: nat, xy: seq<byte>)
    requires |xy| == 64 && Has(buf, pos, Encode(CoseItem(xy)))
    ensures ReadCoseKey(buf, pos) == Some((xy, pos + |Encode(CoseItem(xy))|))
  {
    hide Encode;
    hide EncodeHead;
    hide ReadHead;
    hide ReadInt;
    hide Pair;
    hide CosePoint;
    hide CoseFields;
    var item := CoseItem(xy);
    var start := pos + |EncodeHead(item.head)|;
    Open(buf, pos, item, start);
    var c0 := Cose(false, false, None, None);
    var p1, q1 := NextPair(buf, start, Int(1), Int(2), Pair(Int(3), Int(ALG_ES256), CosePoint(xy)));
    ReadIntItem(buf, p1, 2);
    var c1 := c0.(kty := true);
    CoseStep(buf, start, 5, c0, 1, p1, Some((c1, q1)));
    var p2, q2 := NextPair(buf, q1, Int(3), Int(ALG_ES256), CosePoint(xy));
    SkipComplete(Int(ALG_ES256), buf, p2);
    CoseStep(buf, q1, 4, c1, 3, p2, Some((c1, q2)));
    CoseCurveOf(buf, q2, xy, c1);
    assert xy[..32] + xy[32..] == xy;
  }

  method PutIntPair(w: Writer, ghost p: seq<byte>, k: s64, v: s64)
    requires Holds(w, p)
    modifies w, w.buf
    ensures Holds(w, p + Encode(Int(k)) + Encode(Int(v)))
  {
    hide Encode;
    w.PutInt(k);
    w.PutInt(v);
  }

  method PutBytesPair(w: Writer, ghost p: seq<byte>, k: s64, data: seq<byte>)
    requires Holds(w, p) && |data| < TWO_64
    modifies w, w.buf
    ensures Holds(w, p + Encode(Int(k)) + Encode(ByteString(data)))
  {
    hide Encode;
    w.PutInt(k);
    w.PutStr(2, data);
  }

  method EncodeCoseKey(w: Writer, xy: seq<byte>)
    requires |xy| == 64 && w.Valid() && !w.err && w.pos == 0
    modifies w, w.buf
    ensures Holds(w, Encode(CoseItem(xy)))
    ensures w.buf.Length >= COSE_SIZE ==> !w.err && w.pos == COSE_SIZE
  {
    hide Encode;
    hide EncodeHead;
    var x, y := xy[..32], xy[32..];
    w.PutHead(5, 5);
    ghost var p0 := EncodeHead(Shortest(5, 5));
    assert [] + p0 == p0;
    PutIntPair(w, p0, 1, 2);
    ghost var p1 := p0 + Encode(Int(1)) + Encode(Int(2));
    PutIntPair(w, p1, 3, ALG_ES256);
    ghost var p2 := p1 + Encode(Int(3)) + Encode(Int(ALG_ES256));
    PutIntPair(w, p2, -1, 1);
    ghost var p3 := p2 + Encode(Int(-1)) + Encode(Int(1));
    PutBytesPair(w, p3, -2, x);
    PutBytesPair(w, p3 + Encode(Int(-2)) + Encode(ByteString(x)), -3, y);
    CoseBytes(xy);
    CoseSize(xy);
  }

  /** The caller's 128-byte array: the writer is told of more room than that, and 77 bytes are all it uses. */
  method CoseKeyArray(xy: seq<byte>) returns (cose: array<byte>, len: nat)
    requires |xy| == 64
    ensures fresh(cose) && cose.Length == COSE_ARRAY && len == COSE_SIZE && cose[..len] == Encode(CoseItem(xy))
  {
    hide Encode;
    hide CoseItem;
    cose := new byte[COSE_ARRAY];
    var w := NewWriter(cose);
    EncodeCoseKey(w, xy);
    CoseSize(xy);
    len := w.pos;
  }

  /** An encoded key always takes 77 bytes. */
  lemma CoseSize(xy: seq<byte>)
    requires |xy| == 64
    ensures |Encode(CoseItem(xy))| == COSE_SIZE
  {
    CoseBytes(xy);
    assert |Encode(Int(1))| == |Encode(Int(2))| == |Encode(Int(3))| == |Encode(Int(ALG_ES256))| == 1;
    assert |Encode(Int(-1))| == |Encode(Int(-2))| == |Encode(Int(-3))| == 1;
    assert |Encode(ByteString(xy[..32]))| == |Encode(ByteString(xy[32..]))| == 34;
    assert |EncodeHead(Shortest(5, 5))| == 1;
  }

  lemma CoseBytes(xy: seq<byte>)
    requires |xy| == 64
    ensures Encode(CoseItem(xy))
         == EncodeHead(Shortest(5, 5)) + Encode(Int(1)) + Encode(Int(2)) + Encode(Int(3)) + Encode(Int(ALG_ES256))
          + Encode(Int(-1)) + Encode(Int(1)) + Encode(Int(-2)) + Encode(ByteString(xy[..32]))
          + Encode(Int(-3)) + Encode(ByteString(xy[32..]))
  {
    hide Encode;
    hide EncodeHead;
    hide Pair;
    var p := EncodeHead(Shortest(5, 5));
    ListBytes([], CoseItem(xy));
    assert [] + Encode(CoseItem(xy)) == Encode(CoseItem(xy)) && [] + p == p;
    PairBytes(p, Int(1), Int(2), Pair(Int(3), Int(ALG_ES256), CosePoint(xy)));
    PairBytes(p + Encode(Int(1)) + Encode(Int(2)), Int(3), Int(ALG_ES256), CosePoint(xy));
    PointBytes(p + Encode(Int(1)) + Encode(Int(2)) + Encode(Int(3)) + Encode(Int(ALG_ES256)), xy[..32], xy[32..]);
  }

  lemma PointBytes(q: seq<byte>, x: seq<byte>, y: seq<byte>)
    requires |x| == 32 && |y| == 32
    ensures q + EncodeAll(Pair(Int(-1), Int(1), Pair(Int(-2), ByteString(x), Pair(Int(-3), ByteString(y), []))))
         == q + Encode(Int(-1)) + Encode(Int(1)) + Encode(Int(-2)) + Encode(ByteString(x)) + Encode(Int(-3)) + Encode(ByteString(y))
  {
    hide Encode;
    hide Pair;
    var tail := Pair(Int(-3), ByteString(y), []);
    PairBytes(q, Int(-1), Int(1), Pair(Int(-2), ByteString(x), tail));
    var q1 := q + Encode(Int(-1)) + Encode(Int(1));
    PairBytes(q1, Int(-2), ByteString(x), tail);
    LastPairBytes(q1 + Encode(Int(-2)) + Encode(ByteString(x)), Int(-3), ByteString(y));
  }

  // ----- authenticator data (WebAuthn section 6.1) -----

  function HmacExtension(output: seq<byte>): (item: Item)
    requires |output| < TWO_64
    ensures item.WellFormed()
  {
    Map(Pair(Text(HMAC_SECRET), ByteString(output), []))
  }

  function HmacCreated(): (item: Item)
    ensures item.WellFormed()
  {
    Map(Pair(Text(HMAC_SECRET), Bool(true), []))
  }

  function AuthHeader(rpHash: seq<byte>, flags: byte, signCount: u32): (s: seq<byte>)
    requires |rpHash| == 32
    ensures |s| == AUTH_HEADER
  {
    rpHash + [flags] + BeBytes(signCount, 4)
  }

  function AssertAuthData(rpHash: seq<byte>, signCount: u32, hmac: Option<seq<byte>>): seq<byte>
    requires |rpHash| == 32 && (hmac.Some? ==> |hmac.value| == 64)
  {
    AuthHeader(rpHash, FLAG_UP + FLAG_UV, signCount) + if hmac.Some? then Encode(HmacExtension(hmac.value)) else []
  }

  function MakeAuthData(rpHash: seq<byte>, signCount: u32, aaguid: seq<byte>, credId: seq<byte>, xy: seq<byte>, hmac: bool): seq<byte>
    requires |rpHash| == 32 && |aaguid| == 16 && |credId| == 32 && |xy| == 64
  {
    AuthHeader(rpHash, FLAG_UP + FLAG_UV + FLAG_AT, signCount) + aaguid + BeBytes(32, 2) + credId
    + Encode(CoseItem(xy)) + if hmac then Encode(HmacCreated()) else []
  }

  // ----- getAssertion / getNextAssertion -----

  /** The user entity of a credential, as C strings. */
  datatype Account = Account(id: seq<byte>, name: seq<byte>, display: seq<byte>) {
    predicate Valid() {
      |id| <= MAX_USER_ID && |name| < MAX_USER_NAME && |display| < MAX_USER_NAME
    }
    predicate HasDisplay() {
      display != [] && display != name
    }
  }

  function DisplayTail(a: Account): (items: seq<Item>)
    requires a.Valid()
    ensures AllWellFormed(items) && |items| == if a.HasDisplay() then 2 else 0
  {
    if a.HasDisplay() then Pair(Text(KEY_DISPLAY), Text(a.display), []) else []
  }

  function AccountItem(a: Account): (item: Item)
    requires a.Valid()
    ensures item.WellFormed()
  {
    Map(Pair(Text(KEY_ID), ByteString(a.id), Pair(Text(KEY_NAME), Text(a.name), DisplayTail(a))))
  }

  function CredentialItem(credId: seq<byte>): (item: Item)
    requires |credId| < TWO_64
    ensures item.WellFormed()
  {
    Map(Pair(Text(KEY_ID), ByteString(credId), Pair(Text(KEY_TYPE), Text(PUBLIC_KEY), [])))
  }

  function CountTail(total: u32): (items: seq<Item>)
    ensures AllWellFormed(items) && |items| == if total > 1 then 2 else 0
  {
    if total > 1 then Pair(Int(5), Int(total), []) else []
  }

  function AccountTail(account: Option<Account>, total: u32): (items: seq<Item>)
    requires account.Some? ==> account.value.Valid()
    ensures AllWellFormed(items) && |items| == (if account.Some? then 2 else 0) + (if total > 1 then 2 else 0)
  {
    if account.Some? then Pair(Int(4), AccountItem(account.value), CountTail(total)) else CountTail(total)
  }

  function AssertionItem(credId: seq<byte>, authData: seq<byte>, sig: seq<byte>, account: Option<Account>, total: u32): (item: Item)
    requires |credId| < TWO_64 && |authData| < TWO_64 && |sig| < TWO_64 && (account.Some? ==> account.value.Valid())
    ensures item.WellFormed()
  {
    Map(Pair(Int(1), CredentialItem(credId), Pair(Int(2), ByteString(authData), Pair(Int(3), ByteString(sig), AccountTail(account, total)))))
  }

  method PutTextPair(w: Writer, ghost p: seq<byte>, k: seq<byte>, major: nat, v: seq<byte>)
    requires Holds(w, p) && |k| < TWO_64 && |v| < TWO_64 && (major == 2 || major == 3)
    modifies w, w.buf
    ensures Holds(w, p + Encode(Text(k)) + Encode(Str(Shortest(major, |v|), v)))
  {
    hide Encode;
    w.PutStr(3, k);
    w.PutStr(major, v);
  }

  method PutCredential(w: Writer, ghost p: seq<byte>, credId: seq<byte>)
    requires Holds(w, p) && |credId| < TWO_64
    modifies w, w.buf
    ensures Holds(w, p + Encode(CredentialItem(credId)))
  {
    hide Encode;
    hide EncodeHead;
    hide Pair;
    w.PutHead(5, 2);
    ghost var p1 := p + EncodeHead(Shortest(5, 2));
    PutTextPair(w, p1, KEY_ID, 2, credId);
    ghost var p2 := p1 + Encode(Text(KEY_ID)) + Encode(ByteString(credId));
    PutTextPair(w, p2, KEY_TYPE, 3, PUBLIC_KEY);
    ListBytes(p, CredentialItem(credId));
    PairBytes(p1, Text(KEY_ID), ByteString(credId), Pair(Text(KEY_TYPE), Text(PUBLIC_KEY), []));
    LastPairBytes(p2, Text(KEY_TYPE), Text(PUBLIC_KEY));
  }

  method PutAccount(w: Writer, ghost p: seq<byte>, a: Account)
    requires Holds(w, p) && a.Valid()
    modifies w, w.buf
    ensures Holds(w, p + Encode(AccountItem(a)))
  {
    hide Encode;
    hide EncodeHead;
    hide Pair;
    hide Holds;
    AddHead(w, p, if a.HasDisplay() then 3 else 2);
    ghost var p1 := p + EncodeHead(AccountItem(a).head);
    PutTextPair(w, p1, KEY_ID, 2, a.id);
    ghost var p2 := p1 + Encode(Text(KEY_ID)) + Encode(ByteString(a.id));
    PutTextPair(w, p2, KEY_NAME, 3, a.name);
    ghost var p3 := p2 + Encode(Text(KEY_NAME)) + Encode(Text(a.name));
    ListBytes(p, AccountItem(a));
    PairBytes(p1, Text(KEY_ID), ByteString(a.id), Pair(Text(KEY_NAME), Text(a.name), DisplayTail(a)));
    PairBytes(p2, Text(KEY_NAME), Text(a.name), DisplayTail(a));
    if a.HasDisplay() {
      PutTextPair(w, p3, KEY_DISPLAY, 3, a.display);
      LastPairBytes(p3, Text(KEY_DISPLAY), Text(a.display));
    } else {
      assert p3 + EncodeAll([]) == p3;
    }
  }

  /** Behind the signature: the user entity when asked for, then the credential count when above one. */
  method PutTail(w: Writer, ghost p: seq<byte>, account: Option<Account>, total: u32)
    requires Holds(w, p) && (account.Some? ==> account.value.Valid())
    modifies w, w.buf
    ensures Holds(w, p + EncodeAll(AccountTail(account, total)))
  {
    hide Encode;
    hide Pair;
    ghost var q := p;
    if account.Some? {
      w.PutInt(4);
      PutAccount(w, p + Encode(Int(4)), account.value);
      q := p + Encode(Int(4)) + Encode(AccountItem(account.value));
      PairBytes(p, Int(4), AccountItem(account.value), CountTail(total));
    }
    if total > 1 {
      PutIntPair(w, q, 5, total);
      LastPairBytes(q, Int(5), Int(total));
    } else {
      assert q + EncodeAll([]) == q;
    }
  }

  lemma AccountSize(a: Account)
    requires a.Valid()
    ensures |Encode(AccountItem(a))| <= 280
  {
    hide Pair;
    ListBytes([], AccountItem(a));
    PairBytes([], Text(KEY_ID), ByteString(a.id), Pair(Text(KEY_NAME), Text(a.name), DisplayTail(a)));
    PairBytes([], Text(KEY_NAME), Text(a.name), DisplayTail(a));
    StrSize(3, KEY_ID);
    StrSize(2, a.id);
    StrSize(3, KEY_NAME);
    StrSize(3, a.name);
    StrSize(3, KEY_DISPLAY);
    StrSize(3, a.display);
    if a.HasDisplay() {
      LastPairBytes([], Text(KEY_DISPLAY), Text(a.display));
    }
  }

  lemma CredentialSize(credId: seq<byte>)
    requires |credId| == 32
    ensures |Encode(CredentialItem(credId))| <= 93
  {
    hide Pair;
    ListBytes([], CredentialItem(credId));
    PairBytes([], Text(KEY_ID), ByteString(credId), Pair(Text(KEY_TYPE), Text(PUBLIC_KEY), []));
    LastPairBytes([], Text(KEY_TYPE), Text(PUBLIC_KEY));
    StrSize(3, KEY_ID);
    StrSize(2, credId);
    StrSize(3, KEY_TYPE);
    StrSize(3, PUBLIC_KEY);
  }

  lemma TailSize(account: Option<Account>, total: u32)
    requires account.Some? ==> account.value.Valid()
    ensures |EncodeAll(AccountTail(account, total))| <= 307
  {
    hide Encode;
    hide Pair;
    IntSize(4);
    IntSize(5);
    IntSize(total);
    if account.Some? {
      AccountSize(account.value);
      PairBytes([], Int(4), AccountItem(account.value), CountTail(total));
    }
    LastPairBytes([], Int(5), Int(total));
  }

  /** A reader takes the encoding of an item as one item and stops at its end. */
  lemma WholeItem(item: Item)
    requires item.WellFormed()
    ensures Skip(Encode(item), 0) == Some(|Encode(item)|)
  {
    hide Encode;
    hide Skip;
    var buf := Encode(item);
    assert buf[0..0 + |buf|] == buf;
    SkipComplete(item, buf, 0);
  }

  /** No combination of user entity, display name, hmac output and credential count exceeds 650 bytes. */
  lemma AssertionSize(credId: seq<byte>, authData: seq<byte>, sig: seq<byte>, account: Option<Account>, total: u32)
    requires |credId| == 32 && |authData| <= 116 && |sig| <= MAX_SIG_DER && (account.Some? ==> account.value.Valid())
    ensures |Encode(AssertionItem(credId, authData, sig, account, total))| <= 650
  {
    hide Pair;
    hide Encode;
    AssertionBytes(credId, authData, sig, account, total);
    IntSize(1);
    IntSize(2);
    IntSize(3);
    CredentialSize(credId);
    StrSize(2, authData);
    StrSize(2, sig);
    TailSize(account, total);
  }

  lemma AssertionBytes(credId: seq<byte>, authData: seq<byte>, sig: seq<byte>, account: Option<Account>, total: u32)
    requires |credId| < TWO_64 && |authData| < TWO_64 && |sig| < TWO_64 && (account.Some? ==> account.value.Valid())
    ensures var item := AssertionItem(credId, authData, sig, account, total);
      Encode(item) == EncodeHead(item.head) + Encode(Int(1)) + Encode(CredentialItem(credId)) + Encode(Int(2)) + Encode(ByteString(authData))
                    + Encode(Int(3)) + Encode(ByteString(sig)) + EncodeAll(AccountTail(account, total))
  {
    hide Pair;
    hide Encode;
    hide EncodeHead;
    var item := AssertionItem(credId, authData, sig, account, total);
    var tail := Pair(Int(3), ByteString(sig), AccountTail(account, total));
    ListBytes([], item);
    var p0 := EncodeHead(item.head);
    assert [] + Encode(item) == Encode(item) && [] + p0 == p0;
    PairBytes(p0, Int(1), CredentialItem(credId), Pair(Int(2), ByteString(authData), tail));
    var p1 := p0 + Encode(Int(1)) + Encode(CredentialItem(credId));
    PairBytes(p1, Int(2), ByteString(authData), tail);
    PairBytes(p1 + Encode(Int(2)) + Encode(ByteString(authData)), Int(3), ByteString(sig), AccountTail(account, total));
  }

  /** The payload of a successful assertion is one well-formed map, complete, and inside its buffer. */
  method EncodeAssertion(buf: array<byte>, credId: seq<byte>, authData: seq<byte>, sig: seq<byte>,
                         includeUser: bool, account: Account, total: u32) returns (len: nat)
    requires buf.Length == MAX_CBOR && |credId| == 32 && |authData| <= 116 && |sig| <= MAX_SIG_DER && account.Valid()
    modifies buf
    ensures len <= 650 && Skip(buf[..len], 0) == Some(len)
    ensures buf[..len] == Encode(AssertionItem(credId, authData, sig, if includeUser then Some(account) else None, total))
  {
    hide Encode;
    hide EncodeHead;
    hide Pair;
    hide AccountTail;
    hide Skip;
    hide Holds;
    ghost var user := if includeUser then Some(account) else None;
    var pairs := 3;
    if includeUser {
      pairs := pairs + 1;
    }
    if total > 1 {
      pairs := pairs + 1;
    }
    var w := NewWriter(buf);
    OpenMap(w, pairs);
    ghost var p0 := EncodeHead(Shortest(5, pairs));
    AddInt(w, p0, 1);
    PutCredential(w, p0 + Encode(Int(1)), credId);
    ghost var p1 := p0 + Encode(Int(1)) + Encode(CredentialItem(credId));
    PutBytesPair(w, p1, 2, authData);
    ghost var p2 := p1 + Encode(Int(2)) + Encode(ByteString(authData));
    PutBytesPair(w, p2, 3, sig);
    PutTail(w, p2 + Encode(Int(3)) + Encode(ByteString(sig)), if includeUser then Some(account) else None, total);
    AssertionBytes(credId, authData, sig, user, total);
    AssertionSize(credId, authData, sig, user, total);
    Held(w, Encode(AssertionItem(credId, authData, sig, user, total)));
    len := w.pos;
    WholeItem(AssertionItem(credId, authData, sig, user, total));
  }

  // ----- makeCredential -----

  function StatementItem(sig: seq<byte>): (item: Item)
    requires |sig| < TWO_64
    ensures item.WellFormed()
  {
    Map(Pair(Text(KEY_ALG), Int(ALG_ES256), Pair(Text(KEY_SIG), ByteString(sig), [])))
  }

  function AttestationItem(authData: seq<byte>, sig: seq<byte>): (item: Item)
    requires |authData| < TWO_64 && |sig| < TWO_64
    ensures item.WellFormed()
  {
    Map(Pair(Int(1), Text(KEY_PACKED), Pair(Int(2), ByteString(authData), Pair(Int(3), StatementItem(sig), []))))
  }

  method PutStatement(w: Writer, ghost p: seq<byte>, sig: seq<byte>)
    requires Holds(w, p) && |sig| < TWO_64
    modifies w, w.buf
    ensures Holds(w, p + Encode(StatementItem(sig)))
  {
    hide Encode;
    hide EncodeHead;
    hide Pair;
    hide Holds;
    AddHead(w, p, 2);
    ghost var p1 := p + EncodeHead(Shortest(5, 2));
    AddStr(w, p1, 3, KEY_ALG);
    AddInt(w, p1 + Encode(Text(KEY_ALG)), ALG_ES256);
    ghost var p2 := p1 + Encode(Text(KEY_ALG)) + Encode(Int(ALG_ES256));
    PutTextPair(w, p2, KEY_SIG, 2, sig);
    ListBytes(p, StatementItem(sig));
    PairBytes(p1, Text(KEY_ALG), Int(ALG_ES256), Pair(Text(KEY_SIG), ByteString(sig), []));
    LastPairBytes(p2, Text(KEY_SIG), ByteString(sig));
  }

  lemma StatementSize(sig: seq<byte>)
    requires |sig| <= MAX_SIG_DER
    ensures |Encode(StatementItem(sig))| <= 131
  {
    hide Pair;
    ListBytes([], StatementItem(sig));
    PairBytes([], Text(KEY_ALG), Int(ALG_ES256), Pair(Text(KEY_SIG), ByteString(sig), []));
    LastPairBytes([], Text(KEY_SIG), ByteString(sig));
    StrSize(3, KEY_ALG);
    IntSize(ALG_ES256);
    StrSize(3, KEY_SIG);
    StrSize(2, sig);
  }

  /** Both forms of authenticator data and, with the 32-byte client data hash behind them, what is signed: they fit the
      kernel's fixed arrays of 200 and 512 bytes, and of 256 and 1024 bytes. */
  lemma AuthDataSize(rpHash: seq<byte>, signCount: u32, aaguid: seq<byte>, credId: seq<byte>, xy: seq<byte>,
                     hmac: bool, output: Option<seq<byte>>)
    requires |rpHash| == 32 && |aaguid| == 16 && |credId| == 32 && |xy| == 64 && (output.Some? ==> |output.value| == 64)
    ensures |MakeAuthData(rpHash, signCount, aaguid, credId, xy, hmac)| == (if hmac then 178 else 164)
    ensures |AssertAuthData(rpHash, signCount, output)| == (if output.Some? then 116 else 37)
    ensures |AssertAuthData(rpHash, signCount, output)| <= ASSERT_ARRAY
      && |AssertAuthData(rpHash, signCount, output)| + HASH_SIZE <= ASSERT_SIGN_ARRAY
    ensures |MakeAuthData(rpHash, signCount, aaguid, credId, xy, hmac)| <= MAKE_ARRAY
      && |MakeAuthData(rpHash, signCount, aaguid, credId, xy, hmac)| + HASH_SIZE <= MAKE_SIGN_ARRAY
  {
    hide Pair;
    CoseSize(xy);
    ListBytes([], HmacCreated());
    LastPairBytes([], Text(HMAC_SECRET), Bool(true));
    assert |Encode(Text(HMAC_SECRET))| == 12 && |Encode(Bool(true))| == 1;
    if output.Some? {
      ListBytes([], HmacExtension(output.value));
      LastPairBytes([], Text(HMAC_SECRET), ByteString(output.value));
      assert |Encode(Text(HMAC_SECRET))| == 12 && |Encode(ByteString(output.value))| == 66;
    }
  }

  /** A registration's payload is one well-formed three-entry map, inside its buffer. */
  method EncodeAttestation(buf: array<byte>, authData: seq<byte>, sig: seq<byte>) returns (len: nat)
    requires buf.Length == MAX_CBOR && |authData| <= 288 && |sig| <= MAX_SIG_DER
    modifies buf
    ensures len <= 650 && Skip(buf[..len], 0) == Some(len)
    ensures buf[..len] == Encode(AttestationItem(authData, sig))
  {
    hide Encode;
    hide EncodeHead;
    hide Pair;
    hide Skip;
    hide Holds;
    var w := NewWriter(buf);
    OpenMap(w, 3);
    ghost var p0 := EncodeHead(Shortest(5, 3));
    AddInt(w, p0, 1);
    AddStr(w, p0 + Encode(Int(1)), 3, KEY_PACKED);
    ghost var p1 := p0 + Encode(Int(1)) + Encode(Text(KEY_PACKED));
    PutBytesPair(w, p1, 2, authData);
    ghost var p2 := p1 + Encode(Int(2)) + Encode(ByteString(authData));
    AddInt(w, p2, 3);
    PutStatement(w, p2 + Encode(Int(3)), sig);
    AttestationBytes(authData, sig);
    AttestationSize(authData, sig);
    Held(w, Encode(AttestationItem(authData, sig)));
    len := w.pos;
    WholeItem(AttestationItem(authData, sig));
  }

  lemma AttestationBytes(authData: seq<byte>, sig: seq<byte>)
    requires |authData| < TWO_64 && |sig| < TWO_64
    ensures Encode(AttestationItem(authData, sig))
         == EncodeHead(Shortest(5, 3)) + Encode(Int(1)) + Encode(Text(KEY_PACKED)) + Encode(Int(2)) + Encode(ByteString(authData))
          + Encode(Int(3)) + Encode(StatementItem(sig))
  {
    hide Pair;
    hide Encode;
    hide EncodeHead;
    var item := AttestationItem(authData, sig);
    var p0 := EncodeHead(Shortest(5, 3));
    ListBytes([], item);
    assert [] + Encode(item) == Encode(item) && [] + p0 == p0;
    PairBytes(p0, Int(1), Text(KEY_PACKED), Pair(Int(2), ByteString(authData), Pair(Int(3), StatementItem(sig), [])));
    var p1 := p0 + Encode(Int(1)) + Encode(Text(KEY_PACKED));
    PairBytes(p1, Int(2), ByteString(authData), Pair(Int(3), StatementItem(sig), []));
    LastPairBytes(p1 + Encode(Int(2)) + Encode(ByteString(authData)), Int(3), StatementItem(sig));
  }

  lemma AttestationSize(authData: seq<byte>, sig: seq<byte>)
    requires |authData| <= 288 && |sig| <= MAX_SIG_DER
    ensures |Encode(AttestationItem(authData, sig))| <= 650
  {
    hide Encode;
    AttestationBytes(authData, sig);
    IntSize(1);
    IntSize(2);
    IntSize(3);
    StrSize(3, KEY_PACKED);
    StrSize(2, authData);
    StatementSize(sig);
  }
}
