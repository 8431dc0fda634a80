/** The companion's makeCredential envelope, read back by the kernel parser. */
module MakeEnvelopes {
  import opened Bytes
  import opened Cbor
  import opened CborMaps
  import opened RequestParsers
  import opened Envelopes

  datatype User = User(id: seq<byte>, name: seq<byte>, display: seq<byte>) {
    predicate Sized() {
      |id| < TWO_64 && |name| < TWO_64 && |display| < TWO_64
    }
    /** The field sizes the kernel's request structure can hold. */
    predicate Fits() {
      |id| <= MAX_USER_ID && |name| < MAX_USER_NAME && |display| < MAX_USER_NAME
    }
  }

  function RpItem(rpId: seq<byte>, rpName: seq<byte>): (item: Item)
    requires |rpId| < TWO_64 && |rpName| < TWO_64
    ensures item.WellFormed()
  {
    Map(Pair(Text(KEY_ID), Text(rpId), Pair(Text(KEY_NAME), Text(rpName), [])))
  }

  function UserItem(u: User): (item: Item)
    requires u.Sized()
    ensures item.WellFormed()
  {
    Map(Pair(Text(KEY_ID), ByteString(u.id),
        Pair(Text(KEY_NAME), Text(u.name), Pair(Text(KEY_DISPLAY), Text(u.display), []))))
  }

  function ParamItem(): (item: Item)
    ensures item.WellFormed()
  {
    Map(Pair(Text(KEY_TYPE), Text(PUBLIC_KEY), Pair(Text(KEY_ALG), Int(ALG_ES256), [])))
  }

  function RkUvItem(): (item: Item)
    ensures item.WellFormed()
  {
    Map(Pair(Text(KEY_RK), Bool(true), Pair(Text(KEY_UV), Bool(false), [])))
  }

  function MakeMembers(hash: seq<byte>, rpId: seq<byte>, rpName: seq<byte>, u: User): (items: seq<Item>)
    requires |hash| == 32 && |rpId| < TWO_64 && |rpName| < TWO_64 && u.Sized()
    ensures AllWellFormed(items) && |items| == 10
  {
    Pair(Int(1), ByteString(hash), Pair(Int(2), RpItem(rpId, rpName), Pair(Int(3), UserItem(u),
    Pair(Int(4), Array([ParamItem()]), Pair(Int(7), RkUvItem(), [])))))
  }

  function MakeEnvelope(hash: seq<byte>, rpId: seq<byte>, rpName: seq<byte>, u: User): (item: Item)
    requires |hash| == 32 && |rpId| < TWO_64 && |rpName| < TWO_64 && u.Sized()
    ensures item.WellFormed()
  {
    Map(MakeMembers(hash, rpId, rpName, u))
  }

  // One lemma per key: what the field parser makes of the companion's value.

  lemma HashField(buf: seq<byte>, p: nat, hash: seq<byte>, req: MakeReq)
    requires |hash| == 32 && Has(buf, p, Encode(ByteString(hash)))
    ensures MakeField(buf, p, 1, req) == Ok((req.(hash := Some(hash)), p + |Encode(ByteString(hash))|))
  {
    ReadBytesItem(buf, p, hash);
  }

  lemma RpStep(buf: seq<byte>, pos: nat, count: nat, rp: Option<seq<byte>>, key: seq<byte>, text: seq<byte>, p: nat, q: nat)
    requires |key| < TWO_64 && |text| < TWO_64 && count > 0
    requires Has(buf, pos, Encode(Text(key))) && Has(buf, p, Encode(Text(text)))
    requires p == pos + |Encode(Text(key))| && q == p + |Encode(Text(text))|
    ensures RpFields(buf, pos, count, rp)
         == RpFields(buf, q, count - 1, if key == KEY_ID && |text| < MAX_RP_ID then Some(CStr(text)) else rp)
  {
    hide Encode;
    hide ReadHead;
    hide ReadString;
    hide EncodeHead;
    hide Text;
    hide CStr;
    ReadTextItem(buf, pos, key);
    ReadTextItem(buf, p, text);
  }

  lemma RpFieldsOf(buf: seq<byte>, pos: nat, rpId: seq<byte>, rpName: seq<byte>)
    requires |rpId| < TWO_64 && |rpName| < TWO_64 && Has(buf, pos, EncodeAll(RpItem(rpId, rpName).items))
    ensures RpFields(buf, pos, 2, None)
         == Some((if |rpId| < MAX_RP_ID then Some(CStr(rpId)) else None, pos + |EncodeAll(RpItem(rpId, rpName).items)|))
  {
    hide Encode;
    hide EncodeHead;
    hide ReadHead;
    hide ReadString;
    hide Pair;
    hide Text;
    hide CStr;
    var p1, p2 := NextPair(buf, pos, Text(KEY_ID), Text(rpId), Pair(Text(KEY_NAME), Text(rpName), []));
    var rp := if |rpId| < MAX_RP_ID then Some(CStr(rpId)) else None;
    RpStep(buf, pos, 2, None, KEY_ID, rpId, p1, p2);
    var p3, p4 := NextPair(buf, p2, Text(KEY_NAME), Text(rpName), []);
    RpStep(buf, p2, 1, rp, KEY_NAME, rpName, p3, p4);
    assert RpFields(buf, p4, 0, rp) == Some((rp, p4));
  }

  lemma RpField(buf: seq<byte>, p: nat, rpId: seq<byte>, rpName: seq<byte>, req: MakeReq)
    requires |rpId| < TWO_64 && |rpName| < TWO_64 && req.rpId == None && Has(buf, p, Encode(RpItem(rpId, rpName)))
    ensures MakeField(buf, p, 2, req)
         == Ok((req.(rpId := if |rpId| < MAX_RP_ID then Some(CStr(rpId)) else None), p + |Encode(RpItem(rpId, rpName))|))
  {
    hide Encode;
    hide EncodeHead;
    hide ReadHead;
    hide ReadString;
    var item := RpItem(rpId, rpName);
    var start := p + |EncodeHead(item.head)|;
    Open(buf, p, item, start);
    RpFieldsOf(buf, start, rpId, rpName);
  }

  function WithUser(u: User, req: MakeReq): MakeReq {
    req.(userId := Some(u.id), userName := CStr(u.name), userDisplay := CStr(u.display))
  }

  lemma UserStep(buf: seq<byte>, pos: nat, count: nat, req: MakeReq, key: seq<byte>, p: nat, r: Option<(MakeReq, nat)>)
    requires |key| < TWO_64 && count > 0 && Has(buf, pos, Encode(Text(key))) && p == pos + |Encode(Text(key))|
    requires UserField(buf, p, key, req) == r
    ensures UserFields(buf, pos, count, req)
         == if r.None? then None else UserFields(buf, r.value.1, count - 1, r.value.0)
  {
    hide UserField;
    hide Encode;
    hide ReadHead;
    hide ReadString;
    ReadTextItem(buf, pos, key);
  }

  lemma NameField(buf: seq<byte>, p: nat, key: seq<byte>, text: seq<byte>, req: MakeReq)
    requires (key == KEY_NAME || key == KEY_DISPLAY) && |text| < TWO_64 && Has(buf, p, Encode(Text(text)))
    ensures UserField(buf, p, key, req)
         == if |text| >= MAX_USER_NAME then None
            else Some((if key == KEY_NAME then req.(userName := CStr(text)) else req.(userDisplay := CStr(text)),
                       p + |Encode(Text(text))|))
  {
    hide Encode;
    hide ReadHead;
    hide ReadString;
    ReadTextItem(buf, p, text);
  }

  lemma UserDisplay(buf: seq<byte>, pos: nat, display: seq<byte>, req: MakeReq)
    requires |display| < TWO_64 && Has(buf, pos, EncodeAll(Pair(Text(KEY_DISPLAY), Text(display), [])))
    ensures UserFields(buf, pos, 1, req)
         == if |display| >= MAX_USER_NAME then None
            else Some((req.(userDisplay := CStr(display)), pos + |EncodeAll(Pair(Text(KEY_DISPLAY), Text(display), []))|))
  {
    hide Encode;
    hide Pair;
    hide Text;
    hide UserField;
    hide CStr;
    var p, q := NextPair(buf, pos, Text(KEY_DISPLAY), Text(display), []);
    NameField(buf, p, KEY_DISPLAY, display, req);
    UserStep(buf, pos, 1, req, KEY_DISPLAY, p, UserField(buf, p, KEY_DISPLAY, req));
  }

  lemma UserNames(buf: seq<byte>, pos: nat, u: User, req: MakeReq)
    requires u.Sized()
    requires Has(buf, pos, EncodeAll(Pair(Text(KEY_NAME), Text(u.name), Pair(Text(KEY_DISPLAY), Text(u.display), []))))
    ensures UserFields(buf, pos, 2, req)
         == if |u.name| < MAX_USER_NAME && |u.display| < MAX_USER_NAME
            then Some((req.(userName := CStr(u.name), userDisplay := CStr(u.display)),
                       pos + |EncodeAll(Pair(Text(KEY_NAME), Text(u.name), Pair(Text(KEY_DISPLAY), Text(u.display), [])))|))
            else None
  {
    hide Encode;
    hide Pair;
    hide Text;
    hide UserField;
    hide UserFields;
    hide CStr;
    var p, q := NextPair(buf, pos, Text(KEY_NAME), Text(u.name), Pair(Text(KEY_DISPLAY), Text(u.display), []));
    NameField(buf, p, KEY_NAME, u.name, req);
    UserStep(buf, pos, 2, req, KEY_NAME, p, UserField(buf, p, KEY_NAME, req));
    UserDisplay(buf, q, u.display, req.(userName := CStr(u.name)));
  }

  lemma UserFieldsOf(buf: seq<byte>, pos: nat, u: User, req: MakeReq)
    requires u.Sized() && Has(buf, pos, EncodeAll(UserItem(u).items))
    ensures UserFields(buf, pos, 3, req)
         == if u.Fits() then Some((WithUser(u, req), pos + |EncodeAll(UserItem(u).items)|)) else None
  {
    hide Encode;
    hide EncodeHead;
    hide ReadHead;
    hide ReadString;
    hide Pair;
    hide UserFields;
    var rest := Pair(Text(KEY_NAME), Text(u.name), Pair(Text(KEY_DISPLAY), Text(u.display), []));
    var p1, p2 := NextPair(buf, pos, Text(KEY_ID), ByteString(u.id), rest);
    ReadBytesItem(buf, p1, u.id);
    UserStep(buf, pos, 3, req, KEY_ID, p1, UserField(buf, p1, KEY_ID, req));
    UserNames(buf, p2, u, req.(userId := Some(u.id)));
  }

  lemma UserEntry(buf: seq<byte>, p: nat, u: User, req: MakeReq)
    requires u.Sized() && Has(buf, p, Encode(UserItem(u)))
    ensures MakeField(buf, p, 3, req)
         == if u.Fits() then Ok((WithUser(u, req), p + |Encode(UserItem(u))|)) else Err(Invalid)
  {
    hide Encode;
    hide EncodeHead;
    hide ReadHead;
    hide ReadString;
    hide UserFields;
    var item := UserItem(u);
    var start := p + |EncodeHead(item.head)|;
    Open(buf, p, item, start);
    UserFieldsOf(buf, start, u, req);
  }

  lemma ParamFieldsOf(buf: seq<byte>, pos: nat)
    requires Has(buf, pos, EncodeAll(ParamItem().items))
    ensures ParamFields(buf, pos, 2, false, false) == Some((true, pos + |EncodeAll(ParamItem().items)|))
  {
    hide Encode;
    hide EncodeHead;
    hide ReadHead;
    hide ReadString;
    hide ReadInt;
    hide Pair;
    hide Text;
    var p1, p2 := NextPair(buf, pos, Text(KEY_TYPE), Text(PUBLIC_KEY), Pair(Text(KEY_ALG), Int(ALG_ES256), []));
    ReadTextItem(buf, pos, KEY_TYPE);
    ReadTextItem(buf, p1, PUBLIC_KEY);
    var p3, p4 := NextPair(buf, p2, Text(KEY_ALG), Int(ALG_ES256), []);
    ReadTextItem(buf, p2, KEY_ALG);
    ReadIntItem(buf, p3, ALG_ES256);
    assert ParamFields(buf, pos, 2, false, false) == ParamFields(buf, p2, 1, true, false);
    assert ParamFields(buf, p2, 1, true, false) == ParamFields(buf, p4, 0, true, true);
  }

  lemma ParamsField(buf: seq<byte>, p: nat, req: MakeReq)
    requires Has(buf, p, Encode(Array([ParamItem()])))
    ensures MakeField(buf, p, 4, req) == Ok((req, p + |Encode(Array([ParamItem()]))|))
  {
    hide Encode;
    hide EncodeHead;
    hide ReadHead;
    hide ReadString;
    hide ParamFields;
    var item := Array([ParamItem()]);
    var start := p + |EncodeHead(item.head)|;
    Open(buf, p, item, start);
    Next(buf, start, item.items);
    var inner := start + |EncodeHead(ParamItem().head)|;
    Open(buf, start, ParamItem(), inner);
    ParamFieldsOf(buf, inner);
    assert item.items[1..] == [];
    var q := start + |Encode(ParamItem())|;
    assert Params(buf, start, 1, false) == Params(buf, q, 0, true);
  }

  lemma RkUvField(buf: seq<byte>, p: nat, req: MakeReq)
    requires req.options == NO_OPTIONS && Has(buf, p, Encode(RkUvItem()))
    ensures MakeField(buf, p, 7, req) == Ok((req.(options := Options(true, false, false)), p + |Encode(RkUvItem())|))
  {
    hide Encode;
    hide EncodeHead;
    hide ReadHead;
    hide ReadString;
    hide Pair;
    hide Text;
    var start := p + |EncodeHead(RkUvItem().head)|;
    Open(buf, p, RkUvItem(), start);
    var p1, p2 := NextPair(buf, start, Text(KEY_RK), Bool(true), Pair(Text(KEY_UV), Bool(false), []));
    OptionStep(buf, start, 2, NO_OPTIONS, KEY_RK, true, p1, p2);
    var p3, p4 := NextPair(buf, p2, Text(KEY_UV), Bool(false), []);
    OptionStep(buf, p2, 1, Options(true, false, false), KEY_UV, false, p3, p4);
    assert ParseOptions(buf, p4, 0, Options(true, false, false)) == Some((Options(true, false, false), p4));
  }

  lemma MakeStep(buf: seq<byte>, pos: nat, count: nat, req: MakeReq, key: s64, p: nat, r: Parsed<(MakeReq, nat)>)
    requires count > 0 && Has(buf, pos, Encode(Int(key))) && p == pos + |Encode(Int(key))|
    requires MakeField(buf, p, key, req) == r
    ensures MakeFields(buf, pos, count, req)
         == if r.Err? then Err(r.error) else MakeFields(buf, r.value.1, count - 1, r.value.0)
  {
    hide MakeField;
    hide Encode;
    hide ReadInt;
    ReadIntItem(buf, pos, key);
  }

  // The member list read key by key, from the back.

  lemma MakeFromParams(buf: seq<byte>, pos: nat, req: MakeReq)
    requires req.options == NO_OPTIONS
    requires Has(buf, pos, EncodeAll(Pair(Int(4), Array([ParamItem()]), Pair(Int(7), RkUvItem(), []))))
    ensures var r := MakeFields(buf, pos, 2, req);
      r.Ok? && r.value.0 == req.(options := Options(true, false, false))
  {
    hide Encode;
    hide Has;
    hide Pair;
    hide MakeField;
    var p, q := NextPair(buf, pos, Int(4), Array([ParamItem()]), Pair(Int(7), RkUvItem(), []));
    ParamsField(buf, p, req);
    MakeStep(buf, pos, 2, req, 4, p, Ok((req, q)));
    var p', q' := NextPair(buf, q, Int(7), RkUvItem(), []);
    RkUvField(buf, p', req);
    MakeStep(buf, q, 1, req, 7, p', Ok((req.(options := Options(true, false, false)), q')));
  }

  lemma MakeFromUser(buf: seq<byte>, pos: nat, u: User, req: MakeReq)
    requires u.Sized() && req.options == NO_OPTIONS
    requires Has(buf, pos, EncodeAll(Pair(Int(3), UserItem(u), Pair(Int(4), Array([ParamItem()]), Pair(Int(7), RkUvItem(), [])))))
    ensures var r := MakeFields(buf, pos, 3, req);
      if u.Fits() then r.Ok? && r.value.0 == WithUser(u, req).(options := Options(true, false, false)) else r == Err(Invalid)
  {
    hide Encode;
    hide Has;
    hide Pair;
    hide MakeField;
    hide MakeFields;
    var p, q := NextPair(buf, pos, Int(3), UserItem(u), Pair(Int(4), Array([ParamItem()]), Pair(Int(7), RkUvItem(), [])));
    UserEntry(buf, p, u, req);
    if u.Fits() {
      MakeStep(buf, pos, 3, req, 3, p, Ok((WithUser(u, req), q)));
      MakeFromParams(buf, q, WithUser(u, req));
    } else {
      MakeStep(buf, pos, 3, req, 3, p, Err(Invalid));
    }
  }

  lemma MakeFromHash(buf: seq<byte>, pos: nat, hash: seq<byte>, rpId: seq<byte>, rpName: seq<byte>, u: User, req: MakeReq)
    requires |hash| == 32 && |rpId| < TWO_64 && |rpName| < TWO_64 && u.Sized()
    requires req.options == NO_OPTIONS && req.rpId == None
    requires Has(buf, pos, EncodeAll(MakeMembers(hash, rpId, rpName, u)))
    ensures var r := MakeFields(buf, pos, 5, req);
      var rp := if |rpId| < MAX_RP_ID then Some(CStr(rpId)) else None;
      if u.Fits()
      then r.Ok? && r.value.0 == WithUser(u, req.(hash := Some(hash), rpId := rp)).(options := Options(true, false, false))
      else r == Err(Invalid)
  {
    hide Encode;
    hide Has;
    hide Pair;
    hide MakeField;
    hide MakeFields;
    hide CStr;
    var tail := Pair(Int(3), UserItem(u), Pair(Int(4), Array([ParamItem()]), Pair(Int(7), RkUvItem(), [])));
    var p, q := NextPair(buf, pos, Int(1), ByteString(hash), Pair(Int(2), RpItem(rpId, rpName), tail));
    var r1 := req.(hash := Some(hash));
    HashField(buf, p, hash, req);
    MakeStep(buf, pos, 5, req, 1, p, Ok((r1, q)));
    var p', q' := NextPair(buf, q, Int(2), RpItem(rpId, rpName), tail);
    var r2 := r1.(rpId := if |rpId| < MAX_RP_ID then Some(CStr(rpId)) else None);
    RpField(buf, p', rpId, rpName, r1);
    MakeStep(buf, q, 4, r1, 2, p', Ok((r2, q')));
    MakeFromUser(buf, q', u, r2);
  }

  /** The kernel recovers every makeCredential envelope whose fields fit its request structure, and refuses the others. */
  lemma MakeCredentialRoundTrip(hash: seq<byte>, rpId: seq<byte>, rpName: seq<byte>, u: User)
    requires |hash| == 32 && |rpId| < TWO_64 && |rpName| < TWO_64 && u.Sized()
    ensures ParseMakeCredential(Encode(MakeEnvelope(hash, rpId, rpName, u)))
         == if |rpId| < MAX_RP_ID && u.Fits()
            then Ok(MakeReq(Some(hash), Some(CStr(rpId)), Some(u.id), CStr(u.name), CStr(u.display),
                            Options(true, false, false), false, false, []))
            else Err(Invalid)
  {
    hide Encode;
    hide MakeFields;
    hide EncodeHead;
    hide ReadHead;
    hide ReadString;
    hide MakeMembers;
    hide CStr;
    var item := MakeEnvelope(hash, rpId, rpName, u);
    var buf := Encode(item);
    var start := |EncodeHead(item.head)|;
    assert buf[0..0 + |buf|] == buf;
    Open(buf, 0, item, start);
    MakeFromHash(buf, start, hash, rpId, rpName, u, EMPTY_MAKE);
  }
}
