/** Requests with every key the standard has (CTAP 2.1, sections 6.1 and 6.2), written out and parsed back. */
module FullRequests {
  import opened Bytes
  import opened Cbor
  import opened CborMaps
  import opened RequestParsers
  import opened RequestMeaning
  import E = Envelopes
  import K = MakeEnvelopes
  import M = MakeFacts
  import A = AssertFacts
  import Responses
  import RequestReading
  import AssertReading

  // ----- reading written members -----

  lemma Written(v: s64, b: bool, s: seq<byte>)
    requires |s| < TWO_64
    ensures IntOf(Int(v)) == Some(v) && TextOf(Int(v)).None?
    ensures BoolOf(Bool(b)) == Some(b) && Bool(b) == Atom(Head(7, Inline, if b then 21 else 20))
    ensures TextOf(Text(s)) == Some(s) && BytesOf(ByteString(s)) == Some(s)
  {
  }

  lemma KeyPair(k: s64, v: Item, rest: seq<Item>)
    requires v.WellFormed() && AllWellFormed(rest)
    ensures forall key: s64 :: M.ValueOf(Pair(Int(k), v, rest), key) == if k == key then Some(v) else M.ValueOf(rest, key)
    ensures forall key: s64 :: M.ValueOf([], key) == None
    ensures M.Keyed(Pair(Int(k), v, rest)) <==> M.ValueOf(rest, k).None? && M.Keyed(rest)
    ensures M.Keyed([])
    ensures M.Refusal(Pair(Int(k), v, rest)) ==
      match MakeMember(EMPTY_MAKE, k, v) case Err(e) => Some(e) case Ok(_) => M.Refusal(rest)
    ensures M.Refusal([]) == None
    ensures A.Taken(Pair(Int(k), v, rest)) <==> AssertMember(EMPTY_ASSERT, k, v).Some? && A.Taken(rest)
    ensures A.Taken([])
  {
    hide MakeMember;
    hide AssertMember;
    Written(k, false, []);
    assert Pair(Int(k), v, rest)[2..] == rest;
  }

  lemma FoldPair<S>(k: Item, v: Item, rest: seq<Item>, s: S, member: (S, Item, Item) -> Option<S>)
    requires k.WellFormed() && v.WellFormed() && AllWellFormed(rest)
    ensures Fold(Pair(k, v, rest), s, member) ==
      if member(s, k, v).None? then None else Fold(rest, member(s, k, v).value, member)
    ensures Fold([], s, member) == Some(s)
  {
    assert Pair(k, v, rest)[2..] == rest;
  }

  lemma OpenMap(items: seq<Item>)
    requires AllWellFormed(items) && |items| < TWO_64
    ensures |items| % 2 == 0 ==> MapOf(Map(items)) == Some(items)
    ensures ArrayOf(Array(items)) == Some(items)
  {
  }

  // ----- the parts of a makeCredential -----

  lemma RpMemberIs(k: Item, v: Item, key: seq<byte>, text: seq<byte>, rp: Option<seq<byte>>)
    requires TextOf(k) == Some(key) && TextOf(v) == Some(text)
    ensures RpMember(rp, k, v) == Some(if key == KEY_ID && |text| <= 127 then Some(CStr(text)) else rp)
  {
    hide CStr;
  }

  lemma RpFold(rpId: seq<byte>, rpName: seq<byte>)
    requires |rpId| < TWO_64 && |rpName| < TWO_64
    ensures Fold(Pair(Text(KEY_ID), Text(rpId), Pair(Text(KEY_NAME), Text(rpName), [])), None, RpMember)
         == Some(if |rpId| <= 127 then Some(CStr(rpId)) else None)
  {
    hide Pair;
    hide Fold;
    hide Text;
    hide CStr;
    hide TextOf;
    hide RpMember;
    Written(0, false, KEY_ID);
    Written(0, false, KEY_NAME);
    Written(0, false, rpId);
    Written(0, false, rpName);
    var tail := Pair(Text(KEY_NAME), Text(rpName), []);
    var rp: Option<seq<byte>> := if |rpId| <= 127 then Some(CStr(rpId)) else None;
    FoldPair(Text(KEY_ID), Text(rpId), tail, None, RpMember);
    RpMemberIs(Text(KEY_ID), Text(rpId), KEY_ID, rpId, None);
    FoldPair(Text(KEY_NAME), Text(rpName), [], rp, RpMember);
    RpMemberIs(Text(KEY_NAME), Text(rpName), KEY_NAME, rpName, rp);
  }

  lemma RpTaken(v: Item, members: seq<Item>, rp: Option<seq<byte>>)
    requires MapOf(v) == Some(members) && Fold(members, None, RpMember) == Some(rp)
    ensures MakeMember(EMPTY_MAKE, 2, v) == Ok((EMPTY_MAKE.(rpId := rp), [])) && M.RpIn(v) == rp
  {
    hide Fold;
  }

  lemma RpPart(rpId: seq<byte>, rpName: seq<byte>)
    requires |rpId| < TWO_64 && |rpName| < TWO_64
    ensures var v := K.RpItem(rpId, rpName);
      && MakeMember(EMPTY_MAKE, 2, v).Ok?
      && M.RpIn(v) == if |rpId| <= 127 then Some(CStr(rpId)) else None
  {
    hide Pair;
    hide Fold;
    hide Text;
    hide CStr;
    hide MakeMember;
    hide M.RpIn;
    hide RpMember;
    var members := Pair(Text(KEY_ID), Text(rpId), Pair(Text(KEY_NAME), Text(rpName), []));
    RpFold(rpId, rpName);
    OpenMap(members);
    RpTaken(K.RpItem(rpId, rpName), members, if |rpId| <= 127 then Some(CStr(rpId)) else None);
  }

  lemma UserPart(u: K.User)
    requires u.Sized()
    ensures var v := K.UserItem(u);
      if u.Fits() then MakeMember(EMPTY_MAKE, 3, v).Ok?
                       && M.UserIn(v) == EMPTY_MAKE.(userId := Some(u.id), userName := CStr(u.name), userDisplay := CStr(u.display))
      else MakeMember(EMPTY_MAKE, 3, v) == Err(Invalid)
  {
    hide Pair;
    hide Fold;
    hide Text;
    hide ByteString;
    hide CStr;
    Written(0, false, KEY_ID);
    Written(0, false, KEY_NAME);
    Written(0, false, KEY_DISPLAY);
    Written(0, false, u.id);
    Written(0, false, u.name);
    Written(0, false, u.display);
    var last := Pair(Text(KEY_DISPLAY), Text(u.display), []);
    var tail := Pair(Text(KEY_NAME), Text(u.name), last);
    OpenMap(Pair(Text(KEY_ID), ByteString(u.id), tail));
    FoldPair(Text(KEY_ID), ByteString(u.id), tail, EMPTY_MAKE, UserMember);
    var a := EMPTY_MAKE.(userId := Some(u.id));
    FoldPair(Text(KEY_NAME), Text(u.name), last, a, UserMember);
    var b := a.(userName := CStr(u.name));
    FoldPair(Text(KEY_DISPLAY), Text(u.display), [], b, UserMember);
    FoldPair(Text(KEY_DISPLAY), Text(u.display), [], b.(userDisplay := CStr(u.display)), UserMember);
  }

  /** One offered algorithm. */
  function ParamItem(alg: s64): (item: Item)
    ensures item.WellFormed()
  {
    Map(Pair(Text(KEY_TYPE), Text(PUBLIC_KEY), Pair(Text(KEY_ALG), Int(alg), [])))
  }

  lemma ParamIs(alg: s64)
    ensures ParamOf(ParamItem(alg)) == Some(alg == -7)
  {
    hide Pair;
    hide Fold;
    hide Text;
    hide Int;
    Written(alg, false, KEY_TYPE);
    Written(alg, false, KEY_ALG);
    Written(alg, false, PUBLIC_KEY);
    var tail := Pair(Text(KEY_ALG), Int(alg), []);
    OpenMap(Pair(Text(KEY_TYPE), Text(PUBLIC_KEY), tail));
    FoldPair(Text(KEY_TYPE), Text(PUBLIC_KEY), tail, (false, false), ParamMember);
    FoldPair(Text(KEY_ALG), Int(alg), [], (true, false), ParamMember);
    FoldPair(Text(KEY_ALG), Int(alg), [], (true, alg == -7), ParamMember);
  }

  function ParamItems(algs: seq<s64>): (items: seq<Item>)
    ensures |items| == |algs| && AllWellFormed(items) && forall i :: 0 <= i < |algs| ==> items[i] == ParamItem(algs[i])
  {
    seq(|algs|, i requires 0 <= i < |algs| => ParamItem(algs[i]))
  }

  /** A parameter list is taken exactly if ES256 is among its algorithms. */
  lemma ParamsPart(algs: seq<s64>)
    requires |algs| < TWO_64
    ensures MakeMember(EMPTY_MAKE, 4, Array(ParamItems(algs))) == if -7 in algs then Ok((EMPTY_MAKE, [])) else Err(UnsupportedAlgorithm)
  {
    hide ParamOf;
    hide ParamItem;
    var items := ParamItems(algs);
    forall i | 0 <= i < |algs|
      ensures ParamOf(items[i]) == Some(algs[i] == -7)
    {
      ParamIs(algs[i]);
    }
    OpenMap(items);
    if -7 in algs {
      var i :| 0 <= i < |algs| && algs[i] == -7;
      assert ParamOf(items[i]) == Some(true);
    }
  }

  lemma DescriptorIs(id: seq<byte>)
    requires |id| < TWO_64
    ensures DescriptorOf(E.DescriptorItem(id)) == if |id| <= 32 then Some(Descriptor(true, id)) else None
  {
    hide Pair;
    hide Fold;
    hide Text;
    hide ByteString;
    Written(0, false, KEY_TYPE);
    Written(0, false, PUBLIC_KEY);
    Written(0, false, KEY_ID);
    Written(0, false, id);
    var none := Descriptor(false, []);
    var tail := Pair(Text(KEY_ID), ByteString(id), []);
    OpenMap(Pair(Text(KEY_TYPE), Text(PUBLIC_KEY), tail));
    FoldPair(Text(KEY_TYPE), Text(PUBLIC_KEY), tail, none, DescriptorMember);
    FoldPair(Text(KEY_ID), ByteString(id), [], none, DescriptorMember);
    FoldPair(Text(KEY_ID), ByteString(id), [], Descriptor(true, id), DescriptorMember);
  }

  /** Up to 32 ids of up to 32 bytes come back in their order; one longer id refuses the list. */
  lemma ListIs(ids: seq<seq<byte>>)
    requires E.Sized(ids) && |ids| <= 32
    ensures DescriptorsOf(E.DescriptorItems(ids), []) == if E.Short(ids) then Some((E.Present(ids), [])) else None
    ensures ArrayOf(Array(E.DescriptorItems(ids))) == Some(E.DescriptorItems(ids))
  {
    hide E.DescriptorItem;
    hide DescriptorOf;
    hide DescriptorsOf;
    var items := E.DescriptorItems(ids);
    forall i | 0 <= i < |ids|
      ensures DescriptorOf(items[i]) == if |ids[i]| <= 32 then Some(Descriptor(true, ids[i])) else None
    {
      DescriptorIs(ids[i]);
    }
    M.ListExact(items, []);
    OpenMap(items);
    if E.Short(ids) {
      assert DescriptorsOf(items, []).value.0 == E.Present(ids);
    }
  }

  /** How a client asks for a secret at registration. */
  datatype HmacForm = Plain(yes: bool) | Create(yes: bool) | NoDetails | Other(number: s64)

  function FormItem(f: HmacForm): (item: Item)
    ensures item.WellFormed()
  {
    match f
    case Plain(yes) => Bool(yes)
    case Create(yes) => Map(Pair(Int(1), Bool(yes), []))
    case NoDetails => Map([])
    case Other(number) => Int(number)
  }

  predicate Asks(f: HmacForm) {
    match f
    case Plain(yes) => yes
    case Create(yes) => yes
    case NoDetails => true
    case Other(_) => false
  }

  function HmacItem(f: HmacForm): (item: Item)
    ensures item.WellFormed()
  {
    Map(Pair(Text(HMAC_SECRET), FormItem(f), []))
  }

  lemma FormIs(f: HmacForm)
    ensures CreateOf(false, FormItem(f)) == Some(Asks(f))
  {
    hide Pair;
    hide Fold;
    match f
    case Plain(yes) => Written(0, yes, []);
    case Create(yes) =>
      Written(1, yes, []);
      OpenMap(Pair(Int(1), Bool(yes), []));
      FoldPair(Int(1), Bool(yes), [], true, CreateMember);
      FoldPair(Int(1), Bool(yes), [], yes, CreateMember);
    case NoDetails =>
      OpenMap([]);
      FoldPair(Int(1), Bool(true), [], true, CreateMember);
    case Other(number) => Written(number, false, []);
  }

  lemma HmacPart(f: HmacForm)
    ensures MakeMember(EMPTY_MAKE, 6, HmacItem(f)).Ok? && M.HmacIn(HmacItem(f)) == Asks(f)
  {
    hide Pair;
    hide Fold;
    hide FormItem;
    hide CreateOf;
    hide Text;
    FormIs(f);
    Written(0, false, HMAC_SECRET);
    OpenMap(Pair(Text(HMAC_SECRET), FormItem(f), []));
    FoldPair(Text(HMAC_SECRET), FormItem(f), [], false, MakeExtension);
    FoldPair(Text(HMAC_SECRET), FormItem(f), [], Asks(f), MakeExtension);
  }

  function OptionsItem(rk: bool, uv: bool, up: bool): (item: Item)
    ensures item.WellFormed()
  {
    Map(Pair(Text(KEY_RK), Bool(rk), Pair(Text(KEY_UV), Bool(uv), Pair(Text(KEY_UP), Bool(up), []))))
  }

  lemma OptionsPart(rk: bool, uv: bool, up: bool)
    ensures var v := OptionsItem(rk, uv, up);
      && MapOf(v).Some? && Fold(MapOf(v).value, NO_OPTIONS, OptionMember) == Some(Options(rk, uv, !up))
  {
    hide Pair;
    hide Fold;
    hide Text;
    hide Bool;
    Written(0, rk, KEY_RK);
    Written(0, uv, KEY_UV);
    Written(0, up, KEY_UP);
    var last := Pair(Text(KEY_UP), Bool(up), []);
    var tail := Pair(Text(KEY_UV), Bool(uv), last);
    OpenMap(Pair(Text(KEY_RK), Bool(rk), tail));
    FoldPair(Text(KEY_RK), Bool(rk), tail, NO_OPTIONS, OptionMember);
    FoldPair(Text(KEY_UV), Bool(uv), last, Options(rk, false, false), OptionMember);
    FoldPair(Text(KEY_UP), Bool(up), [], Options(rk, uv, false), OptionMember);
    FoldPair(Text(KEY_UP), Bool(up), [], Options(rk, uv, !up), OptionMember);
  }

  lemma PlainParts(hash: seq<byte>, pin: seq<byte>, protocol: s64)
    requires |hash| == 32 && |pin| < TWO_64 && protocol >= 0
    ensures MakeMember(EMPTY_MAKE, 1, ByteString(hash)).Ok? && BytesOf(ByteString(hash)) == Some(hash)
    ensures MakeMember(EMPTY_MAKE, 8, ByteString(pin)).Ok? && MakeMember(EMPTY_MAKE, 9, Int(protocol)).Ok?
  {
  }

  lemma ListPart(ids: seq<seq<byte>>)
    requires E.Sized(ids) && |ids| <= 32
    ensures var v := Array(E.DescriptorItems(ids));
      && v.List? && |v.items| <= 32
      && (if E.Short(ids) then MakeMember(EMPTY_MAKE, 5, v).Ok? && M.ListIn(v) == E.Present(ids) else MakeMember(EMPTY_MAKE, 5, v) == Err(Invalid))
  {
    hide DescriptorsOf;
    hide E.DescriptorItems;
    ListIs(ids);
  }

  lemma OptionsTaken(rk: bool, uv: bool, up: bool)
    ensures var v := OptionsItem(rk, uv, up);
      MakeMember(EMPTY_MAKE, 7, v).Ok? && M.OptionsIn(v) == Options(rk, uv, !up)
  {
    hide Fold;
    hide OptionsItem;
    OptionsPart(rk, uv, up);
  }

  // ----- a whole makeCredential -----

  datatype MakeParts = MakeParts(
    hash: seq<byte>, rpId: seq<byte>, rpName: seq<byte>, user: K.User, algs: seq<s64>, ids: seq<seq<byte>>,
    form: HmacForm, rk: bool, uv: bool, up: bool, pin: seq<byte>, protocol: s64)
  {
    predicate Sized() {
      && |hash| == 32 && |rpId| < TWO_64 && |rpName| < TWO_64 && user.Sized() && |algs| < TWO_64
      && E.Sized(ids) && |ids| <= 32 && |pin| < TWO_64 && protocol >= 0
    }
  }

  function MakeTail(p: MakeParts): (m: seq<Item>)
    requires p.Sized()
    ensures AllWellFormed(m) && |m| == 10
  {
    Pair(Int(5), Array(E.DescriptorItems(p.ids)), Pair(Int(6), HmacItem(p.form), Pair(Int(7), OptionsItem(p.rk, p.uv, p.up),
    Pair(Int(8), ByteString(p.pin), Pair(Int(9), Int(p.protocol), [])))))
  }

  function FullMake(p: MakeParts): (m: seq<Item>)
    requires p.Sized()
    ensures AllWellFormed(m) && |m| == 18
  {
    Pair(Int(1), ByteString(p.hash), Pair(Int(2), K.RpItem(p.rpId, p.rpName), Pair(Int(3), K.UserItem(p.user),
    Pair(Int(4), Array(ParamItems(p.algs)), MakeTail(p)))))
  }

  lemma MakeTailIs(p: MakeParts)
    requires p.Sized()
    ensures var m := MakeTail(p);
      && M.Keyed(m) && (forall key :: 1 <= key <= 4 ==> M.ValueOf(m, key) == None)
      && M.Refusal(m) == (if E.Short(p.ids) then None else Some(Invalid))
      && M.ValueOf(m, 5) == Some(Array(E.DescriptorItems(p.ids))) && M.ValueOf(m, 6) == Some(HmacItem(p.form))
      && M.ValueOf(m, 7) == Some(OptionsItem(p.rk, p.uv, p.up)) && M.ValueOf(m, 8) == Some(ByteString(p.pin))
  {
    hide Pair;
    hide M.ValueOf;
    hide M.Keyed;
    hide M.Refusal;
    hide MakeMember;
    hide HmacItem;
    hide OptionsItem;
    hide E.DescriptorItems;
    hide Int;
    hide ByteString;
    hide E.Short;
    var m9 := Pair(Int(9), Int(p.protocol), []);
    var m8 := Pair(Int(8), ByteString(p.pin), m9);
    var m7 := Pair(Int(7), OptionsItem(p.rk, p.uv, p.up), m8);
    var m6 := Pair(Int(6), HmacItem(p.form), m7);
    KeyPair(9, Int(p.protocol), []);
    KeyPair(8, ByteString(p.pin), m9);
    KeyPair(7, OptionsItem(p.rk, p.uv, p.up), m8);
    KeyPair(6, HmacItem(p.form), m7);
    KeyPair(5, Array(E.DescriptorItems(p.ids)), m6);
    PlainParts(p.hash, p.pin, p.protocol);
    ListPart(p.ids);
    HmacPart(p.form);
    OptionsTaken(p.rk, p.uv, p.up);
  }

  lemma FullMakeIs(p: MakeParts)
    requires p.Sized()
    ensures var m := FullMake(p);
      && M.Keyed(m) && M.ListFits(m, 5)
      && M.Refusal(m) == (if !p.user.Fits() then Some(Invalid) else if -7 !in p.algs then Some(UnsupportedAlgorithm)
                          else if E.Short(p.ids) then None else Some(Invalid))
      && M.ValueOf(m, 1) == Some(ByteString(p.hash)) && M.ValueOf(m, 2) == Some(K.RpItem(p.rpId, p.rpName))
      && M.ValueOf(m, 3) == Some(K.UserItem(p.user)) && M.ValueOf(m, 5) == Some(Array(E.DescriptorItems(p.ids)))
      && M.ValueOf(m, 6) == Some(HmacItem(p.form)) && M.ValueOf(m, 7) == Some(OptionsItem(p.rk, p.uv, p.up))
      && M.ValueOf(m, 8) == Some(ByteString(p.pin))
  {
    hide Pair;
    hide M.ValueOf;
    hide M.Keyed;
    hide M.Refusal;
    hide MakeMember;
    hide HmacItem;
    hide OptionsItem;
    hide E.DescriptorItems;
    hide Int;
    hide ByteString;
    hide E.Short;
    hide MakeTail;
    hide ParamItems;
    hide K.RpItem;
    hide K.UserItem;
    hide Array;
    var tail := MakeTail(p);
    var m4 := Pair(Int(4), Array(ParamItems(p.algs)), tail);
    var m3 := Pair(Int(3), K.UserItem(p.user), m4);
    var m2 := Pair(Int(2), K.RpItem(p.rpId, p.rpName), m3);
    MakeTailIs(p);
    KeyPair(4, Array(ParamItems(p.algs)), tail);
    KeyPair(3, K.UserItem(p.user), m4);
    KeyPair(2, K.RpItem(p.rpId, p.rpName), m3);
    KeyPair(1, ByteString(p.hash), m2);
    PlainParts(p.hash, p.pin, p.protocol);
    RpPart(p.rpId, p.rpName);
    UserPart(p.user);
    ParamsPart(p.algs);
    ListPart(p.ids);
  }

  /** A registration with every key: all of it comes back as sent, or it is refused for exactly the part that does not fit; a
      relying party id that is too long counts as missing. */
  lemma FullMakeRoundTrip(p: MakeParts)
    requires p.Sized()
    ensures ParseMakeCredential(Encode(Map(FullMake(p)))) ==
      if p.user.Fits() && -7 !in p.algs then Err(UnsupportedAlgorithm)
      else if !p.user.Fits() || !E.Short(p.ids) || |p.rpId| > 127 then Err(Invalid)
      else Ok(MakeReq(Some(p.hash), Some(CStr(p.rpId)), Some(p.user.id), CStr(p.user.name), CStr(p.user.display),
                      Options(p.rk, p.uv, !p.up), true, Asks(p.form), E.Present(p.ids)))
  {
    hide Encode;
    hide ParseMakeCredential;
    hide M.ValueOf;
    hide M.Keyed;
    hide M.Refusal;
    hide M.ListFits;
    hide M.RpIn;
    hide M.UserIn;
    hide M.OptionsIn;
    hide M.HmacIn;
    hide M.ListIn;
    hide MakeMember;
    hide HmacItem;
    hide OptionsItem;
    hide FullMake;
    hide E.DescriptorItems;
    hide E.Short;
    hide K.RpItem;
    hide K.UserItem;
    hide Array;
    hide ByteString;
    hide CStr;
    var m := FullMake(p);
    var buf := Encode(Map(m));
    assert buf[0..0 + |buf|] == buf;
    OpenMap(m);
    FullMakeIs(p);
    M.KeyedRequest(Map(m), buf);
    PlainParts(p.hash, p.pin, p.protocol);
    RpPart(p.rpId, p.rpName);
    UserPart(p.user);
    ListPart(p.ids);
    HmacPart(p.form);
    OptionsTaken(p.rk, p.uv, p.up);
  }

  // ----- a whole getAssertion -----

  datatype AssertParts = AssertParts(
    rpId: seq<byte>, hash: seq<byte>, ids: seq<seq<byte>>, xy: seq<byte>, saltEnc: seq<byte>, saltAuth: seq<byte>,
    uv: bool, up: bool, pin: seq<byte>, protocol: s64)
  {
    predicate Sized() {
      && |hash| == 32 && |rpId| < TWO_64 && E.Sized(ids) && |ids| <= 32 && |xy| == 64
      && |saltEnc| < TWO_64 && |saltAuth| < TWO_64 && |pin| < TWO_64 && protocol >= 0
    }
  }

  function SaltsItem(p: AssertParts): (item: Item)
    requires p.Sized()
    ensures item.WellFormed()
  {
    Map(Pair(Int(1), Responses.CoseItem(p.xy), Pair(Int(2), ByteString(p.saltEnc), Pair(Int(3), ByteString(p.saltAuth), []))))
  }

  function SecretItem(p: AssertParts): (item: Item)
    requires p.Sized()
    ensures item.WellFormed()
  {
    Map(Pair(Text(HMAC_SECRET), SaltsItem(p), []))
  }

  lemma CoseIs(xy: seq<byte>)
    requires |xy| == 64
    ensures CoseKeyOf(Responses.CoseItem(xy)) == Some(xy)
  {
    hide Encode;
    hide ReadCoseKey;
    hide CoseKeyOf;
    hide Responses.CoseItem;
    var buf := Encode(Responses.CoseItem(xy));
    assert buf[0..0 + |buf|] == buf;
    Responses.CoseRoundTrip(buf, 0, xy);
    AssertReading.CoseKeyThere(buf, 0, Responses.CoseItem(xy));
  }

  lemma SaltsAre(p: AssertParts)
    requires p.Sized()
    ensures MapOf(SaltsItem(p)).Some?
    ensures Fold(MapOf(SaltsItem(p)).value, HmacInput(None, None, None), HmacMember)
         == if |p.saltEnc| == 64 && |p.saltAuth| == 16 then Some(HmacInput(Some(p.xy), Some(p.saltEnc), Some(p.saltAuth))) else None
  {
    hide Pair;
    hide Fold;
    hide Int;
    hide ByteString;
    hide CoseKeyOf;
    hide Responses.CoseItem;
    CoseIs(p.xy);
    Written(1, false, []);
    Written(2, false, p.saltEnc);
    Written(3, false, p.saltAuth);
    var key := Responses.CoseItem(p.xy);
    var last := Pair(Int(3), ByteString(p.saltAuth), []);
    var tail := Pair(Int(2), ByteString(p.saltEnc), last);
    OpenMap(Pair(Int(1), key, tail));
    FoldPair(Int(1), key, tail, HmacInput(None, None, None), HmacMember);
    FoldPair(Int(2), ByteString(p.saltEnc), last, HmacInput(Some(p.xy), None, None), HmacMember);
    var two := HmacInput(Some(p.xy), Some(p.saltEnc), None);
    FoldPair(Int(3), ByteString(p.saltAuth), [], two, HmacMember);
    FoldPair(Int(3), ByteString(p.saltAuth), [], two.(saltAuth := Some(p.saltAuth)), HmacMember);
  }

  lemma SecretPart(p: AssertParts)
    requires p.Sized()
    ensures var v := SecretItem(p);
      if |p.saltEnc| == 64 && |p.saltAuth| == 16
      then AssertMember(EMPTY_ASSERT, 4, v).Some? && A.HmacIn(v) == Some(HmacInput(Some(p.xy), Some(p.saltEnc), Some(p.saltAuth)))
      else AssertMember(EMPTY_ASSERT, 4, v) == None
  {
    hide Pair;
    hide Fold;
    hide Text;
    hide SaltsItem;
    SaltsAre(p);
    Written(0, false, HMAC_SECRET);
    var salts := SaltsItem(p);
    var found: Option<HmacInput> := Some(HmacInput(Some(p.xy), Some(p.saltEnc), Some(p.saltAuth)));
    OpenMap(Pair(Text(HMAC_SECRET), salts, []));
    FoldPair(Text(HMAC_SECRET), salts, [], None, AssertExtension);
    FoldPair(Text(HMAC_SECRET), salts, [], found, AssertExtension);
  }

  lemma PlainAssertParts(p: AssertParts)
    requires p.Sized()
    ensures AssertMember(EMPTY_ASSERT, 1, Text(p.rpId)).Some? == (|p.rpId| <= 127) && A.RpIn(Text(p.rpId)) == Some(CStr(p.rpId))
    ensures AssertMember(EMPTY_ASSERT, 2, ByteString(p.hash)).Some? && BytesOf(ByteString(p.hash)) == Some(p.hash)
    ensures AssertMember(EMPTY_ASSERT, 6, ByteString(p.pin)).Some? && AssertMember(EMPTY_ASSERT, 7, Int(p.protocol)).Some?
  {
    hide CStr;
  }

  lemma NestedAssertParts(p: AssertParts)
    requires p.Sized()
    ensures var v := Array(E.DescriptorItems(p.ids));
      && v.List? && |v.items| <= 32
      && AssertMember(EMPTY_ASSERT, 3, v).Some? == E.Short(p.ids) && (E.Short(p.ids) ==> M.ListIn(v) == E.Present(p.ids))
    ensures var v := OptionsItem(false, p.uv, p.up);
      AssertMember(EMPTY_ASSERT, 5, v).Some? && M.OptionsIn(v) == Options(false, p.uv, !p.up)
  {
    hide Fold;
    hide OptionsItem;
    hide DescriptorsOf;
    hide E.DescriptorItems;
    hide E.Short;
    ListIs(p.ids);
    OptionsPart(false, p.uv, p.up);
  }

  function FullAssert(p: AssertParts): (m: seq<Item>)
    requires p.Sized()
    ensures AllWellFormed(m) && |m| == 14
  {
    Pair(Int(1), Text(p.rpId), Pair(Int(2), ByteString(p.hash), Pair(Int(3), Array(E.DescriptorItems(p.ids)),
    Pair(Int(4), SecretItem(p), Pair(Int(5), OptionsItem(false, p.uv, p.up),
    Pair(Int(6), ByteString(p.pin), Pair(Int(7), Int(p.protocol), [])))))))
  }

  lemma FullAssertIs(p: AssertParts)
    requires p.Sized()
    ensures var m := FullAssert(p);
      && M.Keyed(m) && M.ListFits(m, 3)
      && A.Taken(m) == (|p.rpId| <= 127 && E.Short(p.ids) && |p.saltEnc| == 64 && |p.saltAuth| == 16)
      && M.ValueOf(m, 1) == Some(Text(p.rpId)) && M.ValueOf(m, 2) == Some(ByteString(p.hash))
      && M.ValueOf(m, 3) == Some(Array(E.DescriptorItems(p.ids))) && M.ValueOf(m, 4) == Some(SecretItem(p))
      && M.ValueOf(m, 5) == Some(OptionsItem(false, p.uv, p.up)) && M.ValueOf(m, 6) == Some(ByteString(p.pin))
  {
    hide Pair;
    hide M.ValueOf;
    hide M.Keyed;
    hide A.Taken;
    hide AssertMember;
    hide SecretItem;
    hide OptionsItem;
    hide E.DescriptorItems;
    hide Int;
    hide Text;
    hide ByteString;
    hide Array;
    hide E.Short;
    var m7 := Pair(Int(7), Int(p.protocol), []);
    var m6 := Pair(Int(6), ByteString(p.pin), m7);
    var m5 := Pair(Int(5), OptionsItem(false, p.uv, p.up), m6);
    var m4 := Pair(Int(4), SecretItem(p), m5);
    var m3 := Pair(Int(3), Array(E.DescriptorItems(p.ids)), m4);
    var m2 := Pair(Int(2), ByteString(p.hash), m3);
    KeyPair(7, Int(p.protocol), []);
    KeyPair(6, ByteString(p.pin), m7);
    KeyPair(5, OptionsItem(false, p.uv, p.up), m6);
    KeyPair(4, SecretItem(p), m5);
    KeyPair(3, Array(E.DescriptorItems(p.ids)), m4);
    KeyPair(2, ByteString(p.hash), m3);
    KeyPair(1, Text(p.rpId), m2);
    PlainAssertParts(p);
    NestedAssertParts(p);
    SecretPart(p);
  }

  /** A getAssertion with every key: all of it comes back as sent, the hmac input included, or nothing does. */
  lemma FullAssertRoundTrip(p: AssertParts)
    requires p.Sized()
    ensures ParseGetAssertion(Encode(Map(FullAssert(p)))) ==
      if |p.rpId| <= 127 && E.Short(p.ids) && |p.saltEnc| == 64 && |p.saltAuth| == 16
      then Some(AssertReq(Some(p.hash), Some(CStr(p.rpId)), Options(false, p.uv, !p.up), true,
                          Some(HmacInput(Some(p.xy), Some(p.saltEnc), Some(p.saltAuth))), E.Present(p.ids)))
      else None
  {
    hide Encode;
    hide ParseGetAssertion;
    hide M.ValueOf;
    hide M.Keyed;
    hide A.Taken;
    hide M.ListFits;
    hide A.RpIn;
    hide A.HmacIn;
    hide M.OptionsIn;
    hide M.ListIn;
    hide AssertMember;
    hide SecretItem;
    hide OptionsItem;
    hide FullAssert;
    hide E.DescriptorItems;
    hide E.Short;
    hide Text;
    hide Array;
    hide ByteString;
    hide CStr;
    var m := FullAssert(p);
    var buf := Encode(Map(m));
    assert buf[0..0 + |buf|] == buf;
    OpenMap(m);
    FullAssertIs(p);
    A.KeyedRequest(Map(m), buf);
    PlainAssertParts(p);
    NestedAssertParts(p);
    SecretPart(p);
  }
}
