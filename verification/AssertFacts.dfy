/** What a getAssertion request with each key at most once comes to: every field from its own key, in whatever order the keys
    stand. */
module AssertFacts {
  import opened Bytes
  import opened Cbor
  import opened RequestParsers
  import opened RequestMeaning
  import opened AssertReading
  import M = MakeFacts

  function RpIn(v: Item): Option<seq<byte>> {
    if TextOf(v).Some? then Some(CStr(TextOf(v).value)) else None
  }

  function HmacIn(v: Item): Option<HmacInput> {
    if MapOf(v).None? then None else
      match Fold(MapOf(v).value, None, AssertExtension)
      case Some(hmac) => hmac
      case None => None
  }

  /** The request `req` with the fields that `m` has a key for; "rk" means nothing here. */
  function With(req: AssertReq, m: seq<Item>): AssertReq {
    AssertReq(
      if M.ValueOf(m, 2).Some? then BytesOf(M.ValueOf(m, 2).value) else req.hash,
      if M.ValueOf(m, 1).Some? then RpIn(M.ValueOf(m, 1).value) else req.rpId,
      if M.ValueOf(m, 5).Some? then M.OptionsIn(M.ValueOf(m, 5).value).(rk := false) else req.options,
      req.pinAuth || M.ValueOf(m, 6).Some?,
      if M.ValueOf(m, 4).Some? then HmacIn(M.ValueOf(m, 4).value) else req.hmac,
      if M.ValueOf(m, 3).Some? then M.ListIn(M.ValueOf(m, 3).value) else req.allow)
  }

  predicate Unset(req: AssertReq, m: seq<Item>) {
    && (M.ValueOf(m, 3).Some? ==> req.allow == [])
    && (M.ValueOf(m, 4).Some? ==> req.hmac == None)
    && (M.ValueOf(m, 5).Some? ==> req.options == NO_OPTIONS)
  }

  /** Every member can be taken. */
  predicate Taken(m: seq<Item>)
    decreases |m|
  {
    |m| < 2 || (IntOf(m[0]).Some? && AssertMember(EMPTY_ASSERT, IntOf(m[0]).value, m[1]).Some? && Taken(m[2..]))
  }

  /** On a request without the field, a member is taken or refused as it is alone, and sets its field. */
  lemma MemberAlone(req: AssertReq, k: Item, v: Item)
    requires IntOf(k).Some? && Unset(req, [k, v]) && M.ListFits([k, v], 3)
    ensures var key := IntOf(k).value;
      AssertMember(req, key, v) == if AssertMember(EMPTY_ASSERT, key, v).None? then None else Some((With(req, [k, v]), []))
  {
    hide Fold;
    hide IntOf;
    hide DescriptorsOf;
    hide CStr;
    var key := IntOf(k).value;
    forall other: s64
      ensures M.ValueOf([k, v], other) == if other == key then Some(v) else None
    {
      assert M.ValueOf([k, v][2..], other) == None;
    }
    if key == 3 && ArrayOf(v).Some? {
      M.ListExact(ArrayOf(v).value, []);
    }
  }

  lemma WithSplit(req: AssertReq, m: seq<Item>)
    requires |m| >= 2 && IntOf(m[0]).Some? && M.ValueOf(m[2..], IntOf(m[0]).value).None? && Unset(req, m) && M.ListFits(m, 3)
    ensures var one, rest := [m[0], m[1]], m[2..];
      && Unset(req, one) && M.ListFits(one, 3) && Unset(With(req, one), rest) && M.ListFits(rest, 3)
      && With(With(req, one), rest) == With(req, m)
  {
    hide IntOf;
    hide M.ValueOf;
    hide RpIn;
    hide HmacIn;
    hide M.OptionsIn;
    hide M.ListIn;
    forall key: s64
      ensures M.ValueOf(m, key) == if IntOf(m[0]) == Some(key) then Some(m[1]) else M.ValueOf(m[2..], key)
      ensures M.ValueOf([m[0], m[1]], key) == if IntOf(m[0]) == Some(key) then Some(m[1]) else None
    {
      M.ValueStep(m, m[0], m[1], m[2..], key);
    }
  }

  lemma {:induction false} KeyedMembers(m: seq<Item>, count: nat, req: AssertReq)
    requires |m| == 2 * count && M.Keyed(m) && Unset(req, m) && M.ListFits(m, 3)
    ensures AssertMembers(m, count, req) == if Taken(m) then Some(With(req, m)) else None
    decreases count
  {
    hide AssertMember;
    hide IntOf;
    hide Unset;
    hide M.ListFits;
    if count == 0 {
      NoMembers(req, m);
    } else if IntOf(m[0]).Some? {
      WithSplit(req, m);
      var one, rest := [m[0], m[1]], m[2..];
      MemberAlone(req, m[0], m[1]);
      if AssertMember(EMPTY_ASSERT, IntOf(m[0]).value, m[1]).Some? {
        assert [] + rest == rest;
        KeyedMembers(rest, count - 1, With(req, one));
      }
    }
  }

  lemma NoMembers(req: AssertReq, m: seq<Item>)
    requires m == []
    ensures With(req, m) == req
  {
  }

  /** A request map with each key at most once, its keys in any order: refused if a member cannot be taken, or for want of a
      hash or a relying party id; else every field is what its own key says. */
  lemma KeyedRequest(i: Item, buf: seq<byte>)
    requires i.WellFormed() && Has(buf, 0, Encode(i)) && MapOf(i).Some? && M.Keyed(i.items) && M.ListFits(i.items, 3)
    ensures var req := With(EMPTY_ASSERT, i.items);
      ParseGetAssertion(buf) == if Taken(i.items) && req.hash.Some? && req.rpId.Some? then Some(req) else None
  {
    hide With;
    hide Taken;
    hide ParseGetAssertion;
    hide Encode;
    hide M.Keyed;
    hide M.ListFits;
    GetAssertionThere(i, buf);
    KeyedMembers(i.items, |i.items| / 2, EMPTY_ASSERT);
  }
}
