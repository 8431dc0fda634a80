/** What a makeCredential request with each key at most once comes to: every field from its own key, in whatever order the
    keys stand, and the reason of a refusal. */
module MakeFacts {
  import opened Bytes
  import opened Cbor
  import opened RequestParsers
  import opened RequestMeaning
  import opened RequestReading

  // ----- the member under a key -----

  function ValueOf(m: seq<Item>, key: s64): Option<Item>
    decreases |m|
  {
    if |m| < 2 then None else if IntOf(m[0]) == Some(key) then Some(m[1]) else ValueOf(m[2..], key)
  }

  /** No two integer keys alike. */
  predicate Keyed(m: seq<Item>)
    decreases |m|
  {
    |m| < 2 || ((IntOf(m[0]).Some? ==> ValueOf(m[2..], IntOf(m[0]).value).None?) && Keyed(m[2..]))
  }

  // ----- each field from its own value -----

  function RpIn(v: Item): Option<seq<byte>> {
    if MapOf(v).None? then None else
      match Fold(MapOf(v).value, None, RpMember)
      case Some(rp) => rp
      case None => None
  }

  function UserIn(v: Item): MakeReq {
    if MapOf(v).None? then EMPTY_MAKE else
      match Fold(MapOf(v).value, EMPTY_MAKE, UserMember)
      case Some(req) => req
      case None => EMPTY_MAKE
  }

  function OptionsIn(v: Item): Options {
    if MapOf(v).None? then NO_OPTIONS else
      match Fold(MapOf(v).value, NO_OPTIONS, OptionMember)
      case Some(o) => o
      case None => NO_OPTIONS
  }

  function HmacIn(v: Item): bool {
    MapOf(v).Some? && Fold(MapOf(v).value, false, MakeExtension) == Some(true)
  }

  function ListIn(v: Item): seq<Descriptor> {
    if ArrayOf(v).None? then [] else
      match DescriptorsOf(ArrayOf(v).value, [])
      case Some(r) => r.0
      case None => []
  }

  /** The request `req` with the fields that `m` has a key for. */
  function With(req: MakeReq, m: seq<Item>): MakeReq {
    var user := ValueOf(m, 3);
    MakeReq(
      if ValueOf(m, 1).Some? then BytesOf(ValueOf(m, 1).value) else req.hash,
      if ValueOf(m, 2).Some? then RpIn(ValueOf(m, 2).value) else req.rpId,
      if user.Some? then UserIn(user.value).userId else req.userId,
      if user.Some? then UserIn(user.value).userName else req.userName,
      if user.Some? then UserIn(user.value).userDisplay else req.userDisplay,
      if ValueOf(m, 7).Some? then OptionsIn(ValueOf(m, 7).value) else req.options,
      req.pinAuth || ValueOf(m, 8).Some?,
      if ValueOf(m, 6).Some? then HmacIn(ValueOf(m, 6).value) else req.hmacSecret,
      if ValueOf(m, 5).Some? then ListIn(ValueOf(m, 5).value) else req.exclude)
  }

  /** Nothing of what `m` has a key for is in the request yet. */
  predicate Unset(req: MakeReq, m: seq<Item>) {
    && (ValueOf(m, 2).Some? ==> req.rpId == None)
    && (ValueOf(m, 3).Some? ==> req.userId == None && req.userName == [] && req.userDisplay == [])
    && (ValueOf(m, 5).Some? ==> req.exclude == [])
    && (ValueOf(m, 6).Some? ==> !req.hmacSecret)
    && (ValueOf(m, 7).Some? ==> req.options == NO_OPTIONS)
  }

  /** Why the first member that cannot be taken is refused. */
  function Refusal(m: seq<Item>): Option<ParseError>
    decreases |m|
  {
    if |m| < 2 then None
    else if IntOf(m[0]).None? then Some(Invalid)
    else
      match MakeMember(EMPTY_MAKE, IntOf(m[0]).value, m[1])
      case Err(e) => Some(e)
      case Ok(_) => Refusal(m[2..])
  }

  /** A list under this key has at most 32 descriptors. */
  predicate ListFits(m: seq<Item>, key: s64) {
    ValueOf(m, key).Some? && ArrayOf(ValueOf(m, key).value).Some? ==> |ArrayOf(ValueOf(m, key).value).value| <= 32
  }

  // ----- member by member -----

  predicate SameUser(a: MakeReq, b: MakeReq) {
    a.userId == b.userId && a.userName == b.userName && a.userDisplay == b.userDisplay
  }

  predicate UserOnly(a: MakeReq, x: MakeReq) {
    x == a.(userId := x.userId, userName := x.userName, userDisplay := x.userDisplay)
  }

  lemma UserMemberAlone(k: Item, v: Item, a: MakeReq, b: MakeReq)
    requires SameUser(a, b)
    ensures var x, y := UserMember(a, k, v), UserMember(b, k, v);
      x.Some? == y.Some? && (x.Some? ==> SameUser(x.value, y.value) && UserOnly(a, x.value))
  {
    hide CStr;
    hide TextOf;
    hide BytesOf;
  }

  /** The user map looks at and changes the three user fields only. */
  lemma {:induction false} UserAlone(items: seq<Item>, a: MakeReq, b: MakeReq)
    requires SameUser(a, b)
    ensures var x, y := Fold(items, a, UserMember), Fold(items, b, UserMember);
      x.Some? == y.Some? && (x.Some? ==> SameUser(x.value, y.value) && UserOnly(a, x.value))
    decreases |items|
  {
    hide UserMember;
    hide Fold;
    FoldStep(items, a, UserMember);
    FoldStep(items, b, UserMember);
    if |items| >= 2 {
      UserMemberAlone(items[0], items[1], a, b);
      var x, y := UserMember(a, items[0], items[1]), UserMember(b, items[0], items[1]);
      if x.Some? {
        UserAlone(items[2..], x.value, y.value);
      }
    }
  }

  /** A list of at most 32 is taken whole, descriptor by descriptor, unless one of them is refused. */
  lemma {:induction false} ListExact(items: seq<Item>, list: seq<Descriptor>)
    requires |list| + |items| <= 32
    ensures var r := DescriptorsOf(items, list);
      if forall i :: 0 <= i < |items| ==> DescriptorOf(items[i]).Some?
      then && r.Some? && r.value.1 == [] && |r.value.0| == |list| + |items| && r.value.0[..|list|] == list
           && forall i :: 0 <= i < |items| ==> DescriptorOf(items[i]) == Some(r.value.0[|list| + i])
      else r.None?
    decreases |items|
  {
    hide DescriptorOf;
    if items != [] && DescriptorOf(items[0]).Some? {
      var next := list + [DescriptorOf(items[0]).value];
      ListExact(items[1..], next);
      var r := DescriptorsOf(items, list);
      assert forall i :: 1 <= i < |items| ==> items[i] == items[1..][i - 1];
      if r.Some? {
        assert r.value.0[..|list|] == r.value.0[..|next|][..|list|];
        forall i | 0 <= i < |items|
          ensures DescriptorOf(items[i]) == Some(r.value.0[|list| + i])
        {
          if i > 0 {
            assert DescriptorOf(items[1..][i - 1]) == Some(r.value.0[|next| + (i - 1)]);
          } else {
            assert r.value.0[|list|] == r.value.0[..|next|][|list|];
          }
        }
      }
    }
  }

  /** On a request without the field, a member is taken or refused as it is alone, and sets its field. */
  lemma MemberAlone(req: MakeReq, k: Item, v: Item)
    requires IntOf(k).Some? && Unset(req, [k, v]) && ListFits([k, v], 5)
    ensures var key := IntOf(k).value; var alone := MakeMember(EMPTY_MAKE, key, v);
      MakeMember(req, key, v) == if alone.Err? then Err(alone.error) else Ok((With(req, [k, v]), []))
  {
    hide Fold;
    hide IntOf;
    hide DescriptorsOf;
    hide AnyParam;
    var key := IntOf(k).value;
    forall other: s64
      ensures ValueOf([k, v], other) == if other == key then Some(v) else None
    {
      assert ValueOf([k, v][2..], other) == None;
    }
    if key == 3 && MapOf(v).Some? {
      UserAlone(MapOf(v).value, req, EMPTY_MAKE);
    } else if key == 5 && ArrayOf(v).Some? {
      ListExact(ArrayOf(v).value, []);
    }
  }

  lemma ValueStep(m: seq<Item>, k: Item, v: Item, rest: seq<Item>, key: s64)
    requires |m| >= 2 && k == m[0] && v == m[1] && rest == m[2..]
    ensures ValueOf(m, key) == if IntOf(k) == Some(key) then Some(v) else ValueOf(rest, key)
    ensures ValueOf([k, v], key) == if IntOf(k) == Some(key) then Some(v) else None
  {
    assert ValueOf([k, v][2..], key) == None;
  }

  lemma WithSplit(req: MakeReq, m: seq<Item>)
    requires |m| >= 2 && IntOf(m[0]).Some? && ValueOf(m[2..], IntOf(m[0]).value).None? && Unset(req, m) && ListFits(m, 5)
    ensures var one, rest := [m[0], m[1]], m[2..];
      && Unset(req, one) && ListFits(one, 5) && Unset(With(req, one), rest) && ListFits(rest, 5)
      && With(With(req, one), rest) == With(req, m)
  {
    hide IntOf;
    hide ValueOf;
    hide RpIn;
    hide UserIn;
    hide OptionsIn;
    hide HmacIn;
    hide ListIn;
    forall key: s64
      ensures ValueOf(m, key) == if IntOf(m[0]) == Some(key) then Some(m[1]) else ValueOf(m[2..], key)
      ensures ValueOf([m[0], m[1]], key) == if IntOf(m[0]) == Some(key) then Some(m[1]) else None
    {
      ValueStep(m, m[0], m[1], m[2..], key);
    }
  }

  lemma {:induction false} KeyedMembers(m: seq<Item>, count: nat, req: MakeReq)
    requires |m| == 2 * count && Keyed(m) && Unset(req, m) && ListFits(m, 5)
    ensures MakeMembers(m, count, req) == match Refusal(m) case Some(e) => Err(e) case None => Ok(With(req, m))
    decreases count
  {
    hide MakeMember;
    hide IntOf;
    hide Unset;
    hide ListFits;
    if count == 0 {
      NoMembers(req, m);
    } else if IntOf(m[0]).Some? {
      WithSplit(req, m);
      var one, rest := [m[0], m[1]], m[2..];
      MemberAlone(req, m[0], m[1]);
      if MakeMember(EMPTY_MAKE, IntOf(m[0]).value, m[1]).Ok? {
        assert [] + rest == rest;
        KeyedMembers(rest, count - 1, With(req, one));
      }
    }
  }

  lemma NoMembers(req: MakeReq, m: seq<Item>)
    requires m == []
    ensures With(req, m) == req
  {
  }

  /** A request map with each key at most once, its keys in any order: refused for the first member that cannot be taken, or
      for want of a hash, a relying party id or a user id; else every field is what its own key says. */
  lemma KeyedRequest(i: Item, buf: seq<byte>)
    requires i.WellFormed() && Has(buf, 0, Encode(i)) && MapOf(i).Some? && Keyed(i.items) && ListFits(i.items, 5)
    ensures ParseMakeCredential(buf) ==
      match Refusal(i.items)
      case Some(e) => Err(e)
      case None =>
        var req := With(EMPTY_MAKE, i.items);
        if req.hash.Some? && req.rpId.Some? && req.userId.Some? then Ok(req) else Err(Invalid)
  {
    hide With;
    hide Refusal;
    hide ParseMakeCredential;
    hide Encode;
    hide Keyed;
    hide ListFits;
    MakeCredentialThere(i, buf);
    KeyedMembers(i.items, |i.items| / 2, EMPTY_MAKE);
  }

  /** The algorithm is the reason of a refusal exactly when everything in front of a parameter list can be taken, and that
      list can be read and has no ES256 public key in it. */
  lemma {:induction false} UnsupportedIff(m: seq<Item>)
    requires |m| % 2 == 0
    ensures Refusal(m) == Some(UnsupportedAlgorithm) <==> exists j: nat :: LacksEs256(m, j) && Refusal(m[..2 * j]) == None
    decreases |m|
  {
    hide MakeMember;
    hide NoEs256;
    hide IntOf;
    if |m| >= 2 {
      var rest := m[2..];
      UnsupportedIff(rest);
      if IntOf(m[0]).Some? {
        AlgorithmOnly(IntOf(m[0]).value, m[1]);
      }
      if Refusal(m) == Some(UnsupportedAlgorithm) && !LacksEs256(m, 0) {
        var j: nat :| LacksEs256(rest, j) && Refusal(rest[..2 * j]) == None;
        assert m[..2 * (j + 1)][2..] == rest[..2 * j];
        assert LacksEs256(m, j + 1) && Refusal(m[..2 * (j + 1)]) == None;
      } else if LacksEs256(m, 0) {
        assert Refusal(m[..2 * 0]) == None;
      }
      forall j: nat | LacksEs256(m, j) && Refusal(m[..2 * j]) == None
        ensures Refusal(m) == Some(UnsupportedAlgorithm)
      {
        if j > 0 {
          assert m[..2 * j][2..] == rest[..2 * (j - 1)];
          assert LacksEs256(rest, j - 1);
        }
      }
    }
  }

  /** The member number `j` is a list of parameters that can be read, none of them an ES256 public key. */
  predicate LacksEs256(m: seq<Item>, j: nat) {
    2 * j + 1 < |m| && IntOf(m[2 * j]) == Some(4) && NoEs256(m[2 * j + 1])
  }

  predicate NoEs256(v: Item) {
    ArrayOf(v).Some? && forall i :: 0 <= i < |v.items| ==> ParamOf(v.items[i]) == Some(false)
  }

  lemma AlgorithmOnly(key: s64, v: Item)
    ensures MakeMember(EMPTY_MAKE, key, v) == Err(UnsupportedAlgorithm) <==>
      key == 4 && NoEs256(v)
  {
    hide Fold;
    hide DescriptorsOf;
    hide ParamOf;
  }

  /** A list of more than 32 entries is cut at the 32nd when it is the last member, and refuses the request when it is not: the
      next key is then looked for among its entries, which are maps. */
  lemma OverlongExclude(items: seq<Item>, count: nat, req: MakeReq)
    requires 0 < count && 2 * count <= |items| && IntOf(items[0]) == Some(5) && ArrayOf(items[1]).Some?
    requires |req.exclude| <= 32 < |req.exclude| + |items[1].items|
    requires forall i :: 0 <= i < |items[1].items| ==> IntOf(items[1].items[i]).None?
    ensures var r := MakeMembers(items, count, req);
      if r.Ok? then count == 1 && |r.value.exclude| == 32 else r == Err(Invalid)
  {
    hide IntOf;
    hide DescriptorOf;
    var list := items[1].items;
    var m := MakeMember(req, 5, items[1]);
    if m.Ok? {
      var left := m.value.1;
      assert left[0] == list[|list| - |left|];
      assert count == 1 ==> MakeMembers(left + items[2..], 0, m.value.0) == Ok(m.value.0);
    }
  }
}
