/** What a request says, read off its tree of CBOR items: no positions, no bytes, no loops over a buffer. */
module RequestMeaning {
  import opened Bytes
  import opened Cbor
  import opened RequestParsers

  // ----- what one item is -----

  function TextOf(i: Item): Option<seq<byte>> {
    if i.Str? && i.head.major == 3 then Some(i.payload) else None
  }

  function BytesOf(i: Item): Option<seq<byte>> {
    if i.Str? && i.head.major == 2 then Some(i.payload) else None
  }

  function IntOf(i: Item): Option<s64> {
    if i.Atom? && i.head.Valid() then HeadInt(i.head) else None
  }

  function BoolOf(i: Item): Option<bool> {
    if i.Atom? && i.head.major == 7 && (i.head.value == 20 || i.head.value == 21) then Some(i.head.value == 21) else None
  }

  function ArrayOf(i: Item): Option<seq<Item>> {
    if i.List? && i.head.major == 4 then Some(i.items) else None
  }

  /** Keys and values in turn. */
  function MapOf(i: Item): Option<seq<Item>> {
    if i.List? && i.head.major == 5 then Some(i.items) else None
  }

  /** The members of a map in order, each by its key and value; the first that is refused refuses the map. */
  function Fold<S>(items: seq<Item>, s: S, member: (S, Item, Item) -> Option<S>): Option<S>
    decreases |items|
  {
    if |items| < 2 then Some(s) else
      var next :- member(s, items[0], items[1]);
      Fold(items[2..], next, member)
  }

  // ----- the parts both requests share -----

  function DescriptorMember(d: Descriptor, k: Item, v: Item): Option<Descriptor> {
    var key :- TextOf(k);
    if key != KEY_ID then Some(d) else
      var id :- BytesOf(v);
      if |id| <= 32 then Some(Descriptor(true, id)) else None
  }

  function DescriptorOf(i: Item): Option<Descriptor> {
    var members :- MapOf(i);
    Fold(members, Descriptor(false, []), DescriptorMember)
  }

  /** Up to 32 descriptors behind those already there, and the items left over. */
  function DescriptorsOf(items: seq<Item>, list: seq<Descriptor>): (r: Option<(seq<Descriptor>, seq<Item>)>)
    ensures r.Some? ==> |r.value.1| <= |items| && r.value.1 == items[|items| - |r.value.1|..]
    ensures r.Some? ==> |r.value.0| + |r.value.1| == |list| + |items| && (r.value.1 == [] || |r.value.0| >= 32)
    ensures r.Some? && |list| <= 32 ==> |r.value.0| <= 32
    decreases |items|
  {
    if items == [] || |list| >= 32 then Some((list, items)) else
      var d :- DescriptorOf(items[0]);
      DescriptorsOf(items[1..], list + [d])
  }

  function OptionMember(o: Options, k: Item, v: Item): Option<Options> {
    var key :- TextOf(k);
    var value :- BoolOf(v);
    Some(Options(if key == KEY_RK then value else o.rk, if key == KEY_UV then value else o.uv,
                 if key == KEY_UP then !value else o.upDisabled))
  }

  // ----- makeCredential -----

  function RpMember(rp: Option<seq<byte>>, k: Item, v: Item): Option<Option<seq<byte>>> {
    var key :- TextOf(k);
    var text :- TextOf(v);
    Some(if key == KEY_ID && |text| <= 127 then Some(CStr(text)) else rp)
  }

  function UserMember(req: MakeReq, k: Item, v: Item): Option<MakeReq> {
    var key :- TextOf(k);
    if key == KEY_ID then
      var id :- BytesOf(v);
      if |id| <= 64 then Some(req.(userId := Some(id))) else None
    else if key == KEY_NAME then
      var name :- TextOf(v);
      if |name| <= 63 then Some(req.(userName := CStr(name))) else None
    else if key == KEY_DISPLAY then
      var name :- TextOf(v);
      if |name| <= 63 then Some(req.(userDisplay := CStr(name))) else None
    else Some(req)
  }

  /** Whether the type is "public-key", and whether the algorithm is ES256. */
  function ParamMember(ok: (bool, bool), k: Item, v: Item): Option<(bool, bool)> {
    var key :- TextOf(k);
    if key == KEY_TYPE then
      var text :- TextOf(v);
      Some((text == PUBLIC_KEY, ok.1))
    else if key == KEY_ALG then
      var alg :- IntOf(v);
      Some((ok.0, alg == -7))
    else Some(ok)
  }

  function ParamOf(i: Item): Option<bool> {
    var members :- MapOf(i);
    var ok :- Fold(members, (false, false), ParamMember);
    Some(ok.0 && ok.1)
  }

  /** All entries can be read; whether one of them is an ES256 public key. */
  function AnyParam(items: seq<Item>): (r: Option<bool>)
    ensures r.Some? <==> forall i :: 0 <= i < |items| ==> ParamOf(items[i]).Some?
    ensures r == Some(true) ==> exists i :: 0 <= i < |items| && ParamOf(items[i]) == Some(true)
    ensures r == Some(false) ==> forall i :: 0 <= i < |items| ==> ParamOf(items[i]) == Some(false)
  {
    if items == [] then Some(false) else
      var ok :- ParamOf(items[0]);
      var later :- AnyParam(items[1..]);
      assert forall i :: 1 <= i < |items| ==> items[i] == items[1..][i - 1];
      Some(ok || later)
  }

  function CreateMember(create: bool, k: Item, v: Item): Option<bool> {
    var key :- IntOf(k);
    if key == 1 then BoolOf(v) else Some(create)
  }

  /** "hmac-secret": a plain boolean, or a map that says yes unless its key 1 says otherwise; anything else says nothing. */
  function CreateOf(current: bool, v: Item): Option<bool> {
    if v == Atom(Head(7, Inline, 20)) then Some(false)
    else if v == Atom(Head(7, Inline, 21)) then Some(true)
    else if MapOf(v).Some? then Fold(MapOf(v).value, true, CreateMember)
    else Some(current)
  }

  function MakeExtension(hmac: bool, k: Item, v: Item): Option<bool> {
    var key :- TextOf(k);
    if key == HMAC_SECRET then CreateOf(hmac, v) else Some(hmac)
  }

  /** One member of the request: the request with it, and the items of an exclude list beyond the 32nd descriptor. */
  function MakeMember(req: MakeReq, key: s64, v: Item): Parsed<(MakeReq, seq<Item>)>
  {
    match key
    case 1 =>
      var hash :- Required(BytesOf(v));
      if |hash| == 32 then Ok((req.(hash := Some(hash)), [])) else Err(Invalid)
    case 2 =>
      var members :- Required(MapOf(v));
      var rp :- Required(Fold(members, req.rpId, RpMember));
      Ok((req.(rpId := rp), []))
    case 3 =>
      var members :- Required(MapOf(v));
      var next :- Required(Fold(members, req, UserMember));
      Ok((next, []))
    case 4 =>
      var items :- Required(ArrayOf(v));
      var any :- Required(AnyParam(items));
      if any then Ok((req, [])) else Err(UnsupportedAlgorithm)
    case 5 =>
      var items :- Required(ArrayOf(v));
      var r :- Required(DescriptorsOf(items, req.exclude));
      Ok((req.(exclude := r.0), r.1))
    case 6 =>
      var members :- Required(MapOf(v));
      var hmac :- Required(Fold(members, req.hmacSecret, MakeExtension));
      Ok((req.(hmacSecret := hmac), []))
    case 7 =>
      var members :- Required(MapOf(v));
      var o :- Required(Fold(members, req.options, OptionMember));
      Ok((req.(options := o), []))
    case 8 =>
      if BytesOf(v).Some? then Ok((req.(pinAuth := true), [])) else Err(Invalid)
    case 9 =>
      if v.head.major == 0 then Ok((req, [])) else Err(Invalid)
    case _ => Ok((req, []))
  }

  /** The members in order; what a list leaves over is taken for the next members. */
  function MakeMembers(items: seq<Item>, count: nat, req: MakeReq): Parsed<MakeReq>
    requires 2 * count <= |items|
    decreases count
  {
    if count == 0 then Ok(req) else
      var key :- Required(IntOf(items[0]));
      var (next, left) :- MakeMember(req, key, items[1]);
      MakeMembers(left + items[2..], count - 1, next)
  }

  /** A map with a hash, a relying party id and a user id. */
  function MakeCredentialOf(i: Item): Parsed<MakeReq> {
    var members :- Required(MapOf(i));
    var req :- MakeMembers(members, |members| / 2, EMPTY_MAKE);
    if req.hash.Some? && req.rpId.Some? && req.userId.Some? then Ok(req) else Err(Invalid)
  }

  // ----- getAssertion -----

  /** A member of a COSE key (RFC 9052 section 7). */
  function CoseMember(c: Cose, k: Item, v: Item): Option<Cose> {
    var key :- IntOf(k);
    match key
    case 1 =>
      var kty :- IntOf(v);
      Some(c.(kty := kty == 2))
    case -1 =>
      var crv :- IntOf(v);
      Some(c.(crv := crv == 1))
    case -2 =>
      var x :- BytesOf(v);
      if |x| == 32 then Some(c.(x := Some(x))) else None
    case -3 =>
      var y :- BytesOf(v);
      if |y| == 32 then Some(c.(y := Some(y))) else None
    case _ => Some(c)
  }

  /** The point of an EC2 key on P-256 that has both coordinates. */
  function CoseKeyOf(i: Item): Option<seq<byte>> {
    var members :- MapOf(i);
    var c :- Fold(members, Cose(false, false, None, None), CoseMember);
    if c.kty && c.crv && c.x.Some? && c.y.Some? then Some(c.x.value + c.y.value) else None
  }

  function HmacMember(h: HmacInput, k: Item, v: Item): Option<HmacInput> {
    var key :- IntOf(k);
    match key
    case 1 =>
      var xy :- CoseKeyOf(v);
      Some(h.(key := Some(xy)))
    case 2 =>
      var enc :- BytesOf(v);
      if |enc| == 64 then Some(h.(saltEnc := Some(enc))) else None
    case 3 =>
      var auth :- BytesOf(v);
      if |auth| == 16 then Some(h.(saltAuth := Some(auth))) else None
    case _ => Some(h)
  }

  function AssertExtension(hmac: Option<HmacInput>, k: Item, v: Item): Option<Option<HmacInput>> {
    var key :- TextOf(k);
    if key != HMAC_SECRET then Some(hmac) else
      var members :- MapOf(v);
      var h :- Fold(members, HmacInput(None, None, None), HmacMember);
      if h.key.Some? && h.saltEnc.Some? && h.saltAuth.Some? then Some(Some(h)) else None
  }

  function AssertMember(req: AssertReq, key: s64, v: Item): Option<(AssertReq, seq<Item>)>
  {
    match key
    case 1 =>
      var text :- TextOf(v);
      if |text| <= 127 then Some((req.(rpId := Some(CStr(text))), [])) else None
    case 2 =>
      var hash :- BytesOf(v);
      if |hash| == 32 then Some((req.(hash := Some(hash)), [])) else None
    case 3 =>
      var items :- ArrayOf(v);
      var r :- DescriptorsOf(items, req.allow);
      Some((req.(allow := r.0), r.1))
    case 4 =>
      var members :- MapOf(v);
      var hmac :- Fold(members, req.hmac, AssertExtension);
      Some((req.(hmac := hmac), []))
    case 5 =>
      var members :- MapOf(v);
      var o :- Fold(members, req.options, OptionMember);
      Some((req.(options := o.(rk := false)), []))
    case 6 =>
      if BytesOf(v).Some? then Some((req.(pinAuth := true), [])) else None
    case 7 =>
      if v.head.major == 0 then Some((req, [])) else None
    case _ => Some((req, []))
  }

  function AssertMembers(items: seq<Item>, count: nat, req: AssertReq): Option<AssertReq>
    requires 2 * count <= |items|
    decreases count
  {
    if count == 0 then Some(req) else
      var key :- IntOf(items[0]);
      var (next, left) :- AssertMember(req, key, items[1]);
      AssertMembers(left + items[2..], count - 1, next)
  }

  /** A map with a hash and a relying party id. */
  function GetAssertionOf(i: Item): Option<AssertReq> {
    var members :- MapOf(i);
    var req :- AssertMembers(members, |members| / 2, EMPTY_ASSERT);
    if req.hash.Some? && req.rpId.Some? then Some(req) else None
  }
}
