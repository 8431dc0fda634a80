/** What the two CTAP request parsers make of a buffer, as functions of the buffer and a position. */
module RequestParsers {
  import opened Bytes
  import opened Cbor

  const KEY_ID: seq<byte> := [0x69, 0x64]
  const KEY_TYPE: seq<byte> := [0x74, 0x79, 0x70, 0x65]
  const KEY_NAME: seq<byte> := [0x6e, 0x61, 0x6d, 0x65]
  const KEY_DISPLAY: seq<byte> := [0x64, 0x69, 0x73, 0x70, 0x6c, 0x61, 0x79, 0x4e, 0x61, 0x6d, 0x65]
  const KEY_ALG: seq<byte> := [0x61, 0x6c, 0x67]
  const KEY_RK: seq<byte> := [0x72, 0x6b]
  const KEY_UV: seq<byte> := [0x75, 0x76]
  const KEY_UP: seq<byte> := [0x75, 0x70]
  const PUBLIC_KEY: seq<byte> := [0x70, 0x75, 0x62, 0x6c, 0x69, 0x63, 0x2d, 0x6b, 0x65, 0x79]
  const HMAC_SECRET: seq<byte> := [0x68, 0x6d, 0x61, 0x63, 0x2d, 0x73, 0x65, 0x63, 0x72, 0x65, 0x74]

  const MAX_RP_ID := 128
  const MAX_USER_ID := 64
  const MAX_USER_NAME := 64
  const MAX_CRED_LIST := 32
  const CRED_ID_LEN := 32
  const ALG_ES256 := -7

  /** One `allow` / `exclude` slot: `id` is the part of the 32-byte field that `len` covers. */
  datatype Descriptor = Descriptor(present: bool, id: seq<byte>)

  datatype Options = Options(rk: bool, uv: bool, upDisabled: bool)

  datatype HmacInput = HmacInput(key: Option<seq<byte>>, saltEnc: Option<seq<byte>>, saltAuth: Option<seq<byte>>) {
    predicate Complete() { key.Some? && saltEnc.Some? && saltAuth.Some? }
  }

  datatype AssertReq = AssertReq(
    hash: Option<seq<byte>>, rpId: Option<seq<byte>>, options: Options,
    pinAuth: bool, hmac: Option<HmacInput>, allow: seq<Descriptor>)

  datatype MakeReq = MakeReq(
    hash: Option<seq<byte>>, rpId: Option<seq<byte>>, userId: Option<seq<byte>>,
    userName: seq<byte>, userDisplay: seq<byte>, options: Options,
    pinAuth: bool, hmacSecret: bool, exclude: seq<Descriptor>)

  const NO_OPTIONS := Options(false, false, false)
  const EMPTY_ASSERT := AssertReq(None, None, NO_OPTIONS, false, None, [])
  const EMPTY_MAKE := MakeReq(None, None, None, [], [], NO_OPTIONS, false, false, [])

  datatype ParseError = Invalid | UnsupportedAlgorithm

  datatype Parsed<+T> = Ok(value: T) | Err(error: ParseError) {
    predicate IsFailure() { Err? }
    function PropagateFailure<U>(): Parsed<U>
      requires Err?
    {
      Err(error)
    }
    function Extract(): T
      requires Ok?
    {
      value
    }
  }

  /** Every reader error becomes -EINVAL. */
  function Required<T>(r: Option<T>): Parsed<T> {
    if r.Some? then Ok(r.value) else Err(Invalid)
  }

  // ----- shared pieces -----

  function DescriptorFields(buf: seq<byte>, pos: nat, count: nat, d: Descriptor): (r: Option<(Descriptor, nat)>)
    requires pos <= |buf|
    ensures r.Some? ==> pos <= r.value.1 <= |buf|
    decreases |buf| - pos, count
  {
    if count == 0 then Some((d, pos)) else
      var (key, p) :- ReadText(buf, pos);
      if key == KEY_ID then
        var (id, q) :- ReadBytes(buf, p);
        if |id| > CRED_ID_LEN then None else DescriptorFields(buf, q, count - 1, Descriptor(true, id))
      else
        var q :- Skip(buf, p);
        DescriptorFields(buf, q, count - 1, d)
  }

  /** The `allow` / `exclude` loop: it stops at 32 entries and leaves the rest of the array unread. */
  function Descriptors(buf: seq<byte>, pos: nat, count: nat, list: seq<Descriptor>): (r: Option<(seq<Descriptor>, nat)>)
    requires pos <= |buf|
    ensures r.Some? ==> pos <= r.value.1 <= |buf|
    decreases |buf| - pos, count
  {
    if count == 0 || |list| >= MAX_CRED_LIST then Some((list, pos)) else
      var (fields, p) :- ReadMap(buf, pos);
      var (d, q) :- DescriptorFields(buf, p, fields, Descriptor(false, []));
      Descriptors(buf, q, count - 1, list + [d])
  }

  function SetOption(o: Options, key: seq<byte>, value: bool): Options {
    if key == KEY_RK then o.(rk := value)
    else if key == KEY_UV then o.(uv := value)
    else if key == KEY_UP then o.(upDisabled := !value)
    else o
  }

  function ParseOptions(buf: seq<byte>, pos: nat, count: nat, o: Options): (r: Option<(Options, nat)>)
    requires pos <= |buf|
    ensures r.Some? ==> pos <= r.value.1 <= |buf|
    decreases |buf| - pos, count
  {
    if count == 0 then Some((o, pos)) else
      var (key, p) :- ReadText(buf, pos);
      var (value, q) :- ReadBool(buf, p);
      ParseOptions(buf, q, count - 1, SetOption(o, key, value))
  }

  // ----- COSE key (RFC 9052 section 7, restricted to EC2 / P-256) -----

  datatype Cose = Cose(kty: bool, crv: bool, x: Option<seq<byte>>, y: Option<seq<byte>>)

  /** One COSE member; `alg`, `key_ops` and the like are passed over. */
  function CoseField(buf: seq<byte>, pos: nat, key: s64, c: Cose): (r: Option<(Cose, nat)>)
    requires pos <= |buf|
    ensures r.Some? ==> pos <= r.value.1 <= |buf|
  {
    match key
    case 1 =>
      var (v, p) :- ReadInt(buf, pos);
      Some((c.(kty := v == 2), p))
    case -1 =>
      var (v, p) :- ReadInt(buf, pos);
      Some((c.(crv := v == 1), p))
    case -2 =>
      var (v, p) :- ReadBytes(buf, pos);
      if |v| != 32 then None else Some((c.(x := Some(v)), p))
    case -3 =>
      var (v, p) :- ReadBytes(buf, pos);
      if |v| != 32 then None else Some((c.(y := Some(v)), p))
    case _ =>
      var p :- Skip(buf, pos);
      Some((c, p))
  }

  function CoseFields(buf: seq<byte>, pos: nat, count: nat, c: Cose): (r: Option<(Cose, nat)>)
    requires pos <= |buf|
    ensures r.Some? ==> pos <= r.value.1 <= |buf|
    decreases |buf| - pos, count
  {
    if count == 0 then Some((c, pos)) else
      var (key, p) :- ReadInt(buf, pos);
      var (next, q) :- CoseField(buf, p, key, c);
      CoseFields(buf, q, count - 1, next)
  }

  lemma CoseFieldsStep(buf: seq<byte>, pos: nat, count: nat, c: Cose, key: s64, p: nat, next: Cose, q: nat)
    requires count > 0 && ReadInt(buf, pos) == Some((key, p)) && CoseField(buf, p, key, c) == Some((next, q))
    ensures CoseFields(buf, pos, count, c) == CoseFields(buf, q, count - 1, next)
  {
  }

  function ReadCoseKey(buf: seq<byte>, pos: nat): (r: Option<(seq<byte>, nat)>)
    ensures r.Some? ==> pos < r.value.1 <= |buf|
  {
    var (count, p) :- ReadMap(buf, pos);
    var (c, q) :- CoseFields(buf, p, count, Cose(false, false, None, None));
    if !c.kty || !c.crv || c.x.None? || c.y.None? then None else Some((c.x.value + c.y.value, q))
  }

  // ----- getAssertion -----

  function HmacField(buf: seq<byte>, pos: nat, key: s64, h: HmacInput): (r: Option<(HmacInput, nat)>)
    requires pos <= |buf|
    ensures r.Some? ==> pos <= r.value.1 <= |buf|
  {
    match key
    case 1 =>
      var (xy, p) :- ReadCoseKey(buf, pos);
      Some((h.(key := Some(xy)), p))
    case 2 =>
      var (v, p) :- ReadBytes(buf, pos);
      if |v| != 64 then None else Some((h.(saltEnc := Some(v)), p))
    case 3 =>
      var (v, p) :- ReadBytes(buf, pos);
      if |v| != 16 then None else Some((h.(saltAuth := Some(v)), p))
    case _ =>
      var p :- Skip(buf, pos);
      Some((h, p))
  }

  function HmacFields(buf: seq<byte>, pos: nat, count: nat, h: HmacInput): (r: Option<(HmacInput, nat)>)
    requires pos <= |buf|
    ensures r.Some? ==> pos <= r.value.1 <= |buf|
    decreases |buf| - pos, count
  {
    if count == 0 then Some((h, pos)) else
      var (key, p) :- ReadInt(buf, pos);
      var (next, q) :- HmacField(buf, p, key, h);
      HmacFields(buf, q, count - 1, next)
  }

  lemma HmacFieldsStep(buf: seq<byte>, pos: nat, count: nat, h: HmacInput, key: s64, p: nat, next: HmacInput, q: nat)
    requires count > 0 && ReadInt(buf, pos) == Some((key, p)) && HmacField(buf, p, key, h) == Some((next, q))
    ensures HmacFields(buf, pos, count, h) == HmacFields(buf, q, count - 1, next)
  {
  }

  function AssertExtensions(buf: seq<byte>, pos: nat, count: nat, hmac: Option<HmacInput>): (r: Option<(Option<HmacInput>, nat)>)
    requires pos <= |buf|
    ensures r.Some? ==> pos <= r.value.1 <= |buf|
    decreases |buf| - pos, count
  {
    if count == 0 then Some((hmac, pos)) else
      var (key, p) :- ReadText(buf, pos);
      if key == HMAC_SECRET then
        var (fields, q) :- ReadMap(buf, p);
        var (h, e) :- HmacFields(buf, q, fields, HmacInput(None, None, None));
        if !h.Complete() then None else AssertExtensions(buf, e, count - 1, Some(h))
      else
        var q :- Skip(buf, p);
        AssertExtensions(buf, q, count - 1, hmac)
  }

  /** One key of the getAssertion map. */
  function AssertField(buf: seq<byte>, pos: nat, key: s64, req: AssertReq): (r: Option<(AssertReq, nat)>)
    requires pos <= |buf|
    ensures r.Some? ==> pos <= r.value.1 <= |buf|
  {
    match key
    case 1 =>
      var (text, p) :- ReadText(buf, pos);
      if |text| >= MAX_RP_ID then None else Some((req.(rpId := Some(CStr(text))), p))
    case 2 =>
      var (hash, p) :- ReadBytes(buf, pos);
      if |hash| != 32 then None else Some((req.(hash := Some(hash)), p))
    case 3 =>
      var (count, p) :- ReadArray(buf, pos);
      var (list, q) :- Descriptors(buf, p, count, req.allow);
      Some((req.(allow := list), q))
    case 4 =>
      var (count, p) :- ReadMap(buf, pos);
      var (hmac, q) :- AssertExtensions(buf, p, count, req.hmac);
      Some((req.(hmac := hmac), q))
    case 5 =>
      var (count, p) :- ReadMap(buf, pos);
      var (o, q) :- ParseOptions(buf, p, count, req.options);
      Some((req.(options := o.(rk := false)), q))
    case 6 =>
      var (_, p) :- ReadBytes(buf, pos);
      Some((req.(pinAuth := true), p))
    case 7 =>
      var (_, p) :- ReadUint(buf, pos);
      Some((req, p))
    case _ =>
      var p :- Skip(buf, pos);
      Some((req, p))
  }

  function AssertFields(buf: seq<byte>, pos: nat, count: nat, req: AssertReq): (r: Option<(AssertReq, nat)>)
    requires pos <= |buf|
    ensures r.Some? ==> pos <= r.value.1 <= |buf|
    decreases |buf| - pos, count
  {
    if count == 0 then Some((req, pos)) else
      var (key, p) :- ReadInt(buf, pos);
      var (next, q) :- AssertField(buf, p, key, req);
      AssertFields(buf, q, count - 1, next)
  }

  function ParseGetAssertion(buf: seq<byte>): (r: Option<AssertReq>)
    ensures r.Some? ==> r.value.hash.Some? && r.value.rpId.Some?
  {
    var (count, p) :- ReadMap(buf, 0);
    var (req, _) :- AssertFields(buf, p, count, EMPTY_ASSERT);
    if req.hash.Some? && req.rpId.Some? then Some(req) else None
  }

  // ----- makeCredential -----

  /** The rp map: only an "id" text of at most 127 bytes is taken, a longer one is passed over. */
  function RpFields(buf: seq<byte>, pos: nat, count: nat, rp: Option<seq<byte>>): (r: Option<(Option<seq<byte>>, nat)>)
    requires pos <= |buf|
    ensures r.Some? ==> pos <= r.value.1 <= |buf|
    decreases |buf| - pos, count
  {
    if count == 0 then Some((rp, pos)) else
      var (key, p) :- ReadText(buf, pos);
      var (text, q) :- ReadText(buf, p);
      RpFields(buf, q, count - 1, if key == KEY_ID && |text| < MAX_RP_ID then Some(CStr(text)) else rp)
  }

  function UserField(buf: seq<byte>, pos: nat, key: seq<byte>, req: MakeReq): (r: Option<(MakeReq, nat)>)
    requires pos <= |buf|
    ensures r.Some? ==> pos <= r.value.1 <= |buf|
  {
    if key == KEY_ID then
      var (id, p) :- ReadBytes(buf, pos);
      if |id| > MAX_USER_ID then None else Some((req.(userId := Some(id)), p))
    else if key == KEY_NAME || key == KEY_DISPLAY then
      var (text, p) :- ReadText(buf, pos);
      if |text| >= MAX_USER_NAME then None
      else Some((if key == KEY_NAME then req.(userName := CStr(text)) else req.(userDisplay := CStr(text)), p))
    else
      var p :- Skip(buf, pos);
      Some((req, p))
  }

  function UserFields(buf: seq<byte>, pos: nat, count: nat, req: MakeReq): (r: Option<(MakeReq, nat)>)
    requires pos <= |buf|
    ensures r.Some? ==> pos <= r.value.1 <= |buf|
    decreases |buf| - pos, count
  {
    if count == 0 then Some((req, pos)) else
      var (key, p) :- ReadText(buf, pos);
      var (next, q) :- UserField(buf, p, key, req);
      UserFields(buf, q, count - 1, next)
  }

  /** One credential parameter: whether its type is "public-key" and its algorithm ES256. */
  function ParamFields(buf: seq<byte>, pos: nat, count: nat, typeOk: bool, algOk: bool): (r: Option<(bool, nat)>)
    requires pos <= |buf|
    ensures r.Some? ==> pos <= r.value.1 <= |buf|
    decreases |buf| - pos, count
  {
    if count == 0 then Some((typeOk && algOk, pos)) else
      var (key, p) :- ReadText(buf, pos);
      if key == KEY_TYPE then
        var (text, q) :- ReadText(buf, p);
        ParamFields(buf, q, count - 1, text == PUBLIC_KEY, algOk)
      else if key == KEY_ALG then
        var (alg, q) :- ReadInt(buf, p);
        ParamFields(buf, q, count - 1, typeOk, alg == ALG_ES256)
      else
        var q :- Skip(buf, p);
        ParamFields(buf, q, count - 1, typeOk, algOk)
  }

  function Params(buf: seq<byte>, pos: nat, count: nat, found: bool): (r: Option<(bool, nat)>)
    requires pos <= |buf|
    ensures r.Some? ==> pos <= r.value.1 <= |buf|
    decreases |buf| - pos, count
  {
    if count == 0 then Some((found, pos)) else
      var (fields, p) :- ReadMap(buf, pos);
      var (ok, q) :- ParamFields(buf, p, fields, false, false);
      Params(buf, q, count - 1, found || ok)
  }

  function CreateFields(buf: seq<byte>, pos: nat, count: nat, create: bool): (r: Option<(bool, nat)>)
    requires pos <= |buf|
    ensures r.Some? ==> pos <= r.value.1 <= |buf|
    decreases |buf| - pos, count
  {
    if count == 0 then Some((create, pos)) else
      var (key, p) :- ReadInt(buf, pos);
      if key == 1 then
        var (value, q) :- ReadBool(buf, p);
        CreateFields(buf, q, count - 1, value)
      else
        var q :- Skip(buf, p);
        CreateFields(buf, q, count - 1, create)
  }

  /** "hmac-secret" at registration: a boolean, a map with key 1, or anything else (passed over). */
  function HmacCreate(buf: seq<byte>, pos: nat, current: bool): (r: Option<(bool, nat)>)
    requires pos <= |buf|
    ensures r.Some? ==> pos <= r.value.1 <= |buf|
  {
    if pos >= |buf| then None
    else if buf[pos] == 0xf4 || buf[pos] == 0xf5 then ReadBool(buf, pos)
    else if buf[pos] / 32 == 5 then
      var (fields, p) :- ReadMap(buf, pos);
      CreateFields(buf, p, fields, true)
    else
      var p :- Skip(buf, pos);
      Some((current, p))
  }

  function MakeExtensions(buf: seq<byte>, pos: nat, count: nat, hmac: bool): (r: Option<(bool, nat)>)
    requires pos <= |buf|
    ensures r.Some? ==> pos <= r.value.1 <= |buf|
    decreases |buf| - pos, count
  {
    if count == 0 then Some((hmac, pos)) else
      var (key, p) :- ReadText(buf, pos);
      if key == HMAC_SECRET then
        var (h, q) :- HmacCreate(buf, p, hmac);
        MakeExtensions(buf, q, count - 1, h)
      else
        var q :- Skip(buf, p);
        MakeExtensions(buf, q, count - 1, hmac)
  }

  /** One key of the makeCredential map. */
  function MakeField(buf: seq<byte>, pos: nat, key: s64, req: MakeReq): (r: Parsed<(MakeReq, nat)>)
    requires pos <= |buf|
    ensures r.Ok? ==> pos <= r.value.1 <= |buf|
  {
    match key
    case 1 =>
      var (hash, p) :- Required(ReadBytes(buf, pos));
      if |hash| != 32 then Err(Invalid) else Ok((req.(hash := Some(hash)), p))
    case 2 =>
      var (count, p) :- Required(ReadMap(buf, pos));
      var (rp, q) :- Required(RpFields(buf, p, count, req.rpId));
      Ok((req.(rpId := rp), q))
    case 3 =>
      var (count, p) :- Required(ReadMap(buf, pos));
      Required(UserFields(buf, p, count, req))
    case 4 =>
      var (count, p) :- Required(ReadArray(buf, pos));
      var (found, q) :- Required(Params(buf, p, count, false));
      if found then Ok((req, q)) else Err(UnsupportedAlgorithm)
    case 5 =>
      var (count, p) :- Required(ReadArray(buf, pos));
      var (list, q) :- Required(Descriptors(buf, p, count, req.exclude));
      Ok((req.(exclude := list), q))
    case 6 =>
      var (count, p) :- Required(ReadMap(buf, pos));
      var (hmac, q) :- Required(MakeExtensions(buf, p, count, req.hmacSecret));
      Ok((req.(hmacSecret := hmac), q))
    case 7 =>
      var (count, p) :- Required(ReadMap(buf, pos));
      var (o, q) :- Required(ParseOptions(buf, p, count, req.options));
      Ok((req.(options := o), q))
    case 8 =>
      var (_, p) :- Required(ReadBytes(buf, pos));
      Ok((req.(pinAuth := true), p))
    case 9 =>
      var (_, p) :- Required(ReadUint(buf, pos));
      Ok((req, p))
    case _ =>
      var p :- Required(Skip(buf, pos));
      Ok((req, p))
  }

  function MakeFields(buf: seq<byte>, pos: nat, count: nat, req: MakeReq): (r: Parsed<(MakeReq, nat)>)
    requires pos <= |buf|
    ensures r.Ok? ==> pos <= r.value.1 <= |buf|
    decreases |buf| - pos, count
  {
    if count == 0 then Ok((req, pos)) else
      var (key, p) :- Required(ReadInt(buf, pos));
      var (next, q) :- MakeField(buf, p, key, req);
      MakeFields(buf, q, count - 1, next)
  }

  function ParseMakeCredential(buf: seq<byte>): (r: Parsed<MakeReq>)
    ensures r.Ok? ==> r.value.hash.Some? && r.value.rpId.Some? && r.value.userId.Some?
  {
    var (count, p) :- Required(ReadMap(buf, 0));
    var (req, _) :- MakeFields(buf, p, count, EMPTY_MAKE);
    if req.hash.Some? && req.rpId.Some? && req.userId.Some? then Ok(req) else Err(Invalid)
  }
}
