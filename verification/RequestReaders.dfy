/** The request parsers in the kernel's form: nested loops that move one cursor. */
module RequestReaders {
  import opened Bytes
  import opened CborIo
  import opened RequestParsers

  method ReadDescriptorFields(r: Reader, count: nat) returns (res: Option<Descriptor>)
    requires r.pos <= |r.buf|
    modifies r`pos
    ensures Agrees(DescriptorFields(r.buf, old(r.pos), count, Descriptor(false, [])), res, r.pos)
    ensures res.Some? ==> r.pos <= |r.buf|
  {
    var d := Descriptor(false, []);
    for k := 0 to count
      invariant r.pos <= |r.buf|
      invariant DescriptorFields(r.buf, old(r.pos), count, Descriptor(false, []))
             == DescriptorFields(r.buf, r.pos, count - k, d)
    {
      var key := r.NextStr(3);
      if key.None? {
        return None;
      }
      if key.value == KEY_ID {
        var id := r.NextStr(2);
        if id.None? || |id.value| > CRED_ID_LEN {
          return None;
        }
        d := Descriptor(true, id.value);
      } else {
        var ok := r.SkipItem();
        if !ok {
          return None;
        }
      }
    }
    return Some(d);
  }

  method ReadDescriptors(r: Reader, count: nat, start: seq<Descriptor>) returns (res: Option<seq<Descriptor>>)
    requires r.pos <= |r.buf|
    modifies r`pos
    ensures Agrees(Descriptors(r.buf, old(r.pos), count, start), res, r.pos)
    ensures res.Some? ==> r.pos <= |r.buf|
  {
    var list := start;
    var j := 0;
    while j < count && |list| < MAX_CRED_LIST
      invariant j <= count && r.pos <= |r.buf|
      invariant Descriptors(r.buf, old(r.pos), count, start) == Descriptors(r.buf, r.pos, count - j, list)
    {
      var fields := r.NextCount(5);
      if fields.None? {
        return None;
      }
      var d := ReadDescriptorFields(r, fields.value);
      if d.None? {
        return None;
      }
      list := list + [d.value];
      j := j + 1;
    }
    return Some(list);
  }

  method ReadOptions(r: Reader, count: nat, start: Options) returns (res: Option<Options>)
    requires r.pos <= |r.buf|
    modifies r`pos
    ensures Agrees(ParseOptions(r.buf, old(r.pos), count, start), res, r.pos)
    ensures res.Some? ==> r.pos <= |r.buf|
  {
    var o := start;
    for j := 0 to count
      invariant r.pos <= |r.buf|
      invariant ParseOptions(r.buf, old(r.pos), count, start) == ParseOptions(r.buf, r.pos, count - j, o)
    {
      var key := r.NextStr(3);
      if key.None? {
        return None;
      }
      var value := r.NextBool();
      if value.None? {
        return None;
      }
      o := SetOption(o, key.value, value.value);
    }
    return Some(o);
  }

  method ReadCoseField(r: Reader, key: s64, c: Cose) returns (res: Option<Cose>)
    requires r.pos <= |r.buf|
    modifies r`pos
    ensures Agrees(CoseField(r.buf, old(r.pos), key, c), res, r.pos)
    ensures res.Some? ==> r.pos <= |r.buf|
  {
    if key == 1 || key == -1 {
      var v := r.NextInt();
      return if v.None? then None
             else Some(if key == 1 then c.(kty := v.value == 2) else c.(crv := v.value == 1));
    } else if key == -2 || key == -3 {
      var v := r.NextStr(2);
      return if v.None? || |v.value| != 32 then None
             else Some(if key == -2 then c.(x := v) else c.(y := v));
    }
    var ok := r.SkipItem();
    return if ok then Some(c) else None;
  }

  method ReadCoseFields(r: Reader, count: nat, start: Cose) returns (res: Option<Cose>)
    requires r.pos <= |r.buf|
    modifies r`pos
    ensures Agrees(CoseFields(r.buf, old(r.pos), count, start), res, r.pos)
    ensures res.Some? ==> r.pos <= |r.buf|
  {
    var c := start;
    for i := 0 to count
      invariant r.pos <= |r.buf|
      invariant CoseFields(r.buf, old(r.pos), count, start) == CoseFields(r.buf, r.pos, count - i, c)
    {
      ghost var at := r.pos;
      var key := r.NextInt();
      if key.None? {
        return None;
      }
      ghost var mid := r.pos;
      var next := ReadCoseField(r, key.value, c);
      if next.None? {
        return None;
      }
      CoseFieldsStep(r.buf, at, count - i, c, key.value, mid, next.value, r.pos);
      c := next.value;
    }
    return Some(c);
  }

  method ReadCose(r: Reader) returns (res: Option<seq<byte>>)
    requires r.pos <= |r.buf|
    modifies r`pos
    ensures Agrees(ReadCoseKey(r.buf, old(r.pos)), res, r.pos)
    ensures res.Some? ==> r.pos <= |r.buf|
  {
    var count := r.NextCount(5);
    if count.None? {
      return None;
    }
    var c := ReadCoseFields(r, count.value, Cose(false, false, None, None));
    return if c.None? || !c.value.kty || !c.value.crv || c.value.x.None? || c.value.y.None? then None
           else Some(c.value.x.value + c.value.y.value);
  }

  method ReadHmacField(r: Reader, key: s64, h: HmacInput) returns (res: Option<HmacInput>)
    requires r.pos <= |r.buf|
    modifies r`pos
    ensures Agrees(HmacField(r.buf, old(r.pos), key, h), res, r.pos)
    ensures res.Some? ==> r.pos <= |r.buf|
  {
    if key == 1 {
      var xy := ReadCose(r);
      return if xy.None? then None else Some(h.(key := xy));
    } else if key == 2 || key == 3 {
      var v := r.NextStr(2);
      return if v.None? || |v.value| != (if key == 2 then 64 else 16) then None
             else Some(if key == 2 then h.(saltEnc := v) else h.(saltAuth := v));
    }
    var ok := r.SkipItem();
    return if ok then Some(h) else None;
  }

  method ReadHmacFields(r: Reader, count: nat) returns (res: Option<HmacInput>)
    requires r.pos <= |r.buf|
    modifies r`pos
    ensures Agrees(HmacFields(r.buf, old(r.pos), count, HmacInput(None, None, None)), res, r.pos)
    ensures res.Some? ==> r.pos <= |r.buf|
  {
    hide HmacField;
    var h := HmacInput(None, None, None);
    for k := 0 to count
      invariant r.pos <= |r.buf|
      invariant HmacFields(r.buf, old(r.pos), count, HmacInput(None, None, None))
             == HmacFields(r.buf, r.pos, count - k, h)
    {
      ghost var at := r.pos;
      var key := r.NextInt();
      if key.None? {
        return None;
      }
      ghost var mid := r.pos;
      var next := ReadHmacField(r, key.value, h);
      if next.None? {
        return None;
      }
      HmacFieldsStep(r.buf, at, count - k, h, key.value, mid, next.value, r.pos);
      h := next.value;
    }
    return Some(h);
  }

  method ReadAssertExtensions(r: Reader, count: nat, start: Option<HmacInput>) returns (res: Option<Option<HmacInput>>)
    requires r.pos <= |r.buf|
    modifies r`pos
    ensures Agrees(AssertExtensions(r.buf, old(r.pos), count, start), res, r.pos)
    ensures res.Some? ==> r.pos <= |r.buf|
  {
    var hmac := start;
    for j := 0 to count
      invariant r.pos <= |r.buf|
      invariant AssertExtensions(r.buf, old(r.pos), count, start) == AssertExtensions(r.buf, r.pos, count - j, hmac)
    {
      var key := r.NextStr(3);
      if key.None? {
        return None;
      }
      if key.value == HMAC_SECRET {
        var fields := r.NextCount(5);
        if fields.None? {
          return None;
        }
        var h := ReadHmacFields(r, fields.value);
        if h.None? || !h.value.Complete() {
          return None;
        }
        hmac := h;
      } else {
        var ok := r.SkipItem();
        if !ok {
          return None;
        }
      }
    }
    return Some(hmac);
  }

  method ReadAssertField(r: Reader, key: s64, req: AssertReq) returns (res: Option<AssertReq>)
    requires r.pos <= |r.buf|
    modifies r`pos
    ensures Agrees(AssertField(r.buf, old(r.pos), key, req), res, r.pos)
    ensures res.Some? ==> r.pos <= |r.buf|
  {
    match key {
      case 1 =>
        var text := r.NextStr(3);
        return if text.None? || |text.value| >= MAX_RP_ID then None
               else Some(req.(rpId := Some(CStr(text.value))));
      case 2 =>
        var hash := r.NextStr(2);
        return if hash.None? || |hash.value| != 32 then None else Some(req.(hash := hash));
      case 3 =>
        var count := r.NextCount(4);
        if count.None? {
          return None;
        }
        var list := ReadDescriptors(r, count.value, req.allow);
        return if list.None? then None else Some(req.(allow := list.value));
      case 4 =>
        var count := r.NextCount(5);
        if count.None? {
          return None;
        }
        var hmac := ReadAssertExtensions(r, count.value, req.hmac);
        return if hmac.None? then None else Some(req.(hmac := hmac.value));
      case 5 =>
        var count := r.NextCount(5);
        if count.None? {
          return None;
        }
        var o := ReadOptions(r, count.value, req.options);
        return if o.None? then None else Some(req.(options := o.value.(rk := false)));
      case 6 =>
        var param := r.NextStr(2);
        return if param.None? then None else Some(req.(pinAuth := true));
      case 7 =>
        var protocol := r.NextCount(0);
        return if protocol.None? then None else Some(req);
      case _ =>
        var ok := r.SkipItem();
        return if ok then Some(req) else None;
    }
  }

  method ReadAssertFields(r: Reader, count: nat) returns (res: Option<AssertReq>)
    requires r.pos <= |r.buf|
    modifies r`pos
    ensures Agrees(AssertFields(r.buf, old(r.pos), count, EMPTY_ASSERT), res, r.pos)
  {
    var req := EMPTY_ASSERT;
    for i := 0 to count
      invariant r.pos <= |r.buf|
      invariant AssertFields(r.buf, old(r.pos), count, EMPTY_ASSERT) == AssertFields(r.buf, r.pos, count - i, req)
    {
      var key := r.NextInt();
      if key.None? {
        return None;
      }
      var next := ReadAssertField(r, key.value, req);
      if next.None? {
        return None;
      }
      req := next.value;
    }
    return Some(req);
  }

  method ReadGetAssertion(buf: seq<byte>) returns (res: Option<AssertReq>)
    ensures res == ParseGetAssertion(buf)
  {
    var r := new Reader(buf);
    var count := r.NextCount(5);
    if count.None? {
      return None;
    }
    var req := ReadAssertFields(r, count.value);
    return if req.Some? && req.value.hash.Some? && req.value.rpId.Some? then req else None;
  }

  method ReadRpFields(r: Reader, count: nat, start: Option<seq<byte>>) returns (res: Option<Option<seq<byte>>>)
    requires r.pos <= |r.buf|
    modifies r`pos
    ensures Agrees(RpFields(r.buf, old(r.pos), count, start), res, r.pos)
    ensures res.Some? ==> r.pos <= |r.buf|
  {
    var rp := start;
    for j := 0 to count
      invariant r.pos <= |r.buf|
      invariant RpFields(r.buf, old(r.pos), count, start) == RpFields(r.buf, r.pos, count - j, rp)
    {
      var key := r.NextStr(3);
      if key.None? {
        return None;
      }
      var text := r.NextStr(3);
      if text.None? {
        return None;
      }
      if key.value == KEY_ID && |text.value| < MAX_RP_ID {
        rp := Some(CStr(text.value));
      }
    }
    return Some(rp);
  }

  method ReadUserFields(r: Reader, count: nat, start: MakeReq) returns (res: Option<MakeReq>)
    requires r.pos <= |r.buf|
    modifies r`pos
    ensures Agrees(UserFields(r.buf, old(r.pos), count, start), res, r.pos)
    ensures res.Some? ==> r.pos <= |r.buf|
  {
    var req := start;
    for j := 0 to count
      invariant r.pos <= |r.buf|
      invariant UserFields(r.buf, old(r.pos), count, start) == UserFields(r.buf, r.pos, count - j, req)
    {
      var key := r.NextStr(3);
      if key.None? {
        return None;
      }
      if key.value == KEY_ID {
        var id := r.NextStr(2);
        if id.None? || |id.value| > MAX_USER_ID {
          return None;
        }
        req := req.(userId := id);
      } else if key.value == KEY_NAME || key.value == KEY_DISPLAY {
        var text := r.NextStr(3);
        if text.None? || |text.value| >= MAX_USER_NAME {
          return None;
        }
        req := if key.value == KEY_NAME then req.(userName := CStr(text.value))
               else req.(userDisplay := CStr(text.value));
      } else {
        var ok := r.SkipItem();
        if !ok {
          return None;
        }
      }
    }
    return Some(req);
  }

  method ReadParamFields(r: Reader, count: nat) returns (res: Option<bool>)
    requires r.pos <= |r.buf|
    modifies r`pos
    ensures Agrees(ParamFields(r.buf, old(r.pos), count, false, false), res, r.pos)
    ensures res.Some? ==> r.pos <= |r.buf|
  {
    var typeOk, algOk := false, false;
    for k := 0 to count
      invariant r.pos <= |r.buf|
      invariant ParamFields(r.buf, old(r.pos), count, false, false)
             == ParamFields(r.buf, r.pos, count - k, typeOk, algOk)
    {
      var key := r.NextStr(3);
      if key.None? {
        return None;
      }
      if key.value == KEY_TYPE {
        var text := r.NextStr(3);
        if text.None? {
          return None;
        }
        typeOk := text.value == PUBLIC_KEY;
      } else if key.value == KEY_ALG {
        var alg := r.NextInt();
        if alg.None? {
          return None;
        }
        algOk := alg.value == ALG_ES256;
      } else {
        var ok := r.SkipItem();
        if !ok {
          return None;
        }
      }
    }
    return Some(typeOk && algOk);
  }

  method ReadParams(r: Reader, count: nat) returns (res: Option<bool>)
    requires r.pos <= |r.buf|
    modifies r`pos
    ensures Agrees(Params(r.buf, old(r.pos), count, false), res, r.pos)
    ensures res.Some? ==> r.pos <= |r.buf|
  {
    var found := false;
    for j := 0 to count
      invariant r.pos <= |r.buf|
      invariant Params(r.buf, old(r.pos), count, false) == Params(r.buf, r.pos, count - j, found)
    {
      var fields := r.NextCount(5);
      if fields.None? {
        return None;
      }
      var ok := ReadParamFields(r, fields.value);
      if ok.None? {
        return None;
      }
      found := found || ok.value;
    }
    return Some(found);
  }

  method ReadCreateFields(r: Reader, count: nat) returns (res: Option<bool>)
    requires r.pos <= |r.buf|
    modifies r`pos
    ensures Agrees(CreateFields(r.buf, old(r.pos), count, true), res, r.pos)
    ensures res.Some? ==> r.pos <= |r.buf|
  {
    var create := true;
    for k := 0 to count
      invariant r.pos <= |r.buf|
      invariant CreateFields(r.buf, old(r.pos), count, true) == CreateFields(r.buf, r.pos, count - k, create)
    {
      var key := r.NextInt();
      if key.None? {
        return None;
      }
      if key.value == 1 {
        var value := r.NextBool();
        if value.None? {
          return None;
        }
        create := value.value;
      } else {
        var ok := r.SkipItem();
        if !ok {
          return None;
        }
      }
    }
    return Some(create);
  }

  method ReadHmacCreate(r: Reader, current: bool) returns (res: Option<bool>)
    requires r.pos <= |r.buf|
    modifies r`pos
    ensures Agrees(HmacCreate(r.buf, old(r.pos), current), res, r.pos)
    ensures res.Some? ==> r.pos <= |r.buf|
  {
    if r.pos >= |r.buf| {
      return None;
    }
    var next := r.buf[r.pos];
    if next == 0xf4 || next == 0xf5 {
      res := r.NextBool();
      return;
    } else if next / 32 == 5 {
      var fields := r.NextCount(5);
      if fields.None? {
        return None;
      }
      res := ReadCreateFields(r, fields.value);
      return;
    }
    var ok := r.SkipItem();
    return if ok then Some(current) else None;
  }

  method ReadMakeExtensions(r: Reader, count: nat, start: bool) returns (res: Option<bool>)
    requires r.pos <= |r.buf|
    modifies r`pos
    ensures Agrees(MakeExtensions(r.buf, old(r.pos), count, start), res, r.pos)
    ensures res.Some? ==> r.pos <= |r.buf|
  {
    var hmac := start;
    for j := 0 to count
      invariant r.pos <= |r.buf|
      invariant MakeExtensions(r.buf, old(r.pos), count, start) == MakeExtensions(r.buf, r.pos, count - j, hmac)
    {
      var key := r.NextStr(3);
      if key.None? {
        return None;
      }
      if key.value == HMAC_SECRET {
        var h := ReadHmacCreate(r, hmac);
        if h.None? {
          return None;
        }
        hmac := h.value;
      } else {
        var ok := r.SkipItem();
        if !ok {
          return None;
        }
      }
    }
    return Some(hmac);
  }

  /** As `Agrees`, for the parser whose failures carry an error. */
  ghost predicate AgreesErr<T>(spec: Parsed<(T, nat)>, got: Parsed<T>, pos: nat) {
    if got.Err? then spec == Err(got.error) else spec == Ok((got.value, pos))
  }

  method ReadMakeField(r: Reader, key: s64, req: MakeReq) returns (res: Parsed<MakeReq>)
    requires r.pos <= |r.buf|
    modifies r`pos
    ensures AgreesErr(MakeField(r.buf, old(r.pos), key, req), res, r.pos)
    ensures res.Ok? ==> r.pos <= |r.buf|
  {
    if key == 1 || key == 8 {
      var bytes := r.NextStr(2);
      if bytes.None? || (key == 1 && |bytes.value| != 32) {
        return Err(Invalid);
      }
      return Ok(if key == 1 then req.(hash := bytes) else req.(pinAuth := true));
    } else if key == 9 {
      var protocol := r.NextCount(0);
      return if protocol.None? then Err(Invalid) else Ok(req);
    } else if key < 2 || key > 9 {
      var ok := r.SkipItem();
      return if ok then Ok(req) else Err(Invalid);
    }
    var count := r.NextCount(if key == 4 || key == 5 then 4 else 5);
    if count.None? {
      return Err(Invalid);
    }
    match key {
      case 2 =>
        var rp := ReadRpFields(r, count.value, req.rpId);
        return if rp.None? then Err(Invalid) else Ok(req.(rpId := rp.value));
      case 3 =>
        var user := ReadUserFields(r, count.value, req);
        return Required(user);
      case 4 =>
        var found := ReadParams(r, count.value);
        return if found.None? then Err(Invalid) else if found.value then Ok(req) else Err(UnsupportedAlgorithm);
      case 5 =>
        var list := ReadDescriptors(r, count.value, req.exclude);
        return if list.None? then Err(Invalid) else Ok(req.(exclude := list.value));
      case 6 =>
        var hmac := ReadMakeExtensions(r, count.value, req.hmacSecret);
        return if hmac.None? then Err(Invalid) else Ok(req.(hmacSecret := hmac.value));
      case _ =>
        var o := ReadOptions(r, count.value, req.options);
        return if o.None? then Err(Invalid) else Ok(req.(options := o.value));
    }
  }

  method ReadMakeFields(r: Reader, count: nat) returns (res: Parsed<MakeReq>)
    requires r.pos <= |r.buf|
    modifies r`pos
    ensures AgreesErr(MakeFields(r.buf, old(r.pos), count, EMPTY_MAKE), res, r.pos)
  {
    var req := EMPTY_MAKE;
    for i := 0 to count
      invariant r.pos <= |r.buf|
      invariant MakeFields(r.buf, old(r.pos), count, EMPTY_MAKE) == MakeFields(r.buf, r.pos, count - i, req)
    {
      var key := r.NextInt();
      if key.None? {
        return Err(Invalid);
      }
      var next := ReadMakeField(r, key.value, req);
      if next.Err? {
        return next;
      }
      req := next.value;
    }
    return Ok(req);
  }

  method ReadMakeCredential(buf: seq<byte>) returns (res: Parsed<MakeReq>)
    ensures res == ParseMakeCredential(buf)
  {
    var r := new Reader(buf);
    var count := r.NextCount(5);
    if count.None? {
      return Err(Invalid);
    }
    var req := ReadMakeFields(r, count.value);
    if req.Err? {
      return req;
    }
    return if req.value.hash.Some? && req.value.rpId.Some? && req.value.userId.Some? then req else Err(Invalid);
  }
}
