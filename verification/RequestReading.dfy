/** The byte parsers find in every encoded request exactly what its tree of items says. */
module RequestReading {
  import opened Bytes
  import opened Cbor
  import opened CborMaps
  import opened RequestParsers
  import opened RequestMeaning

  // ----- reading one item, whatever it is -----

  function At<T>(v: Option<T>, end: nat): Option<(T, nat)> {
    if v.None? then None else Some((v.value, end))
  }

  lemma HeadThere(buf: seq<byte>, pos: nat, i: Item)
    requires i.WellFormed() && Has(buf, pos, Encode(i))
    ensures ReadHead(buf, pos) == Some((i.head, pos + |EncodeHead(i.head)|)) && pos < |buf|
    ensures i.Str? ==> Has(buf, pos + |EncodeHead(i.head)|, i.payload)
    ensures !i.List? ==> |Encode(i)| == |EncodeHead(i.head)| + if i.Str? then |i.payload| else 0
  {
    hide ReadHead;
    hide EncodeHead;
    SplitHead(i, buf, pos);
    ReadHeadComplete(buf, pos, i.head);
  }

  lemma StrThere(buf: seq<byte>, pos: nat, i: Item)
    requires i.WellFormed() && Has(buf, pos, Encode(i))
    ensures ReadText(buf, pos) == At(TextOf(i), pos + |Encode(i)|)
    ensures ReadBytes(buf, pos) == At(BytesOf(i), pos + |Encode(i)|)
  {
    hide ReadHead;
    hide Encode;
    hide EncodeHead;
    HeadThere(buf, pos, i);
  }

  lemma IntThere(buf: seq<byte>, pos: nat, i: Item)
    requires i.WellFormed() && Has(buf, pos, Encode(i))
    ensures ReadInt(buf, pos) == At(IntOf(i), pos + |Encode(i)|)
  {
    hide ReadHead;
    hide Encode;
    hide EncodeHead;
    HeadThere(buf, pos, i);
  }

  lemma BoolThere(buf: seq<byte>, pos: nat, i: Item)
    requires i.WellFormed() && Has(buf, pos, Encode(i))
    ensures ReadBool(buf, pos) == At(BoolOf(i), pos + |Encode(i)|)
  {
    hide ReadHead;
    hide Encode;
    hide EncodeHead;
    HeadThere(buf, pos, i);
  }

  lemma UintThere(buf: seq<byte>, pos: nat, i: Item)
    requires i.WellFormed() && Has(buf, pos, Encode(i))
    ensures ReadUint(buf, pos) == if i.head.major == 0 then Some((i.head.value, pos + |Encode(i)|)) else None
  {
    hide ReadHead;
    hide Encode;
    hide EncodeHead;
    HeadThere(buf, pos, i);
  }

  /** Opening a map or an array; `start` is where its items stand. */
  lemma OpenThere(buf: seq<byte>, pos: nat, i: Item) returns (start: nat)
    requires i.WellFormed() && Has(buf, pos, Encode(i))
    ensures ReadMap(buf, pos) == if MapOf(i).Some? then Some((|i.items| / 2, start)) else None
    ensures ReadArray(buf, pos) == if ArrayOf(i).Some? then Some((|i.items|, start)) else None
    ensures i.List? ==> AllWellFormed(i.items) && Has(buf, start, EncodeAll(i.items)) && start + |EncodeAll(i.items)| == pos + |Encode(i)|
    ensures MapOf(i).Some? ==> |i.items| % 2 == 0
  {
    hide ReadHead;
    hide Encode;
    hide EncodeHead;
    HeadThere(buf, pos, i);
    start := pos + |EncodeHead(i.head)|;
    if i.List? {
      Open(buf, pos, i, start);
    }
  }

  lemma SkipThere(buf: seq<byte>, pos: nat, i: Item)
    requires i.WellFormed() && Has(buf, pos, Encode(i))
    ensures Skip(buf, pos) == Some(pos + |Encode(i)|)
  {
    SkipComplete(i, buf, pos);
  }

  /** The first two of several items, and where the others stand. */
  lemma TwoThere(buf: seq<byte>, pos: nat, items: seq<Item>) returns (p: nat, q: nat)
    requires AllWellFormed(items) && |items| >= 2 && Has(buf, pos, EncodeAll(items))
    ensures p == pos + |Encode(items[0])| && q == p + |Encode(items[1])| <= |buf|
    ensures Has(buf, pos, Encode(items[0])) && Has(buf, p, Encode(items[1])) && Has(buf, q, EncodeAll(items[2..]))
    ensures AllWellFormed(items[2..]) && q + |EncodeAll(items[2..])| == pos + |EncodeAll(items)|
  {
    hide Encode;
    Next(buf, pos, items);
    Next(buf, pos + |Encode(items[0])|, items[1..]);
    assert items[1..][1..] == items[2..];
    p, q := pos + |Encode(items[0])|, pos + |Encode(items[0])| + |Encode(items[1])|;
  }

  lemma FoldStep<S>(items: seq<Item>, s: S, member: (S, Item, Item) -> Option<S>)
    ensures Fold(items, s, member) ==
      if |items| < 2 then Some(s)
      else if member(s, items[0], items[1]).None? then None
      else Fold(items[2..], member(s, items[0], items[1]).value, member)
  {
  }

  // ----- the loops of both parsers -----

  lemma DescriptorStep(buf: seq<byte>, pos: nat, count: nat, d: Descriptor, k: Item, v: Item, p: nat, q: nat)
    requires count > 0 && k.WellFormed() && v.WellFormed() && Has(buf, pos, Encode(k)) && Has(buf, p, Encode(v))
    requires p == pos + |Encode(k)| && q == p + |Encode(v)|
    ensures var next := DescriptorMember(d, k, v);
      DescriptorFields(buf, pos, count, d) == if next.None? then None else DescriptorFields(buf, q, count - 1, next.value)
  {
    hide Encode;
    hide ReadText;
    hide ReadBytes;
    hide Skip;
    StrThere(buf, pos, k);
    StrThere(buf, p, v);
    SkipThere(buf, p, v);
  }

  lemma {:induction false} DescriptorThere(buf: seq<byte>, pos: nat, items: seq<Item>, d: Descriptor)
    requires AllWellFormed(items) && |items| % 2 == 0 && Has(buf, pos, EncodeAll(items))
    ensures DescriptorFields(buf, pos, |items| / 2, d) == At(Fold(items, d, DescriptorMember), pos + |EncodeAll(items)|)
    decreases |items|
  {
    hide Encode;
    hide Fold;
    hide DescriptorMember;
    hide ReadText;
    hide ReadBytes;
    hide Skip;
    FoldStep(items, d, DescriptorMember);
    if items != [] {
      var p, q := TwoThere(buf, pos, items);
      DescriptorStep(buf, pos, |items| / 2, d, items[0], items[1], p, q);
      var next := DescriptorMember(d, items[0], items[1]);
      if next.Some? {
        DescriptorThere(buf, q, items[2..], next.value);
      }
    }
  }

  lemma OptionsStep(buf: seq<byte>, pos: nat, count: nat, o: Options, k: Item, v: Item, p: nat, q: nat)
    requires count > 0 && k.WellFormed() && v.WellFormed() && Has(buf, pos, Encode(k)) && Has(buf, p, Encode(v))
    requires p == pos + |Encode(k)| && q == p + |Encode(v)|
    ensures var next := OptionMember(o, k, v);
      ParseOptions(buf, pos, count, o) == if next.None? then None else ParseOptions(buf, q, count - 1, next.value)
  {
    hide Encode;
    hide ReadText;
    hide ReadBool;
    StrThere(buf, pos, k);
    BoolThere(buf, p, v);
  }

  lemma {:induction false} OptionsThere(buf: seq<byte>, pos: nat, items: seq<Item>, o: Options)
    requires AllWellFormed(items) && |items| % 2 == 0 && Has(buf, pos, EncodeAll(items))
    ensures ParseOptions(buf, pos, |items| / 2, o) == At(Fold(items, o, OptionMember), pos + |EncodeAll(items)|)
    decreases |items|
  {
    hide Encode;
    hide Fold;
    hide OptionMember;
    hide ReadText;
    hide ReadBool;
    FoldStep(items, o, OptionMember);
    if items != [] {
      var p, q := TwoThere(buf, pos, items);
      OptionsStep(buf, pos, |items| / 2, o, items[0], items[1], p, q);
      var next := OptionMember(o, items[0], items[1]);
      if next.Some? {
        OptionsThere(buf, q, items[2..], next.value);
      }
    }
  }

  lemma ListStep(buf: seq<byte>, pos: nat, count: nat, list: seq<Descriptor>, i: Item)
    requires count > 0 && |list| < 32 && i.WellFormed() && Has(buf, pos, Encode(i))
    ensures var d := DescriptorOf(i);
      Descriptors(buf, pos, count, list) == if d.None? then None else Descriptors(buf, pos + |Encode(i)|, count - 1, list + [d.value])
  {
    hide Encode;
    hide ReadMap;
    hide DescriptorFields;
    hide Fold;
    var start := OpenThere(buf, pos, i);
    if MapOf(i).Some? {
      DescriptorThere(buf, start, i.items, Descriptor(false, []));
    }
  }

  /** The list reader stops behind its 32nd descriptor, in front of the items left over. */
  lemma {:induction false} ListThere(buf: seq<byte>, pos: nat, items: seq<Item>, list: seq<Descriptor>)
    requires AllWellFormed(items) && Has(buf, pos, EncodeAll(items))
    ensures var r := DescriptorsOf(items, list); var s := Descriptors(buf, pos, |items|, list);
      if r.None? then s.None?
      else && s.Some? && s.value.0 == r.value.0 && AllWellFormed(r.value.1)
           && Has(buf, s.value.1, EncodeAll(r.value.1)) && s.value.1 + |EncodeAll(r.value.1)| == pos + |EncodeAll(items)|
    decreases |items|
  {
    hide Encode;
    hide ReadMap;
    hide DescriptorFields;
    hide DescriptorOf;
    if items != [] && |list| < 32 {
      Next(buf, pos, items);
      ListStep(buf, pos, |items|, list, items[0]);
      var d := DescriptorOf(items[0]);
      if d.Some? {
        ListThere(buf, pos + |Encode(items[0])|, items[1..], list + [d.value]);
      }
    }
  }

  // ----- makeCredential -----

  lemma RpStep(buf: seq<byte>, pos: nat, count: nat, rp: Option<seq<byte>>, k: Item, v: Item, p: nat, q: nat)
    requires count > 0 && k.WellFormed() && v.WellFormed() && Has(buf, pos, Encode(k)) && Has(buf, p, Encode(v))
    requires p == pos + |Encode(k)| && q == p + |Encode(v)|
    ensures var next := RpMember(rp, k, v);
      RpFields(buf, pos, count, rp) == if next.None? then None else RpFields(buf, q, count - 1, next.value)
  {
    hide Encode;
    hide ReadText;
    hide CStr;
    StrThere(buf, pos, k);
    StrThere(buf, p, v);
  }

  lemma {:induction false} RpThere(buf: seq<byte>, pos: nat, items: seq<Item>, rp: Option<seq<byte>>)
    requires AllWellFormed(items) && |items| % 2 == 0 && Has(buf, pos, EncodeAll(items))
    ensures RpFields(buf, pos, |items| / 2, rp) == At(Fold(items, rp, RpMember), pos + |EncodeAll(items)|)
    decreases |items|
  {
    hide Encode;
    hide Fold;
    hide RpMember;
    hide ReadText;
    FoldStep(items, rp, RpMember);
    if items != [] {
      var p, q := TwoThere(buf, pos, items);
      RpStep(buf, pos, |items| / 2, rp, items[0], items[1], p, q);
      var next := RpMember(rp, items[0], items[1]);
      if next.Some? {
        RpThere(buf, q, items[2..], next.value);
      }
    }
  }

  lemma UserMemberThere(buf: seq<byte>, p: nat, k: Item, v: Item, req: MakeReq)
    requires v.WellFormed() && Has(buf, p, Encode(v)) && TextOf(k).Some?
    ensures UserField(buf, p, TextOf(k).value, req) == At(UserMember(req, k, v), p + |Encode(v)|)
  {
    hide Encode;
    hide ReadText;
    hide ReadBytes;
    hide Skip;
    hide CStr;
    StrThere(buf, p, v);
    SkipThere(buf, p, v);
  }

  lemma {:induction false} UserThere(buf: seq<byte>, pos: nat, items: seq<Item>, req: MakeReq)
    requires AllWellFormed(items) && |items| % 2 == 0 && Has(buf, pos, EncodeAll(items))
    ensures UserFields(buf, pos, |items| / 2, req) == At(Fold(items, req, UserMember), pos + |EncodeAll(items)|)
    decreases |items|
  {
    hide Encode;
    hide ReadText;
    hide UserField;
    if items != [] {
      var p, q := TwoThere(buf, pos, items);
      StrThere(buf, pos, items[0]);
      if TextOf(items[0]).Some? {
        UserMemberThere(buf, p, items[0], items[1], req);
      }
      var next := UserMember(req, items[0], items[1]);
      if next.Some? {
        UserThere(buf, q, items[2..], next.value);
      }
    }
  }

  lemma ParamStep(buf: seq<byte>, pos: nat, count: nat, ok: (bool, bool), k: Item, v: Item, p: nat, q: nat)
    requires count > 0 && k.WellFormed() && v.WellFormed() && Has(buf, pos, Encode(k)) && Has(buf, p, Encode(v))
    requires p == pos + |Encode(k)| && q == p + |Encode(v)|
    ensures var next := ParamMember(ok, k, v);
      ParamFields(buf, pos, count, ok.0, ok.1) == if next.None? then None else ParamFields(buf, q, count - 1, next.value.0, next.value.1)
  {
    hide Encode;
    hide TextOf;
    hide BytesOf;
    hide IntOf;
    hide Has;
    hide ReadText;
    hide ReadInt;
    hide Skip;
    StrThere(buf, pos, k);
    StrThere(buf, p, v);
    IntThere(buf, p, v);
    SkipThere(buf, p, v);
  }

  lemma {:induction false} ParamThere(buf: seq<byte>, pos: nat, items: seq<Item>, ok: (bool, bool))
    requires AllWellFormed(items) && |items| % 2 == 0 && Has(buf, pos, EncodeAll(items))
    ensures ParamFields(buf, pos, |items| / 2, ok.0, ok.1) ==
      (var r := Fold(items, ok, ParamMember); if r.None? then None else Some((r.value.0 && r.value.1, pos + |EncodeAll(items)|)))
    decreases |items|
  {
    hide Encode;
    hide Fold;
    hide ParamMember;
    hide ReadText;
    hide ReadInt;
    hide Skip;
    FoldStep(items, ok, ParamMember);
    if items != [] {
      var p, q := TwoThere(buf, pos, items);
      ParamStep(buf, pos, |items| / 2, ok, items[0], items[1], p, q);
      var next := ParamMember(ok, items[0], items[1]);
      if next.Some? {
        ParamThere(buf, q, items[2..], next.value);
      }
    }
  }

  lemma ParamsStep(buf: seq<byte>, pos: nat, count: nat, found: bool, i: Item)
    requires count > 0 && i.WellFormed() && Has(buf, pos, Encode(i))
    ensures var ok := ParamOf(i);
      Params(buf, pos, count, found) == if ok.None? then None else Params(buf, pos + |Encode(i)|, count - 1, found || ok.value)
  {
    hide Encode;
    hide ReadMap;
    hide ParamFields;
    hide Fold;
    var start := OpenThere(buf, pos, i);
    if MapOf(i).Some? {
      ParamThere(buf, start, i.items, (false, false));
    }
  }

  lemma {:induction false} ParamsThere(buf: seq<byte>, pos: nat, items: seq<Item>, found: bool)
    requires AllWellFormed(items) && Has(buf, pos, EncodeAll(items))
    ensures Params(buf, pos, |items|, found) ==
      (var r := AnyParam(items); if r.None? then None else Some((found || r.value, pos + |EncodeAll(items)|)))
    decreases |items|
  {
    hide Encode;
    hide ReadMap;
    hide ParamFields;
    hide ParamOf;
    if items != [] {
      Next(buf, pos, items);
      ParamsStep(buf, pos, |items|, found, items[0]);
      var ok := ParamOf(items[0]);
      if ok.Some? {
        ParamsThere(buf, pos + |Encode(items[0])|, items[1..], found || ok.value);
      }
    }
  }

  lemma CreateStep(buf: seq<byte>, pos: nat, count: nat, create: bool, k: Item, v: Item, p: nat, q: nat)
    requires count > 0 && k.WellFormed() && v.WellFormed() && Has(buf, pos, Encode(k)) && Has(buf, p, Encode(v))
    requires p == pos + |Encode(k)| && q == p + |Encode(v)|
    ensures var next := CreateMember(create, k, v);
      CreateFields(buf, pos, count, create) == if next.None? then None else CreateFields(buf, q, count - 1, next.value)
  {
    hide Encode;
    hide ReadInt;
    hide ReadBool;
    hide Skip;
    IntThere(buf, pos, k);
    BoolThere(buf, p, v);
    SkipThere(buf, p, v);
  }

  lemma {:induction false} CreateThere(buf: seq<byte>, pos: nat, items: seq<Item>, create: bool)
    requires AllWellFormed(items) && |items| % 2 == 0 && Has(buf, pos, EncodeAll(items))
    ensures CreateFields(buf, pos, |items| / 2, create) == At(Fold(items, create, CreateMember), pos + |EncodeAll(items)|)
    decreases |items|
  {
    hide Encode;
    hide Fold;
    hide CreateMember;
    hide ReadInt;
    hide ReadBool;
    hide Skip;
    FoldStep(items, create, CreateMember);
    if items != [] {
      var p, q := TwoThere(buf, pos, items);
      CreateStep(buf, pos, |items| / 2, create, items[0], items[1], p, q);
      var next := CreateMember(create, items[0], items[1]);
      if next.Some? {
        CreateThere(buf, q, items[2..], next.value);
      }
    }
  }

  /** The first byte of an item tells a plain boolean and a map from everything else. */
  lemma FirstByte(buf: seq<byte>, pos: nat, i: Item)
    requires i.WellFormed() && Has(buf, pos, Encode(i))
    ensures pos < |buf| && buf[pos] / 32 == i.head.major
    ensures buf[pos] == 0xf4 <==> i == Atom(Head(7, Inline, 20))
    ensures buf[pos] == 0xf5 <==> i == Atom(Head(7, Inline, 21))
  {
    var e := Encode(i);
    assert buf[pos] == buf[pos..pos + |e|][0] == e[0] == EncodeHead(i.head)[0];
  }

  lemma HmacCreateThere(buf: seq<byte>, pos: nat, i: Item, current: bool)
    requires i.WellFormed() && Has(buf, pos, Encode(i))
    ensures HmacCreate(buf, pos, current) == At(CreateOf(current, i), pos + |Encode(i)|)
  {
    hide Encode;
    hide ReadBool;
    hide ReadMap;
    hide CreateFields;
    hide Skip;
    hide Fold;
    FirstByte(buf, pos, i);
    BoolThere(buf, pos, i);
    SkipThere(buf, pos, i);
    var start := OpenThere(buf, pos, i);
    if MapOf(i).Some? {
      CreateThere(buf, start, i.items, true);
    }
  }

  lemma MakeExtensionsStep(buf: seq<byte>, pos: nat, count: nat, hmac: bool, k: Item, v: Item, p: nat, q: nat)
    requires count > 0 && k.WellFormed() && v.WellFormed() && Has(buf, pos, Encode(k)) && Has(buf, p, Encode(v))
    requires p == pos + |Encode(k)| && q == p + |Encode(v)|
    ensures var next := MakeExtension(hmac, k, v);
      MakeExtensions(buf, pos, count, hmac) == if next.None? then None else MakeExtensions(buf, q, count - 1, next.value)
  {
    hide Encode;
    hide ReadText;
    hide HmacCreate;
    hide CreateOf;
    hide Skip;
    StrThere(buf, pos, k);
    SkipThere(buf, p, v);
    HmacCreateThere(buf, p, v, hmac);
  }

  lemma {:induction false} MakeExtensionsThere(buf: seq<byte>, pos: nat, items: seq<Item>, hmac: bool)
    requires AllWellFormed(items) && |items| % 2 == 0 && Has(buf, pos, EncodeAll(items))
    ensures MakeExtensions(buf, pos, |items| / 2, hmac) == At(Fold(items, hmac, MakeExtension), pos + |EncodeAll(items)|)
    decreases |items|
  {
    hide Encode;
    hide Fold;
    hide MakeExtension;
    hide ReadText;
    hide HmacCreate;
    hide Skip;
    FoldStep(items, hmac, MakeExtension);
    if items != [] {
      var p, q := TwoThere(buf, pos, items);
      MakeExtensionsStep(buf, pos, |items| / 2, hmac, items[0], items[1], p, q);
      var next := MakeExtension(hmac, items[0], items[1]);
      if next.Some? {
        MakeExtensionsThere(buf, q, items[2..], next.value);
      }
    }
  }

  /** The field parser does what the member says, and stops in front of what it leaves over. */
  ghost predicate MadeAs(buf: seq<byte>, end: nat, r: Parsed<(MakeReq, nat)>, m: Parsed<(MakeReq, seq<Item>)>) {
    match m
    case Err(e) => r == Err(e)
    case Ok((next, left)) =>
      && r.Ok? && r.value.0 == next && AllWellFormed(left)
      && Has(buf, r.value.1, EncodeAll(left)) && r.value.1 + |EncodeAll(left)| == end
  }

  lemma PlainMakeMember(buf: seq<byte>, p: nat, key: s64, v: Item, req: MakeReq)
    requires v.WellFormed() && Has(buf, p, Encode(v)) && (key < 2 || key > 7)
    ensures MadeAs(buf, p + |Encode(v)|, MakeField(buf, p, key, req), MakeMember(req, key, v))
  {
    hide Encode;
    hide ReadBytes;
    hide ReadMap;
    hide ReadArray;
    hide ReadUint;
    hide Skip;
    hide Fold;
    hide RpFields;
    hide UserFields;
    hide Params;
    hide Descriptors;
    hide MakeExtensions;
    hide ParseOptions;
    hide DescriptorsOf;
    hide AnyParam;
    StrThere(buf, p, v);
    UintThere(buf, p, v);
    SkipThere(buf, p, v);
    assert EncodeAll([]) == [];
  }

  lemma NameMakeMember(buf: seq<byte>, p: nat, key: s64, v: Item, req: MakeReq)
    requires v.WellFormed() && Has(buf, p, Encode(v)) && key in {2, 3}
    ensures MadeAs(buf, p + |Encode(v)|, MakeField(buf, p, key, req), MakeMember(req, key, v))
  {
    hide Encode;
    hide ReadBytes;
    hide ReadMap;
    hide ReadArray;
    hide ReadUint;
    hide Skip;
    hide Fold;
    hide RpFields;
    hide UserFields;
    hide Params;
    hide Descriptors;
    hide MakeExtensions;
    hide ParseOptions;
    hide DescriptorsOf;
    hide AnyParam;
    var start := OpenThere(buf, p, v);
    assert EncodeAll([]) == [];
    if MapOf(v).Some? {
      if key == 2 {
        RpThere(buf, start, v.items, req.rpId);
      } else {
        UserThere(buf, start, v.items, req);
      }
    }
  }

  lemma SwitchMakeMember(buf: seq<byte>, p: nat, key: s64, v: Item, req: MakeReq)
    requires v.WellFormed() && Has(buf, p, Encode(v)) && key in {6, 7}
    ensures MadeAs(buf, p + |Encode(v)|, MakeField(buf, p, key, req), MakeMember(req, key, v))
  {
    hide Encode;
    hide ReadBytes;
    hide ReadMap;
    hide ReadArray;
    hide ReadUint;
    hide Skip;
    hide Fold;
    hide RpFields;
    hide UserFields;
    hide Params;
    hide Descriptors;
    hide MakeExtensions;
    hide ParseOptions;
    hide DescriptorsOf;
    hide AnyParam;
    var start := OpenThere(buf, p, v);
    assert EncodeAll([]) == [];
    if MapOf(v).Some? {
      if key == 6 {
        MakeExtensionsThere(buf, start, v.items, req.hmacSecret);
      } else {
        OptionsThere(buf, start, v.items, req.options);
      }
    }
  }

  lemma ArrayMakeMember(buf: seq<byte>, p: nat, key: s64, v: Item, req: MakeReq)
    requires v.WellFormed() && Has(buf, p, Encode(v)) && key in {4, 5}
    ensures MadeAs(buf, p + |Encode(v)|, MakeField(buf, p, key, req), MakeMember(req, key, v))
  {
    hide Encode;
    hide ReadBytes;
    hide ReadMap;
    hide ReadArray;
    hide ReadUint;
    hide Skip;
    hide Fold;
    hide RpFields;
    hide UserFields;
    hide Params;
    hide Descriptors;
    hide MakeExtensions;
    hide ParseOptions;
    hide DescriptorsOf;
    hide AnyParam;
    var start := OpenThere(buf, p, v);
    assert EncodeAll([]) == [];
    if ArrayOf(v).Some? {
      if key == 4 {
        ParamsThere(buf, start, v.items, false);
      } else {
        ListThere(buf, start, v.items, req.exclude);
      }
    }
  }

  lemma MakeMemberThere(buf: seq<byte>, p: nat, key: s64, v: Item, req: MakeReq)
    requires v.WellFormed() && Has(buf, p, Encode(v))
    ensures MadeAs(buf, p + |Encode(v)|, MakeField(buf, p, key, req), MakeMember(req, key, v))
  {
    hide *;
    if key in {2, 3} {
      NameMakeMember(buf, p, key, v, req);
    } else if key in {6, 7} {
      SwitchMakeMember(buf, p, key, v, req);
    } else if key in {4, 5} {
      ArrayMakeMember(buf, p, key, v, req);
    } else {
      PlainMakeMember(buf, p, key, v, req);
    }
  }

  lemma {:induction false} EncodeAllAppend(a: seq<Item>, b: seq<Item>)
    requires AllWellFormed(a) && AllWellFormed(b)
    ensures AllWellFormed(a + b) && EncodeAll(a + b) == EncodeAll(a) + EncodeAll(b)
    decreases |a|
  {
    hide Encode;
    if a == [] {
      assert a + b == b;
    } else {
      EncodeAllAppend(a[1..], b);
      assert a + b == [a[0]] + (a[1..] + b);
      EncodeAllCons(a[0], a[1..] + b);
    }
  }

  lemma Leftover(buf: seq<byte>, pos: nat, left: seq<Item>, q: nat, rest: seq<Item>)
    requires AllWellFormed(left) && AllWellFormed(rest) && Has(buf, pos, EncodeAll(left))
    requires q == pos + |EncodeAll(left)| && Has(buf, q, EncodeAll(rest))
    ensures AllWellFormed(left + rest) && Has(buf, pos, EncodeAll(left + rest))
  {
    EncodeAllAppend(left, rest);
    HasSplit(buf, pos, EncodeAll(left), EncodeAll(rest));
  }

  lemma {:induction false} MakeMembersThere(buf: seq<byte>, pos: nat, items: seq<Item>, count: nat, req: MakeReq)
    requires AllWellFormed(items) && 2 * count <= |items| && Has(buf, pos, EncodeAll(items))
    ensures var r := MakeFields(buf, pos, count, req);
      match MakeMembers(items, count, req)
      case Err(e) => r == Err(e)
      case Ok(m) => r.Ok? && r.value.0 == m
    decreases count
  {
    hide Encode;
    hide ReadInt;
    hide MakeField;
    hide MakeMember;
    if count > 0 {
      var p, q := TwoThere(buf, pos, items);
      IntThere(buf, pos, items[0]);
      if IntOf(items[0]).Some? {
        var key := IntOf(items[0]).value;
        MakeMemberThere(buf, p, key, items[1], req);
        var m := MakeMember(req, key, items[1]);
        if m.Ok? {
          var r := MakeField(buf, p, key, req).value;
          Leftover(buf, r.1, m.value.1, q, items[2..]);
          MakeMembersThere(buf, r.1, m.value.1 + items[2..], count - 1, m.value.0);
        }
      }
    }
  }

  /** For every item, followed by anything: the bytes are parsed to what the tree says, and refused for the tree's reason. */
  lemma MakeCredentialThere(i: Item, buf: seq<byte>)
    requires i.WellFormed() && Has(buf, 0, Encode(i))
    ensures ParseMakeCredential(buf) == MakeCredentialOf(i)
  {
    hide Encode;
    hide ReadMap;
    hide MakeFields;
    hide MakeMembers;
    var start := OpenThere(buf, 0, i);
    if MapOf(i).Some? {
      MakeMembersThere(buf, start, i.items, |i.items| / 2, EMPTY_MAKE);
    }
  }
}
