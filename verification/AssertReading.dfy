/** The getAssertion parser finds in every encoded request exactly what its tree of items says. */
module AssertReading {
  import opened Bytes
  import opened Cbor
  import opened CborMaps
  import opened RequestParsers
  import opened RequestMeaning
  import opened RequestReading

  lemma CoseMemberThere(buf: seq<byte>, p: nat, k: Item, v: Item, c: Cose)
    requires v.WellFormed() && Has(buf, p, Encode(v)) && IntOf(k).Some?
    ensures CoseField(buf, p, IntOf(k).value, c) == At(CoseMember(c, k, v), p + |Encode(v)|)
  {
    hide Encode;
    hide ReadInt;
    hide ReadBytes;
    hide Skip;
    hide IntOf;
    hide BytesOf;
    StrThere(buf, p, v);
    IntThere(buf, p, v);
    SkipThere(buf, p, v);
  }

  lemma CoseStep(buf: seq<byte>, pos: nat, count: nat, c: Cose, k: Item, v: Item, p: nat, q: nat)
    requires count > 0 && k.WellFormed() && v.WellFormed() && Has(buf, pos, Encode(k)) && Has(buf, p, Encode(v))
    requires p == pos + |Encode(k)| && q == p + |Encode(v)|
    ensures var next := CoseMember(c, k, v);
      CoseFields(buf, pos, count, c) == if next.None? then None else CoseFields(buf, q, count - 1, next.value)
  {
    hide Encode;
    hide ReadInt;
    hide CoseField;
    IntThere(buf, pos, k);
    if IntOf(k).Some? {
      CoseMemberThere(buf, p, k, v, c);
    }
  }

  lemma {:induction false} CoseThere(buf: seq<byte>, pos: nat, items: seq<Item>, c: Cose)
    requires AllWellFormed(items) && |items| % 2 == 0 && Has(buf, pos, EncodeAll(items))
    ensures CoseFields(buf, pos, |items| / 2, c) == At(Fold(items, c, CoseMember), pos + |EncodeAll(items)|)
    decreases |items|
  {
    hide Encode;
    hide Fold;
    hide CoseMember;
    hide ReadInt;
    hide CoseField;
    FoldStep(items, c, CoseMember);
    if items != [] {
      var p, q := TwoThere(buf, pos, items);
      CoseStep(buf, pos, |items| / 2, c, items[0], items[1], p, q);
      var next := CoseMember(c, items[0], items[1]);
      if next.Some? {
        CoseThere(buf, q, items[2..], next.value);
      }
    }
  }

  lemma CoseKeyThere(buf: seq<byte>, pos: nat, i: Item)
    requires i.WellFormed() && Has(buf, pos, Encode(i))
    ensures ReadCoseKey(buf, pos) == At(CoseKeyOf(i), pos + |Encode(i)|)
  {
    hide Encode;
    hide ReadMap;
    hide CoseFields;
    hide Fold;
    var start := OpenThere(buf, pos, i);
    if MapOf(i).Some? {
      CoseThere(buf, start, i.items, Cose(false, false, None, None));
    }
  }

  lemma HmacMemberThere(buf: seq<byte>, p: nat, k: Item, v: Item, h: HmacInput)
    requires v.WellFormed() && Has(buf, p, Encode(v)) && IntOf(k).Some?
    ensures HmacField(buf, p, IntOf(k).value, h) == At(HmacMember(h, k, v), p + |Encode(v)|)
  {
    hide Encode;
    hide ReadCoseKey;
    hide ReadBytes;
    hide Skip;
    hide IntOf;
    hide BytesOf;
    hide CoseKeyOf;
    StrThere(buf, p, v);
    CoseKeyThere(buf, p, v);
    SkipThere(buf, p, v);
  }

  lemma HmacStep(buf: seq<byte>, pos: nat, count: nat, h: HmacInput, k: Item, v: Item, p: nat, q: nat)
    requires count > 0 && k.WellFormed() && v.WellFormed() && Has(buf, pos, Encode(k)) && Has(buf, p, Encode(v))
    requires p == pos + |Encode(k)| && q == p + |Encode(v)|
    ensures var next := HmacMember(h, k, v);
      HmacFields(buf, pos, count, h) == if next.None? then None else HmacFields(buf, q, count - 1, next.value)
  {
    hide Encode;
    hide ReadInt;
    hide HmacField;
    IntThere(buf, pos, k);
    if IntOf(k).Some? {
      HmacMemberThere(buf, p, k, v, h);
    }
  }

  lemma {:induction false} HmacThere(buf: seq<byte>, pos: nat, items: seq<Item>, h: HmacInput)
    requires AllWellFormed(items) && |items| % 2 == 0 && Has(buf, pos, EncodeAll(items))
    ensures HmacFields(buf, pos, |items| / 2, h) == At(Fold(items, h, HmacMember), pos + |EncodeAll(items)|)
    decreases |items|
  {
    hide Encode;
    hide Fold;
    hide HmacMember;
    hide ReadInt;
    hide HmacField;
    FoldStep(items, h, HmacMember);
    if items != [] {
      var p, q := TwoThere(buf, pos, items);
      HmacStep(buf, pos, |items| / 2, h, items[0], items[1], p, q);
      var next := HmacMember(h, items[0], items[1]);
      if next.Some? {
        HmacThere(buf, q, items[2..], next.value);
      }
    }
  }

  /** The map under "hmac-secret", opened and read. */
  lemma SecretThere(buf: seq<byte>, p: nat, v: Item) returns (start: nat)
    requires v.WellFormed() && Has(buf, p, Encode(v))
    ensures ReadMap(buf, p) == if MapOf(v).Some? then Some((|MapOf(v).value| / 2, start)) else None
    ensures MapOf(v).Some? ==>
      start <= |buf| && HmacFields(buf, start, |MapOf(v).value| / 2, HmacInput(None, None, None))
                        == At(Fold(MapOf(v).value, HmacInput(None, None, None), HmacMember), p + |Encode(v)|)
  {
    hide Encode;
    hide ReadMap;
    hide HmacFields;
    hide Fold;
    start := OpenThere(buf, p, v);
    if MapOf(v).Some? {
      HmacThere(buf, start, v.items, HmacInput(None, None, None));
    }
  }

  lemma AssertExtensionsStep(buf: seq<byte>, pos: nat, count: nat, hmac: Option<HmacInput>, k: Item, v: Item, p: nat, q: nat)
    requires count > 0 && k.WellFormed() && v.WellFormed() && Has(buf, pos, Encode(k)) && Has(buf, p, Encode(v))
    requires p == pos + |Encode(k)| && q == p + |Encode(v)|
    ensures var next := AssertExtension(hmac, k, v);
      AssertExtensions(buf, pos, count, hmac) == if next.None? then None else AssertExtensions(buf, q, count - 1, next.value)
  {
    hide Encode;
    hide Has;
    hide TextOf;
    hide MapOf;
    hide ReadText;
    hide ReadMap;
    hide Skip;
    hide HmacFields;
    hide Fold;
    StrThere(buf, pos, k);
    SkipThere(buf, p, v);
    var start := SecretThere(buf, p, v);
  }

  lemma NoExtensions(buf: seq<byte>, pos: nat, hmac: Option<HmacInput>)
    requires pos <= |buf|
    ensures AssertExtensions(buf, pos, 0, hmac) == Some((hmac, pos))
  {
  }

  lemma {:induction false} AssertExtensionsThere(buf: seq<byte>, pos: nat, items: seq<Item>, hmac: Option<HmacInput>)
    requires AllWellFormed(items) && |items| % 2 == 0 && Has(buf, pos, EncodeAll(items))
    ensures AssertExtensions(buf, pos, |items| / 2, hmac) == At(Fold(items, hmac, AssertExtension), pos + |EncodeAll(items)|)
    decreases |items|
  {
    hide Encode;
    hide Fold;
    hide AssertExtension;
    hide AssertExtensions;
    FoldStep(items, hmac, AssertExtension);
    if items == [] {
      NoExtensions(buf, pos, hmac);
    } else {
      var p, q := TwoThere(buf, pos, items);
      AssertExtensionsStep(buf, pos, |items| / 2, hmac, items[0], items[1], p, q);
      var next := AssertExtension(hmac, items[0], items[1]);
      if next.Some? {
        AssertExtensionsThere(buf, q, items[2..], next.value);
      }
    }
  }

  /** The field parser does what the member says, and stops in front of what it leaves over. */
  ghost predicate ReadAs(buf: seq<byte>, end: nat, r: Option<(AssertReq, nat)>, m: Option<(AssertReq, seq<Item>)>) {
    match m
    case None => r.None?
    case Some((next, left)) =>
      && r.Some? && r.value.0 == next && AllWellFormed(left)
      && Has(buf, r.value.1, EncodeAll(left)) && r.value.1 + |EncodeAll(left)| == end
  }

  lemma PlainMember(buf: seq<byte>, p: nat, key: s64, v: Item, req: AssertReq)
    requires v.WellFormed() && Has(buf, p, Encode(v)) && (key < 3 || key > 5)
    ensures ReadAs(buf, p + |Encode(v)|, AssertField(buf, p, key, req), AssertMember(req, key, v))
  {
    hide Encode;
    hide ReadText;
    hide ReadBytes;
    hide ReadMap;
    hide ReadArray;
    hide ReadUint;
    hide Skip;
    hide Fold;
    hide Descriptors;
    hide AssertExtensions;
    hide ParseOptions;
    hide DescriptorsOf;
    hide CStr;
    StrThere(buf, p, v);
    UintThere(buf, p, v);
    SkipThere(buf, p, v);
    assert EncodeAll([]) == [];
  }

  lemma NestedMember(buf: seq<byte>, p: nat, key: s64, v: Item, req: AssertReq)
    requires v.WellFormed() && Has(buf, p, Encode(v)) && 3 <= key <= 5
    ensures ReadAs(buf, p + |Encode(v)|, AssertField(buf, p, key, req), AssertMember(req, key, v))
  {
    hide Encode;
    hide ReadText;
    hide ReadBytes;
    hide ReadMap;
    hide ReadArray;
    hide ReadUint;
    hide Skip;
    hide Fold;
    hide Descriptors;
    hide AssertExtensions;
    hide ParseOptions;
    hide DescriptorsOf;
    hide CStr;
    var start := OpenThere(buf, p, v);
    assert EncodeAll([]) == [];
    if key == 3 && ArrayOf(v).Some? {
      ListThere(buf, start, v.items, req.allow);
    } else if key == 4 && MapOf(v).Some? {
      AssertExtensionsThere(buf, start, v.items, req.hmac);
    } else if key == 5 && MapOf(v).Some? {
      OptionsThere(buf, start, v.items, req.options);
    }
  }

  lemma {:induction false} AssertMembersThere(buf: seq<byte>, pos: nat, items: seq<Item>, count: nat, req: AssertReq)
    requires AllWellFormed(items) && 2 * count <= |items| && Has(buf, pos, EncodeAll(items))
    ensures var r := AssertFields(buf, pos, count, req);
      match AssertMembers(items, count, req)
      case None => r.None?
      case Some(m) => r.Some? && r.value.0 == m
    decreases count
  {
    hide Encode;
    hide ReadInt;
    hide AssertField;
    hide AssertMember;
    if count > 0 {
      var p, q := TwoThere(buf, pos, items);
      IntThere(buf, pos, items[0]);
      if IntOf(items[0]).Some? {
        var key := IntOf(items[0]).value;
        if 3 <= key <= 5 {
          NestedMember(buf, p, key, items[1], req);
        } else {
          PlainMember(buf, p, key, items[1], req);
        }
        var m := AssertMember(req, key, items[1]);
        if m.Some? {
          var r := AssertField(buf, p, key, req).value;
          Leftover(buf, r.1, m.value.1, q, items[2..]);
          AssertMembersThere(buf, r.1, m.value.1 + items[2..], count - 1, m.value.0);
        }
      }
    }
  }

  /** For every item, followed by anything: the bytes are parsed to what the tree says, or refused as the tree is. */
  lemma GetAssertionThere(i: Item, buf: seq<byte>)
    requires i.WellFormed() && Has(buf, 0, Encode(i))
    ensures ParseGetAssertion(buf) == GetAssertionOf(i)
  {
    hide Encode;
    hide ReadMap;
    hide AssertFields;
    hide AssertMembers;
    var start := OpenThere(buf, 0, i);
    if MapOf(i).Some? {
      AssertMembersThere(buf, start, i.items, |i.items| / 2, EMPTY_ASSERT);
    }
  }
}
