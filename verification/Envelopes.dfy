/** The companion's CBOR writer and its two request envelopes, and what the kernel parsers make of them. */
module Envelopes {
  import opened Bytes
  import opened Cbor
  import opened CborMaps
  import opened RequestParsers

  // ----- the getAssertion envelope -----

  function DescriptorItem(id: seq<byte>): (item: Item)
    requires |id| < TWO_64
    ensures item.WellFormed()
  {
    Map(Pair(Text(KEY_TYPE), Text(PUBLIC_KEY), Pair(Text(KEY_ID), ByteString(id), [])))
  }

  predicate Sized(ids: seq<seq<byte>>) {
    |ids| < TWO_64 && forall i :: 0 <= i < |ids| ==> |ids[i]| < TWO_64
  }

  function DescriptorItems(ids: seq<seq<byte>>): (items: seq<Item>)
    requires Sized(ids)
    ensures |items| == |ids| && AllWellFormed(items)
    ensures forall i :: 0 <= i < |ids| ==> items[i] == DescriptorItem(ids[i])
  {
    seq(|ids|, i requires 0 <= i < |ids| => DescriptorItem(ids[i]))
  }

  function OptionItem(key: seq<byte>, value: bool): (item: Item)
    requires |key| < TWO_64
    ensures item.WellFormed()
  {
    Map(Pair(Text(key), Bool(value), []))
  }

  lemma DescriptorFieldsOf(buf: seq<byte>, pos: nat, id: seq<byte>)
    requires |id| < TWO_64 && Has(buf, pos, EncodeAll(DescriptorItem(id).items))
    ensures DescriptorFields(buf, pos, 2, Descriptor(false, []))
         == if |id| > CRED_ID_LEN then None
            else Some((Descriptor(true, id), pos + |EncodeAll(DescriptorItem(id).items)|))
  {
    hide Encode;
    hide EncodeHead;
    hide ReadHead;
    hide ReadString;
    hide Pair;
    hide Text;
    var p1, p2 := NextPair(buf, pos, Text(KEY_TYPE), Text(PUBLIC_KEY), Pair(Text(KEY_ID), ByteString(id), []));
    ReadTextItem(buf, pos, KEY_TYPE);
    SkipComplete(Text(PUBLIC_KEY), buf, p1);
    var p3, p4 := NextPair(buf, p2, Text(KEY_ID), ByteString(id), []);
    ReadTextItem(buf, p2, KEY_ID);
    ReadBytesItem(buf, p3, id);
    assert DescriptorFields(buf, pos, 2, Descriptor(false, [])) == DescriptorFields(buf, p2, 1, Descriptor(false, []));
    if |id| <= CRED_ID_LEN {
      assert DescriptorFields(buf, p2, 1, Descriptor(false, [])) == DescriptorFields(buf, p4, 0, Descriptor(true, id));
    }
  }

  function Present(ids: seq<seq<byte>>): (list: seq<Descriptor>)
    ensures |list| == |ids|
  {
    seq(|ids|, i requires 0 <= i < |ids| => Descriptor(true, ids[i]))
  }

  predicate Short(ids: seq<seq<byte>>) {
    forall i :: 0 <= i < |ids| ==> |ids[i]| <= CRED_ID_LEN
  }

  /** A map where a key is expected stops the key loop. */
  lemma ListIsNoInt(buf: seq<byte>, pos: nat, item: Item)
    requires item.List? && item.WellFormed() && Has(buf, pos, Encode(item))
    ensures ReadInt(buf, pos).None?
  {
    SplitHead(item, buf, pos);
    ReadHeadComplete(buf, pos, item.head);
  }

  lemma DescriptorsStep(buf: seq<byte>, pos: nat, count: nat, id: seq<byte>, list: seq<Descriptor>)
    requires |id| < TWO_64 && count > 0 && |list| < MAX_CRED_LIST && Has(buf, pos, Encode(DescriptorItem(id)))
    ensures Descriptors(buf, pos, count, list)
         == if |id| > CRED_ID_LEN then None
            else Descriptors(buf, pos + |Encode(DescriptorItem(id))|, count - 1, list + [Descriptor(true, id)])
  {
    hide EncodeHead;
    hide ReadHead;
    hide ReadString;
    var item := DescriptorItem(id);
    var start := pos + |EncodeHead(item.head)|;
    Open(buf, pos, item, start);
    DescriptorFieldsOf(buf, start, id);
  }

  /** The allow list comes back in order; past 32 entries the cursor stays at the first unread descriptor. */
  lemma {:induction false} DescriptorsOf(buf: seq<byte>, pos: nat, ids: seq<seq<byte>>, list: seq<Descriptor>)
    requires Sized(ids) && |list| <= MAX_CRED_LIST && Has(buf, pos, EncodeAll(DescriptorItems(ids)))
    ensures |list| + |ids| <= MAX_CRED_LIST ==>
      Descriptors(buf, pos, |ids|, list)
      == if Short(ids) then Some((list + Present(ids), pos + |EncodeAll(DescriptorItems(ids))|)) else None
    ensures |list| + |ids| > MAX_CRED_LIST ==>
      var r := Descriptors(buf, pos, |ids|, list);
      r.Some? ==> ReadInt(buf, r.value.1).None?
    decreases |ids|
  {
    hide EncodeHead;
    hide ReadHead;
    hide ReadString;
    hide DescriptorFields;
    hide Encode;
    hide DescriptorItem;
    hide ReadInt;
    hide ReadMap;
    if ids == [] {
      assert list + Present(ids) == list;
      assert EncodeAll(DescriptorItems(ids)) == [];
    } else {
      var items := DescriptorItems(ids);
      Next(buf, pos, items);
      if |list| == MAX_CRED_LIST {
        DescriptorIsNoInt(buf, pos, ids[0]);
      } else {
        DescriptorsStep(buf, pos, |ids|, ids[0], list);
        if |ids[0]| <= CRED_ID_LEN {
          assert items[1..] == DescriptorItems(ids[1..]);
          DescriptorsOf(buf, pos + |Encode(items[0])|, ids[1..], list + [Descriptor(true, ids[0])]);
          assert list + [Descriptor(true, ids[0])] + Present(ids[1..]) == list + Present(ids);
          assert Short(ids) <==> Short(ids[1..]);
        }
      }
    }
  }

  lemma DescriptorIsNoInt(buf: seq<byte>, pos: nat, id: seq<byte>)
    requires |id| < TWO_64 && Has(buf, pos, Encode(DescriptorItem(id)))
    ensures ReadInt(buf, pos).None?
  {
    ListIsNoInt(buf, pos, DescriptorItem(id));
  }

  lemma OptionStep(buf: seq<byte>, pos: nat, count: nat, o: Options, key: seq<byte>, value: bool, p: nat, q: nat)
    requires |key| < TWO_64 && count > 0 && Has(buf, pos, Encode(Text(key))) && Has(buf, p, Encode(Bool(value)))
    requires p == pos + |Encode(Text(key))| && q == p + |Encode(Bool(value))|
    ensures ParseOptions(buf, pos, count, o) == ParseOptions(buf, q, count - 1, SetOption(o, key, value))
  {
    hide Encode;
    hide ReadHead;
    hide ReadString;
    hide SetOption;
    ReadTextItem(buf, pos, key);
    ReadBoolItem(buf, p, value);
  }

  lemma OptionsOf(buf: seq<byte>, pos: nat, key: seq<byte>, value: bool, o: Options)
    requires |key| < TWO_64 && Has(buf, pos, Encode(OptionItem(key, value)))
    ensures ReadMap(buf, pos) == Some((1, pos + |EncodeHead(OptionItem(key, value).head)|))
    ensures ParseOptions(buf, pos + |EncodeHead(OptionItem(key, value).head)|, 1, o)
         == Some((SetOption(o, key, value), pos + |Encode(OptionItem(key, value))|))
  {
    hide Encode;
    hide EncodeHead;
    hide ReadHead;
    hide ReadString;
    hide Pair;
    hide SetOption;
    var item := OptionItem(key, value);
    var start := pos + |EncodeHead(item.head)|;
    Open(buf, pos, item, start);
    var p, q := NextPair(buf, start, Text(key), Bool(value), []);
    OptionStep(buf, start, 1, o, key, value, p, q);
    assert ParseOptions(buf, q, 0, SetOption(o, key, value)).Some?;
  }

  // One lemma per key of the getAssertion map: what the field parser makes of the companion's value.

  lemma RpIdField(buf: seq<byte>, p: nat, rpId: seq<byte>, req: AssertReq)
    requires |rpId| < TWO_64 && Has(buf, p, Encode(Text(rpId)))
    ensures AssertField(buf, p, 1, req)
         == if |rpId| >= MAX_RP_ID then None else Some((req.(rpId := Some(CStr(rpId))), p + |Encode(Text(rpId))|))
  {
    ReadTextItem(buf, p, rpId);
  }

  lemma HashField(buf: seq<byte>, p: nat, hash: seq<byte>, req: AssertReq)
    requires |hash| == 32 && Has(buf, p, Encode(ByteString(hash)))
    ensures AssertField(buf, p, 2, req) == Some((req.(hash := Some(hash)), p + |Encode(ByteString(hash))|))
  {
    ReadBytesItem(buf, p, hash);
  }

  lemma AllowField(buf: seq<byte>, p: nat, ids: seq<seq<byte>>, req: AssertReq)
    requires Sized(ids) && req.allow == [] && Has(buf, p, Encode(Array(DescriptorItems(ids))))
    ensures var r := AssertField(buf, p, 3, req);
      if |ids| <= MAX_CRED_LIST && Short(ids)
      then r == Some((req.(allow := Present(ids)), p + |Encode(Array(DescriptorItems(ids)))|))
      else r.Some? ==> ReadInt(buf, r.value.1).None?
  {
    hide Encode;
    hide EncodeHead;
    hide ReadHead;
    hide ReadString;
    var item := Array(DescriptorItems(ids));
    var start := p + |EncodeHead(item.head)|;
    Open(buf, p, item, start);
    DescriptorsOf(buf, start, ids, []);
    assert [] + Present(ids) == Present(ids);
  }

  lemma UvField(buf: seq<byte>, p: nat, uv: bool, req: AssertReq)
    requires req.options == NO_OPTIONS && Has(buf, p, Encode(OptionItem(KEY_UV, uv)))
    ensures AssertField(buf, p, 5, req)
         == Some((req.(options := Options(false, uv, false)), p + |Encode(OptionItem(KEY_UV, uv))|))
  {
    hide Encode;
    hide EncodeHead;
    hide ReadHead;
    hide ReadString;
    hide ParseOptions;
    OptionsOf(buf, p, KEY_UV, uv, NO_OPTIONS);
  }

  lemma AssertStep(buf: seq<byte>, pos: nat, count: nat, req: AssertReq, key: s64, p: nat, r: Option<(AssertReq, nat)>)
    requires count > 0 && Has(buf, pos, Encode(Int(key))) && p == pos + |Encode(Int(key))|
    requires AssertField(buf, p, key, req) == r
    ensures AssertFields(buf, pos, count, req)
         == if r.None? then None else AssertFields(buf, r.value.1, count - 1, r.value.0)
  {
    hide AssertField;
    hide Encode;
    hide ReadInt;
    ReadIntItem(buf, pos, key);
  }

  lemma NoKey(buf: seq<byte>, pos: nat, count: nat, req: AssertReq)
    requires pos <= |buf| && ReadInt(buf, pos).None?
    ensures AssertFields(buf, pos, count, req) == if count == 0 then Some((req, pos)) else None
  {
  }

  // The member list read key by key, from the back: each lemma adds the pair in front.

  lemma AssertFromUv(buf: seq<byte>, pos: nat, uv: bool, req: AssertReq)
    requires req.options == NO_OPTIONS && Has(buf, pos, EncodeAll(Pair(Int(5), OptionItem(KEY_UV, uv), [])))
    ensures var r := AssertFields(buf, pos, 1, req);
      r.Some? && r.value.0 == req.(options := Options(false, uv, false))
  {
    hide Encode;
    hide Has;
    hide Pair;
    hide AssertField;
    var p, q := NextPair(buf, pos, Int(5), OptionItem(KEY_UV, uv), []);
    UvField(buf, p, uv, req);
    AssertStep(buf, pos, 1, req, 5, p, Some((req.(options := Options(false, uv, false)), q)));
  }

  lemma AssertFromAllow(buf: seq<byte>, pos: nat, ids: seq<seq<byte>>, uv: bool, req: AssertReq)
    requires Sized(ids) && req.allow == [] && req.options == NO_OPTIONS
    requires Has(buf, pos, EncodeAll(Pair(Int(3), Array(DescriptorItems(ids)), Pair(Int(5), OptionItem(KEY_UV, uv), []))))
    ensures var r := AssertFields(buf, pos, 2, req);
      if |ids| <= MAX_CRED_LIST && Short(ids)
      then r.Some? && r.value.0 == req.(allow := Present(ids), options := Options(false, uv, false))
      else r.None?
  {
    hide Encode;
    hide Has;
    hide Pair;
    hide AssertField;
    hide ReadInt;
    var p, q := NextPair(buf, pos, Int(3), Array(DescriptorItems(ids)), Pair(Int(5), OptionItem(KEY_UV, uv), []));
    AllowField(buf, p, ids, req);
    AssertStep(buf, pos, 2, req, 3, p, AssertField(buf, p, 3, req));
    if |ids| <= MAX_CRED_LIST && Short(ids) {
      AssertFromUv(buf, q, uv, req.(allow := Present(ids)));
    } else {
      var next := AssertField(buf, p, 3, req);
      if next.Some? {
        NoKey(buf, next.value.1, 1, next.value.0);
      }
    }
  }

  lemma AssertFromHash(buf: seq<byte>, pos: nat, hash: seq<byte>, ids: seq<seq<byte>>, uv: bool, req: AssertReq)
    requires |hash| == 32 && Sized(ids) && req.allow == [] && req.options == NO_OPTIONS
    requires Has(buf, pos, EncodeAll(Pair(Int(2), ByteString(hash),
               Pair(Int(3), Array(DescriptorItems(ids)), Pair(Int(5), OptionItem(KEY_UV, uv), [])))))
    ensures var r := AssertFields(buf, pos, 3, req);
      if |ids| <= MAX_CRED_LIST && Short(ids)
      then r.Some? && r.value.0 == req.(hash := Some(hash), allow := Present(ids), options := Options(false, uv, false))
      else r.None?
  {
    hide Encode;
    hide Has;
    hide Pair;
    hide AssertField;
    hide AssertFields;
    var p, q := NextPair(buf, pos, Int(2), ByteString(hash),
      Pair(Int(3), Array(DescriptorItems(ids)), Pair(Int(5), OptionItem(KEY_UV, uv), [])));
    var next := req.(hash := Some(hash));
    HashField(buf, p, hash, req);
    AssertStep(buf, pos, 3, req, 2, p, Some((next, q)));
    AssertFromAllow(buf, q, ids, uv, next);
  }

  /** The member list of a getAssertion envelope. */
  function AssertMembers(rpId: seq<byte>, hash: seq<byte>, ids: seq<seq<byte>>, uv: bool): (items: seq<Item>)
    requires |rpId| < TWO_64 && |hash| == 32 && Sized(ids)
    ensures AllWellFormed(items) && |items| == 8
  {
    Pair(Int(1), Text(rpId), Pair(Int(2), ByteString(hash),
    Pair(Int(3), Array(DescriptorItems(ids)), Pair(Int(5), OptionItem(KEY_UV, uv), []))))
  }

  lemma AssertFromRp(buf: seq<byte>, pos: nat, rpId: seq<byte>, hash: seq<byte>, ids: seq<seq<byte>>, uv: bool, req: AssertReq)
    requires |rpId| < TWO_64 && |hash| == 32 && Sized(ids) && req.allow == [] && req.options == NO_OPTIONS
    requires Has(buf, pos, EncodeAll(AssertMembers(rpId, hash, ids, uv)))
    ensures var r := AssertFields(buf, pos, 4, req);
      if |rpId| < MAX_RP_ID && |ids| <= MAX_CRED_LIST && Short(ids)
      then r.Some? && r.value.0 == req.(rpId := Some(CStr(rpId)), hash := Some(hash),
                                        allow := Present(ids), options := Options(false, uv, false))
      else r.None?
  {
    hide Encode;
    hide Has;
    hide Pair;
    hide AssertField;
    hide AssertFields;
    hide Short;
    hide CStr;
    hide EncodeAll;
    hide DescriptorItems;
    hide OptionItem;
    hide Present;
    hide ByteString;
    var p, q := NextPair(buf, pos, Int(1), Text(rpId), Pair(Int(2), ByteString(hash),
      Pair(Int(3), Array(DescriptorItems(ids)), Pair(Int(5), OptionItem(KEY_UV, uv), []))));
    RpIdField(buf, p, rpId, req);
    if |rpId| < MAX_RP_ID {
      var next := req.(rpId := Some(CStr(rpId)));
      AssertStep(buf, pos, 4, req, 1, p, Some((next, q)));
      AssertFromHash(buf, q, hash, ids, uv, next);
    } else {
      AssertStep(buf, pos, 4, req, 1, p, None);
    }
  }

  function AssertEnvelope(rpId: seq<byte>, hash: seq<byte>, ids: seq<seq<byte>>, uv: bool): (item: Item)
    requires |rpId| < TWO_64 && |hash| == 32 && Sized(ids)
    ensures item.WellFormed()
  {
    Map(AssertMembers(rpId, hash, ids, uv))
  }

  /** The kernel recovers every getAssertion envelope it can hold, field by field, and refuses the others. */
  lemma GetAssertionRoundTrip(rpId: seq<byte>, hash: seq<byte>, ids: seq<seq<byte>>, uv: bool)
    requires |rpId| < TWO_64 && |hash| == 32 && Sized(ids)
    ensures ParseGetAssertion(Encode(AssertEnvelope(rpId, hash, ids, uv)))
         == if |rpId| < MAX_RP_ID && |ids| <= MAX_CRED_LIST && Short(ids)
            then Some(AssertReq(Some(hash), Some(CStr(rpId)), Options(false, uv, false), false, None, Present(ids)))
            else None
  {
    hide Encode;
    hide AssertFields;
    hide EncodeHead;
    hide ReadHead;
    hide ReadString;
    hide AssertMembers;
    hide Short;
    var item := AssertEnvelope(rpId, hash, ids, uv);
    var buf := Encode(item);
    var start := |EncodeHead(item.head)|;
    assert buf[0..0 + |buf|] == buf;
    Open(buf, 0, item, start);
    AssertFromRp(buf, start, rpId, hash, ids, uv, EMPTY_ASSERT);
  }
}
