/** The companion's CborWriter and the code that builds the two request envelopes with it. */
module CompanionWriter {
  import opened Bytes
  import opened Cbor
  import opened CborMaps
  import opened RequestParsers
  import opened Envelopes
  import opened MakeEnvelopes

  const MAX_ARGUMENT := 0x1_0000

  /** Appends to a growing stream; an argument of 65536 or more raises, after which the stream is not used. */
  class CborWriter {
    var out: seq<byte>
    var failed: bool

    constructor ()
      ensures out == [] && !failed
    {
      out, failed := [], false;
    }

    /** After the call: failed as soon as `fits` was missed once, else `piece` was appended. */
    twostate predicate Appended(fits: bool, piece: seq<byte>)
      reads this
    {
      && failed == (old(failed) || !fits)
      && (!failed ==> out == old(out) + piece)
    }

    method PutHead(major: nat, n: nat)
      requires major < 8 && n < TWO_64
      modifies this
      ensures Appended(n < MAX_ARGUMENT, EncodeHead(Shortest(major, n)))
    {
      if failed {
        return;
      }
      if n < 24 {
        out := out + [major * 32 + n];
        assert BeBytes(n, 0) == [];
      } else if n < 256 {
        out := out + [major * 32 + 24] + [n];
        assert BeBytes(n, 1) == BeBytes(n / 256, 0) + [n % 256] == [n];
      } else if n < 65536 {
        out := out + [major * 32 + 25] + [n / 256] + [n % 256];
        assert BeBytes(n, 2) == BeBytes(n / 256, 1) + [n % 256];
        assert BeBytes(n / 256, 1) == BeBytes(n / 256 / 256, 0) + [n / 256 % 256] == [n / 256];
      } else {
        failed := true;
      }
    }

    method PutInt(n: int)
      requires -TWO_31 <= n < TWO_31
      modifies this
      ensures Appended(-MAX_ARGUMENT <= n < MAX_ARGUMENT, Encode(Int(n)))
    {
      if n >= 0 {
        PutHead(0, n);
      } else {
        PutHead(1, -1 - n);
      }
    }

    method PutText(s: seq<byte>)
      requires |s| < TWO_64
      modifies this
      ensures Appended(|s| < MAX_ARGUMENT, Encode(Text(s)))
    {
      PutHead(3, |s|);
      Assoc(old(out), EncodeHead(Shortest(3, |s|)), s);
      out := out + s;
    }

    method PutBytes(s: seq<byte>)
      requires |s| < TWO_64
      modifies this
      ensures Appended(|s| < MAX_ARGUMENT, Encode(ByteString(s)))
    {
      PutHead(2, |s|);
      Assoc(old(out), EncodeHead(Shortest(2, |s|)), s);
      out := out + s;
    }

    method PutBool(v: bool)
      modifies this
      ensures Appended(true, Encode(Bool(v)))
    {
      if failed {
        return;
      }
      out := out + [if v then 0xf5 else 0xf4];
      assert BeBytes(if v then 21 else 20, 0) == [];
    }

    method PutMap(n: nat)
      requires n < TWO_64
      modifies this
      ensures Appended(n < MAX_ARGUMENT, EncodeHead(Shortest(5, n)))
    {
      PutHead(5, n);
    }

    /** An array of already encoded items. */
    method PutArray(values: seq<seq<byte>>, ghost items: seq<Item>)
      requires |values| == |items| < TWO_64 && AllWellFormed(items)
      requires forall i :: 0 <= i < |values| ==> values[i] == Encode(items[i])
      modifies this
      ensures Appended(|values| < MAX_ARGUMENT, Encode(Array(items)))
    {
      PutHead(4, |values|);
      if failed {
        return;
      }
      ghost var target := out + EncodeAll(items);
      ListBytes(old(out), Array(items));
      for i := 0 to |values|
        invariant !failed && target == out + EncodeAll(items[i..])
      {
        assert items[i..][1..] == items[i + 1..];
        Assoc(out, Encode(items[i]), EncodeAll(items[i + 1..]));
        out := out + values[i];
      }
      assert items[|values|..] == [];
    }
  }

  /** Every length the companion's head writer can express. */
  predicate Writable(ids: seq<seq<byte>>) {
    |ids| < MAX_ARGUMENT && forall i :: 0 <= i < |ids| ==> |ids[i]| < MAX_ARGUMENT
  }

  lemma DescriptorBytes(id: seq<byte>)
    requires |id| < TWO_64
    ensures Encode(DescriptorItem(id))
         == EncodeHead(Shortest(5, 2)) + Encode(Text(KEY_TYPE)) + Encode(Text(PUBLIC_KEY)) + Encode(Text(KEY_ID)) + Encode(ByteString(id))
  {
    hide Pair;
    hide EncodeHead;
    hide Text;
    var head := EncodeHead(Shortest(5, 2));
    PairBytes(head, Text(KEY_TYPE), Text(PUBLIC_KEY), Pair(Text(KEY_ID), ByteString(id), []));
    LastPairBytes(head + Encode(Text(KEY_TYPE)) + Encode(Text(PUBLIC_KEY)), Text(KEY_ID), ByteString(id));
  }

  method BuildDescriptor(id: seq<byte>) returns (r: Option<seq<byte>>)
    requires |id| < TWO_64
    ensures r == if |id| < MAX_ARGUMENT then Some(Encode(DescriptorItem(id))) else None
  {
    var w := new CborWriter();
    w.PutMap(2);
    assert [] + EncodeHead(Shortest(5, 2)) == EncodeHead(Shortest(5, 2));
    w.PutText(KEY_TYPE);
    w.PutText(PUBLIC_KEY);
    w.PutText(KEY_ID);
    w.PutBytes(id);
    DescriptorBytes(id);
    return if w.failed then None else Some(w.out);
  }

  method BuildGetAssertion(rpId: seq<byte>, hash: seq<byte>, ids: seq<seq<byte>>, uv: bool) returns (r: Option<seq<byte>>)
    requires |rpId| < TWO_64 && |hash| == 32 && Sized(ids)
    ensures r == if |rpId| < MAX_ARGUMENT && Writable(ids) then Some(Encode(AssertEnvelope(rpId, hash, ids, uv))) else None
  {
    var allow: seq<seq<byte>> := [];
    for index := 0 to |ids|
      invariant |allow| == index
      invariant forall i :: 0 <= i < index ==> |ids[i]| < MAX_ARGUMENT && allow[i] == Encode(DescriptorItem(ids[i]))
    {
      var descriptor := BuildDescriptor(ids[index]);
      if descriptor.None? {
        return None;
      }
      allow := allow + [descriptor.value];
    }
    r := BuildAssertEnvelope(rpId, hash, ids, allow, uv);
  }

  function AssertBytes(rpId: seq<byte>, hash: seq<byte>, ids: seq<seq<byte>>, uv: bool): seq<byte>
    requires |rpId| < TWO_64 && |hash| == 32 && Sized(ids)
  {
    EncodeHead(Shortest(5, 4)) + Encode(Int(1)) + Encode(Text(rpId)) + Encode(Int(2)) + Encode(ByteString(hash))
    + Encode(Int(3)) + Encode(Array(DescriptorItems(ids)))
    + Encode(Int(5)) + EncodeHead(Shortest(5, 1)) + Encode(Text(KEY_UV)) + Encode(Bool(uv))
  }

  lemma OptionBytes(prefix: seq<byte>, key: s64, text: seq<byte>, v: bool)
    requires |text| < TWO_64
    ensures prefix + EncodeAll(Pair(Int(key), OptionItem(text, v), []))
         == prefix + Encode(Int(key)) + EncodeHead(Shortest(5, 1)) + Encode(Text(text)) + Encode(Bool(v))
  {
    hide Pair;
    hide EncodeHead;
    hide Text;
    hide Int;
    hide Bool;
    LastPairBytes(prefix, Int(key), OptionItem(text, v));
    ListBytes(prefix + Encode(Int(key)), OptionItem(text, v));
    LastPairBytes(prefix + Encode(Int(key)) + EncodeHead(Shortest(5, 1)), Text(text), Bool(v));
  }

  lemma AssertEnvelopeBytes(rpId: seq<byte>, hash: seq<byte>, ids: seq<seq<byte>>, uv: bool)
    requires |rpId| < TWO_64 && |hash| == 32 && Sized(ids)
    ensures Encode(AssertEnvelope(rpId, hash, ids, uv)) == AssertBytes(rpId, hash, ids, uv)
  {
    hide Pair;
    hide EncodeHead;
    hide Encode;
    var tail3 := Pair(Int(5), OptionItem(KEY_UV, uv), []);
    var tail2 := Pair(Int(3), Array(DescriptorItems(ids)), tail3);
    var p0 := EncodeHead(Shortest(5, 4));
    var item := AssertEnvelope(rpId, hash, ids, uv);
    ListBytes([], item);
    assert [] + Encode(item) == Encode(item) && [] + p0 == p0;
    PairBytes(p0, Int(1), Text(rpId), Pair(Int(2), ByteString(hash), tail2));
    var p1 := p0 + Encode(Int(1)) + Encode(Text(rpId));
    PairBytes(p1, Int(2), ByteString(hash), tail2);
    var p2 := p1 + Encode(Int(2)) + Encode(ByteString(hash));
    PairBytes(p2, Int(3), Array(DescriptorItems(ids)), tail3);
    OptionBytes(p2 + Encode(Int(3)) + Encode(Array(DescriptorItems(ids))), 5, KEY_UV, uv);
  }

  method BuildAssertEnvelope(rpId: seq<byte>, hash: seq<byte>, ghost ids: seq<seq<byte>>, allow: seq<seq<byte>>, uv: bool)
    returns (r: Option<seq<byte>>)
    requires |rpId| < TWO_64 && |hash| == 32 && Sized(ids) && |allow| == |ids|
    requires forall i :: 0 <= i < |ids| ==> allow[i] == Encode(DescriptorItem(ids[i]))
    ensures r == if |rpId| < MAX_ARGUMENT && |ids| < MAX_ARGUMENT then Some(Encode(AssertEnvelope(rpId, hash, ids, uv))) else None
  {
    hide AssertEnvelope;
    hide Encode;
    hide EncodeHead;
    var w := new CborWriter();
    w.PutMap(4);
    assert [] + EncodeHead(Shortest(5, 4)) == EncodeHead(Shortest(5, 4));
    w.PutInt(1);
    w.PutText(rpId);
    w.PutInt(2);
    w.PutBytes(hash);
    w.PutInt(3);
    w.PutArray(allow, DescriptorItems(ids));
    w.PutInt(5);
    w.PutMap(1);
    w.PutText(KEY_UV);
    w.PutBool(uv);
    AssertEnvelopeBytes(rpId, hash, ids, uv);
    return if w.failed then None else Some(w.out);
  }

  lemma RpBytes(prefix: seq<byte>, rpId: seq<byte>, rpName: seq<byte>)
    requires |rpId| < TWO_64 && |rpName| < TWO_64
    ensures prefix + Encode(RpItem(rpId, rpName))
         == prefix + EncodeHead(Shortest(5, 2)) + Encode(Text(KEY_ID)) + Encode(Text(rpId)) + Encode(Text(KEY_NAME)) + Encode(Text(rpName))
  {
    hide Pair;
    hide EncodeHead;
    hide Text;
    ListBytes(prefix, RpItem(rpId, rpName));
    var p := prefix + EncodeHead(Shortest(5, 2));
    PairBytes(p, Text(KEY_ID), Text(rpId), Pair(Text(KEY_NAME), Text(rpName), []));
    LastPairBytes(p + Encode(Text(KEY_ID)) + Encode(Text(rpId)), Text(KEY_NAME), Text(rpName));
  }

  lemma UserBytes(prefix: seq<byte>, u: User)
    requires u.Sized()
    ensures prefix + Encode(UserItem(u))
         == prefix + EncodeHead(Shortest(5, 3)) + Encode(Text(KEY_ID)) + Encode(ByteString(u.id))
          + Encode(Text(KEY_NAME)) + Encode(Text(u.name)) + Encode(Text(KEY_DISPLAY)) + Encode(Text(u.display))
  {
    hide Pair;
    hide EncodeHead;
    hide Text;
    hide ByteString;
    ListBytes(prefix, UserItem(u));
    var p := prefix + EncodeHead(Shortest(5, 3));
    var tail := Pair(Text(KEY_DISPLAY), Text(u.display), []);
    PairBytes(p, Text(KEY_ID), ByteString(u.id), Pair(Text(KEY_NAME), Text(u.name), tail));
    p := p + Encode(Text(KEY_ID)) + Encode(ByteString(u.id));
    PairBytes(p, Text(KEY_NAME), Text(u.name), tail);
    LastPairBytes(p + Encode(Text(KEY_NAME)) + Encode(Text(u.name)), Text(KEY_DISPLAY), Text(u.display));
  }

  lemma ParamBytes()
    ensures Encode(ParamItem())
         == EncodeHead(Shortest(5, 2)) + Encode(Text(KEY_TYPE)) + Encode(Text(PUBLIC_KEY)) + Encode(Text(KEY_ALG)) + Encode(Int(ALG_ES256))
  {
    hide Pair;
    hide EncodeHead;
    hide Text;
    hide Int;
    var p := EncodeHead(Shortest(5, 2));
    PairBytes(p, Text(KEY_TYPE), Text(PUBLIC_KEY), Pair(Text(KEY_ALG), Int(ALG_ES256), []));
    LastPairBytes(p + Encode(Text(KEY_TYPE)) + Encode(Text(PUBLIC_KEY)), Text(KEY_ALG), Int(ALG_ES256));
  }

  lemma RkUvBytes(prefix: seq<byte>)
    ensures prefix + Encode(RkUvItem())
         == prefix + EncodeHead(Shortest(5, 2)) + Encode(Text(KEY_RK)) + Encode(Bool(true)) + Encode(Text(KEY_UV)) + Encode(Bool(false))
  {
    hide Pair;
    hide EncodeHead;
    hide Text;
    hide Bool;
    ListBytes(prefix, RkUvItem());
    var p := prefix + EncodeHead(Shortest(5, 2));
    PairBytes(p, Text(KEY_RK), Bool(true), Pair(Text(KEY_UV), Bool(false), []));
    LastPairBytes(p + Encode(Text(KEY_RK)) + Encode(Bool(true)), Text(KEY_UV), Bool(false));
  }

  lemma MakeEnvelopeBytes(hash: seq<byte>, rpId: seq<byte>, rpName: seq<byte>, u: User)
    requires |hash| == 32 && |rpId| < TWO_64 && |rpName| < TWO_64 && u.Sized()
    ensures Encode(MakeEnvelope(hash, rpId, rpName, u))
         == EncodeHead(Shortest(5, 5)) + Encode(Int(1)) + Encode(ByteString(hash)) + Encode(Int(2)) + Encode(RpItem(rpId, rpName))
          + Encode(Int(3)) + Encode(UserItem(u)) + Encode(Int(4)) + Encode(Array([ParamItem()])) + Encode(Int(7)) + Encode(RkUvItem())
  {
    hide Pair;
    hide EncodeHead;
    hide Encode;
    hide ByteString;
    hide RpItem;
    hide UserItem;
    hide ParamItem;
    hide RkUvItem;
    var tail4 := Pair(Int(4), Array([ParamItem()]), Pair(Int(7), RkUvItem(), []));
    var tail3 := Pair(Int(3), UserItem(u), tail4);
    var tail2 := Pair(Int(2), RpItem(rpId, rpName), tail3);
    var p0 := EncodeHead(Shortest(5, 5));
    var item := MakeEnvelope(hash, rpId, rpName, u);
    ListBytes([], item);
    assert [] + Encode(item) == Encode(item) && [] + p0 == p0;
    PairBytes(p0, Int(1), ByteString(hash), tail2);
    var p1 := p0 + Encode(Int(1)) + Encode(ByteString(hash));
    PairBytes(p1, Int(2), RpItem(rpId, rpName), tail3);
    var p2 := p1 + Encode(Int(2)) + Encode(RpItem(rpId, rpName));
    PairBytes(p2, Int(3), UserItem(u), tail4);
    var p3 := p2 + Encode(Int(3)) + Encode(UserItem(u));
    PairBytes(p3, Int(4), Array([ParamItem()]), Pair(Int(7), RkUvItem(), []));
    LastPairBytes(p3 + Encode(Int(4)) + Encode(Array([ParamItem()])), Int(7), RkUvItem());
  }

  method BuildParam() returns (r: seq<byte>)
    ensures r == Encode(ParamItem())
  {
    var w := new CborWriter();
    w.PutMap(2);
    assert [] + EncodeHead(Shortest(5, 2)) == EncodeHead(Shortest(5, 2));
    w.PutText(KEY_TYPE);
    w.PutText(PUBLIC_KEY);
    w.PutText(KEY_ALG);
    w.PutInt(ALG_ES256);
    ParamBytes();
    return w.out;
  }

  /** The rp and user maps, appended to the writer in the middle of the envelope. */
  method PutEntities(w: CborWriter, rpId: seq<byte>, rpName: seq<byte>, u: User)
    requires |rpId| < TWO_64 && |rpName| < TWO_64 && u.Sized()
    modifies w
    ensures w.failed == (old(w.failed) || !(|rpId| < MAX_ARGUMENT && |rpName| < MAX_ARGUMENT
                         && |u.id| < MAX_ARGUMENT && |u.name| < MAX_ARGUMENT && |u.display| < MAX_ARGUMENT))
    ensures !w.failed ==>
      w.out == old(w.out) + Encode(Int(2)) + Encode(RpItem(rpId, rpName)) + Encode(Int(3)) + Encode(UserItem(u))
  {
    hide Encode;
    hide EncodeHead;
    w.PutInt(2);
    ghost var p := w.out;
    w.PutMap(2);
    w.PutText(KEY_ID);
    w.PutText(rpId);
    w.PutText(KEY_NAME);
    w.PutText(rpName);
    RpBytes(p, rpId, rpName);
    w.PutInt(3);
    ghost var q := w.out;
    w.PutMap(3);
    w.PutText(KEY_ID);
    w.PutBytes(u.id);
    w.PutText(KEY_NAME);
    w.PutText(u.name);
    w.PutText(KEY_DISPLAY);
    w.PutText(u.display);
    UserBytes(q, u);
  }

  method BuildMakeCredential(hash: seq<byte>, rpId: seq<byte>, rpName: seq<byte>, u: User) returns (r: Option<seq<byte>>)
    requires |hash| == 32 && |rpId| < TWO_64 && |rpName| < TWO_64 && u.Sized()
    ensures r == if |rpId| < MAX_ARGUMENT && |rpName| < MAX_ARGUMENT
                    && |u.id| < MAX_ARGUMENT && |u.name| < MAX_ARGUMENT && |u.display| < MAX_ARGUMENT
                 then Some(Encode(MakeEnvelope(hash, rpId, rpName, u))) else None
  {
    hide MakeEnvelope;
    hide Encode;
    hide EncodeHead;
    var param := BuildParam();
    var w := new CborWriter();
    w.PutMap(5);
    assert [] + EncodeHead(Shortest(5, 5)) == EncodeHead(Shortest(5, 5));
    w.PutInt(1);
    w.PutBytes(hash);
    PutEntities(w, rpId, rpName, u);
    w.PutInt(4);
    w.PutArray([param], [ParamItem()]);
    w.PutInt(7);
    ghost var p := w.out;
    w.PutMap(2);
    w.PutText(KEY_RK);
    w.PutBool(true);
    w.PutText(KEY_UV);
    w.PutBool(false);
    RkUvBytes(p);
    MakeEnvelopeBytes(hash, rpId, rpName, u);
    return if w.failed then None else Some(w.out);
  }
}
