/** Maps member by member: reading written items back, and the bytes of a member list behind a prefix. */
module CborMaps {
  import opened Bytes
  import opened Cbor

  /** A key and its value in front of further map members. */
  function Pair(k: Item, v: Item, rest: seq<Item>): (items: seq<Item>)
    requires k.WellFormed() && v.WellFormed() && AllWellFormed(rest)
    ensures AllWellFormed(items) && |items| == 2 + |rest|
  {
    [k, v] + rest
  }

  // ----- reading a written item back -----

  lemma ReadStrItem(buf: seq<byte>, pos: nat, major: nat, s: seq<byte>)
    requires (major == 2 || major == 3) && |s| < TWO_64
    requires Has(buf, pos, Encode(Str(Shortest(major, |s|), s)))
    ensures ReadString(buf, pos, major) == Some((s, pos + |Encode(Str(Shortest(major, |s|), s))|))
  {
    var item := Str(Shortest(major, |s|), s);
    SplitHead(item, buf, pos);
    ReadHeadComplete(buf, pos, item.head);
  }

  lemma ReadTextItem(buf: seq<byte>, pos: nat, s: seq<byte>)
    requires |s| < TWO_64 && Has(buf, pos, Encode(Text(s)))
    ensures ReadText(buf, pos) == Some((s, pos + |Encode(Text(s))|))
  {
    ReadStrItem(buf, pos, 3, s);
  }

  lemma ReadBytesItem(buf: seq<byte>, pos: nat, s: seq<byte>)
    requires |s| < TWO_64 && Has(buf, pos, Encode(ByteString(s)))
    ensures ReadBytes(buf, pos) == Some((s, pos + |Encode(ByteString(s))|))
  {
    ReadStrItem(buf, pos, 2, s);
  }

  lemma ReadIntItem(buf: seq<byte>, pos: nat, v: s64)
    requires Has(buf, pos, Encode(Int(v)))
    ensures ReadInt(buf, pos) == Some((v, pos + |Encode(Int(v))|))
  {
    IntRoundTrip(v, buf, pos);
  }

  lemma ReadBoolItem(buf: seq<byte>, pos: nat, v: bool)
    requires Has(buf, pos, Encode(Bool(v)))
    ensures ReadBool(buf, pos) == Some((v, pos + |Encode(Bool(v))|))
  {
    ReadHeadComplete(buf, pos, Bool(v).head);
  }

  /** Opening a written map or array: its count, and its members right behind the head. */
  lemma Open(buf: seq<byte>, pos: nat, item: Item, start: nat)
    requires item.List? && item.WellFormed() && Has(buf, pos, Encode(item))
    requires start == pos + |EncodeHead(item.head)|
    ensures ReadCount(buf, pos, item.head.major) == Some((item.head.value, start))
    ensures Has(buf, start, EncodeAll(item.items))
    ensures start + |EncodeAll(item.items)| == pos + |Encode(item)|
  {
    SplitHead(item, buf, pos);
    ReadHeadComplete(buf, pos, item.head);
  }

  lemma Next(buf: seq<byte>, pos: nat, items: seq<Item>)
    requires AllWellFormed(items) && |items| > 0 && Has(buf, pos, EncodeAll(items))
    ensures Has(buf, pos, Encode(items[0]))
    ensures Has(buf, pos + |Encode(items[0])|, EncodeAll(items[1..]))
    ensures |EncodeAll(items)| == |Encode(items[0])| + |EncodeAll(items[1..])|
  {
    HasSplit(buf, pos, Encode(items[0]), EncodeAll(items[1..]));
  }

  lemma NextPair(buf: seq<byte>, pos: nat, k: Item, v: Item, rest: seq<Item>) returns (p: nat, q: nat)
    requires k.WellFormed() && v.WellFormed() && AllWellFormed(rest)
    requires Has(buf, pos, EncodeAll(Pair(k, v, rest)))
    ensures p == pos + |Encode(k)| && q == p + |Encode(v)| <= |buf|
    ensures Has(buf, pos, Encode(k)) && Has(buf, p, Encode(v)) && Has(buf, q, EncodeAll(rest))
    ensures q + |EncodeAll(rest)| == pos + |EncodeAll(Pair(k, v, rest))|
  {
    hide Encode;
    var items := Pair(k, v, rest);
    Next(buf, pos, items);
    Next(buf, pos + |Encode(k)|, items[1..]);
    assert items[1..][1..] == rest;
    p, q := pos + |Encode(k)|, pos + |Encode(k)| + |Encode(v)|;
  }

  // ----- the bytes of a member list -----

  lemma Assoc(a: seq<byte>, b: seq<byte>, c: seq<byte>)
    ensures a + (b + c) == a + b + c
  {
  }

  /** Behind any prefix, a pair in front of further members is its key, its value, and those members. */
  lemma PairBytes(prefix: seq<byte>, k: Item, v: Item, rest: seq<Item>)
    requires k.WellFormed() && v.WellFormed() && AllWellFormed(rest)
    ensures prefix + EncodeAll(Pair(k, v, rest)) == prefix + Encode(k) + Encode(v) + EncodeAll(rest)
  {
    hide Encode;
    var items := Pair(k, v, rest);
    assert items[1..] == [v] + rest;
    assert items[1..][1..] == rest;
    assert EncodeAll(items) == Encode(k) + (Encode(v) + EncodeAll(rest));
    Assoc(prefix, Encode(k), Encode(v) + EncodeAll(rest));
    Assoc(prefix + Encode(k), Encode(v), EncodeAll(rest));
  }

  lemma LastPairBytes(prefix: seq<byte>, k: Item, v: Item)
    requires k.WellFormed() && v.WellFormed()
    ensures prefix + EncodeAll(Pair(k, v, [])) == prefix + Encode(k) + Encode(v)
  {
    hide Encode;
    PairBytes(prefix, k, v, []);
    assert prefix + Encode(k) + Encode(v) + [] == prefix + Encode(k) + Encode(v);
  }

  lemma ListBytes(prefix: seq<byte>, item: Item)
    requires item.List? && item.WellFormed()
    ensures prefix + Encode(item) == prefix + EncodeHead(item.head) + EncodeAll(item.items)
  {
    hide EncodeHead;
    Assoc(prefix, EncodeHead(item.head), EncodeAll(item.items));
  }
}
