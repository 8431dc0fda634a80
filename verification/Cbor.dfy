/** The kernel's CBOR subset (RFC 8949 section 3): item grammar, head reader, recursive skip and writer. */
module Cbor {
  import opened Bytes

  /** How many bytes of argument follow the initial byte. */
  datatype Width = Inline | One | Two | Four | Eight {
    function Size(): nat {
      match this
      case Inline => 0
      case One => 1
      case Two => 2
      case Four => 4
      case Eight => 8
    }
    function Limit(): nat {
      match this
      case Inline => 24
      case One => 0x100
      case Two => 0x1_0000
      case Four => TWO_32
      case Eight => TWO_64
    }
    function Code(value: nat): nat {
      match this
      case Inline => value
      case One => 24
      case Two => 25
      case Four => 26
      case Eight => 27
    }
  }

  datatype Head = Head(major: nat, width: Width, value: nat) {
    predicate Valid() {
      major < 8 && value < width.Limit()
    }
  }

  function EncodeHead(h: Head): (s: seq<byte>)
    requires h.Valid()
    ensures |s| == 1 + h.width.Size()
  {
    [h.major * 32 + h.width.Code(h.value)] + BeBytes(h.value, h.width.Size())
  }

  /** Items of the grammar, each remembering the width its head was written with. */
  datatype Item =
    | Atom(head: Head)
    | Str(head: Head, payload: seq<byte>)
    | List(head: Head, items: seq<Item>)
  {
    predicate WellFormed() {
      && head.Valid()
      && match this
         case Atom(h) => h.major == 0 || h.major == 1 || h.major == 7
         case Str(h, payload) => (h.major == 2 || h.major == 3) && |payload| == h.value
         case List(h, items) =>
           && ((h.major == 4 && |items| == h.value) || (h.major == 5 && |items| == 2 * h.value))
           && forall i :: 0 <= i < |items| ==> items[i].WellFormed()
    }
  }

  predicate AllWellFormed(items: seq<Item>) {
    forall i :: 0 <= i < |items| ==> items[i].WellFormed()
  }

  function Encode(item: Item): (s: seq<byte>)
    requires item.WellFormed()
    ensures |s| > 0
    decreases item
  {
    match item
    case Atom(h) => EncodeHead(h)
    case Str(h, payload) => EncodeHead(h) + payload
    case List(h, items) => EncodeHead(h) + EncodeAll(items)
  }

  function EncodeAll(items: seq<Item>): seq<byte>
    requires AllWellFormed(items)
    decreases items
  {
    if items == [] then [] else Encode(items[0]) + EncodeAll(items[1..])
  }

  lemma EncodeAllCons(first: Item, rest: seq<Item>)
    requires first.WellFormed() && AllWellFormed(rest)
    ensures AllWellFormed([first] + rest)
    ensures EncodeAll([first] + rest) == Encode(first) + EncodeAll(rest)
  {
    assert ([first] + rest)[1..] == rest;
  }

  // ----- reading -----

  function WidthOf(ai: nat): Option<Width> {
    if ai <= 23 then Some(Inline)
    else if ai == 24 then Some(One)
    else if ai == 25 then Some(Two)
    else if ai == 26 then Some(Four)
    else if ai == 27 then Some(Eight)
    else None
  }

  function ReadHead(buf: seq<byte>, pos: nat): (r: Option<(Head, nat)>)
    ensures r.Some? ==> pos < r.value.1 <= |buf|
  {
    if pos >= |buf| then None else
      var width :- WidthOf(buf[pos] % 32);
      var next := pos + 1 + width.Size();
      if next > |buf| then None else
        var value := if width.Inline? then buf[pos] % 32 else BeValue(buf[pos + 1..next]);
        Some((Head(buf[pos] / 32, width, value), next))
  }

  lemma LimitIsPower(w: Width)
    requires !w.Inline?
    ensures w.Limit() == Pow256(w.Size())
  {
    Pow256Small();
  }

  lemma ReadHeadSound(buf: seq<byte>, pos: nat, h: Head, next: nat)
    requires ReadHead(buf, pos) == Some((h, next))
    ensures h.Valid() && Has(buf, pos, EncodeHead(h)) && next == pos + |EncodeHead(h)|
  {
    var arg := buf[pos + 1..next];
    BeBytesOfValue(arg);
    if !h.width.Inline? {
      LimitIsPower(h.width);
    }
    assert h.Valid();
    assert buf[pos..next] == [buf[pos]] + arg;
    assert arg == BeBytes(h.value, h.width.Size());
  }

  lemma ReadHeadComplete(buf: seq<byte>, pos: nat, h: Head)
    requires h.Valid() && Has(buf, pos, EncodeHead(h))
    ensures ReadHead(buf, pos) == Some((h, pos + |EncodeHead(h)|))
  {
    var next := pos + |EncodeHead(h)|;
    var e := EncodeHead(h);
    assert buf[pos] == buf[pos..next][0] == e[0];
    assert buf[pos + 1..next] == buf[pos..next][1..] == BeBytes(h.value, h.width.Size());
    assert e[0] % 32 == h.width.Code(h.value) && e[0] / 32 == h.major;
    if !h.width.Inline? {
      LimitIsPower(h.width);
      BeValueOfBytes(h.value, h.width.Size());
    }
  }

  /** The head reader accepts exactly the well-formed heads and consumes exactly their bytes. */
  lemma ReadHeadExact(buf: seq<byte>, pos: nat, h: Head, next: nat)
    ensures ReadHead(buf, pos) == Some((h, next))
       <==> h.Valid() && Has(buf, pos, EncodeHead(h)) && next == pos + |EncodeHead(h)|
  {
    if ReadHead(buf, pos) == Some((h, next)) {
      ReadHeadSound(buf, pos, h, next);
    }
    if h.Valid() && Has(buf, pos, EncodeHead(h)) {
      ReadHeadComplete(buf, pos, h);
    }
  }

  /** Step over one item; the result is the position behind it. */
  function Skip(buf: seq<byte>, pos: nat): (r: Option<nat>)
    ensures r.Some? ==> pos < r.value <= |buf|
    decreases |buf| - pos, 0, 0
  {
    var (h, next) :- ReadHead(buf, pos);
    match h.major
    case 0 => Some(next)
    case 1 => Some(next)
    case 2 => if next + h.value > |buf| then None else Some(next + h.value)
    case 3 => if next + h.value > |buf| then None else Some(next + h.value)
    case 4 => SkipMany(buf, next, h.value)
    case 5 => SkipMany(buf, next, 2 * h.value)
    case 7 => Some(next)
    case _ => None
  }

  function SkipMany(buf: seq<byte>, pos: nat, count: nat): (r: Option<nat>)
    requires pos <= |buf|
    ensures r.Some? ==> pos <= r.value <= |buf|
    decreases |buf| - pos, 1, count
  {
    if count == 0 then Some(pos) else
      var next :- Skip(buf, pos);
      SkipMany(buf, next, count - 1)
  }

  /** Skipping in two instalments. */
  lemma {:induction false} SkipManySplit(buf: seq<byte>, pos: nat, a: nat, b: nat)
    requires pos <= |buf|
    ensures SkipMany(buf, pos, a + b)
         == (var mid := SkipMany(buf, pos, a); if mid.None? then None else SkipMany(buf, mid.value, b))
    decreases a
  {
    if a > 0 && Skip(buf, pos).Some? {
      SkipManySplit(buf, Skip(buf, pos).value, a - 1, b);
    }
  }

  lemma {:induction false} SkipComplete(item: Item, buf: seq<byte>, pos: nat)
    requires item.WellFormed() && Has(buf, pos, Encode(item))
    ensures Skip(buf, pos) == Some(pos + |Encode(item)|)
    decreases item
  {
    hide ReadHead;
    hide EncodeHead;
    var h := item.head;
    match item
    case Atom(_) =>
      ReadHeadExact(buf, pos, h, pos + |EncodeHead(h)|);
    case Str(_, payload) =>
      HasSplit(buf, pos, EncodeHead(h), payload);
      ReadHeadExact(buf, pos, h, pos + |EncodeHead(h)|);
    case List(_, items) =>
      HasSplit(buf, pos, EncodeHead(h), EncodeAll(items));
      ReadHeadExact(buf, pos, h, pos + |EncodeHead(h)|);
      SkipManyComplete(items, buf, pos + |EncodeHead(h)|);
  }

  lemma {:induction false} SkipManyComplete(items: seq<Item>, buf: seq<byte>, pos: nat)
    requires AllWellFormed(items) && Has(buf, pos, EncodeAll(items))
    ensures SkipMany(buf, pos, |items|) == Some(pos + |EncodeAll(items)|)
    decreases items
  {
    hide Encode;
    hide Skip;
    if items == [] {
    } else {
      HasSplit(buf, pos, Encode(items[0]), EncodeAll(items[1..]));
      SkipComplete(items[0], buf, pos);
      SkipManyComplete(items[1..], buf, pos + |Encode(items[0])|);
    }
  }

  /** Whatever is skipped is one item of the grammar. */
  lemma {:induction false} SkipSound(buf: seq<byte>, pos: nat) returns (item: Item)
    requires Skip(buf, pos).Some?
    ensures item.WellFormed() && Has(buf, pos, Encode(item))
    ensures Skip(buf, pos).value == pos + |Encode(item)|
    decreases |buf| - pos, 0, 0
  {
    hide ReadHead;
    hide EncodeHead;
    var (h, next) := ReadHead(buf, pos).value;
    ReadHeadExact(buf, pos, h, next);
    if h.major == 2 || h.major == 3 {
      var payload := buf[next..next + h.value];
      item := Str(h, payload);
      HasSplit(buf, pos, EncodeHead(h), payload);
    } else if h.major == 4 || h.major == 5 {
      var items := SkipManySound(buf, next, if h.major == 4 then h.value else 2 * h.value);
      item := List(h, items);
      HasSplit(buf, pos, EncodeHead(h), EncodeAll(items));
    } else {
      item := Atom(h);
    }
  }

  lemma {:induction false} SkipManySound(buf: seq<byte>, pos: nat, count: nat) returns (items: seq<Item>)
    requires pos <= |buf| && SkipMany(buf, pos, count).Some?
    ensures |items| == count && AllWellFormed(items) && Has(buf, pos, EncodeAll(items))
    ensures SkipMany(buf, pos, count).value == pos + |EncodeAll(items)|
    decreases |buf| - pos, 1, count
  {
    hide Encode;
    hide Skip;
    if count == 0 {
      items := [];
    } else {
      var first := SkipSound(buf, pos);
      var next := pos + |Encode(first)|;
      var rest := SkipManySound(buf, next, count - 1);
      items := [first] + rest;
      EncodeAllCons(first, rest);
      HasSplit(buf, pos, Encode(first), EncodeAll(rest));
    }
  }

  /** Skip succeeds exactly on the well-formed items and stops exactly behind the one it found. */
  lemma SkipExact(buf: seq<byte>, pos: nat, next: nat)
    ensures Skip(buf, pos) == Some(next)
       <==> exists item: Item :: item.WellFormed() && Has(buf, pos, Encode(item)) && next == pos + |Encode(item)|
  {
    if Skip(buf, pos) == Some(next) {
      var item := SkipSound(buf, pos);
    }
    forall item: Item | item.WellFormed() && Has(buf, pos, Encode(item)) && next == pos + |Encode(item)|
      ensures Skip(buf, pos) == Some(next)
    {
      SkipComplete(item, buf, pos);
    }
  }

  /** One buffer position carries at most one item: encodings are prefix-free and injective. */
  lemma {:induction false} UniqueDecoding(a: Item, b: Item, buf: seq<byte>, pos: nat)
    requires a.WellFormed() && b.WellFormed()
    requires Has(buf, pos, Encode(a)) && Has(buf, pos, Encode(b))
    ensures a == b
    decreases a
  {
    SplitHead(a, buf, pos);
    SplitHead(b, buf, pos);
    ReadHeadExact(buf, pos, a.head, pos + |EncodeHead(a.head)|);
    ReadHeadExact(buf, pos, b.head, pos + |EncodeHead(b.head)|);
    if a.List? {
      UniqueDecodingAll(a.items, b.items, buf, pos + |EncodeHead(a.head)|);
    }
  }

  lemma SplitHead(a: Item, buf: seq<byte>, pos: nat)
    requires a.WellFormed() && Has(buf, pos, Encode(a))
    ensures Has(buf, pos, EncodeHead(a.head))
    ensures a.Str? ==> Has(buf, pos + |EncodeHead(a.head)|, a.payload)
    ensures a.List? ==> Has(buf, pos + |EncodeHead(a.head)|, EncodeAll(a.items))
  {
    match a
    case Atom(_) =>
    case Str(h, payload) => HasSplit(buf, pos, EncodeHead(h), payload);
    case List(h, items) => HasSplit(buf, pos, EncodeHead(h), EncodeAll(items));
  }

  lemma {:induction false} UniqueDecodingAll(a: seq<Item>, b: seq<Item>, buf: seq<byte>, pos: nat)
    requires |a| == |b| && AllWellFormed(a) && AllWellFormed(b)
    requires Has(buf, pos, EncodeAll(a)) && Has(buf, pos, EncodeAll(b))
    ensures a == b
    decreases a
  {
    if a == [] {
    } else {
      HasSplit(buf, pos, Encode(a[0]), EncodeAll(a[1..]));
      HasSplit(buf, pos, Encode(b[0]), EncodeAll(b[1..]));
      UniqueDecoding(a[0], b[0], buf, pos);
      UniqueDecodingAll(a[1..], b[1..], buf, pos + |Encode(a[0])|);
      assert a == [a[0]] + a[1..] && b == [b[0]] + b[1..];
    }
  }

  /** No encoding is a proper prefix of another, whatever bytes follow the two. */
  lemma PrefixFree(a: Item, b: Item, s: seq<byte>, t: seq<byte>)
    requires a.WellFormed() && b.WellFormed() && Encode(a) + s == Encode(b) + t
    ensures a == b && s == t
  {
    var buf := Encode(a) + s;
    HasSplit(buf, 0, Encode(a), s);
    HasSplit(buf, 0, Encode(b), t);
    UniqueDecoding(a, b, buf, 0);
    assert s == buf[|Encode(a)|..] == t;
  }

  // ----- canonical items, as the writer emits them -----

  function Shortest(major: nat, value: nat): (h: Head)
    requires major < 8 && value < TWO_64
    ensures h.Valid() && h.major == major && h.value == value
  {
    Head(major, if value <= 23 then Inline else if value <= 0xff then One else if value <= 0xffff then Two
                else if value <= 0xffff_ffff then Four else Eight, value)
  }

  /** No valid head for the same argument is shorter than the one the writer picks. */
  lemma ShortestIsMinimal(h: Head)
    requires h.Valid()
    ensures |EncodeHead(Shortest(h.major, h.value))| <= |EncodeHead(h)|
  {
  }

  function IntHead(v: s64): (h: Head)
    ensures h.Valid()
  {
    if v >= 0 then Shortest(0, v) else Shortest(1, -1 - v)
  }

  /** The C conversion of a 64-bit argument to `s64`. */
  function ToS64(v: u64): s64 {
    if v < TWO_63 then v else v - TWO_64
  }

  function HeadInt(h: Head): Option<s64>
    requires h.Valid()
  {
    if h.value >= TWO_64 then None
    else if h.major == 0 then Some(ToS64(h.value))
    else if h.major == 1 then Some(-1 - ToS64(h.value))
    else None
  }

  function ReadInt(buf: seq<byte>, pos: nat): (r: Option<(s64, nat)>)
    ensures r.Some? ==> pos < r.value.1 <= |buf|
  {
    var (h, next) :- ReadHead(buf, pos);
    ReadHeadExact(buf, pos, h, next);
    var v :- HeadInt(h);
    Some((v, next))
  }

  /** Every s64 survives the writer and the reader, whatever follows it. */
  lemma IntRoundTrip(v: s64, buf: seq<byte>, pos: nat)
    requires Has(buf, pos, EncodeHead(IntHead(v)))
    ensures ReadInt(buf, pos) == Some((v, pos + |EncodeHead(IntHead(v))|))
  {
    ReadHeadExact(buf, pos, IntHead(v), pos + |EncodeHead(IntHead(v))|);
  }

  /** The reader always returns an integer of a numeric head: the one it denotes exactly when the argument is below 2^63,
      and from there on that number moved by 2^64, without an error. */
  lemma IntDenotes(h: Head)
    requires h.Valid() && (h.major == 0 || h.major == 1)
    ensures var denoted := if h.major == 0 then h.value else -1 - h.value;
      && h.value < TWO_64 && HeadInt(h).Some?
      && (HeadInt(h).value == denoted <==> h.value < TWO_63)
      && (h.value >= TWO_63 ==> HeadInt(h).value == (if h.major == 0 then denoted - TWO_64 else denoted + TWO_64))
  {
    assert h.width.Limit() <= TWO_64;
  }

  function ReadString(buf: seq<byte>, pos: nat, major: nat): (r: Option<(seq<byte>, nat)>)
    ensures r.Some? ==> pos < r.value.1 <= |buf| && |r.value.0| < |buf|
  {
    var (h, next) :- ReadHead(buf, pos);
    if h.major != major || next + h.value > |buf| then None
    else Some((buf[next..next + h.value], next + h.value))
  }

  function ReadBytes(buf: seq<byte>, pos: nat): (r: Option<(seq<byte>, nat)>)
    ensures r.Some? ==> pos < r.value.1 <= |buf|
  {
    ReadString(buf, pos, 2)
  }

  function ReadText(buf: seq<byte>, pos: nat): (r: Option<(seq<byte>, nat)>)
    ensures r.Some? ==> pos < r.value.1 <= |buf|
  {
    ReadString(buf, pos, 3)
  }

  function ReadCount(buf: seq<byte>, pos: nat, major: nat): (r: Option<(nat, nat)>)
    ensures r.Some? ==> pos < r.value.1 <= |buf|
  {
    var (h, next) :- ReadHead(buf, pos);
    if h.major != major then None else Some((h.value, next))
  }

  function ReadMap(buf: seq<byte>, pos: nat): (r: Option<(nat, nat)>)
    ensures r.Some? ==> pos < r.value.1 <= |buf|
  {
    ReadCount(buf, pos, 5)
  }

  function ReadArray(buf: seq<byte>, pos: nat): (r: Option<(nat, nat)>)
    ensures r.Some? ==> pos < r.value.1 <= |buf|
  {
    ReadCount(buf, pos, 4)
  }

  function ReadUint(buf: seq<byte>, pos: nat): (r: Option<(nat, nat)>)
    ensures r.Some? ==> pos < r.value.1 <= |buf|
  {
    ReadCount(buf, pos, 0)
  }

  function ReadBool(buf: seq<byte>, pos: nat): (r: Option<(bool, nat)>)
    ensures r.Some? ==> pos < r.value.1 <= |buf|
  {
    var (h, next) :- ReadHead(buf, pos);
    if h.major != 7 || (h.value != 20 && h.value != 21) then None else Some((h.value == 21, next))
  }

  function Text(s: seq<byte>): (item: Item)
    requires |s| < TWO_64
    ensures item.WellFormed()
  {
    Str(Shortest(3, |s|), s)
  }

  function ByteString(s: seq<byte>): (item: Item)
    requires |s| < TWO_64
    ensures item.WellFormed()
  {
    Str(Shortest(2, |s|), s)
  }

  function Int(v: s64): (item: Item)
    ensures item.WellFormed()
  {
    Atom(IntHead(v))
  }

  function Bool(b: bool): (item: Item)
    ensures item.WellFormed()
  {
    Atom(Shortest(7, if b then 21 else 20))
  }

  function Array(items: seq<Item>): (item: Item)
    requires AllWellFormed(items) && |items| < TWO_64
    ensures item.WellFormed()
  {
    List(Shortest(4, |items|), items)
  }

  function Map(items: seq<Item>): (item: Item)
    requires AllWellFormed(items) && |items| % 2 == 0 && |items| < TWO_64
    ensures item.WellFormed()
  {
    List(Shortest(5, |items| / 2), items)
  }
}
