/** Bytes, fixed-width integers and positioned matches, shared by every codec of the model. */
module Bytes {
  type byte = x: int | 0 <= x < 256

  const TWO_31 := 0x8000_0000
  const TWO_32 := 0x1_0000_0000
  const TWO_63 := 0x8000_0000_0000_0000
  const TWO_64 := 0x1_0000_0000_0000_0000

  type u32 = x: int | 0 <= x < TWO_32
  type u64 = x: int | 0 <= x < TWO_64
  type s64 = x: int | -TWO_63 <= x < TWO_63

  datatype Option<+T> = None | Some(value: T) {
    predicate IsFailure() { None? }
    function PropagateFailure<U>(): Option<U>
      requires None?
    {
      None
    }
    function Extract(): T
      requires Some?
    {
      value
    }
  }

  function Min(a: nat, b: nat): (m: nat)
    ensures m <= a && m <= b && (m == a || m == b)
  {
    if a <= b then a else b
  }

  function Zeros(n: nat): (s: seq<byte>)
    ensures |s| == n && forall i :: 0 <= i < n ==> s[i] == 0
  {
    seq(n, _ => 0)
  }

  function Pow256(n: nat): (p: nat)
    ensures p > 0
  {
    if n == 0 then 1 else 256 * Pow256(n - 1)
  }

  /** The number a big-endian byte string denotes. */
  function BeValue(s: seq<byte>): nat {
    if s == [] then 0 else BeValue(s[..|s| - 1]) * 256 + s[|s| - 1]
  }

  /** The low `width` bytes of `v`, most significant first. */
  function BeBytes(v: nat, width: nat): (s: seq<byte>)
    ensures |s| == width
  {
    if width == 0 then [] else BeBytes(v / 256, width - 1) + [v % 256]
  }

  lemma {:induction false} BeValueOfBytes(v: nat, width: nat)
    requires v < Pow256(width)
    ensures BeValue(BeBytes(v, width)) == v
  {
    if width == 0 {
    } else {
      BeValueOfBytes(v / 256, width - 1);
      var s := BeBytes(v, width);
      assert s[..|s| - 1] == BeBytes(v / 256, width - 1);
    }
  }

  lemma {:induction false} BeBytesOfValue(s: seq<byte>)
    ensures BeValue(s) < Pow256(|s|)
    ensures BeBytes(BeValue(s), |s|) == s
  {
    if s == [] {
    } else {
      BeBytesOfValue(s[..|s| - 1]);
      var hi := BeValue(s[..|s| - 1]);
      assert (hi * 256 + s[|s| - 1]) / 256 == hi;
      assert s == s[..|s| - 1] + [s[|s| - 1]];
    }
  }

  /** The number a little-endian byte string denotes. */
  function LeValue(s: seq<byte>): nat {
    if s == [] then 0 else s[0] + 256 * LeValue(s[1..])
  }

  /** The low `width` bytes of `v`, least significant first. */
  function LeBytes(v: nat, width: nat): (s: seq<byte>)
    ensures |s| == width
  {
    if width == 0 then [] else [v % 256] + LeBytes(v / 256, width - 1)
  }

  lemma {:induction false} LeValueOfBytes(v: nat, width: nat)
    requires v < Pow256(width)
    ensures LeValue(LeBytes(v, width)) == v
  {
    if width == 0 {
    } else {
      LeValueOfBytes(v / 256, width - 1);
      assert LeBytes(v, width)[1..] == LeBytes(v / 256, width - 1);
    }
  }

  lemma {:induction false} LeBytesOfValue(s: seq<byte>)
    ensures LeValue(s) < Pow256(|s|)
    ensures LeBytes(LeValue(s), |s|) == s
  {
    if s == [] {
    } else {
      LeBytesOfValue(s[1..]);
      assert (s[0] + 256 * LeValue(s[1..])) / 256 == LeValue(s[1..]);
      assert s == [s[0]] + s[1..];
    }
  }

  lemma Pow256Small()
    ensures Pow256(1) == 0x100 && Pow256(2) == 0x1_0000 && Pow256(4) == TWO_32 && Pow256(8) == TWO_64
  {
    assert Pow256(2) == 256 * Pow256(1);
    assert Pow256(3) == 256 * Pow256(2);
    assert Pow256(4) == 256 * Pow256(3);
    assert Pow256(5) == 256 * Pow256(4);
    assert Pow256(6) == 256 * Pow256(5);
    assert Pow256(7) == 256 * Pow256(6);
    assert Pow256(8) == 256 * Pow256(7);
  }

  /** `s` stands in `buf` at offset `pos`. */
  predicate Has(buf: seq<byte>, pos: nat, s: seq<byte>) {
    pos + |s| <= |buf| && buf[pos..pos + |s|] == s
  }

  lemma HasSplit(buf: seq<byte>, pos: nat, a: seq<byte>, b: seq<byte>)
    ensures Has(buf, pos, a + b) <==> Has(buf, pos, a) && Has(buf, pos + |a|, b)
  {
    if Has(buf, pos, a + b) {
      var w := buf[pos..pos + |a + b|];
      assert buf[pos..pos + |a|] == w[..|a|] == a;
      assert buf[pos + |a|..pos + |a| + |b|] == w[|a|..] == b;
    }
    if Has(buf, pos, a) && Has(buf, pos + |a|, b) {
      assert buf[pos..pos + |a + b|] == buf[pos..pos + |a|] + buf[pos + |a|..pos + |a| + |b|];
    }
  }

  /** What a C reader sees of a byte field: everything before the first NUL. */
  function CStr(s: seq<byte>): (r: seq<byte>)
    ensures |r| <= |s| && r == s[..|r|] && 0 !in r
    ensures |r| < |s| ==> s[|r|] == 0
    ensures |r| < |s| <==> 0 in s
  {
    if s == [] || s[0] == 0 then [] else
      var rest := CStr(s[1..]);
      [s[0]] + rest
  }

  /** The C string is the one NUL-free prefix that ends the field or stands before a NUL. */
  lemma {:induction false} CStrUnique(s: seq<byte>, r: seq<byte>)
    requires |r| <= |s| && r == s[..|r|] && 0 !in r
    requires |r| == |s| || s[|r|] == 0
    ensures CStr(s) == r
  {
    if r == [] {
    } else {
      assert r[0] == s[0] && r[0] in r;
      assert r[1..] == s[1..][..|r| - 1];
      CStrUnique(s[1..], r[1..]);
    }
  }
}
