/** The signing loop over limb arrays, as the driver runs it. */
module Signer {
  import opened Bytes
  import opened Vli
  import opened Ecdsa

  /** A number below 2^256 in four limbs; the library's constants and results are handed over this way. */
  method Load(v: nat) returns (digits: array<u64>)
    requires v < Weight(LIMBS)
    ensures fresh(digits) && digits.Length == LIMBS && Value(digits[..]) == v
  {
    hide Limbs;
    var d := Limbs(v, LIMBS);
    LimbsExact(v, LIMBS);
    digits := new u64[LIMBS](i requires 0 <= i < LIMBS => d[i]);
    assert digits[..] == d;
  }

  /** The library's slow modular product. */
  method ModMult(left: array<u64>, right: array<u64>, mod: array<u64>) returns (result: array<u64>)
    requires left.Length == right.Length == mod.Length == LIMBS && Value(mod[..]) > 0
    ensures fresh(result) && result.Length == LIMBS
    ensures Value(result[..]) == (Value(left[..]) * Value(right[..])) % Value(mod[..])
  {
    ValueBound(mod[..]);
    result := Load((Value(left[..]) * Value(right[..])) % Value(mod[..]));
  }

  /** `r` down to its remainder, one subtraction at a time. */
  method ReduceInPlace(r: array<u64>, n: array<u64>)
    requires r.Length == n.Length && r != n && Value(n[..]) > 0
    modifies r
    ensures Value(r[..]) == old(Value(r[..])) % Value(n[..])
  {
    hide Value;
    hide Weight;
    ghost var start, m := Value(r[..]), Value(n[..]);
    while Value(r[..]) >= Value(n[..])
      invariant Value(n[..]) == m && Value(r[..]) % m == start % m
      decreases Value(r[..])
    {
      ghost var before := Value(r[..]);
      ValueBound(r[..]);
      assert n[..] == old(n[..]);
      Sub(r, r, n);
      SmallMod(before - m, Weight(r.Length));
      ModShift(before, -1, m);
      assert n[..] == old(n[..]);
    }
    SmallMod(Value(r[..]), m);
  }

  lemma SmallMod(a: nat, n: nat)
    requires a < n
    ensures a % n == a
  {
  }

  method Zero(d: array<u64>) returns (yes: bool)
    requires d.Length == LIMBS
    ensures yes == (Value(d[..]) == 0)
  {
    yes := Value(d[..]) == 0;
  }

  /** `z + r d` modulo the order, up to one missing subtraction. */
  method AddProduct(z: array<u64>, r: array<u64>, d: array<u64>, n: array<u64>, ghost order: nat) returns (sum: array<u64>)
    requires z.Length == r.Length == d.Length == n.Length == LIMBS && Value(n[..]) == order > 0
    ensures fresh(sum) && sum.Length == LIMBS && Value(sum[..]) == Total(Value(r[..]), Value(d[..]), Value(z[..]), order)
  {
    hide Value;
    hide Weight;
    var rd := ModMult(r, d, n);
    ValueBound(z[..]);
    sum := new u64[LIMBS];
    ModAdd(sum, z, rd, n);
  }

  method Invert(k: array<u64>, c: Curve) returns (inverse: array<u64>)
    requires k.Length == LIMBS && c.Valid() && 0 < Value(k[..]) < c.n
    ensures fresh(inverse) && inverse.Length == LIMBS && Value(inverse[..]) == c.inv(Value(k[..]))
  {
    inverse := Load(c.inv(Value(k[..])));
  }

  /** One round with a point in hand. */
  method Try(a: Attempt, d: array<u64>, z: array<u64>, n: array<u64>, c: Curve)
    returns (ok: bool, r: array<u64>, s: array<u64>)
    requires c.Valid() && a.Point? && Fits(a, c.n)
    requires d.Length == z.Length == n.Length == LIMBS && Value(n[..]) == c.n
    ensures r.Length == s.Length == LIMBS
    ensures (if ok then Some((Value(r[..]), Value(s[..]))) else None) == Round(a, Value(d[..]), Value(z[..]), c)
  {
    hide Value;
    hide Weight;
    hide BeValue;
    hide Total;
    r := new u64[LIMBS];
    s := new u64[LIMBS];
    FromBytes(a.xy[..32], r);
    ReduceInPlace(r, n);
    var zero := Zero(r);
    if zero {
      return false, r, s;
    }
    var sum := AddProduct(z, r, d, n, c.n);
    zero := Zero(sum);
    if zero {
      return false, r, s;
    }
    var kInt := new u64[LIMBS];
    FromBytes(a.k, kInt);
    var kInv := Invert(kInt, c);
    s := ModMult(kInv, sum, n);
    zero := Zero(s);
    return !zero, r, s;
  }

  datatype Result = Signature(r: seq<byte>, s: seq<byte>) | Error(again: bool)

  /** The loop's outcome in bytes. */
  function Encoded(o: Outcome): Result {
    match o
    case Signed(r, s) => Signature(BeBytes(r, 32), BeBytes(s, 32))
    case NoNonce => Error(false)
    case Exhausted => Error(true)
  }

  method Sign(priv: seq<byte>, digest: seq<byte>, attempts: seq<Attempt>, c: Curve) returns (res: Result)
    requires |priv| == |digest| == 32 && c.Valid()
    requires MAX_TRIES <= |attempts| && forall i :: 0 <= i < |attempts| ==> Fits(attempts[i], c.n)
    ensures res == Encoded(Loop(attempts, 0, BeValue(priv), BeValue(digest), c))
  {
    hide Value;
    hide Weight;
    hide BeValue;
    hide BeBytes;
    hide Round;
    var d, z := new u64[LIMBS], new u64[LIMBS];
    FromBytes(priv, d);
    FromBytes(digest, z);
    var n := Load(c.n);
    var tries := 0;
    while tries < MAX_TRIES
      invariant tries <= MAX_TRIES && n.Length == LIMBS
      invariant Value(d[..]) == BeValue(priv) && Value(z[..]) == BeValue(digest) && Value(n[..]) == c.n
      invariant Loop(attempts, 0, BeValue(priv), BeValue(digest), c) == Loop(attempts, tries, BeValue(priv), BeValue(digest), c)
    {
      var a := attempts[tries];
      assert Fits(a, c.n);
      if a.GenFails? {
        return Error(false);
      }
      if a.Point? {
        var ok, r, s := Try(a, d, z, n, c);
        if ok {
          var rBytes := ToBytes(r[..]);
          var sBytes := ToBytes(s[..]);
          BeBytesOfValue(rBytes);
          BeBytesOfValue(sBytes);
          return Signature(rBytes, sBytes);
        }
      }
      tries := tries + 1;
    }
    return Error(true);
  }
}
