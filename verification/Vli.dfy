/** Multi-limb arithmetic of the signer: addition with carry, addition modulo the group order, byte conversions. */
module Vli {
  import opened Bytes

  const LIMBS := 4

  /** The weight of limb `n`: 2^(64 n). */
  function Weight(n: nat): (w: nat)
    ensures w > 0
  {
    if n == 0 then 1 else TWO_64 * Weight(n - 1)
  }

  /** The number a little-endian limb sequence denotes. */
  function Value(d: seq<u64>): (v: nat) {
    if d == [] then 0 else Value(d[..|d| - 1]) + d[|d| - 1] * Weight(|d| - 1)
  }

  lemma {:induction false} ValueBound(d: seq<u64>)
    ensures Value(d) < Weight(|d|)
  {
    if d != [] {
      var n := |d| - 1;
      ValueBound(d[..n]);
      TopLimb(Value(d[..n]), d[n], Weight(n));
    }
  }

  lemma TopLimb(low: nat, top: u64, w: nat)
    requires low < w
    ensures low + top * w < TWO_64 * w
  {
    MulMono(top, TWO_64 - 1, w);
    assert (TWO_64 - 1) * w == TWO_64 * w - w;
  }

  lemma MulMono(x: int, y: int, w: nat)
    requires x <= y
    ensures x * w <= y * w
  {
    assert (y - x) * w >= 0;
  }

  // ----- division and remainder -----

  lemma DivMod(a: int, q: int, m: nat, r: nat)
    requires r < m && a == q * m + r
    ensures a / m == q && a % m == r
  {
    var x := a / m - q;
    assert a == a / m * m + a % m;
    assert x * m == r - a % m;
    if x > 0 {
      MulMono(1, x, m);
      assert false;
    } else if x < 0 {
      MulMono(x, -1, m);
      assert false;
    }
  }

  lemma ModShift(a: int, t: int, m: nat)
    requires m > 0
    ensures (a + m * t) % m == a % m
  {
    var q, r := a / m, a % m;
    assert a == q * m + r;
    assert (q + t) * m == q * m + m * t;
    DivMod(a, q, m, r);
    DivMod(a + m * t, q + t, m, r);
  }

  /** The low `n` limbs of a number. */
  function Limbs(v: nat, n: nat): (d: seq<u64>)
    ensures |d| == n
  {
    if n == 0 then [] else Limbs(v % Weight(n - 1), n - 1) + [(v / Weight(n - 1)) % TWO_64]
  }

  lemma {:induction false} LimbsExact(v: nat, n: nat)
    requires v < Weight(n)
    ensures Value(Limbs(v, n)) == v
    decreases n
  {
    if n > 0 {
      LimbsExact(v % Weight(n - 1), n - 1);
      LimbsStep(v, n - 1);
    }
  }

  lemma LimbsStep(v: nat, n: nat)
    requires v < TWO_64 * Weight(n) && Value(Limbs(v % Weight(n), n)) == v % Weight(n)
    ensures Value(Limbs(v, n + 1)) == v
  {
    hide Weight;
    hide Value;
    var w := Weight(n);
    var top := v / w;
    QuotientBound(v, w, TWO_64);
    ValueSnoc(Limbs(v % w, n), top % TWO_64);
    assert top % TWO_64 == top;
  }

  lemma QuotientBound(v: nat, w: nat, b: nat)
    requires w > 0 && v < b * w
    ensures 0 <= v / w < b
  {
    var q := v / w;
    assert v == q * w + v % w;
    if q >= b {
      MulMono(b, q, w);
      assert false;
    }
  }

  /** One limb of an addition: the wrapped sum and the carry out, as the two comparisons detect it. */
  lemma LimbAdd(l: u64, r: u64, carry: nat)
    requires carry <= 1
    ensures var prev := (l + carry) % TWO_64;
      var sum := (prev + r) % TWO_64;
      var out := if prev < l || sum < prev then 1 else 0;
      sum + out * TWO_64 == l + r + carry
  {
  }

  lemma CarryStep(a: nat, b: nat, c: nat, l: u64, r: u64, s: u64, carry: nat, out: nat, w: nat)
    requires c + carry * w == a + b && s + out * TWO_64 == l + r + carry
    ensures (c + s * w) + out * (TWO_64 * w) == (a + l * w) + (b + r * w)
  {
    calc {
      (c + s * w) + out * (TWO_64 * w);
      c + (s + out * TWO_64) * w;
      c + (l + r + carry) * w;
      (c + carry * w) + l * w + r * w;
      (a + l * w) + (b + r * w);
    }
  }

  /** Exact addition: the result and its carry are the sum, also when the result overwrites an operand. */
  method Add(result: array<u64>, left: array<u64>, right: array<u64>) returns (carry: nat)
    requires result.Length == left.Length == right.Length
    modifies result
    ensures carry <= 1
    ensures Value(result[..]) + carry * Weight(result.Length) == old(Value(left[..])) + old(Value(right[..]))
  {
    hide Value;
    hide Weight;
    carry := 0;
    var i := 0;
    ValueEmpty();
    assert left[..0] == [] && right[..0] == [] && result[..0] == [];
    while i < result.Length
      invariant i <= result.Length && carry <= 1
      invariant forall j :: i <= j < result.Length ==> left[j] == old(left[j]) && right[j] == old(right[j])
      invariant Value(result[..i]) + carry * Weight(i) == Value(old(left[..])[..i]) + Value(old(right[..])[..i])
    {
      var prev := (left[i] + carry) % TWO_64;
      var sum := (prev + right[i]) % TWO_64;
      LimbAdd(left[i], right[i], carry);
      var out := if prev < left[i] || sum < prev then 1 else 0;
      ghost var was := result[..i];
      ghost var l, r := old(left[..]), old(right[..]);
      CarryStep(Value(l[..i]), Value(r[..i]), Value(was), l[i], r[i], sum, carry, out, Weight(i));
      ValueSnoc(l[..i], l[i]);
      ValueSnoc(r[..i], r[i]);
      ValueSnoc(was, sum);
      assert l[..i + 1] == l[..i] + [l[i]] && r[..i + 1] == r[..i] + [r[i]];
      result[i] := sum;
      assert result[..i + 1] == was + [sum];
      carry := out;
      i := i + 1;
    }
    assert result[..i] == result[..] && old(left[..])[..i] == old(left[..]) && old(right[..])[..i] == old(right[..]);
  }

  lemma ValueEmpty()
    ensures Value([]) == 0 && Weight(0) == 1
  {
  }

  lemma ValueSnoc(d: seq<u64>, x: u64)
    ensures Value(d + [x]) == Value(d) + x * Weight(|d|) && Weight(|d| + 1) == TWO_64 * Weight(|d|)
  {
    assert (d + [x])[..|d|] == d;
  }

  /** The library subtraction: the difference modulo the weight of the whole array. */
  method Sub(result: array<u64>, left: array<u64>, right: array<u64>)
    requires result.Length == left.Length == right.Length
    modifies result
    ensures Value(result[..]) == (old(Value(left[..])) - old(Value(right[..]))) % Weight(result.Length)
  {
    ghost var w := Weight(result.Length);
    var d := Limbs((Value(left[..]) - Value(right[..])) % Weight(result.Length), result.Length);
    LimbsExact((Value(left[..]) - Value(right[..])) % w, result.Length);
    forall i | 0 <= i < result.Length {
      result[i] := d[i];
    }
    assert result[..] == d;
  }

  /** One conditional subtraction: exact, and so congruent, whenever the sum does not exceed the modulus by a full weight;
      the result is fully reduced exactly when the sum was below twice the modulus. */
  method ModAdd(result: array<u64>, left: array<u64>, right: array<u64>, mod: array<u64>)
    requires result.Length == left.Length == right.Length == mod.Length
    requires result != mod
    requires Value(mod[..]) > 0 && Value(left[..]) + Value(right[..]) < Weight(mod.Length) + Value(mod[..])
    modifies result
    ensures var sum, m := old(Value(left[..])) + old(Value(right[..])), Value(mod[..]);
      && Value(result[..]) == (if sum >= m then sum - m else sum)
      && Value(result[..]) % m == sum % m
      && (Value(result[..]) < m <==> sum < 2 * m)
  {
    hide Value;
    hide Weight;
    ghost var sum, m, w := Value(left[..]) + Value(right[..]), Value(mod[..]), Weight(mod.Length);
    ValueBound(mod[..]);
    var carry := Add(result, left, right);
    ValueBound(result[..]);
    assert mod[..] == old(mod[..]);
    if carry == 1 || Value(result[..]) >= Value(mod[..]) {
      ghost var part := Value(result[..]);
      WrapSub(sum, m, w, part, carry);
      Sub(result, result, mod);
      ModShift(sum, -1, m);
    }
  }

  lemma WrapSub(sum: nat, m: nat, w: nat, part: nat, carry: nat)
    requires carry <= 1 && part + carry * w == sum && part < w && sum < w + m && 0 < w
    requires carry == 1 || part >= m
    ensures sum >= m ==> (part - m) % w == sum - m
    ensures m < w || carry == 1 ==> sum >= m || carry == 1
    ensures m <= w ==> sum >= m
  {
    if carry == 1 {
      assert part - m == sum - m - w;
      if sum >= m {
        ModWrap(sum - m, w);
      }
    } else if sum >= m {
      assert (part - m) % w == part - m;
    }
  }

  lemma ModWrap(x: nat, w: nat)
    requires x < w
    ensures (x - w) % w == x
  {
    assert (x - w) + w == x;
  }

  // ----- bytes and limbs -----

  lemma {:induction false} BeConcat(a: seq<byte>, b: seq<byte>)
    ensures BeValue(a + b) == BeValue(a) * Pow256(|b|) + BeValue(b)
    decreases |b|
  {
    if b == [] {
      assert a + b == a;
    } else {
      var n := |b| - 1;
      assert (a + b)[..|a| + n] == a + b[..n];
      BeConcat(a, b[..n]);
      assert BeValue(a) * Pow256(n) * 256 == BeValue(a) * Pow256(n + 1);
    }
  }

  lemma {:induction false} PowIsWeight(n: nat)
    ensures Pow256(8 * n) == Weight(n)
  {
    if n == 0 {
    } else {
      PowIsWeight(n - 1);
      assert Pow256(8 * n) == 256 * Pow256(8 * n - 1) == 256 * 256 * Pow256(8 * n - 2);
      assert Pow256(8 * n - 2) == 256 * Pow256(8 * n - 3) == 256 * 256 * Pow256(8 * n - 4);
      assert Pow256(8 * n - 4) == 256 * Pow256(8 * n - 5) == 256 * 256 * Pow256(8 * n - 6);
      assert Pow256(8 * n - 6) == 256 * Pow256(8 * n - 7) == 256 * 256 * Pow256(8 * n - 8);
    }
  }

  /** Big-endian bytes to limbs, last word first. */
  method FromBytes(bytes: seq<byte>, digits: array<u64>)
    requires |bytes| == 8 * digits.Length
    modifies digits
    ensures Value(digits[..]) == BeValue(bytes)
  {
    hide Weight;
    hide Value;
    hide BeValue;
    var n := digits.Length;
    ValueEmpty();
    BeEmpty();
    assert digits[..0] == [] && bytes[8 * n..] == [];
    for i := 0 to n
      invariant Value(digits[..i]) == BeValue(bytes[8 * (n - i)..])
    {
      var word := bytes[8 * (n - 1 - i)..8 * (n - i)];
      BeBytesOfValue(word);
      Pow256Small();
      ghost var rest := bytes[8 * (n - i)..];
      assert bytes[8 * (n - 1 - i)..] == word + rest;
      BeConcat(word, rest);
      PowIsWeight(i);
      ghost var was := digits[..i];
      digits[i] := BeValue(word);
      ValueSnoc(was, BeValue(word));
      assert digits[..i + 1] == was + [digits[i]];
    }
    assert digits[..n] == digits[..] && bytes[0..] == bytes;
  }

  lemma BeEmpty()
    ensures BeValue([]) == 0
  {
  }

  /** Limbs to big-endian bytes. */
  method ToBytes(digits: seq<u64>) returns (out: seq<byte>)
    ensures |out| == 8 * |digits| && BeValue(out) == Value(digits)
  {
    hide Weight;
    hide Value;
    hide BeValue;
    out := [];
    var n := |digits|;
    ValueEmpty();
    BeEmpty();
    assert digits[..0] == [] && digits[n..] == [];
    for i := 0 to n
      invariant |out| == 8 * i && BeValue(out) == Value(digits[n - i..])
    {
      out := out + BeBytes(digits[n - 1 - i], 8);
      ToBytesStep(digits, i, out[..8 * i]);
      assert out == out[..8 * i] + BeBytes(digits[n - 1 - i], 8);
    }
    assert digits[0..] == digits;
  }

  lemma ToBytesStep(digits: seq<u64>, i: nat, done: seq<byte>)
    requires i < |digits| && BeValue(done) == Value(digits[|digits| - i..])
    ensures BeValue(done + BeBytes(digits[|digits| - 1 - i], 8)) == Value(digits[|digits| - 1 - i..])
  {
    hide Value;
    hide BeValue;
    hide BeBytes;
    hide Pow256;
    var n := |digits|;
    var x := digits[n - 1 - i];
    Pow256Small();
    BeValueOfBytes(x, 8);
    BeConcat(done, BeBytes(x, 8));
    ValueCons(x, digits[n - i..]);
    assert digits[n - 1 - i..] == [x] + digits[n - i..];
  }

  lemma {:induction false} ValueCons(x: u64, d: seq<u64>)
    ensures Value([x] + d) == x + TWO_64 * Value(d)
    decreases |d|
  {
    if d == [] {
      assert [x] + d == [x];
      assert [x][..0] == [];
      ValueEmpty();
    } else {
      var n := |d| - 1;
      ValueCons(x, d[..n]);
      assert ([x] + d)[..|d|] == [x] + d[..n];
      assert d[n] * Weight(n + 1) == TWO_64 * (d[n] * Weight(n));
    }
  }
}
