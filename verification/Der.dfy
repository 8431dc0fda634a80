/** DER signatures: minimal non-negative integers (section 8.3 of X.690), their encoder and a strict decoder. */
module Der {
  import opened Bytes
  import opened Vli
  import opened Ecdsa
  import opened Signer

  const MAX_SIG_DER := 80

  /** The content octets of an INTEGER that is not negative and has no superfluous leading octet. */
  predicate Minimal(b: seq<byte>) {
    |b| > 0 && b[0] < 0x80 && (|b| > 1 ==> !(b[0] == 0 && b[1] < 0x80))
  }

  /** Leading zeros go as long as the next octet keeps the number non-negative. */
  function Strip(b: seq<byte>): (r: seq<byte>)
    ensures |r| <= |b|
  {
    if |b| > 1 && b[0] == 0 && b[1] < 0x80 then Strip(b[1..]) else b
  }

  lemma {:induction false} StripExact(b: seq<byte>)
    requires |b| > 0 && b[0] < 0x80
    ensures Minimal(Strip(b)) && BeValue(Strip(b)) == BeValue(b)
  {
    if |b| > 1 && b[0] == 0 && b[1] < 0x80 {
      LeadingZero(b[1..]);
      assert b == [0] + b[1..];
      StripExact(b[1..]);
    }
  }

  lemma LeadingZero(s: seq<byte>)
    ensures BeValue([0] + s) == BeValue(s)
  {
    BeConcat([0], s);
    assert [0][..0] == [];
  }

  /** The octets of a fixed-width number as an INTEGER. */
  function Integer(raw: seq<byte>): (r: seq<byte>)
    ensures |r| <= |raw| + 1
  {
    Strip([0] + raw)
  }

  lemma IntegerExact(raw: seq<byte>)
    ensures Minimal(Integer(raw)) && BeValue(Integer(raw)) == BeValue(raw)
  {
    StripExact([0] + raw);
    LeadingZero(raw);
  }

  /** The magnitude of a minimal integer fixes its length. */
  lemma MinimalSize(b: seq<byte>)
    requires Minimal(b)
    ensures BeValue(b) < 128 * Pow256(|b| - 1)
    ensures |b| > 1 ==> 128 * Pow256(|b| - 2) <= BeValue(b)
  {
    hide BeValue;
    var n := |b|;
    assert b == [b[0]] + b[1..];
    BeConcat([b[0]], b[1..]);
    One(b[0]);
    BeBytesOfValue(b[1..]);
    MulMono(b[0], 127, Pow256(n - 1));
    if n > 1 {
      assert b[1..] == [b[1]] + b[2..];
      BeConcat([b[1]], b[2..]);
      One(b[1]);
      if b[0] > 0 {
        MulMono(1, b[0], Pow256(n - 1));
      } else {
        MulMono(128, b[1], Pow256(n - 2));
      }
    }
  }

  lemma One(x: byte)
    ensures BeValue([x]) == x
  {
    assert [x][..0] == [];
  }

  lemma {:induction false} PowMono(a: nat, b: nat)
    requires a <= b
    ensures Pow256(a) <= Pow256(b)
    decreases b
  {
    if a < b {
      PowMono(a, b - 1);
    }
  }

  lemma ShorterIsSmaller(a: seq<byte>, b: seq<byte>)
    requires Minimal(a) && Minimal(b) && |a| < |b|
    ensures BeValue(a) < BeValue(b)
  {
    hide BeValue;
    hide Pow256;
    MinimalSize(a);
    MinimalSize(b);
    PowMono(|a| - 1, |b| - 2);
  }

  /** Every number has one minimal form. */
  lemma MinimalUnique(a: seq<byte>, b: seq<byte>)
    requires Minimal(a) && Minimal(b) && BeValue(a) == BeValue(b)
    ensures a == b
  {
    hide BeValue;
    if |a| < |b| {
      ShorterIsSmaller(a, b);
    } else if |b| < |a| {
      ShorterIsSmaller(b, a);
    } else {
      BeBytesOfValue(a);
      BeBytesOfValue(b);
    }
  }

  // ----- signatures -----

  function Sequence(a: seq<byte>, b: seq<byte>): seq<byte>
    requires 4 + |a| + |b| < 128
  {
    [0x30, 4 + |a| + |b|, 0x02, |a|] + a + [0x02, |b|] + b
  }

  /** A strict reader: short lengths, nothing left over, both integers minimal. */
  function Decode(x: seq<byte>): (v: Option<(nat, nat)>) {
    if |x| < 6 || x[0] != 0x30 || x[1] >= 128 || x[1] != |x| - 2 || x[2] != 0x02 || 6 + x[3] > |x| then None else
      var a, rest := x[4..4 + x[3]], x[4 + x[3]..];
      if rest[0] != 0x02 || rest[1] != |rest| - 2 || !Minimal(a) || !Minimal(rest[2..]) then None
      else Some((BeValue(a), BeValue(rest[2..])))
  }

  lemma DecodeSequence(a: seq<byte>, b: seq<byte>)
    requires 4 + |a| + |b| < 128 && Minimal(a) && Minimal(b)
    ensures Decode(Sequence(a, b)) == Some((BeValue(a), BeValue(b)))
  {
    hide BeValue;
    hide Minimal;
    var head, rest := [0x30, 4 + |a| + |b|, 0x02, |a|], [0x02, |b|] + b;
    var x := Sequence(a, b);
    assert x == head + (a + rest);
    assert x[0] == head[0] && x[1] == head[1] && x[2] == head[2] && x[3] == head[3];
    assert x[4..] == a + rest;
    assert x[4..4 + |a|] == a && x[4 + |a|..] == rest;
    assert rest[2..] == b;
  }

  lemma SequenceOfDecoded(x: seq<byte>) returns (a: seq<byte>, b: seq<byte>)
    requires Decode(x).Some?
    ensures 4 + |a| + |b| < 128 && Minimal(a) && Minimal(b) && x == Sequence(a, b)
    ensures Decode(x) == Some((BeValue(a), BeValue(b)))
  {
    hide BeValue;
    hide Minimal;
    a := x[4..4 + x[3]];
    var rest := x[4 + x[3]..];
    b := rest[2..];
    assert rest == [0x02, |b|] + b;
    assert x == x[..4] + a + rest;
    assert x[..4] == [0x30, 4 + |a| + |b|, 0x02, |a|];
  }

  /** The encoding of any two 32-byte numbers is at most 72 bytes, decodes to both, and is the only string that does. */
  lemma DerExact(r: seq<byte>, s: seq<byte>, other: seq<byte>)
    requires |r| == |s| == 32
    ensures |Integer(r)| <= 33 && |Integer(s)| <= 33
    ensures var x := Sequence(Integer(r), Integer(s));
      && |x| <= 72 && Decode(x) == Some((BeValue(r), BeValue(s)))
      && (Decode(other) == Decode(x) ==> other == x)
  {
    hide BeValue;
    hide Strip;
    hide Minimal;
    hide Decode;
    IntegerExact(r);
    IntegerExact(s);
    var x := Sequence(Integer(r), Integer(s));
    DecodeSequence(Integer(r), Integer(s));
    if Decode(other) == Decode(x) {
      var a, b := SequenceOfDecoded(other);
      MinimalUnique(a, Integer(r));
      MinimalUnique(b, Integer(s));
    }
  }

  // ----- the driver's buffers -----

  /** `memmove` of `len` bytes down by one. */
  method MoveDown(enc: array<byte>, len: nat)
    requires len < enc.Length
    modifies enc
    ensures enc[..len] == old(enc[1..len + 1]) && enc[len..] == old(enc[len..])
  {
    forall i | 0 <= i < len {
      enc[i] := enc[i + 1];
    }
  }

  method Copy(dst: array<byte>, at: nat, data: seq<byte>)
    requires at + |data| <= dst.Length
    modifies dst
    ensures dst[..at] == old(dst[..at]) && dst[at..at + |data|] == data
  {
    forall i | 0 <= i < |data| {
      dst[at + i] := data[i];
    }
  }

  /** The stripping loop shifts the whole rest down at every zero. */
  method StripInPlace(enc: array<byte>, start: nat) returns (len: nat)
    requires 0 < start <= enc.Length
    modifies enc
    ensures 0 < len <= start && enc[..len] == Strip(old(enc[..start]))
  {
    len := start;
    while len > 1 && enc[0] == 0 && enc[1] < 0x80
      invariant 1 <= len <= start && Strip(enc[..len]) == Strip(old(enc[..start]))
      decreases len
    {
      len := len - 1;
      ghost var was := enc[..len + 1];
      MoveDown(enc, len);
      assert enc[..len] == was[1..];
    }
  }

  /** One number in the 33-byte buffer. */
  method PutInteger(enc: array<byte>, raw: seq<byte>) returns (len: nat)
    requires enc.Length == 33 && |raw| == 32
    modifies enc
    ensures len <= 33 && enc[..len] == Integer(raw)
  {
    Copy(enc, 1, raw);
    assert enc[1..33] == raw;
    if enc[1] >= 0x80 {
      enc[0] := 0;
      len := 33;
      assert enc[..33] == [0] + raw;
    } else {
      MoveDown(enc, 32);
      len := 32;
      assert ([0] + raw)[1..] == raw;
    }
    len := StripInPlace(enc, len);
  }

  /** Tag, length and contents of one INTEGER. */
  method PutElement(sig: array<byte>, at: nat, data: seq<byte>)
    requires at + 2 + |data| <= sig.Length && |data| < 128
    modifies sig
    ensures sig[..at + 2 + |data|] == old(sig[..at]) + ([0x02, |data|] + data)
  {
    sig[at], sig[at + 1] := 0x02, |data|;
    Copy(sig, at + 2, data);
    assert sig[..at + 2][..at] == old(sig[..at]);
    assert sig[..at + 2 + |data|] == sig[..at + 2] + sig[at + 2..at + 2 + |data|];
  }

  /** The signature in the caller's buffer. */
  method PutSignature(sig: array<byte>, r: seq<byte>, s: seq<byte>) returns (len: nat)
    requires sig.Length == MAX_SIG_DER && |r| == |s| == 32
    modifies sig
    ensures |Integer(r)| <= 33 && |Integer(s)| <= 33
    ensures len <= 72 && sig[..len] == Sequence(Integer(r), Integer(s))
  {
    hide Integer;
    var encR, encS := new byte[33], new byte[33];
    var rLen := PutInteger(encR, r);
    var sLen := PutInteger(encS, s);
    var a, b := encR[..rLen], encS[..sLen];
    sig[0], sig[1] := 0x30, 4 + rLen + sLen;
    assert sig[..2] == [0x30, 4 + rLen + sLen];
    PutElement(sig, 2, a);
    PutElement(sig, 4 + rLen, b);
    len := 6 + rLen + sLen;
    JoinSequence(a, b);
  }

  lemma JoinSequence(a: seq<byte>, b: seq<byte>)
    requires 4 + |a| + |b| < 128
    ensures [0x30, 4 + |a| + |b|] + ([0x02, |a|] + a) + ([0x02, |b|] + b) == Sequence(a, b)
  {
  }

  /** The whole signer: on success the buffer holds a DER signature whose two numbers satisfy the signature equation for
      the first round of the loop that could succeed; the verifier's scalars then add up to that round's nonce. */
  method SignDer(priv: seq<byte>, digest: seq<byte>, attempts: seq<Attempt>, c: Curve, sig: array<byte>) returns (len: Option<nat>)
    requires |priv| == |digest| == 32 && c.Valid() && sig.Length == MAX_SIG_DER
    requires MAX_TRIES <= |attempts| && forall i :: 0 <= i < |attempts| ==> Fits(attempts[i], c.n)
    modifies sig
    ensures len.Some? ==> len.value <= 72 && exists t: nat, r: nat, s: nat ::
      && 0 <= t < MAX_TRIES && SignatureOf(attempts[t], r, s, BeValue(priv), BeValue(digest), c.n)
      && Decode(sig[..len.value]) == Some((r, s))
    ensures len.None? <==> exists t: nat :: 0 <= t <= MAX_TRIES && Fruitless(attempts, t, BeValue(priv), BeValue(digest), c.n)
  {
    hide BeValue;
    hide BeBytes;
    hide Loop;
    hide SignatureOf;
    hide Decode;
    hide Integer;
    hide Sequence;
    hide Passes;
    ghost var d, z := BeValue(priv), BeValue(digest);
    ghost var o := Loop(attempts, 0, d, z, c);
    ghost var t := LoopExact(attempts, 0, d, z, c);
    OneEnd(attempts, t, d, z, c.n);
    var res := Sign(priv, digest, attempts, c);
    if res.Error? {
      return None;
    }
    Fits256(attempts[t], o.r, o.s, d, z, c);
    var n := PutSignature(sig, res.r, res.s);
    DerExact(res.r, res.s, []);
    assert SignatureOf(attempts[t], o.r, o.s, d, z, c.n) && Decode(sig[..n]) == Some((o.r, o.s));
    return Some(n);
  }

  /** The loop gives up at round `t`: every round before failed, and there the nonce fails or the rounds are used up. */
  ghost predicate Fruitless(attempts: seq<Attempt>, t: nat, d: nat, z: nat, n: nat)
    requires n > 0 && MAX_TRIES <= |attempts| && forall i :: 0 <= i < |attempts| ==> Fits(attempts[i], n)
  {
    && t <= MAX_TRIES
    && (forall i :: 0 <= i < t ==> Passes(attempts[i], d, z, n))
    && (t == MAX_TRIES || attempts[t].GenFails?)
  }

  lemma OneEnd(attempts: seq<Attempt>, t: nat, d: nat, z: nat, n: nat)
    requires n > 0 && MAX_TRIES <= |attempts| && forall i :: 0 <= i < |attempts| ==> Fits(attempts[i], n)
    requires t <= MAX_TRIES && (forall i :: 0 <= i < t ==> Passes(attempts[i], d, z, n))
    requires t < MAX_TRIES ==> !Passes(attempts[t], d, z, n)
    ensures (exists u: nat :: 0 <= u <= MAX_TRIES && Fruitless(attempts, u, d, z, n)) <==> t == MAX_TRIES || attempts[t].GenFails?
  {
    if t == MAX_TRIES || attempts[t].GenFails? {
      assert Fruitless(attempts, t, d, z, n);
    }
  }

  /** Both numbers fit the 32 bytes they are written to. */
  lemma Fits256(a: Attempt, r: nat, s: nat, d: nat, z: nat, c: Curve)
    requires c.Valid() && Fits(a, c.n) && SignatureOf(a, r, s, d, z, c.n)
    ensures BeValue(BeBytes(r, 32)) == r && BeValue(BeBytes(s, 32)) == s
  {
    hide BeValue;
    hide BeBytes;
    hide Weight;
    PowIsWeight(LIMBS);
    BeValueOfBytes(r, 32);
    BeValueOfBytes(s, 32);
  }
}
