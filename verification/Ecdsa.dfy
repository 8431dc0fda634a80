/** The signing loop of the driver: the signature equation of section 6.4.1 of FIPS 186-5 and what a verifier makes of it. */
module Ecdsa {
  import opened Bytes
  import opened Vli

  /** The order of NIST P-256. */
  const P256_ORDER: nat := 0xFFFFFFFF_00000000_FFFFFFFF_FFFFFFFF_BCE6FAAD_A7179E84_F3B9CAC2_FC632551

  /** The order fits the four limbs with no bit to spare: twice the order does not. */
  lemma OrderFitsLimbs()
    ensures 1 < P256_ORDER < Weight(LIMBS) < 2 * P256_ORDER
  {
    assert Weight(4) == TWO_64 * Weight(3) && Weight(3) == TWO_64 * Weight(2) && Weight(2) == TWO_64 * Weight(1);
    assert Weight(1) == TWO_64 * Weight(0);
  }

  const MAX_TRIES := 16

  /** A group order of at most four limbs and the library's modular inverse. */
  datatype Curve = Curve(n: nat, inv: nat -> nat) {
    ghost predicate Valid() {
      && 1 < n < Weight(LIMBS)
      && forall k :: 0 < k < n ==> inv(k) < n && (k * inv(k)) % n == 1
    }
  }

  /** What one round of the loop draws: a nonce and its public point, or a failure of either library call. */
  datatype Attempt = GenFails | PubFails | Point(k: seq<byte>, xy: seq<byte>)

  predicate Fits(a: Attempt, n: nat) {
    a.Point? ==> |a.k| == 32 && 0 < BeValue(a.k) < n && |a.xy| == 64
  }

  datatype Outcome = Signed(r: nat, s: nat) | NoNonce | Exhausted

  /** One conditional subtraction, as the modular addition does it. */
  function Reduced(sum: nat, n: nat): nat {
    if sum >= n then sum - n else sum
  }

  /** `z + r d`, as the loop computes it. */
  function Total(r: nat, d: nat, z: nat, n: nat): nat
    requires n > 0
  {
    Reduced(z + (r * d) % n, n)
  }

  function Scalar(r: nat, k: nat, d: nat, z: nat, c: Curve): (s: nat)
    requires c.n > 0
    ensures s < c.n
  {
    (c.inv(k) * Total(r, d, z, c.n)) % c.n
  }

  /** The `r` and `s` of one round, unless one of the values the loop checks is zero. */
  function Round(a: Attempt, d: nat, z: nat, c: Curve): Option<(nat, nat)>
    requires c.n > 0 && a.Point? && |a.xy| == 64
  {
    var r := BeValue(a.xy[..32]) % c.n;
    var s := Scalar(r, BeValue(a.k), d, z, c);
    if r == 0 || Total(r, d, z, c.n) == 0 || s == 0 then None else Some((r, s))
  }

  function Loop(attempts: seq<Attempt>, tries: nat, d: nat, z: nat, c: Curve): Outcome
    requires tries <= MAX_TRIES <= |attempts| && c.n > 0 && forall i :: 0 <= i < |attempts| ==> Fits(attempts[i], c.n)
    decreases MAX_TRIES - tries
  {
    if tries == MAX_TRIES then Exhausted else
      match attempts[tries]
      case GenFails => NoNonce
      case PubFails => Loop(attempts, tries + 1, d, z, c)
      case Point(_, _) =>
        assert Fits(attempts[tries], c.n);
        var round := Round(attempts[tries], d, z, c);
        if round.Some? then Signed(round.value.0, round.value.1) else Loop(attempts, tries + 1, d, z, c)
  }

  // ----- congruences -----

  lemma MulMod(a: int, b: int, n: nat)
    requires n > 0
    ensures ((a % n) * b) % n == (a * b) % n
  {
    var q, r := a / n, a % n;
    assert a == n * q + r;
    assert a * b == r * b + n * (q * b);
    ModShift(r * b, q * b, n);
  }

  lemma AddMod(a: int, b: int, n: nat)
    requires n > 0
    ensures (a % n + b) % n == (a + b) % n
  {
    var q, r := a / n, a % n;
    assert a + b == (r + b) + n * q;
    ModShift(r + b, q, n);
  }

  /** Multiplying by a number and by its inverse changes nothing modulo `n`. */
  lemma Cancel(k: nat, i: nat, x: int, n: nat)
    requires n > 1 && (k * i) % n == 1
    ensures (((i * x) % n) * k) % n == x % n
  {
    MulMod(i * x, k, n);
    assert i * x * k == (k * i) * x;
    MulMod(k * i, x, n);
  }

  // ----- the equation -----

  /** A successful round satisfies `s k = z + r d` modulo the order, for every 256-bit digest; a round fails exactly when
      `x` or `z + r d` is a multiple of the order. */
  lemma RoundExact(a: Attempt, d: nat, z: nat, c: Curve)
    requires c.Valid() && a.Point? && Fits(a, c.n)
    ensures var round := Round(a, d, z, c);
      var r := BeValue(a.xy[..32]) % c.n;
      && (round.None? <==> r == 0 || (z + r * d) % c.n == 0)
      && (round.Some? ==>
            && round.value.0 == r && 0 < r < c.n && 0 < round.value.1 < c.n
            && (round.value.1 * BeValue(a.k)) % c.n == (z + r * d) % c.n)
  {
    hide BeValue;
    hide Scalar;
    hide Total;
    ScalarExact(BeValue(a.xy[..32]) % c.n, BeValue(a.k), d, z, c);
  }

  lemma ScalarExact(r: nat, k: nat, d: nat, z: nat, c: Curve)
    requires c.Valid() && 0 < k < c.n
    ensures var s := Scalar(r, k, d, z, c);
      && (s * k) % c.n == (z + r * d) % c.n
      && (s == 0 <==> (z + r * d) % c.n == 0)
      && (Total(r, d, z, c.n) == 0 ==> s == 0)
  {
    hide Reduced;
    ReducedMod(z + (r * d) % c.n, c.n);
    AddMod(r * d, z, c.n);
    Equation(k, c.inv(k), Total(r, d, z, c.n), z + r * d, c.n);
  }

  lemma Equation(k: nat, i: nat, sum: nat, total: nat, n: nat)
    requires n > 1 && (k * i) % n == 1 && sum % n == total % n
    ensures (((i * sum) % n) * k) % n == total % n
    ensures (i * sum) % n == 0 <==> total % n == 0
    ensures sum == 0 ==> (i * sum) % n == 0
  {
    Cancel(k, i, sum, n);
    if sum % n == 0 {
      ZeroMod(i, sum, n);
    }
    if (i * sum) % n == 0 {
      ZeroTimes((i * sum) % n, k, n);
    }
  }

  lemma ZeroTimes(x: nat, k: nat, n: nat)
    requires n > 0 && x == 0
    ensures (x * k) % n == 0
  {
  }

  lemma ReducedMod(sum: nat, n: nat)
    requires n > 0
    ensures Reduced(sum, n) % n == sum % n
  {
    ModShift(sum, -1, n);
  }

  lemma ZeroMod(i: int, x: int, n: nat)
    requires n > 0 && x % n == 0
    ensures (i * x) % n == 0
  {
    var q := x / n;
    assert x == n * q;
    assert i * x == n * (i * q);
    ModShift(0, i * q, n);
  }

  /** The loop ends with the first round that succeeds, if no nonce failed before it and it is among the first sixteen. */
  lemma {:induction false} LoopExact(attempts: seq<Attempt>, tries: nat, d: nat, z: nat, c: Curve) returns (t: nat)
    requires c.Valid() && tries <= MAX_TRIES <= |attempts| && forall i :: 0 <= i < |attempts| ==> Fits(attempts[i], c.n)
    ensures var o := Loop(attempts, tries, d, z, c);
      && tries <= t <= MAX_TRIES
      && (forall i :: tries <= i < t ==> Passes(attempts[i], d, z, c.n))
      && (t < MAX_TRIES ==> !Passes(attempts[t], d, z, c.n))
      && (o.Signed? <==> t < MAX_TRIES && attempts[t].Point? && !Passes(attempts[t], d, z, c.n))
      && (o.NoNonce? <==> t < MAX_TRIES && attempts[t].GenFails?)
      && (o.Exhausted? <==> t == MAX_TRIES)
      && (o.Signed? ==> SignatureOf(attempts[t], o.r, o.s, d, z, c.n))
    decreases MAX_TRIES - tries
  {
    hide Round;
    t := tries;
    if tries < MAX_TRIES {
      var a := attempts[tries];
      assert Fits(a, c.n);
      if a.Point? {
        RoundExact(a, d, z, c);
        if Round(a, d, z, c).None? {
          t := LoopExact(attempts, tries + 1, d, z, c);
        }
      } else if a.PubFails? {
        t := LoopExact(attempts, tries + 1, d, z, c);
      }
    }
  }

  /** A round the loop goes past. */
  predicate Passes(a: Attempt, d: nat, z: nat, n: nat)
    requires n > 0 && Fits(a, n)
  {
    a.PubFails? || (a.Point? && (BeValue(a.xy[..32]) % n == 0 || (z + BeValue(a.xy[..32]) % n * d) % n == 0))
  }

  /** The signature equation for the nonce and point of one round. */
  predicate SignatureOf(a: Attempt, r: nat, s: nat, d: nat, z: nat, n: nat)
    requires n > 0 && Fits(a, n)
  {
    && a.Point? && r == BeValue(a.xy[..32]) % n
    && 0 < r < n && 0 < s < n && (s * BeValue(a.k)) % n == (z + r * d) % n
  }

  /** What a verifier computes from the signature: with `w` the inverse of `s`, the scalars `z w` and `r w` on the base point
      and on the public key `d G` add up to the nonce, so it finds the signer's own point and accepts `r`. */
  lemma VerifierFindsNonce(a: Attempt, r: nat, s: nat, d: nat, z: nat, c: Curve)
    requires c.Valid() && Fits(a, c.n) && SignatureOf(a, r, s, d, z, c.n)
    ensures var w := c.inv(s); var u1, u2 := (z * w) % c.n, (r * w) % c.n;
      (u1 + u2 * d) % c.n == BeValue(a.k)
  {
    hide BeValue;
    var n, k, w := c.n, BeValue(a.k), c.inv(s);
    var u1, u2 := (z * w) % n, (r * w) % n;
    SumOfScalars(z, r, d, w, n);
    Scaled(s * k, z + r * d, w, n);
    Regroup(s, k, w, n);
  }

  lemma SumOfScalars(z: nat, r: nat, d: nat, w: nat, n: nat)
    requires n > 0
    ensures ((z * w) % n + ((r * w) % n) * d) % n == ((z + r * d) * w) % n
  {
    var u2 := (r * w) % n;
    AddMod(z * w, u2 * d, n);
    MulMod(r * w, d, n);
    AddMod(u2 * d, z * w, n);
    AddMod(r * w * d, z * w, n);
    assert r * w * d + z * w == (z + r * d) * w;
  }

  lemma Scaled(a: nat, b: nat, w: nat, n: nat)
    requires n > 0 && a % n == b % n
    ensures (a * w) % n == (b * w) % n
  {
    MulMod(a, w, n);
    MulMod(b, w, n);
  }

  lemma Regroup(s: nat, k: nat, w: nat, n: nat)
    requires n > 1 && (s * w) % n == 1 && k < n
    ensures (s * k * w) % n == k
  {
    assert s * k * w == (s * w) * k;
    MulMod(s * w, k, n);
  }
}
