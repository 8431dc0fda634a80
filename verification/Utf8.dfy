/** Texts of the companion: well-formed UTF-8 (section 4 of RFC 3629) and decoding with replacement. */
module Utf8 {
  import opened Bytes

  /** U+FFFD. */
  const REPLACEMENT: seq<byte> := [0xef, 0xbf, 0xbd]

  predicate IsCont(b: byte) {
    0x80 <= b < 0xc0
  }

  /** The second byte that may follow a lead byte of a three- or four-byte character. */
  predicate Second(lead: byte, b: byte) {
    if lead == 0xe0 then 0xa0 <= b < 0xc0
    else if lead == 0xed then 0x80 <= b < 0xa0
    else if lead == 0xf0 then 0x90 <= b < 0xc0
    else if lead == 0xf4 then 0x80 <= b < 0x90
    else IsCont(b)
  }

  /** The length of the character at the front, or 0 when there is none. */
  function CharLen(b: seq<byte>): (n: nat)
    ensures n <= |b|
  {
    if b == [] then 0
    else if b[0] < 0x80 then 1
    else if 0xc2 <= b[0] < 0xe0 && |b| >= 2 && IsCont(b[1]) then 2
    else if 0xe0 <= b[0] < 0xf0 && |b| >= 3 && Second(b[0], b[1]) && IsCont(b[2]) then 3
    else if 0xf0 <= b[0] < 0xf5 && |b| >= 4 && Second(b[0], b[1]) && IsCont(b[2]) && IsCont(b[3]) then 4
    else 0
  }

  predicate WellFormed(b: seq<byte>)
    decreases |b|
  {
    b == [] || (CharLen(b) > 0 && WellFormed(b[CharLen(b)..]))
  }

  // ----- decoding -----

  /** How many bytes behind a malformed one the decoder takes into the same replacement; decoders differ in this. */
  type Greed = seq<byte> -> nat

  function ContRun(b: seq<byte>): (n: nat)
    ensures n <= |b|
  {
    if b == [] || !IsCont(b[0]) then 0 else 1 + ContRun(b[1..])
  }

  /** A malformed byte and, at most, the continuation bytes behind it. */
  function Swallowed(b: seq<byte>, greed: Greed): (n: nat)
    requires b != []
    ensures 1 <= n <= |b|
  {
    1 + Min(greed(b), ContRun(b[1..]))
  }

  /** The text the companion makes of the bytes, as the UTF-8 bytes of that text. */
  function Decoded(b: seq<byte>, greed: Greed): seq<byte>
    decreases |b|
  {
    if b == [] then []
    else if CharLen(b) > 0 then b[..CharLen(b)] + Decoded(b[CharLen(b)..], greed)
    else REPLACEMENT + Decoded(b[Swallowed(b, greed)..], greed)
  }

  /** A character is recognized by its own bytes. */
  lemma CharAlone(b: seq<byte>, rest: seq<byte>, n: nat)
    requires n == CharLen(b) > 0
    ensures CharLen(b[..n] + rest) == n
    ensures forall i :: 1 <= i < n ==> IsCont(b[i])
  {
  }

  lemma WellFormedCons(c: seq<byte>, rest: seq<byte>)
    requires c != [] && CharLen(c + rest) == |c| && WellFormed(rest)
    ensures WellFormed(c + rest)
  {
    assert (c + rest)[|c|..] == rest;
  }

  /** A decoded text is well formed, and holds no NUL that was not there. */
  lemma {:induction false} DecodedIsWellFormed(b: seq<byte>, greed: Greed)
    ensures WellFormed(Decoded(b, greed)) && (0 !in b ==> 0 !in Decoded(b, greed))
    decreases |b|
  {
    hide WellFormed;
    hide CharLen;
    if b == [] {
      NoText();
    } else if CharLen(b) > 0 {
      var n := CharLen(b);
      DecodedIsWellFormed(b[n..], greed);
      CharAlone(b, Decoded(b[n..], greed), n);
      WellFormedCons(b[..n], Decoded(b[n..], greed));
    } else {
      var rest := Decoded(b[Swallowed(b, greed)..], greed);
      DecodedIsWellFormed(b[Swallowed(b, greed)..], greed);
      ReplacementIsChar(rest);
      WellFormedCons(REPLACEMENT, rest);
    }
  }

  lemma NoText()
    ensures WellFormed([])
  {
  }

  lemma ReplacementIsChar(rest: seq<byte>)
    ensures CharLen(REPLACEMENT + rest) == 3
  {
  }

  lemma {:induction false} WellFormedIsKept(b: seq<byte>, greed: Greed)
    requires WellFormed(b)
    ensures Decoded(b, greed) == b
    decreases |b|
  {
    if b != [] {
      var n := CharLen(b);
      WellFormedIsKept(b[n..], greed);
      assert b == b[..n] + b[n..];
    }
  }

  /** Decoding and encoding give the bytes back exactly when they are well formed, whatever the decoder's replacement rule. */
  lemma DecodedSameIff(b: seq<byte>, greed: Greed)
    ensures Decoded(b, greed) == b <==> WellFormed(b)
  {
    DecodedIsWellFormed(b, greed);
    if WellFormed(b) {
      WellFormedIsKept(b, greed);
    }
  }

  /** Cutting a well-formed text where no character goes on leaves a well-formed text. */
  lemma {:induction false} CutIsWellFormed(e: seq<byte>, m: nat)
    requires WellFormed(e) && m <= |e| && (0 < m < |e| ==> !IsCont(e[m]))
    ensures WellFormed(e[..m])
    decreases |e|
  {
    if m == 0 {
      assert e[..m] == [];
    } else {
      var n := CharLen(e);
      CharAlone(e, e[n..m], n);
      assert e[n..][..m - n] == e[n..m] && e[..m] == e[..n] + e[n..m];
      CutIsWellFormed(e[n..], m - n);
      WellFormedCons(e[..n], e[n..m]);
    }
  }

  /** The bytes 62 FF 63 turn into "b", U+FFFD, "c" in every decoder. */
  lemma MalformedExample(greed: Greed)
    ensures Decoded([0x62, 0xff, 0x63], greed) == [0x62, 0xef, 0xbf, 0xbd, 0x63]
    ensures !WellFormed([0x62, 0xff, 0x63])
  {
    var b: seq<byte> := [0x62, 0xff, 0x63];
    assert b[1..] == [0xff, 0x63] && b[1..][1..] == [0x63] && [0x63][1..] == [];
    assert Decoded([0x63], greed) == [0x63] + Decoded([], greed);
    assert Decoded([0xff, 0x63], greed) == REPLACEMENT + Decoded([0x63], greed);
    assert CharLen(b) == 1 && b[..1] == [0x62];
    DecodedSameIff(b, greed);
  }
}
