/** CTAPHID framing (CTAP 2.1 section 11.2.4): a message as one initialization packet and its continuations. */
module HidFraming {
  import opened Bytes

  const REPORT_LEN := 64
  const INIT_PAYLOAD := 57
  const CONT_PAYLOAD := 59
  const MAX_MSG := 2048
  const CID_BROADCAST := 0xffff_ffff

  const HID_PING := 0x01
  const HID_INIT := 0x06
  const HID_CBOR := 0x10
  const HID_CANCEL := 0x11
  const HID_KEEPALIVE := 0x3b
  const HID_ERROR := 0x3f

  type Command = c: byte | c < 0x80
  type Packet = p: seq<byte> | |p| == REPORT_LEN witness seq(REPORT_LEN, _ => 0)

  /** Zero-fill to a full report. */
  function Padded(s: seq<byte>): (p: Packet)
    requires |s| <= REPORT_LEN
    ensures p[..|s|] == s
  {
    s + Zeros(REPORT_LEN - |s|)
  }

  function InitPacket(cid: u32, cmd: Command, payload: seq<byte>): Packet {
    Padded(BeBytes(cid, 4) + [cmd + 0x80] + BeBytes(|payload|, 2) + payload[..Min(|payload|, INIT_PAYLOAD)])
  }

  /** A continuation carries the low byte of its number in place of the command. */
  function ContPacket(cid: u32, number: nat, chunk: seq<byte>): Packet
    requires |chunk| <= CONT_PAYLOAD
  {
    Padded(BeBytes(cid, 4) + [number % 256] + chunk)
  }

  function Continuations(cid: u32, number: nat, rest: seq<byte>): seq<Packet>
    decreases |rest|
  {
    if rest == [] then [] else
      var n := Min(|rest|, CONT_PAYLOAD);
      [ContPacket(cid, number, rest[..n])] + Continuations(cid, number + 1, rest[n..])
  }

  function Fragments(cid: u32, cmd: Command, payload: seq<byte>): (ps: seq<Packet>)
    ensures |ps| > 0
  {
    [InitPacket(cid, cmd, payload)] + Continuations(cid, 0, payload[Min(|payload|, INIT_PAYLOAD)..])
  }

  function FragmentCount(len: nat): nat {
    1 + if len <= INIT_PAYLOAD then 0 else (len - INIT_PAYLOAD + CONT_PAYLOAD - 1) / CONT_PAYLOAD
  }

  // ----- packet fields -----

  function CidOf(p: Packet): (cid: u32) {
    BeBytesOfValue(p[..4]);
    Pow256Small();
    BeValue(p[..4])
  }

  predicate IsInit(p: Packet) {
    p[4] >= 0x80
  }

  function CommandOf(p: Packet): Command {
    p[4] % 0x80
  }

  function LengthOf(p: Packet): (n: nat)
    ensures n < 0x1_0000
  {
    BeBytesOfValue(p[5..7]);
    Pow256Small();
    BeValue(p[5..7])
  }

  lemma InitFields(cid: u32, cmd: Command, payload: seq<byte>)
    requires |payload| < 0x1_0000
    ensures var p := InitPacket(cid, cmd, payload);
      && CidOf(p) == cid && IsInit(p) && CommandOf(p) == cmd && LengthOf(p) == |payload|
      && p[7..7 + Min(|payload|, INIT_PAYLOAD)] == payload[..Min(|payload|, INIT_PAYLOAD)]
  {
    Pow256Small();
    var chunk := payload[..Min(|payload|, INIT_PAYLOAD)];
    var body := BeBytes(cid, 4) + [cmd + 0x80] + BeBytes(|payload|, 2) + chunk;
    var p := InitPacket(cid, cmd, payload);
    assert p == Padded(body) && p[..|body|] == body;
    BeValueOfBytes(cid, 4);
    BeValueOfBytes(|payload|, 2);
    assert p[..4] == body[..4] == BeBytes(cid, 4);
    assert p[5..7] == body[5..7] == BeBytes(|payload|, 2);
    assert p[7..7 + |chunk|] == body[7..] == chunk;
    assert p[4] == body[4];
  }

  lemma ContFields(cid: u32, number: nat, chunk: seq<byte>)
    requires |chunk| <= CONT_PAYLOAD && number < 0x80
    ensures var p := ContPacket(cid, number, chunk);
      CidOf(p) == cid && !IsInit(p) && p[4] == number && p[5..5 + |chunk|] == chunk
  {
    Pow256Small();
    var body := BeBytes(cid, 4) + [number % 256] + chunk;
    var p := ContPacket(cid, number, chunk);
    assert p == Padded(body) && p[..|body|] == body;
    BeValueOfBytes(cid, 4);
    assert p[..4] == body[..4] == BeBytes(cid, 4);
    assert p[5..5 + |chunk|] == body[5..] == chunk;
    assert p[4] == body[4];
  }

  lemma {:induction false} ContinuationCount(cid: u32, number: nat, rest: seq<byte>)
    ensures |Continuations(cid, number, rest)| == (|rest| + CONT_PAYLOAD - 1) / CONT_PAYLOAD
    decreases |rest|
  {
    if rest == [] {
    } else {
      var n := Min(|rest|, CONT_PAYLOAD);
      ContinuationCount(cid, number + 1, rest[n..]);
    }
  }

  lemma FragmentsCounted(cid: u32, cmd: Command, payload: seq<byte>)
    ensures |Fragments(cid, cmd, payload)| == FragmentCount(|payload|)
  {
    ContinuationCount(cid, 0, payload[Min(|payload|, INIT_PAYLOAD)..]);
  }
}
