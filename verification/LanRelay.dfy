/** The LAN server's two packet loops: reading one request from the network, relaying one response from the key. */
module LanRelay {
  import opened Bytes
  import opened HidFraming

  // ----- one request in -----

  /** The continuation that has to come at position `i` of a request of `cid`. */
  predicate Expected(frame: seq<byte>, cid: u32, i: nat) {
    |frame| == REPORT_LEN && CidOf(frame) == cid && !IsInit(frame) && frame[4] == i
  }

  /** How many continuations a first packet announces. */
  function Follows(first: Packet): nat {
    FragmentCount(LengthOf(first)) - 1
  }

  predicate RequestComplete(first: Packet, input: seq<seq<byte>>) {
    && IsInit(first) && LengthOf(first) <= MAX_MSG && Follows(first) <= |input|
    && forall i :: 0 <= i < Follows(first) ==> Expected(input[i], CidOf(first), i)
  }

  /** `readRequest`: accepted exactly when the announced continuations stand at the front of the input in sequence;
      then it takes those and leaves the rest. */
  method ReadRequest(first: Packet, input: seq<seq<byte>>) returns (r: Option<seq<seq<byte>>>)
    ensures r.Some? <==> RequestComplete(first, input)
    ensures r.Some? ==> r.value == [first] + input[..Follows(first)]
  {
    hide CidOf;
    var packets: seq<seq<byte>> := [first];
    if !IsInit(first) {
      return None;
    }
    var expected := LengthOf(first);
    if expected > MAX_MSG {
      return None;
    }
    var remaining := expected - Min(expected, INIT_PAYLOAD);
    var sequence := 0;
    var cid := CidOf(first);
    while remaining > 0
      invariant 0 <= remaining && sequence + (remaining + CONT_PAYLOAD - 1) / CONT_PAYLOAD == Follows(first)
      invariant sequence <= |input| && packets == [first] + input[..sequence]
      invariant forall i :: 0 <= i < sequence ==> Expected(input[i], cid, i)
    {
      if sequence == |input| {
        return None;
      }
      var packet := input[sequence];
      if |packet| != REPORT_LEN || CidOf(packet) != cid || packet[4] >= 0x80 || packet[4] != sequence {
        return None;
      }
      packets := packets + [packet];
      remaining := remaining - Min(remaining, CONT_PAYLOAD);
      sequence := sequence + 1;
    }
    return Some(packets);
  }

  // ----- one response out -----

  datatype Request = Request(cid: u32, cmd: Command, len: nat, nonce: seq<byte>)

  predicate CommandMatches(req: Request, cmd: Command) {
    cmd == req.cmd || cmd == HID_KEEPALIVE || cmd == HID_ERROR
  }

  predicate NonceMatches(req: Request, p: Packet) {
    req.cid != CID_BROADCAST || req.cmd != HID_INIT || CommandOf(p) == HID_ERROR || (req.len >= 8 && p[7..15] == req.nonce)
  }

  predicate Matches(req: Request, p: Packet) {
    CidOf(p) == req.cid && NonceMatches(req, p) && CommandMatches(req, CommandOf(p))
  }

  /** Which message answers a request: on the same channel, of its command, a keepalive or an error; and where two clients can
      share the broadcast channel, an INIT reply only with the very nonce sent. */
  lemma AnswersIff(req: Request, cid: u32, cmd: Command, payload: seq<byte>)
    requires |payload| < 0x1_0000 && |req.nonce| == 8
    ensures var ours := cid == req.cid && (cmd == req.cmd || cmd == 0x3b || cmd == 0x3f);
      var shared := req.cid == 0xffff_ffff && req.cmd == 0x06 && cmd != 0x3f;
      && (!shared ==> (Matches(req, InitPacket(cid, cmd, payload)) <==> ours))
      && (shared && |payload| >= 8 ==>
            (Matches(req, InitPacket(cid, cmd, payload)) <==> ours && req.len >= 8 && payload[..8] == req.nonce))
  {
    hide InitPacket;
    hide CidOf;
    hide LengthOf;
    InitFields(cid, cmd, payload);
    var p, n := InitPacket(cid, cmd, payload), Min(|payload|, INIT_PAYLOAD);
    if |payload| >= 8 {
      assert p[7..15] == p[7..7 + n][..8] == payload[..n][..8] == payload[..8];
    }
  }

  predicate IsKeepalive(p: Packet) {
    IsInit(p) && CommandOf(p) == HID_KEEPALIVE
  }

  /** Between messages, inside a message of `cid` with `next` continuations read of `total`, finished, or given up. */
  datatype Mode = Outer | Body(cid: u32, total: nat, next: nat, matches: bool) | Done | Failed

  /** One packet read from the key: the mode behind it, and whether it is forwarded. */
  function RelayStep(req: Request, mode: Mode, p: Packet): (Mode, bool)
    requires mode.Outer? || mode.Body?
  {
    if mode.Outer? then
      if !IsInit(p) then (Outer, false)
      else if LengthOf(p) > MAX_MSG then (Failed, false)
      else
        var m := Matches(req, p);
        if IsKeepalive(p) then (Outer, m)
        else if Follows(p) == 0 then (if m then Done else Outer, m)
        else (Body(CidOf(p), Follows(p), 0, m), m)
    else if IsInit(p) then (mode, CidOf(p) == req.cid && IsKeepalive(p))
    else if CidOf(p) != mode.cid || p[4] != mode.next then (Failed, false)
    else if mode.next + 1 < mode.total then (mode.(next := mode.next + 1), mode.matches)
    else (if mode.matches then Done else Outer, mode.matches)
  }

  datatype Relayed = Relayed(mode: Mode, out: seq<Packet>, used: nat)

  /** Read from `stream[pos..]` until done, failed, or out of packets. */
  function Relay(req: Request, mode: Mode, stream: seq<Packet>, pos: nat, out: seq<Packet>): (r: Relayed)
    requires pos <= |stream|
    ensures pos <= r.used <= |stream|
    decreases |stream| - pos
  {
    if mode.Done? || mode.Failed? || pos == |stream| then Relayed(mode, out, pos) else
      var (next, forward) := RelayStep(req, mode, stream[pos]);
      Relay(req, next, stream, pos + 1, if forward then out + [stream[pos]] else out)
  }

  /** `relayResponse` in its own loops; running out of packets stands for a failed read. */
  method RelayResponse(req: Request, stream: seq<Packet>) returns (ok: bool, out: seq<Packet>, used: nat)
    ensures Relay(req, Outer, stream, 0, []).out == out && Relay(req, Outer, stream, 0, []).used == used
    ensures ok == Relay(req, Outer, stream, 0, []).mode.Done?
  {
    hide CidOf;
    hide LengthOf;
    hide NonceMatches;
    out, used := [], 0;
    while true
      invariant used <= |stream|
      invariant Relay(req, Outer, stream, 0, []) == Relay(req, Outer, stream, used, out)
      decreases |stream| - used
    {
      if used == |stream| {
        return false, out, used;
      }
      var first := stream[used];
      used := used + 1;
      if !IsInit(first) {
        continue;
      }
      if LengthOf(first) > MAX_MSG {
        return false, out, used;
      }
      var matches := Matches(req, first);
      if matches {
        out := out + [first];
      }
      if IsKeepalive(first) {
        continue;
      }
      var done;
      done, out, used := RelayBody(req, first, matches, stream, used, out);
      if !done {
        return false, out, used;
      }
      if matches {
        return true, out, used;
      }
    }
  }

  /** The continuations of `first`; keepalives of the request's channel pass, other first packets are dropped. */
  method RelayBody(req: Request, first: Packet, matches: bool, stream: seq<Packet>, start: nat, sofar: seq<Packet>)
    returns (done: bool, out: seq<Packet>, used: nat)
    requires start <= |stream| && IsInit(first) && LengthOf(first) <= MAX_MSG
    ensures start <= used <= |stream|
    ensures var mode := if Follows(first) > 0 then Body(CidOf(first), Follows(first), 0, matches) else if matches then Done else Outer;
      var r := Relay(req, mode, stream, start, sofar);
      if done then r == Relay(req, if matches then Done else Outer, stream, used, out)
      else !r.mode.Done? && r.out == out && r.used == used
  {
    hide CidOf;
    hide LengthOf;
    out, used := sofar, start;
    var expected := LengthOf(first);
    var remaining := expected - Min(expected, INIT_PAYLOAD);
    var sequence := 0;
    ghost var entry := Relay(req, if Follows(first) > 0 then Body(CidOf(first), Follows(first), 0, matches)
                                  else if matches then Done else Outer, stream, start, sofar);
    while remaining > 0
      invariant start <= used <= |stream|
      invariant sequence + (remaining + CONT_PAYLOAD - 1) / CONT_PAYLOAD == Follows(first)
      invariant entry == Relay(req, if remaining > 0 then Body(CidOf(first), Follows(first), sequence, matches)
                                    else if matches then Done else Outer, stream, used, out)
      decreases |stream| - used
    {
      if used == |stream| {
        return false, out, used;
      }
      var packet := stream[used];
      used := used + 1;
      if IsInit(packet) {
        if CidOf(packet) == req.cid && CommandOf(packet) == HID_KEEPALIVE {
          out := out + [packet];
        }
        continue;
      }
      if CidOf(packet) != CidOf(first) || packet[4] != sequence {
        return false, out, used;
      }
      if matches {
        out := out + [packet];
      }
      remaining := remaining - Min(remaining, CONT_PAYLOAD);
      sequence := sequence + 1;
    }
    return true, out, used;
  }

  // ----- what is forwarded, for every stream -----

  function NonKeepalive(ps: seq<Packet>): seq<Packet> {
    if ps == [] then [] else NonKeepalive(ps[..|ps| - 1]) + if IsKeepalive(ps[|ps| - 1]) then [] else [ps[|ps| - 1]]
  }

  /** `got` is the front of one response to `req`: its first packet and the continuations 0, 1, ... behind it. */
  predicate ResponseFront(req: Request, got: seq<Packet>) {
    && got != [] && IsInit(got[0]) && Matches(req, got[0]) && !IsKeepalive(got[0]) && LengthOf(got[0]) <= MAX_MSG
    && |got| <= 1 + Follows(got[0])
    && forall i :: 1 <= i < |got| ==> Expected(got[i], req.cid, i - 1)
  }

  predicate FullResponse(req: Request, got: seq<Packet>) {
    ResponseFront(req, got) && |got| == 1 + Follows(got[0])
  }

  ghost predicate RelayInv(req: Request, mode: Mode, out: seq<Packet>) {
    var got := NonKeepalive(out);
    && (forall i :: 0 <= i < |out| ==> CidOf(out[i]) == req.cid)
    && match mode
       case Outer => got == []
       case Body(cid, total, next, true) =>
         next < total && ResponseFront(req, got) && cid == req.cid && total == Follows(got[0]) && |got| == 1 + next
       case Body(_, total, next, false) => next < total && got == []
       case Done => FullResponse(req, got)
       case Failed => got == [] || ResponseFront(req, got)
  }

  lemma Forwarded(out: seq<Packet>, p: Packet)
    ensures NonKeepalive(out + [p]) == if IsKeepalive(p) then NonKeepalive(out) else NonKeepalive(out) + [p]
  {
    assert (out + [p])[..|out|] == out;
  }

  lemma {:induction false} RelaySafe(req: Request, mode: Mode, stream: seq<Packet>, pos: nat, out: seq<Packet>)
    requires pos <= |stream| && RelayInv(req, mode, out)
    ensures var r := Relay(req, mode, stream, pos, out); RelayInv(req, r.mode, r.out)
    decreases |stream| - pos
  {
    hide CidOf;
    hide LengthOf;
    hide NonceMatches;
    hide NonKeepalive;
    if mode.Done? || mode.Failed? || pos == |stream| {
    } else {
      var p := stream[pos];
      var (next, forward) := RelayStep(req, mode, p);
      Forwarded(out, p);
      RelaySafe(req, next, stream, pos + 1, if forward then out + [p] else out);
    }
  }

  /** Whatever the key sends: besides keepalives of the request's channel, nothing is forwarded but the packets of one
      matching response, in order; a successful relay has forwarded all of it, and nothing behind it was read. */
  lemma RelayForwardsOneResponse(req: Request, stream: seq<Packet>)
    ensures var r := Relay(req, Outer, stream, 0, []);
      && (forall i :: 0 <= i < |r.out| ==> CidOf(r.out[i]) == req.cid)
      && (r.mode.Done? ==> FullResponse(req, NonKeepalive(r.out)))
      && (NonKeepalive(r.out) == [] || ResponseFront(req, NonKeepalive(r.out)))
  {
    RelaySafe(req, Outer, stream, 0, []);
  }

  // ----- complete streams -----

  datatype Response = Response(cid: u32, cmd: Command, payload: seq<byte>)

  function PacketsOf(rs: seq<Response>): seq<Packet> {
    if rs == [] then [] else Fragments(rs[0].cid, rs[0].cmd, rs[0].payload) + PacketsOf(rs[1..])
  }

  /** A stale complete message: sized, not a keepalive, and not an answer to `req`. */
  predicate Stale(req: Request, r: Response) {
    |r.payload| <= MAX_MSG && r.cmd != HID_KEEPALIVE && !Matches(req, InitPacket(r.cid, r.cmd, r.payload))
  }

  lemma {:induction false} RelayContinuations(req: Request, cid: u32, number: nat, rest: seq<byte>, total: nat, matches: bool,
                                              stream: seq<Packet>, pos: nat, out: seq<Packet>)
    requires rest != [] && number + (|rest| + CONT_PAYLOAD - 1) / CONT_PAYLOAD == total <= 0x80
    requires pos <= |stream| && Continuations(cid, number, rest) <= stream[pos..]
    ensures var cs := Continuations(cid, number, rest);
      Relay(req, Body(cid, total, number, matches), stream, pos, out)
      == Relay(req, if matches then Done else Outer, stream, pos + |cs|, if matches then out + cs else out)
    decreases |rest|
  {
    hide CidOf;
    hide ContPacket;
    var n := Min(|rest|, CONT_PAYLOAD);
    var p := ContPacket(cid, number, rest[..n]);
    var more := Continuations(cid, number + 1, rest[n..]);
    ContFields(cid, number, rest[..n]);
    assert stream[pos..][0] == p && stream[pos] == p;
    assert more <= stream[pos + 1..] by {
      assert Continuations(cid, number, rest)[1..] == more;
      assert stream[pos..][1..] == stream[pos + 1..];
    }
    if rest[n..] == [] {
      assert out + [p] == out + Continuations(cid, number, rest);
    } else {
      RelayContinuations(req, cid, number + 1, rest[n..], total, matches, stream, pos + 1, if matches then out + [p] else out);
      assert out + [p] + more == out + Continuations(cid, number, rest);
    }
  }

  lemma FirstPacketStep(req: Request, r: Response)
    requires |r.payload| <= MAX_MSG && r.cmd != HID_KEEPALIVE
    ensures var p := InitPacket(r.cid, r.cmd, r.payload); var m := Matches(req, p);
      && CidOf(p) == r.cid && Follows(p) == FragmentCount(|r.payload|) - 1
      && RelayStep(req, Outer, p) ==
           ((if Follows(p) > 0 then Body(r.cid, Follows(p), 0, m) else if m then Done else Outer), m)
  {
    hide CidOf;
    hide LengthOf;
    hide InitPacket;
    hide NonceMatches;
    hide CommandMatches;
    InitFields(r.cid, r.cmd, r.payload);
  }

  /** One complete message at the outer level: forwarded whole or passed over whole. */
  lemma RelayMessage(req: Request, r: Response, stream: seq<Packet>, pos: nat, out: seq<Packet>)
    requires |r.payload| <= MAX_MSG && r.cmd != HID_KEEPALIVE && pos <= |stream|
    requires Fragments(r.cid, r.cmd, r.payload) <= stream[pos..]
    ensures var ps := Fragments(r.cid, r.cmd, r.payload);
      var m := Matches(req, ps[0]);
      Relay(req, Outer, stream, pos, out)
      == Relay(req, if m then Done else Outer, stream, pos + |ps|, if m then out + ps else out)
  {
    hide InitPacket;
    hide Matches;
    hide RelayStep;
    hide Follows;
    hide Continuations;
    FirstPacketStep(req, r);
    var ps := Fragments(r.cid, r.cmd, r.payload);
    var n := Min(|r.payload|, INIT_PAYLOAD);
    var rest := r.payload[n..];
    var cs := Continuations(r.cid, 0, rest);
    assert stream[pos..][0] == ps[0] && stream[pos] == ps[0];
    assert ps[1..] == cs && stream[pos..][1..] == stream[pos + 1..];
    var m := Matches(req, ps[0]);
    if rest == [] {
      NothingFollows(r.cid);
      assert ps == [ps[0]];
    } else {
      RelayContinuations(req, r.cid, 0, rest, Follows(ps[0]), m, stream, pos + 1, if m then out + [ps[0]] else out);
      assert out + [ps[0]] + cs == out + ps;
    }
  }

  lemma NothingFollows(cid: u32)
    ensures Continuations(cid, 0, []) == []
  {
  }

  lemma StaleHead(req: Request, r: Response)
    requires Stale(req, r)
    ensures !Matches(req, Fragments(r.cid, r.cmd, r.payload)[0])
  {
  }

  lemma {:induction false} RelayStale(req: Request, rs: seq<Response>, stream: seq<Packet>, pos: nat, out: seq<Packet>)
    requires pos <= |stream| && PacketsOf(rs) <= stream[pos..] && forall i :: 0 <= i < |rs| ==> Stale(req, rs[i])
    ensures Relay(req, Outer, stream, pos, out) == Relay(req, Outer, stream, pos + |PacketsOf(rs)|, out)
    decreases |rs|
  {
    hide Relay;
    hide Fragments;
    hide InitPacket;
    hide Matches;
    if rs == [] {
    } else {
      StaleHead(req, rs[0]);
      var ps := Fragments(rs[0].cid, rs[0].cmd, rs[0].payload);
      assert PacketsOf(rs)[..|ps|] == ps && PacketsOf(rs)[|ps|..] == PacketsOf(rs[1..]);
      assert stream[pos..][|ps|..] == stream[pos + |ps|..];
      RelayMessage(req, rs[0], stream, pos, out);
      RelayStale(req, rs[1..], stream, pos + |ps|, out);
    }
  }

  /** Any number of complete stale messages, then the answer, then anything: exactly the answer's packets are
      forwarded, the stale ones are consumed, and everything behind the answer is left unread. */
  lemma RelayFindsTheAnswer(req: Request, stale: seq<Response>, answer: Response, tail: seq<Packet>)
    requires forall i :: 0 <= i < |stale| ==> Stale(req, stale[i])
    requires |answer.payload| <= MAX_MSG && answer.cmd != HID_KEEPALIVE
    requires Matches(req, InitPacket(answer.cid, answer.cmd, answer.payload))
    ensures var ps := Fragments(answer.cid, answer.cmd, answer.payload);
      Relay(req, Outer, PacketsOf(stale) + ps + tail, 0, []) == Relayed(Done, ps, |PacketsOf(stale)| + |ps|)
  {
    hide InitPacket;
    hide Matches;
    var ps := Fragments(answer.cid, answer.cmd, answer.payload);
    var before := PacketsOf(stale);
    var stream := before + ps + tail;
    assert stream[0..][..|before|] == before && stream[|before|..] == ps + tail;
    RelayStale(req, stale, stream, 0, []);
    RelayMessage(req, answer, stream, |before|, []);
    assert [] + ps == ps;
  }
}
