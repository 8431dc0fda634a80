/** The companion's local endpoint: one message written, one response collected from the shared packet stream. */
module Endpoint {
  import opened Bytes
  import opened HidFraming
  import opened LanRelay
  import Channels
  import ChannelRuns
  import ReportQueue

  /** `writeMessage`: the packets handed to the device, in order. */
  method WriteMessage(cid: u32, cmd: Command, payload: seq<byte>) returns (written: seq<Packet>)
    ensures written == Fragments(cid, cmd, payload)
  {
    hide InitPacket;
    hide ContPacket;
    var firstLen := Min(|payload|, INIT_PAYLOAD);
    written := [InitPacket(cid, cmd, payload)];
    var offset := firstLen;
    var number := 0;
    while offset < |payload|
      invariant offset <= |payload|
      invariant Fragments(cid, cmd, payload) == written + Continuations(cid, number, payload[offset..])
    {
      var n := Min(|payload| - offset, CONT_PAYLOAD);
      assert payload[offset..][..n] == payload[offset..offset + n];
      assert payload[offset..][n..] == payload[offset + n..];
      written := written + [ContPacket(cid, number, payload[offset..offset + n])];
      number := number + 1;
      offset := offset + n;
    }
  }

  /** Nothing of the response seen yet, or its announced length and the bytes collected so far. */
  datatype Progress = Waiting | Collecting(expected: nat, response: seq<byte>) | Complete(payload: seq<byte>)

  /** A first packet that does not start the response: another id's, a keepalive, another command, an old nonce. */
  predicate Ignored(req: Request, p: Packet) {
    || CidOf(p) != req.cid
    || (IsInit(p) && (IsKeepalive(p) || (CommandOf(p) != req.cmd && CommandOf(p) != HID_ERROR) || !NonceMatches(req, p)))
  }

  /** Which message the endpoint takes for its response: on its channel, of its command or an error, and with its nonce
      when it asked for a channel. */
  lemma HeardIff(req: Request, cid: u32, cmd: Command, payload: seq<byte>)
    requires |payload| < 0x1_0000 && |req.nonce| == 8 && req.cmd != HID_KEEPALIVE
    ensures var ours := cid == req.cid && (cmd == req.cmd || cmd == 0x3f);
      var shared := req.cid == 0xffff_ffff && req.cmd == 0x06 && cmd != 0x3f;
      && (!shared ==> (!Ignored(req, InitPacket(cid, cmd, payload)) <==> ours))
      && (shared && |payload| >= 8 ==>
            (!Ignored(req, InitPacket(cid, cmd, payload)) <==> ours && req.len >= 8 && payload[..8] == req.nonce))
  {
    hide InitPacket;
    hide CidOf;
    hide LengthOf;
    hide NonceMatches;
    InitFields(cid, cmd, payload);
    AnswersIff(req, cid, cmd, payload);
    NonceAlone(req, InitPacket(cid, cmd, payload));
  }

  lemma NonceAlone(req: Request, p: Packet)
    ensures CidOf(p) == req.cid && CommandMatches(req, CommandOf(p)) ==> (NonceMatches(req, p) <==> Matches(req, p))
  {
  }

  function CollectStep(req: Request, s: Progress, p: Packet): Progress
    requires !s.Complete?
  {
    if Ignored(req, p) then s
    else if IsInit(p) then
      var data := p[7..7 + Min(LengthOf(p), INIT_PAYLOAD)];
      if |data| >= LengthOf(p) then Complete(data) else Collecting(LengthOf(p), data)
    else if s.Waiting? then s
    else
      var data := s.response + p[5..5 + if s.expected >= |s.response| then Min(s.expected - |s.response|, CONT_PAYLOAD) else 0];
      if |data| >= s.expected then Complete(data) else Collecting(s.expected, data)
  }

  function Collect(req: Request, s: Progress, ps: seq<Packet>): Progress
    decreases |ps|
  {
    if s.Complete? || ps == [] then s else Collect(req, CollectStep(req, s, ps[0]), ps[1..])
  }

  /** `transceive` after the write: read until the response is complete; the end of the stream stands for the timeout. */
  method Transceive(req: Request, ps: seq<Packet>) returns (r: Option<seq<byte>>)
    ensures r == (var s := Collect(req, Waiting, ps); if s.Complete? then Some(s.payload) else None)
  {
    hide CidOf;
    hide LengthOf;
    hide NonceMatches;
    var expected := -1;
    var response: seq<byte> := [];
    var i := 0;
    while i < |ps|
      invariant i <= |ps| && -1 <= expected
      invariant expected >= 0 ==> |response| < expected
      invariant Collect(req, Waiting, ps)
             == Collect(req, if expected < 0 then Waiting else Collecting(expected, response), ps[i..])
    {
      var packet := ps[i];
      assert ps[i..][1..] == ps[i + 1..];
      i := i + 1;
      if CidOf(packet) != req.cid {
        continue;
      }
      if IsInit(packet) {
        var command := CommandOf(packet);
        if command == HID_KEEPALIVE || (command != req.cmd && command != HID_ERROR) || !NonceMatches(req, packet) {
          continue;
        }
        expected := LengthOf(packet);
        response := packet[7..7 + Min(expected, INIT_PAYLOAD)];
      } else if expected >= 0 {
        response := response + packet[5..5 + Min(expected - |response|, CONT_PAYLOAD)];
      } else {
        continue;
      }
      if |response| >= expected {
        assert response[..expected] == response;
        return Some(response[..expected]);
      }
    }
    return None;
  }

  /** The packets that matter to the collector. */
  function Relevant(req: Request, ps: seq<Packet>): seq<Packet> {
    if ps == [] then [] else (if Ignored(req, ps[0]) then [] else [ps[0]]) + Relevant(req, ps[1..])
  }

  lemma {:induction false} NoiseIsIgnored(req: Request, s: Progress, ps: seq<Packet>)
    ensures Collect(req, s, ps) == Collect(req, s, Relevant(req, ps))
    decreases |ps|
  {
    hide Ignored;
    if s.Complete? || ps == [] {
    } else {
      NoiseIsIgnored(req, CollectStep(req, s, ps[0]), ps[1..]);
      var rest := Relevant(req, ps[1..]);
      if Ignored(req, ps[0]) {
        assert [] + rest == rest;
      } else {
        assert ([ps[0]] + rest)[1..] == rest;
      }
    }
  }

  lemma {:induction false} CollectContinuations(req: Request, number: nat, done: seq<byte>, rest: seq<byte>, tail: seq<Packet>)
    requires rest != [] && number + (|rest| + CONT_PAYLOAD - 1) / CONT_PAYLOAD <= 0x80
    ensures Collect(req, Collecting(|done| + |rest|, done), Continuations(req.cid, number, rest) + tail) == Complete(done + rest)
    decreases |rest|
  {
    hide ContPacket;
    hide CidOf;
    var n := Min(|rest|, CONT_PAYLOAD);
    var chunk, more := rest[..n], rest[n..];
    ContFields(req.cid, number, chunk);
    var p := ContPacket(req.cid, number, chunk);
    var ps := Continuations(req.cid, number, rest) + tail;
    assert ps[0] == p && ps[1..] == Continuations(req.cid, number + 1, more) + tail;
    if more == [] {
      assert chunk == rest;
    } else {
      CollectContinuations(req, number + 1, done + chunk, more, tail);
      assert done + chunk + more == done + rest;
    }
  }

  /** The answer to `req` is returned whole and unchanged, whatever ignored packets are mixed in before, between and
      behind its fragments. */
  lemma TransceiveReturnsTheAnswer(req: Request, cmd: Command, payload: seq<byte>, ps: seq<Packet>, tail: seq<Packet>)
    requires |payload| <= MAX_MSG && cmd != HID_KEEPALIVE && !Ignored(req, InitPacket(req.cid, cmd, payload))
    requires Relevant(req, ps) == Fragments(req.cid, cmd, payload) + tail
    ensures Collect(req, Waiting, ps) == Complete(payload)
  {
    hide InitPacket;
    hide Ignored;
    hide CidOf;
    hide LengthOf;
    hide Relevant;
    NoiseIsIgnored(req, Waiting, ps);
    InitFields(req.cid, cmd, payload);
    var n := Min(|payload|, INIT_PAYLOAD);
    var all := Fragments(req.cid, cmd, payload) + tail;
    assert all[1..] == Continuations(req.cid, 0, payload[n..]) + tail;
    if payload[n..] == [] {
      assert payload[..n] == payload;
    } else {
      CollectContinuations(req, 0, payload[..n], payload[n..], tail);
      assert payload[..n] + payload[n..] == payload;
    }
  }

  /** There and back: what the companion writes arrives at an idle kernel channel as the same message, and a reply the
      transmit queue can hold comes back as the same bytes. */
  lemma RequestAndReply(cid: u32, cmd: Command, request: seq<byte>, reply: seq<byte>)
    requires |request| <= MAX_MSG && cmd != HID_INIT && cmd != HID_KEEPALIVE && cid != CID_BROADCAST
    requires FragmentCount(|reply|) <= ReportQueue.QUEUE_DEPTH
    ensures ChannelRuns.SoloRun(Channels.Idle, Fragments(cid, cmd, request)).1
         == ChannelRuns.Deliveries(cid, [ChannelRuns.Message(cmd, request)])
    ensures var req := Request(cid, cmd, |request|, []);
      Collect(req, Waiting, ReportQueue.Queue.Accepted(0, Fragments(cid, cmd, reply))) == Complete(reply)
  {
    var ms := [ChannelRuns.Message(cmd, request)];
    ChannelRuns.StreamRun(cid, ms);
    assert ms[1..] == [] && Fragments(cid, cmd, request) + [] == Fragments(cid, cmd, request);
    ReportQueue.SentWholeIff(0, cid, cmd, reply);
    InitFields(cid, cmd, reply);
    var req := Request(cid, cmd, |request|, []);
    var ps := Fragments(cid, cmd, reply);
    AllRelevant(req, 0, reply[Min(|reply|, INIT_PAYLOAD)..]);
    assert ps[1..] == Continuations(cid, 0, reply[Min(|reply|, INIT_PAYLOAD)..]);
    assert ps == ps + [];
    TransceiveReturnsTheAnswer(req, cmd, reply, ps, []);
  }

  lemma {:induction false} AllRelevant(req: Request, number: nat, rest: seq<byte>)
    requires number + (|rest| + CONT_PAYLOAD - 1) / CONT_PAYLOAD <= 0x80
    ensures Relevant(req, Continuations(req.cid, number, rest)) == Continuations(req.cid, number, rest)
    decreases |rest|
  {
    hide ContPacket;
    hide CidOf;
    if rest == [] {
    } else {
      var n := Min(|rest|, CONT_PAYLOAD);
      ContFields(req.cid, number, rest[..n]);
      AllRelevant(req, number + 1, rest[n..]);
      assert Continuations(req.cid, number, rest)[1..] == Continuations(req.cid, number + 1, rest[n..]);
    }
  }
}
