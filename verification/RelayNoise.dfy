/** The LAN relay in the middle of everything else the key sends: keepalives, stray continuations and foreign first packets. */
module RelayNoise {
  import opened Bytes
  import opened HidFraming
  import opened LanRelay

  /** The packets that belong to messages. With no message open only a first packet that is no keepalive counts, and it
      opens one; with `left` continuations to come, only continuations count. The rest is noise. */
  function Messages(left: nat, ps: seq<Packet>): seq<Packet>
    decreases |ps|
  {
    if ps == [] then [] else
      (if Noise(left, ps[0]) then [] else [ps[0]]) + Messages(LeftAfter(left, ps[0]), ps[1..])
  }

  /** The continuations still to come behind `p`. */
  function LeftAfter(left: nat, p: Packet): nat {
    if Noise(left, p) then left else if left > 0 then left - 1 else Follows(p)
  }

  predicate Noise(left: nat, p: Packet) {
    if left > 0 then IsInit(p) else !IsInit(p) || IsKeepalive(p)
  }

  /** The keepalives that concern the request's channel: all of them inside messages; between messages, for a broadcast
      INIT, those with its nonce. */
  function Beats(req: Request, left: nat, ps: seq<Packet>): seq<Packet>
    decreases |ps|
  {
    if ps == [] then [] else
      (if Beat(req, left, ps[0]) then [ps[0]] else []) + Beats(req, LeftAfter(left, ps[0]), ps[1..])
  }

  predicate Beat(req: Request, left: nat, p: Packet) {
    IsKeepalive(p) && CidOf(p) == req.cid && (left > 0 || NonceMatches(req, p))
  }

  function KeepalivesIn(ps: seq<Packet>): seq<Packet> {
    if ps == [] then [] else KeepalivesIn(ps[..|ps| - 1]) + if IsKeepalive(ps[|ps| - 1]) then [ps[|ps| - 1]] else []
  }

  lemma KeptBeat(out: seq<Packet>, p: Packet)
    ensures KeepalivesIn(out + [p]) == if IsKeepalive(p) then KeepalivesIn(out) + [p] else KeepalivesIn(out)
  {
    assert (out + [p])[..|out|] == out;
  }

  /** No keepalive announces more than a message may hold; the relay would give up on one. */
  predicate SoundBeats(ps: seq<Packet>) {
    forall i :: 0 <= i < |ps| && IsKeepalive(ps[i]) ==> LengthOf(ps[i]) <= MAX_MSG
  }

  function Left(mode: Mode): nat {
    if mode.Body? && mode.next < mode.total then mode.total - mode.next else 0
  }

  predicate Sensible(mode: Mode) {
    mode.Body? ==> mode.next < mode.total
  }

  lemma StepLeft(req: Request, mode: Mode, p: Packet)
    requires (mode.Outer? || mode.Body?) && Sensible(mode) && (IsKeepalive(p) ==> LengthOf(p) <= MAX_MSG)
    ensures var (next, forward) := RelayStep(req, mode, p);
      && Sensible(next)
      && (Beat(req, Left(mode), p) || IsKeepalive(p) ==> Noise(Left(mode), p))
      && (Noise(Left(mode), p) ==> next == mode && (forward <==> Beat(req, Left(mode), p)) && (forward ==> IsKeepalive(p)))
      && (next.Outer? || next.Body? ==> Left(next) == LeftAfter(Left(mode), p))
  {
    hide CidOf;
    hide LengthOf;
    hide NonceMatches;
  }

  lemma ReadOne(req: Request, left: nat, stream: seq<Packet>, pos: nat, used: nat)
    requires pos < used <= |stream|
    ensures var p := stream[pos];
      && Messages(left, stream[pos..used])
         == (if Noise(left, p) then [] else [p]) + Messages(LeftAfter(left, p), stream[pos + 1..used])
      && Beats(req, left, stream[pos..used])
         == (if Beat(req, left, p) then [p] else []) + Beats(req, LeftAfter(left, p), stream[pos + 1..used])
  {
    hide Noise;
    hide Beat;
    hide LeftAfter;
    var read := stream[pos..used];
    assert read[0] == stream[pos] && read[1..] == stream[pos + 1..used];
  }

  lemma ReadNoise(req: Request, left: nat, stream: seq<Packet>, pos: nat, used: nat)
    requires pos < used <= |stream| && Noise(left, stream[pos])
    ensures Messages(left, stream[pos..used]) == Messages(left, stream[pos + 1..used])
    ensures Beats(req, left, stream[pos..used])
         == (if Beat(req, left, stream[pos]) then [stream[pos]] else []) + Beats(req, left, stream[pos + 1..used])
  {
    hide Messages;
    hide Beats;
    hide Beat;
    ReadOne(req, left, stream, pos, used);
    assert [] + Messages(left, stream[pos + 1..used]) == Messages(left, stream[pos + 1..used]);
  }

  lemma RelayOne(req: Request, mode: Mode, stream: seq<Packet>, pos: nat, out: seq<Packet>)
    requires pos < |stream| && (mode.Outer? || mode.Body?)
    ensures var (next, forward) := RelayStep(req, mode, stream[pos]);
      Relay(req, mode, stream, pos, out) == Relay(req, next, stream, pos + 1, if forward then out + [stream[pos]] else out)
  {
    hide RelayStep;
  }

  lemma RelayEnd(req: Request, mode: Mode, stream: seq<Packet>, pos: nat, out: seq<Packet>)
    requires pos <= |stream| && (mode.Done? || mode.Failed? || pos == |stream|)
    ensures Relay(req, mode, stream, pos, out) == Relayed(mode, out, pos)
  {
  }

  lemma FrontOf(ps: seq<Packet>, i: nat, j: nat)
    requires i < j <= |ps|
    ensures ps[i..j] == [ps[i]] + ps[i + 1..j]
  {
  }

  lemma ReadNone(req: Request, left: nat)
    ensures Messages(left, []) == [] && Beats(req, left, []) == []
  {
  }

  /** Relaying a stream and relaying its message packets alone end the same way: same mode, same message packets out, and
      all that was read besides is noise, of which exactly the channel's keepalives were forwarded. */
  ghost predicate Transparent(req: Request, mode: Mode, stream: seq<Packet>, pos: nat, out: seq<Packet>, core: seq<Packet>, c: nat)
    requires pos <= |stream| && c <= |core|
  {
    var r, k := Relay(req, mode, stream, pos, out), Relay(req, mode, core, c, NonKeepalive(out));
    && r.mode == k.mode && NonKeepalive(r.out) == k.out
    && Messages(Left(mode), stream[pos..r.used]) == core[c..k.used]
    && KeepalivesIn(r.out) == KeepalivesIn(out) + Beats(req, Left(mode), stream[pos..r.used])
    && (r.mode.Done? && !mode.Done? ==> pos < r.used && c < k.used && stream[r.used - 1] == core[k.used - 1])
  }

  lemma SkipNoise(req: Request, mode: Mode, stream: seq<Packet>, pos: nat, out: seq<Packet>, core: seq<Packet>, c: nat)
    requires pos < |stream| && c <= |core| && (mode.Outer? || mode.Body?) && Sensible(mode)
    requires IsKeepalive(stream[pos]) ==> LengthOf(stream[pos]) <= MAX_MSG
    requires Noise(Left(mode), stream[pos])
    requires Transparent(req, mode, stream, pos + 1, if RelayStep(req, mode, stream[pos]).1 then out + [stream[pos]] else out, core, c)
    ensures Transparent(req, mode, stream, pos, out, core, c)
  {
    hide NonKeepalive;
    hide KeepalivesIn;
    hide RelayStep;
    hide Beat;
    hide Left;
    hide Messages;
    hide Beats;
    hide Relay;
    hide IsKeepalive;
    hide Sensible;
    hide LengthOf;
    hide Noise;
    hide LeftAfter;
    var p := stream[pos];
    StepLeft(req, mode, p);
    Forwarded(out, p);
    KeptBeat(out, p);
    RelayOne(req, mode, stream, pos, out);
    ReadNoise(req, Left(mode), stream, pos, Relay(req, mode, stream, pos, out).used);
  }

  lemma ReadMessage(req: Request, left: nat, stream: seq<Packet>, pos: nat, used: nat, core: seq<Packet>, c: nat, end: nat)
    requires pos < used <= |stream| && c < end <= |core| && !Noise(left, stream[pos]) && core[c] == stream[pos]
    requires !Beat(req, left, stream[pos])
    requires Messages(LeftAfter(left, stream[pos]), stream[pos + 1..used]) == core[c + 1..end]
    ensures Messages(left, stream[pos..used]) == core[c..end]
    ensures Beats(req, left, stream[pos..used]) == Beats(req, LeftAfter(left, stream[pos]), stream[pos + 1..used])
  {
    hide Messages;
    hide Beats;
    hide Beat;
    hide Noise;
    hide LeftAfter;
    ReadOne(req, left, stream, pos, used);
    FrontOf(core, c, end);
    var more := Beats(req, LeftAfter(left, stream[pos]), stream[pos + 1..used]);
    assert [] + more == more;
  }

  /** A message packet that ends the relay. */
  lemma TakeLast(req: Request, mode: Mode, stream: seq<Packet>, pos: nat, out: seq<Packet>, core: seq<Packet>, c: nat)
    requires pos < |stream| && c < |core| && (mode.Outer? || mode.Body?) && Sensible(mode)
    requires IsKeepalive(stream[pos]) ==> LengthOf(stream[pos]) <= MAX_MSG
    requires !Noise(Left(mode), stream[pos]) && core[c] == stream[pos]
    requires var next := RelayStep(req, mode, stream[pos]).0; next.Done? || next.Failed?
    ensures Transparent(req, mode, stream, pos, out, core, c)
  {
    hide NonKeepalive;
    hide KeepalivesIn;
    hide RelayStep;
    hide Beat;
    hide Left;
    hide LeftAfter;
    hide Messages;
    hide Beats;
    hide Relay;
    hide IsKeepalive;
    hide Sensible;
    hide LengthOf;
    hide Noise;
    var p := stream[pos];
    var (next, forward) := RelayStep(req, mode, p);
    var more := if forward then out + [p] else out;
    StepLeft(req, mode, p);
    Forwarded(out, p);
    KeptBeat(out, p);
    RelayOne(req, mode, stream, pos, out);
    RelayOne(req, mode, core, c, NonKeepalive(out));
    RelayEnd(req, next, stream, pos + 1, more);
    RelayEnd(req, next, core, c + 1, NonKeepalive(more));
    assert stream[pos + 1..pos + 1] == [] && core[c + 1..c + 1] == [];
    ReadNone(req, LeftAfter(Left(mode), p));
    ReadMessage(req, Left(mode), stream, pos, pos + 1, core, c, c + 1);
  }

  /** A message packet behind which the relay goes on. */
  lemma TakeMessage(req: Request, mode: Mode, stream: seq<Packet>, pos: nat, out: seq<Packet>, core: seq<Packet>, c: nat)
    requires pos < |stream| && c < |core| && (mode.Outer? || mode.Body?) && Sensible(mode)
    requires IsKeepalive(stream[pos]) ==> LengthOf(stream[pos]) <= MAX_MSG
    requires !Noise(Left(mode), stream[pos]) && core[c] == stream[pos]
    requires var (next, forward) := RelayStep(req, mode, stream[pos]);
      && (next.Outer? || next.Body?)
      && Transparent(req, next, stream, pos + 1, if forward then out + [stream[pos]] else out, core, c + 1)
    ensures Transparent(req, mode, stream, pos, out, core, c)
  {
    hide NonKeepalive;
    hide KeepalivesIn;
    hide RelayStep;
    hide Beat;
    hide Left;
    hide LeftAfter;
    hide Messages;
    hide Beats;
    hide Relay;
    hide IsKeepalive;
    hide Sensible;
    hide LengthOf;
    hide Noise;
    var p := stream[pos];
    StepLeft(req, mode, p);
    Forwarded(out, p);
    KeptBeat(out, p);
    RelayOne(req, mode, stream, pos, out);
    RelayOne(req, mode, core, c, NonKeepalive(out));
    var r, k := Relay(req, mode, stream, pos, out), Relay(req, mode, core, c, NonKeepalive(out));
    ReadMessage(req, Left(mode), stream, pos, r.used, core, c, k.used);
  }

  lemma {:induction false} NoiseIsTransparent(req: Request, mode: Mode, stream: seq<Packet>, pos: nat, out: seq<Packet>,
                                              core: seq<Packet>, c: nat)
    requires pos <= |stream| && c <= |core| && Sensible(mode) && SoundBeats(stream)
    requires mode.Outer? || mode.Body? ==> core[c..] == Messages(Left(mode), stream[pos..])
    ensures Transparent(req, mode, stream, pos, out, core, c)
    decreases |stream| - pos
  {
    hide NonKeepalive;
    hide KeepalivesIn;
    hide RelayStep;
    hide Noise;
    hide Left;
    hide Messages;
    hide Beats;
    hide Relay;
    hide Sensible;
    hide LengthOf;
    ReadNone(req, Left(mode));
    if mode.Done? || mode.Failed? || pos == |stream| {
      assert stream[pos..pos] == [] && core[c..c] == [] && stream[|stream|..] == [];
      RelayEnd(req, mode, stream, pos, out);
      RelayEnd(req, mode, core, c, NonKeepalive(out));
    } else {
      hide Transparent;
      var p, left := stream[pos], Left(mode);
      var (next, forward) := RelayStep(req, mode, p);
      var more := if forward then out + [p] else out;
      StepLeft(req, mode, p);
      ReadOne(req, left, stream, pos, |stream|);
      assert stream[pos..|stream|] == stream[pos..] && stream[pos + 1..|stream|] == stream[pos + 1..];
      if Noise(left, p) {
        assert [] + Messages(LeftAfter(left, p), stream[pos + 1..]) == Messages(LeftAfter(left, p), stream[pos + 1..]);
        NoiseIsTransparent(req, next, stream, pos + 1, more, core, c);
        SkipNoise(req, mode, stream, pos, out, core, c);
      } else {
        assert core[c..][0] == p && core[c..][1..] == core[c + 1..];
        if next.Done? || next.Failed? {
          TakeLast(req, mode, stream, pos, out, core, c);
        } else {
          NoiseIsTransparent(req, next, stream, pos + 1, more, core, c + 1);
          TakeMessage(req, mode, stream, pos, out, core, c);
        }
      }
    }
  }

  // ----- the answer is found -----

  /** Whatever noise is woven into the stream: once its message packets are those of any number of stale messages and then of
      the answer, the relay succeeds; it forwards exactly the answer's packets, in order, and with them exactly the
      keepalives of the request's channel that it read; it stops at the answer's last packet. */
  lemma RelayFindsTheAnswerInNoise(req: Request, stream: seq<Packet>, stale: seq<Response>, answer: Response, rest: seq<Packet>)
    requires forall i :: 0 <= i < |stale| ==> Stale(req, stale[i])
    requires |answer.payload| <= MAX_MSG && answer.cmd != HID_KEEPALIVE
    requires Matches(req, InitPacket(answer.cid, answer.cmd, answer.payload))
    requires SoundBeats(stream)
    requires Messages(0, stream) == PacketsOf(stale) + Fragments(answer.cid, answer.cmd, answer.payload) + rest
    ensures var r := Relay(req, Outer, stream, 0, []);
      var ps := Fragments(answer.cid, answer.cmd, answer.payload);
      && r.mode == Done && NonKeepalive(r.out) == ps
      && KeepalivesIn(r.out) == Beats(req, 0, stream[..r.used])
      && Messages(0, stream[..r.used]) == PacketsOf(stale) + ps
      && 0 < r.used && stream[r.used - 1] == ps[|ps| - 1]
  {
    hide Matches;
    hide InitPacket;
    hide Fragments;
    hide PacketsOf;
    hide Messages;
    hide Beats;
    hide Relay;
    var core := Messages(0, stream);
    var ps := Fragments(answer.cid, answer.cmd, answer.payload);
    assert core[0..] == core && stream[0..] == stream;
    NoiseIsTransparent(req, Outer, stream, 0, [], core, 0);
    RelayFindsTheAnswer(req, stale, answer, rest);
    var r := Relay(req, Outer, stream, 0, []);
    assert stream[0..r.used] == stream[..r.used];
    assert core[0..|PacketsOf(stale)| + |ps|] == PacketsOf(stale) + ps;
    assert [] + Beats(req, 0, stream[..r.used]) == Beats(req, 0, stream[..r.used]);
  }

  // ----- keepalives alone -----

  lemma {:induction false} NonKeepaliveCons(p: Packet, ps: seq<Packet>)
    ensures NonKeepalive([p] + ps) == (if IsKeepalive(p) then [] else [p]) + NonKeepalive(ps)
    decreases |ps|
  {
    if ps == [] {
      assert [p] + ps == [] + [p];
      Forwarded([], p);
    } else {
      var n := |ps| - 1;
      assert [p] + ps == ([p] + ps[..n]) + [ps[n]] && ps == ps[..n] + [ps[n]];
      NonKeepaliveCons(p, ps[..n]);
      Forwarded([p] + ps[..n], ps[n]);
      Forwarded(ps[..n], ps[n]);
    }
  }

  /** Keepalives never count as message packets. */
  lemma {:induction false} KeepalivesAreNoise(left: nat, ps: seq<Packet>)
    ensures Messages(left, ps) == Messages(left, NonKeepalive(ps))
    decreases |ps|
  {
    hide NonKeepalive;
    hide LengthOf;
    if ps == [] {
      NoKeepalives();
    } else {
      var p, more := ps[0], ps[1..];
      assert ps == [p] + more;
      NonKeepaliveCons(p, more);
      KeepalivesAreNoise(LeftAfter(left, p), more);
      if IsKeepalive(p) {
        assert [] + NonKeepalive(more) == NonKeepalive(more);
      } else {
        assert ([p] + NonKeepalive(more))[1..] == NonKeepalive(more);
      }
    }
  }

  lemma NoKeepalives()
    ensures NonKeepalive([]) == []
  {
  }

  /** Complete messages without noise are read as they are. */
  lemma {:induction false} PlainContinuations(cid: u32, number: nat, rest: seq<byte>, left: nat, more: seq<Packet>)
    requires left == (|rest| + CONT_PAYLOAD - 1) / CONT_PAYLOAD && number + left <= 0x80
    ensures Messages(left, Continuations(cid, number, rest) + more) == Continuations(cid, number, rest) + Messages(0, more)
    decreases |rest|
  {
    hide ContPacket;
    if rest == [] {
      assert Continuations(cid, number, rest) + more == more;
    } else {
      var n := Min(|rest|, CONT_PAYLOAD);
      ContFields(cid, number, rest[..n]);
      PlainContinuations(cid, number + 1, rest[n..], left - 1, more);
      var p, cs := ContPacket(cid, number, rest[..n]), Continuations(cid, number + 1, rest[n..]);
      assert (([p] + cs) + more)[1..] == cs + more;
    }
  }

  lemma PlainMessage(r: Response, more: seq<Packet>)
    requires |r.payload| <= MAX_MSG && r.cmd != HID_KEEPALIVE
    ensures Messages(0, Fragments(r.cid, r.cmd, r.payload) + more) == Fragments(r.cid, r.cmd, r.payload) + Messages(0, more)
  {
    hide InitPacket;
    hide LengthOf;
    hide Messages;
    hide Continuations;
    InitFields(r.cid, r.cmd, r.payload);
    var p := InitPacket(r.cid, r.cmd, r.payload);
    var rest := r.payload[Min(|r.payload|, INIT_PAYLOAD)..];
    var cs := Continuations(r.cid, 0, rest);
    assert Fragments(r.cid, r.cmd, r.payload) + more == [p] + (cs + more);
    MessagesCons(0, p, cs + more);
    PlainContinuations(r.cid, 0, rest, Follows(p), more);
    assert [p] + (cs + Messages(0, more)) == ([p] + cs) + Messages(0, more);
  }

  lemma MessagesCons(left: nat, p: Packet, ps: seq<Packet>)
    ensures Messages(left, [p] + ps) == (if Noise(left, p) then [] else [p]) + Messages(LeftAfter(left, p), ps)
  {
    hide Noise;
    hide LeftAfter;
    assert ([p] + ps)[1..] == ps;
  }

  lemma {:induction false} PlainMessages(rs: seq<Response>, more: seq<Packet>)
    requires forall i :: 0 <= i < |rs| ==> |rs[i].payload| <= MAX_MSG && rs[i].cmd != HID_KEEPALIVE
    ensures Messages(0, PacketsOf(rs) + more) == PacketsOf(rs) + Messages(0, more)
    decreases |rs|
  {
    hide Messages;
    hide Fragments;
    if rs == [] {
      assert PacketsOf(rs) + more == more;
    } else {
      var ps := Fragments(rs[0].cid, rs[0].cmd, rs[0].payload);
      assert PacketsOf(rs) + more == ps + (PacketsOf(rs[1..]) + more);
      PlainMessage(rs[0], PacketsOf(rs[1..]) + more);
      PlainMessages(rs[1..], more);
    }
  }

  lemma {:induction false} MessagesAreFew(left: nat, ps: seq<Packet>)
    ensures |Messages(left, ps)| <= |NonKeepalive(ps)|
    decreases |ps|
  {
    hide NonKeepalive;
    hide LengthOf;
    if ps != [] {
      assert ps == [ps[0]] + ps[1..];
      NonKeepaliveCons(ps[0], ps[1..]);
      MessagesAreFew(LeftAfter(left, ps[0]), ps[1..]);
    }
  }

  lemma {:induction false} NonKeepaliveSplit(a: seq<Packet>, b: seq<Packet>)
    ensures NonKeepalive(a + b) == NonKeepalive(a) + NonKeepalive(b)
    decreases |b|
  {
    if b == [] {
      assert a + b == a;
      NoKeepalives();
    } else {
      var n := |b| - 1;
      NonKeepaliveSplit(a, b[..n]);
      assert a + b == (a + b[..n]) + [b[n]] && b == b[..n] + [b[n]];
      Forwarded(a + b[..n], b[n]);
      Forwarded(b[..n], b[n]);
    }
  }

  /** A relay that is done has not looked at what comes later. */
  lemma {:induction false} LaterIsUnread(req: Request, mode: Mode, front: seq<Packet>, tail: seq<Packet>, pos: nat, out: seq<Packet>)
    requires pos <= |front| && Relay(req, mode, front, pos, out).mode.Done?
    ensures Relay(req, mode, front + tail, pos, out) == Relay(req, mode, front, pos, out)
    decreases |front| - pos
  {
    hide RelayStep;
    if !mode.Done? && !mode.Failed? && pos < |front| {
      var (next, forward) := RelayStep(req, mode, front[pos]);
      LaterIsUnread(req, next, front, tail, pos + 1, if forward then out + [front[pos]] else out);
    }
  }

  lemma ReadToTheEnd(front: seq<Packet>, used: nat)
    requires used <= |front| && front != [] && !IsKeepalive(front[|front| - 1])
    requires |NonKeepalive(front)| <= |Messages(0, front[..used])|
    ensures used == |front|
  {
    hide NonKeepalive;
    hide Messages;
    MessagesAreFew(0, front[..used]);
    NonKeepaliveSplit(front[..used], front[used..]);
    assert front == front[..used] + front[used..];
    if used < |front| {
      var n := |front| - 1;
      assert front[used..] == front[used..n] + [front[n]];
      Forwarded(front[used..n], front[n]);
    }
  }

  /** While the user decides, keepalives of any channel come before, between and inside the messages: a stream whose other
      packets are stale messages and then the answer brings exactly the answer, and its channel's keepalives. */
  lemma KeepalivesDoNotHide(req: Request, front: seq<Packet>, stale: seq<Response>, answer: Response, tail: seq<Packet>)
    requires forall i :: 0 <= i < |stale| ==> Stale(req, stale[i])
    requires |answer.payload| <= MAX_MSG && answer.cmd != HID_KEEPALIVE
    requires Matches(req, InitPacket(answer.cid, answer.cmd, answer.payload))
    requires SoundBeats(front) && front != [] && !IsKeepalive(front[|front| - 1])
    requires NonKeepalive(front) == PacketsOf(stale) + Fragments(answer.cid, answer.cmd, answer.payload)
    ensures var r := Relay(req, Outer, front + tail, 0, []);
      && r.mode == Done && r.used == |front|
      && NonKeepalive(r.out) == Fragments(answer.cid, answer.cmd, answer.payload)
      && KeepalivesIn(r.out) == Beats(req, 0, front)
  {
    hide Matches;
    hide InitPacket;
    hide Fragments;
    hide PacketsOf;
    hide Messages;
    hide Beats;
    hide Relay;
    hide NonKeepalive;
    hide KeepalivesIn;
    hide IsKeepalive;
    var ps := Fragments(answer.cid, answer.cmd, answer.payload);
    var all := PacketsOf(stale) + ps;
    KeepalivesAreNoise(0, front);
    PlainMessages(stale, ps);
    PlainMessage(answer, []);
    ReadNone(req, 0);
    assert ps + [] == ps && all + [] == all;
    RelayFindsTheAnswerInNoise(req, front, stale, answer, []);
    var r := Relay(req, Outer, front, 0, []);
    ReadToTheEnd(front, r.used);
    assert front[..|front|] == front;
    LaterIsUnread(req, Outer, front, tail, 0, []);
  }
}
