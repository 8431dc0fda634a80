/** Whole packet streams through the channel table: isolation, exactly-once delivery, and what disturbs it. */
module ChannelRuns {
  import opened Bytes
  import opened HidFraming
  import opened Channels

  /** The final state and one outcome per packet. */
  function Run(s: State, ps: seq<Packet>): (r: (State, seq<Outcome>))
    requires Formed(s.channels)
    ensures Formed(r.0.channels) && |r.1| == |ps|
  {
    if ps == [] then (s, []) else
      var (before, os) := Run(s, ps[..|ps| - 1]);
      StepFormed(before, ps[|ps| - 1]);
      var (after, o) := Step(before, ps[|ps| - 1]);
      (after, os + [o])
  }

  function SoloRun(s: Partial, ps: seq<Packet>): (r: (Partial, seq<Outcome>))
    ensures |r.1| == |ps|
  {
    if ps == [] then (s, []) else
      var (before, os) := SoloRun(s, ps[..|ps| - 1]);
      var (after, o) := SoloStep(before, ps[|ps| - 1]);
      (after, os + [o])
  }

  /** The packets of one id, in order. */
  function Project(ps: seq<Packet>, cid: u32): seq<Packet> {
    if ps == [] then [] else
      Project(ps[..|ps| - 1], cid) + if CidOf(ps[|ps| - 1]) == cid then [ps[|ps| - 1]] else []
  }

  /** The outcomes of the packets of one id, in order. */
  function OutcomesOf(ps: seq<Packet>, os: seq<Outcome>, cid: u32): seq<Outcome>
    requires |ps| == |os|
  {
    if ps == [] then [] else
      OutcomesOf(ps[..|ps| - 1], os[..|ps| - 1], cid) + if CidOf(ps[|ps| - 1]) == cid then [os[|ps| - 1]] else []
  }

  /** Streams that use at most four ids and never INIT. */
  ghost predicate Polite(ps: seq<Packet>, cids: set<u32>) {
    |cids| <= MAX_CHANNELS
    && forall i :: 0 <= i < |ps| ==> CidOf(ps[i]) in cids && (IsInit(ps[i]) ==> CommandOf(ps[i]) != HID_INIT)
  }

  /** Any interleaving, well or badly formed: every id is served as if it had the table to itself. */
  lemma {:induction false} NonInterference(s: State, ps: seq<Packet>, cids: set<u32>, cid: u32)
    requires Ok(s.channels, cids) && Polite(ps, cids) && cid in cids
    ensures var (after, os) := Run(s, ps);
      && Ok(after.channels, cids) && after.nextCid == s.nextCid
      && SoloRun(View(s.channels, cid), Project(ps, cid)) == (View(after.channels, cid), OutcomesOf(ps, os, cid))
    decreases |ps|
  {
    hide CidOf;
    hide SoloStep;
    hide Step;
    hide View;
    if ps == [] {
    } else {
      var n := |ps| - 1;
      var front, p := ps[..n], ps[n];
      NonInterference(s, front, cids, cid);
      var (before, os) := Run(s, front);
      StepIsolated(before, cids, p);
      var (after, all) := Run(s, ps);
      assert all[..n] == os;
      if CidOf(p) == cid {
        assert (Project(front, cid) + [p])[..|Project(front, cid)|] == Project(front, cid);
      } else {
        assert Project(ps, cid) == Project(front, cid);
        assert OutcomesOf(ps, all, cid) == OutcomesOf(front, os, cid);
      }
    }
  }

  // ----- complete messages -----

  datatype Message = Message(cmd: Command, payload: seq<byte>)

  predicate Sendable(ms: seq<Message>) {
    forall i :: 0 <= i < |ms| ==> |ms[i].payload| <= MAX_MSG && ms[i].cmd != HID_INIT
  }

  function StreamOf(cid: u32, ms: seq<Message>): seq<Packet> {
    if ms == [] then [] else Fragments(cid, ms[0].cmd, ms[0].payload) + StreamOf(cid, ms[1..])
  }

  /** One dispatch at the last fragment of every message, nothing at the others. */
  function Deliveries(cid: u32, ms: seq<Message>): seq<Outcome> {
    if ms == [] then [] else
      seq(FragmentCount(|ms[0].payload|) - 1, _ => Quiet) + [Dispatch(cid, ms[0].cmd, ms[0].payload)] + Deliveries(cid, ms[1..])
  }

  lemma {:induction false} SoloRunAppend(s: Partial, a: seq<Packet>, b: seq<Packet>)
    ensures SoloRun(s, a + b) == (var (mid, os) := SoloRun(s, a); var (end, more) := SoloRun(mid, b); (end, os + more))
    decreases |b|
  {
    hide SoloStep;
    if b == [] {
      assert a + b == a;
      assert SoloRun(s, a).1 + [] == SoloRun(s, a).1;
    } else {
      var n := |b| - 1;
      assert (a + b)[..|a| + n] == a + b[..n] && (a + b)[|a| + n] == b[n];
      SoloRunAppend(s, a, b[..n]);
      var (mid, os) := SoloRun(s, a);
      var (end, more) := SoloRun(mid, b[..n]);
      var last := SoloStep(end, b[n]).1;
      assert os + more + [last] == os + (more + [last]);
    }
  }

  lemma SoloRunOne(s: Partial, p: Packet)
    ensures SoloRun(s, [p]) == (SoloStep(s, p).0, [SoloStep(s, p).1])
  {
    var none: seq<Packet> := [];
    assert [p][..0] == none;
    assert SoloRun(s, none) == (s, []);
    assert [] + [SoloStep(s, p).1] == [SoloStep(s, p).1];
  }

  lemma ContStep(cid: u32, cmd: Command, number: nat, expected: nat, done: seq<byte>, chunk: seq<byte>)
    requires number < 0x80 && 0 < |chunk| <= CONT_PAYLOAD && |done| + |chunk| <= expected
    requires |chunk| < CONT_PAYLOAD ==> |done| + |chunk| == expected
    ensures SoloStep(Busy(cmd, number, expected, done), ContPacket(cid, number, chunk))
         == if |done| + |chunk| == expected then (Idle, Dispatch(cid, cmd, done + chunk))
            else (Busy(cmd, number + 1, expected, done + chunk), Quiet)
  {
    hide ContPacket;
    hide CidOf;
    ContFields(cid, number, chunk);
    var p := ContPacket(cid, number, chunk);
    if |chunk| == CONT_PAYLOAD {
      assert p[5..] == p[5..5 + |chunk|];
    }
  }

  lemma {:induction false} ContinuationsRun(cid: u32, cmd: Command, number: nat, done: seq<byte>, rest: seq<byte>)
    requires rest != [] && number + (|rest| + CONT_PAYLOAD - 1) / CONT_PAYLOAD <= 0x80
    ensures SoloRun(Busy(cmd, number, |done| + |rest|, done), Continuations(cid, number, rest))
         == (Idle, seq((|rest| + CONT_PAYLOAD - 1) / CONT_PAYLOAD - 1, _ => Quiet) + [Dispatch(cid, cmd, done + rest)])
    decreases |rest|
  {
    hide SoloStep;
    hide ContPacket;
    var n := Min(|rest|, CONT_PAYLOAD);
    var chunk, tail := rest[..n], rest[n..];
    var s := Busy(cmd, number, |done| + |rest|, done);
    var p := ContPacket(cid, number, chunk);
    ContStep(cid, cmd, number, |done| + |rest|, done, chunk);
    SoloRunOne(s, p);
    SoloRunAppend(s, [p], Continuations(cid, number + 1, tail));
    if tail == [] {
      assert chunk == rest;
      assert [p] + [] == [p];
      assert seq(0, _ => Quiet) + [Dispatch(cid, cmd, done + rest)] == [Dispatch(cid, cmd, done + rest)];
    } else {
      ContinuationsRun(cid, cmd, number + 1, done + chunk, tail);
      assert done + chunk + tail == done + rest;
      QuietMore(|tail|, [Dispatch(cid, cmd, done + rest)]);
    }
  }

  lemma QuietMore(len: nat, last: seq<Outcome>)
    requires len > 0
    ensures [Quiet] + (seq((len + CONT_PAYLOAD - 1) / CONT_PAYLOAD - 1, _ => Quiet) + last)
         == seq((len + CONT_PAYLOAD + CONT_PAYLOAD - 1) / CONT_PAYLOAD - 1, _ => Quiet) + last
  {
    var k := (len + CONT_PAYLOAD - 1) / CONT_PAYLOAD - 1;
    assert (len + CONT_PAYLOAD + CONT_PAYLOAD - 1) / CONT_PAYLOAD - 1 == k + 1;
    assert [Quiet] + seq(k, _ => Quiet) == seq(k + 1, _ => Quiet);
  }

  lemma FirstStep(cid: u32, m: Message)
    requires |m.payload| <= MAX_MSG
    ensures var n := Min(|m.payload|, INIT_PAYLOAD); var first := InitPacket(cid, m.cmd, m.payload);
      SoloStep(Idle, first) == if n == |m.payload| then (Idle, Dispatch(cid, m.cmd, m.payload))
                               else (Busy(m.cmd, 0, |m.payload|, m.payload[..n]), Quiet)
  {
    hide InitPacket;
    hide CidOf;
    hide LengthOf;
    InitFields(cid, m.cmd, m.payload);
    var n := Min(|m.payload|, INIT_PAYLOAD);
    var first := InitPacket(cid, m.cmd, m.payload);
    assert first[7..7 + n] == m.payload[..n];
    assert n == |m.payload| ==> m.payload[..n] == m.payload;
    assert n == INIT_PAYLOAD ==> first[7..] == first[7..7 + n];
  }

  /** One message on an idle channel: quiet until its last fragment, which dispatches it unchanged. */
  lemma MessageRun(cid: u32, m: Message)
    requires |m.payload| <= MAX_MSG
    ensures SoloRun(Idle, Fragments(cid, m.cmd, m.payload))
         == (Idle, seq(FragmentCount(|m.payload|) - 1, _ => Quiet) + [Dispatch(cid, m.cmd, m.payload)])
  {
    hide InitPacket;
    hide SoloStep;
    hide SoloRun;
    hide Continuations;
    var n := Min(|m.payload|, INIT_PAYLOAD);
    var first, rest := InitPacket(cid, m.cmd, m.payload), m.payload[n..];
    FirstStep(cid, m);
    SoloRunOne(Idle, first);
    SoloRunAppend(Idle, [first], Continuations(cid, 0, rest));
    if rest == [] {
      NoContinuations(cid);
      assert [first] + [] == [first];
      assert seq(0, _ => Quiet) + [Dispatch(cid, m.cmd, m.payload)] == [Dispatch(cid, m.cmd, m.payload)];
    } else {
      ContinuationsRun(cid, m.cmd, 0, m.payload[..n], rest);
      assert m.payload[..n] + rest == m.payload;
      QuietMore(|rest|, [Dispatch(cid, m.cmd, m.payload)]);
    }
  }

  lemma NoContinuations(cid: u32)
    ensures Continuations(cid, 0, []) == []
  {
  }

  lemma {:induction false} StreamRun(cid: u32, ms: seq<Message>)
    requires Sendable(ms)
    ensures SoloRun(Idle, StreamOf(cid, ms)) == (Idle, Deliveries(cid, ms))
    decreases |ms|
  {
    hide SoloStep;
    if ms == [] {
    } else {
      MessageRun(cid, ms[0]);
      StreamRun(cid, ms[1..]);
      SoloRunAppend(Idle, Fragments(cid, ms[0].cmd, ms[0].payload), StreamOf(cid, ms[1..]));
    }
  }

  predicate AllFree(t: seq<Channel>) {
    |t| == MAX_CHANNELS && forall k :: 0 <= k < |t| ==> !t[k].inUse
  }

  /** Any interleaving of complete messages on at most four ids: each id's messages are dispatched exactly once,
      unchanged and in order, each at its own last fragment, with no error, and all channels end up free. */
  lemma ExactlyOnceDelivery(s: State, ps: seq<Packet>, sent: map<u32, seq<Message>>)
    requires AllFree(s.channels) && |sent.Keys| <= MAX_CHANNELS
    requires forall i :: 0 <= i < |ps| ==> CidOf(ps[i]) in sent.Keys
    requires forall c :: c in sent.Keys ==> Sendable(sent[c]) && Project(ps, c) == StreamOf(c, sent[c])
    requires Polite(ps, sent.Keys)
    ensures var (after, os) := Run(s, ps);
      && AllFree(after.channels)
      && forall c :: c in sent.Keys ==> OutcomesOf(ps, os, c) == Deliveries(c, sent[c])
  {
    hide CidOf;
    hide Step;
    hide Run;
    hide Project;
    hide OutcomesOf;
    var (after, os) := Run(s, ps);
    forall c | c in sent.Keys
      ensures View(after.channels, c) == Idle && OutcomesOf(ps, os, c) == Deliveries(c, sent[c])
    {
      NonInterference(s, ps, sent.Keys, c);
      StreamRun(c, sent[c]);
    }
    TableInvariant(s, ps, sent.Keys);
    AllIdle(after.channels, sent.Keys);
  }

  lemma {:induction false} TableInvariant(s: State, ps: seq<Packet>, cids: set<u32>)
    requires Ok(s.channels, cids) && Polite(ps, cids)
    ensures Ok(Run(s, ps).0.channels, cids)
    decreases |ps|
  {
    hide Step;
    hide CidOf;
    if ps == [] {
    } else {
      TableInvariant(s, ps[..|ps| - 1], cids);
      StepIsolated(Run(s, ps[..|ps| - 1]).0, cids, ps[|ps| - 1]);
    }
  }

  lemma AllIdle(t: seq<Channel>, cids: set<u32>)
    requires Ok(t, cids) && forall c :: c in cids ==> View(t, c) == Idle
    ensures AllFree(t)
  {
    forall k | 0 <= k < |t|
      ensures !t[k].inUse
    {
      assert t[k].inUse ==> View(t, t[k].cid) == Idle && Find(t, t[k].cid) <= k;
    }
  }

  // ----- what does disturb a channel -----

  /** A packet changes at most the channel it lands on, and leaves there only its own id. */
  lemma TouchesOne(t: seq<Channel>, p: Packet, i: nat)
    requires Formed(t) && i == if IsInit(p) then StartSlot(t, CidOf(p)) else Find(t, CidOf(p))
    ensures var u := StepTable(t, p).0;
      && (i == |t| || (IsInit(p) && LengthOf(p) > MAX_MSG) ==> u == t)
      && (i < |t| && !(IsInit(p) && LengthOf(p) > MAX_MSG) ==>
            |u| == |t| && u == t[i := u[i]] && Formed(t[i := u[i]]) && (u[i].inUse ==> u[i].cid == CidOf(p)))
  {
    hide CidOf;
    hide LengthOf;
    hide FirstFree;
  }

  /** Another id's partial message is lost exactly when a valid first packet finds no own and no free channel
      and that other id owns channel 0. */
  lemma DisturbedIff(t: seq<Channel>, cids: set<u32>, p: Packet, d: u32)
    requires Ok(t, cids) && d != CidOf(p)
    ensures View(StepTable(t, p).0, d) != View(t, d)
       <==> IsInit(p) && LengthOf(p) <= MAX_MSG && Find(t, CidOf(p)) == |t| && FirstFree(t) == |t| && t[0].cid == d
  {
    hide CidOf;
    hide LengthOf;
    hide Find;
    hide FirstFree;
    hide View;
    hide StepTable;
    var i := if IsInit(p) then StartSlot(t, CidOf(p)) else Find(t, CidOf(p));
    var u := StepTable(t, p).0;
    TouchesOne(t, p, i);
    if i < |t| {
      if !t[i].inUse || t[i].cid == CidOf(p) {
        OtherViews(t, cids, i, u[i], CidOf(p), d);
      } else if LengthOf(p) <= MAX_MSG {
        Evicted(t, cids, u[0], CidOf(p), d);
      }
    }
  }

  lemma Evicted(t: seq<Channel>, cids: set<u32>, ch: Channel, cid: u32, d: u32)
    requires Ok(t, cids) && t[0].inUse && t[0].cid != cid && (ch.inUse ==> ch.cid == cid) && d != cid
    requires Formed(t[0 := ch])
    ensures View(t[0 := ch], d) != View(t, d) <==> t[0].cid == d
  {
    var u := t[0 := ch];
    if t[0].cid == d {
      FindUnique(t, cids, d, 0);
      assert Find(u, d) == |u|;
    } else {
      if Find(t, d) < |t| {
        assert u[Find(t, d)] == t[Find(t, d)];
      }
      if Find(u, d) < |t| {
        assert u[Find(u, d)] == t[Find(u, d)];
      }
    }
  }

  /** CANCEL leaves no trace: its own channel is already free when the flag would be set. */
  lemma CancelChangesNothing(s: State, cids: set<u32>, p: Packet)
    requires Ok(s.channels, cids) && |cids| <= MAX_CHANNELS && CidOf(p) in cids
    requires IsInit(p) && CommandOf(p) == HID_CANCEL && LengthOf(p) <= INIT_PAYLOAD
    ensures Step(s, p).0.channels == s.channels[StartSlot(s.channels, CidOf(p)) := FREE]
  {
    StepIsolated(s, cids, p);
    InitIsolated(s.channels, cids, p);
  }

  // ----- refusals -----

  /** For any table: a packet is refused for its length, for an id nobody has, or for its number, exactly when that is wrong;
      the first two change nothing, the third frees the channel. */
  lemma RefusalsExact(s: State, p: Packet)
    requires Formed(s.channels)
    ensures var (after, o) := Step(s, p); var cid := CidOf(p); var i := Find(s.channels, cid);
      && (o == Refuse(cid, 0x03) <==> IsInit(p) && LengthOf(p) > 2048)
      && (o == Refuse(cid, 0x0b) <==> !IsInit(p) && forall k :: 0 <= k < |s.channels| ==> !(s.channels[k].inUse && s.channels[k].cid == cid))
      && (o == Refuse(cid, 0x04) <==> !IsInit(p) && i < |s.channels| && p[4] != s.channels[i].nextSeq)
      && (o.Refuse? ==> o.cid == cid && o.error in {0x03, 0x0b, 0x04})
      && (o.Refuse? ==> after == if o.error == 0x04 then s.(channels := s.channels[i := FREE]) else s)
  {
    hide CidOf;
    hide LengthOf;
  }

  // ----- channel ids handed out by INIT -----

  /** INIT always opens a channel under the id it hands out, even on a full table: its own message freed one. Besides that
      one and the opened one, every channel stays. */
  lemma InitOpens(s: State, p: Packet)
    requires Formed(s.channels) && IsInit(p) && CommandOf(p) == HID_INIT && 8 <= LengthOf(p) <= INIT_PAYLOAD
    ensures var (after, o) := Step(s, p); var freed := StartSlot(s.channels, CidOf(p)); var cid := NextCid(s.nextCid).0;
      && o == Dispatch(CidOf(p), HID_INIT, p[7..7 + LengthOf(p)]) && after.nextCid == NextCid(s.nextCid).1
      && exists i :: 0 <= i < MAX_CHANNELS && Opened(s.channels, after.channels, i, freed, cid)
  {
    hide CidOf;
    hide LengthOf;
    hide NextCid;
    hide StartSlot;
    hide FirstFree;
    var freed := StartSlot(s.channels, CidOf(p));
    var t := s.channels[freed := FREE];
    assert !t[freed].inUse;
    var i := FirstFree(t);
    assert Opened(s.channels, Step(s, p).0.channels, i, freed, NextCid(s.nextCid).0);
  }

  predicate Opened(before: seq<Channel>, after: seq<Channel>, i: nat, freed: nat, cid: u32) {
    && |after| == |before| && i < |after| && after[i].inUse && after[i].cid == cid && after[i].expected == 0 == after[i].received
    && (before[i].inUse ==> i == freed)
    && forall k :: 0 <= k < |before| && k != i ==> if k == freed then !after[k].inUse else after[k] == before[k]
  }

  /** No reserved id is ever handed out, and an id is handed out twice in a row exactly at the counter's wrap. */
  lemma NextCidExact(n: u32)
    ensures var (cid, next) := NextCid(n);
      && cid != 0 && cid != CID_BROADCAST
      && (NextCid(next).0 == cid <==> n == 0 || n == CID_BROADCAST)
  {
  }

  /** A continuation completes an empty message exactly when its channel announces length zero, as the channels INIT opens
      do, and the number fits; then that channel's command is dispatched with no data, though nobody sent it. */
  lemma StrayContinuationIff(t: seq<Channel>, p: Packet)
    requires Formed(t) && !IsInit(p)
    ensures var i := Find(t, CidOf(p)); var o := StepTable(t, p).1;
      && (o.Dispatch? && o.data == [] <==> i < |t| && t[i].expected == 0 && p[4] == t[i].nextSeq)
      && (o.Dispatch? && o.data == [] ==> StepTable(t, p) == (t[i := FREE], Dispatch(CidOf(p), t[i].cmd, [])))
  {
    hide CidOf;
    hide Find;
    var i := Find(t, CidOf(p));
    if i < |t| && p[4] == t[i].nextSeq {
      var ch := t[i];
      var chunk := Min(ch.expected - ch.received, CONT_PAYLOAD);
      var msg := ch.msg[..ch.received] + p[5..5 + chunk] + ch.msg[ch.received + chunk..];
      assert |msg[..ch.received + chunk]| == ch.received + chunk;
    }
  }

  /** Without INIT, from free channels, no continuation ever completes an empty message. */
  lemma NoStrayMessages(s: State, ps: seq<Packet>, cids: set<u32>, p: Packet)
    requires AllFree(s.channels) && Polite(ps, cids) && !IsInit(p)
    ensures Formed(Run(s, ps).0.channels)
    ensures var o := StepTable(Run(s, ps).0.channels, p).1; !(o.Dispatch? && o.data == [])
  {
    hide CidOf;
    hide StepTable;
    hide Run;
    TableInvariant(s, ps, cids);
    StrayContinuationIff(Run(s, ps).0.channels, p);
  }

  /** In those runs a channel's number counts the continuations it took, at most 34, and never wraps its byte; no length
      reaches the wrap of its 16 bits. */
  lemma CountersNeverWrap(s: State, ps: seq<Packet>, cids: set<u32>, k: nat)
    requires AllFree(s.channels) && Polite(ps, cids) && k < MAX_CHANNELS && Run(s, ps).0.channels[k].inUse
    ensures var ch := Run(s, ps).0.channels[k];
      && ch.received == INIT_PAYLOAD + CONT_PAYLOAD * ch.nextSeq && ch.received < ch.expected <= MAX_MSG
      && ch.nextSeq + 1 <= 34 && ch.received + CONT_PAYLOAD < 0x1_0000
  {
    hide Run;
    TableInvariant(s, ps, cids);
  }
}
