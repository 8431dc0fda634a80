/** The four reassembly channels: one packet in, at most one complete message out. */
module Channels {
  import opened Bytes
  import opened HidFraming

  const MAX_CHANNELS := 4
  const ERR_INVALID_LEN := 0x03
  const ERR_INVALID_SEQ := 0x04
  const ERR_INVALID_CID := 0x0b

  /** `struct abk_fido_channel`; `nextSeq` is a byte and wraps, the lengths are 16 bits wide. */
  datatype Channel = Channel(
    inUse: bool, cancelled: bool, cid: u32, cmd: Command, nextSeq: byte, expected: nat, received: nat, msg: seq<byte>)

  const FREE := Channel(false, false, 0, 0, 0, 0, 0, Zeros(MAX_MSG))

  datatype Outcome =
    | Quiet
    | Dispatch(cid: u32, cmd: Command, data: seq<byte>)
    | Refuse(cid: u32, error: byte)

  datatype State = State(channels: seq<Channel>, nextCid: u32)

  // ----- one packet, as the driver handles it -----

  /** The in-use channel of `cid`, or the table size. */
  function Find(t: seq<Channel>, cid: u32): (i: nat)
    ensures i <= |t|
    ensures i < |t| ==> t[i].inUse && t[i].cid == cid
    ensures forall j :: 0 <= j < i ==> !(t[j].inUse && t[j].cid == cid)
  {
    if t == [] then 0 else if t[0].inUse && t[0].cid == cid then 0 else
      var k := Find(t[1..], cid);
      assert forall j :: 0 < j < 1 + k ==> t[j] == t[1..][j - 1];
      1 + k
  }

  /** The first free channel, or the table size. */
  function FirstFree(t: seq<Channel>): (i: nat)
    ensures i <= |t|
    ensures i < |t| ==> !t[i].inUse
    ensures forall j :: 0 <= j < i ==> t[j].inUse
  {
    if t == [] then 0 else if !t[0].inUse then 0 else
      var k := FirstFree(t[1..]);
      assert forall j :: 0 < j < 1 + k ==> t[j] == t[1..][j - 1];
      1 + k
  }

  /** Where a message of `cid` starts: its channel, else a free one, else channel 0 whoever owns it. */
  function StartSlot(t: seq<Channel>, cid: u32): (i: nat)
    requires |t| > 0
    ensures i < |t|
  {
    if Find(t, cid) < |t| then Find(t, cid) else if FirstFree(t) < |t| then FirstFree(t) else 0
  }

  function StepInit(t: seq<Channel>, p: Packet): (seq<Channel>, Outcome)
    requires |t| == MAX_CHANNELS
  {
    var cid, expected := CidOf(p), LengthOf(p);
    if expected > MAX_MSG then (t, Refuse(cid, ERR_INVALID_LEN)) else
      var i := StartSlot(t, cid);
      var received := Min(expected, INIT_PAYLOAD);
      var data := p[7..7 + received];
      if received == expected then (t[i := FREE], Dispatch(cid, CommandOf(p), data))
      else (t[i := Channel(true, false, cid, CommandOf(p), 0, expected, received, data + Zeros(MAX_MSG - received))], Quiet)
  }

  function StepCont(t: seq<Channel>, p: Packet): (seq<Channel>, Outcome)
    requires |t| == MAX_CHANNELS
    requires forall k :: 0 <= k < |t| && t[k].inUse ==> |t[k].msg| == MAX_MSG && t[k].received <= t[k].expected <= MAX_MSG
  {
    var cid := CidOf(p);
    var i := Find(t, cid);
    if i == |t| then (t, Refuse(cid, ERR_INVALID_CID))
    else if p[4] != t[i].nextSeq then (t[i := FREE], Refuse(cid, ERR_INVALID_SEQ))
    else
      var ch := t[i];
      var chunk := Min(ch.expected - ch.received, CONT_PAYLOAD);
      var received := ch.received + chunk;
      var msg := ch.msg[..ch.received] + p[5..5 + chunk] + ch.msg[received..];
      if received == ch.expected then (t[i := FREE], Dispatch(cid, ch.cmd, msg[..received]))
      else (t[i := ch.(nextSeq := (ch.nextSeq + 1) % 256, received := received, msg := msg)], Quiet)
  }

  function StepTable(t: seq<Channel>, p: Packet): (seq<Channel>, Outcome)
    requires Formed(t)
  {
    if IsInit(p) then StepInit(t, p) else StepCont(t, p)
  }

  /** The next channel id and the counter behind it; 0 and the broadcast id are stepped over. */
  function NextCid(n: u32): (r: (u32, u32)) {
    var after := (n + 1) % TWO_32;
    if n == 0 || n == CID_BROADCAST then ((after + 1) % TWO_32, (after + 1) % TWO_32) else (n, after)
  }

  /** What a dispatched message does to the table: INIT opens a channel, CANCEL flags the sender's. */
  function Effect(s: State, o: Outcome): State
    requires |s.channels| == MAX_CHANNELS
  {
    if o.Dispatch? && o.cmd == HID_INIT && |o.data| >= 8 then
      var (cid, next) := NextCid(s.nextCid);
      var i := FirstFree(s.channels);
      State(if i < |s.channels| then s.channels[i := FREE.(inUse := true, cid := cid)] else s.channels, next)
    else if o.Dispatch? && o.cmd == HID_CANCEL then
      var i := Find(s.channels, o.cid);
      s.(channels := if i < |s.channels| then s.channels[i := s.channels[i].(cancelled := true)] else s.channels)
    else s
  }

  function Step(s: State, p: Packet): (State, Outcome)
    requires Formed(s.channels)
  {
    var (t, o) := StepTable(s.channels, p);
    (Effect(s.(channels := t), o), o)
  }

  // ----- invariants of the table -----

  /** Sizes: buffers are full arrays, nothing received beyond the announced length. */
  predicate Formed(t: seq<Channel>) {
    && |t| == MAX_CHANNELS
    && forall k :: 0 <= k < |t| && t[k].inUse ==> |t[k].msg| == MAX_MSG && t[k].received <= t[k].expected <= MAX_MSG
  }

  lemma StepFormed(s: State, p: Packet)
    requires Formed(s.channels)
    ensures Formed(Step(s, p).0.channels)
  {
    hide CidOf;
    hide LengthOf;
    hide Find;
    hide FirstFree;
    var t := s.channels;
    var (u, o) := StepTable(t, p);
    assert Formed(u) by {
      if !IsInit(p) && Find(t, CidOf(p)) < |t| {
        var i := Find(t, CidOf(p));
        assert u == t[i := u[i]];
      }
    }
    var v := Effect(s.(channels := u), o).channels;
    assert forall k :: 0 <= k < |v| && v[k].inUse && v[k] != u[k] ==> |v[k].msg| == MAX_MSG;
  }

  /** Runs of at most four ids without INIT: every busy channel holds the whole-packet front of one id's message. */
  ghost predicate Ok(t: seq<Channel>, cids: set<u32>) {
    && Formed(t)
    && (forall k :: 0 <= k < |t| && t[k].inUse ==>
          t[k].cid in cids && t[k].received < t[k].expected && t[k].cmd != HID_INIT
          && t[k].received == INIT_PAYLOAD + CONT_PAYLOAD * t[k].nextSeq)
    && (forall j, k :: 0 <= j < k < |t| && t[j].inUse && t[k].inUse ==> t[j].cid != t[k].cid)
  }

  // ----- the independent reference: one channel of its own for every id -----

  datatype Partial = Idle | Busy(cmd: Command, nextSeq: nat, expected: nat, data: seq<byte>)

  function SoloStep(s: Partial, p: Packet): (Partial, Outcome) {
    var cid := CidOf(p);
    if IsInit(p) then
      if LengthOf(p) > MAX_MSG then (s, Refuse(cid, ERR_INVALID_LEN))
      else if LengthOf(p) <= INIT_PAYLOAD then (Idle, Dispatch(cid, CommandOf(p), p[7..7 + LengthOf(p)]))
      else (Busy(CommandOf(p), 0, LengthOf(p), p[7..]), Quiet)
    else if s.Idle? then (s, Refuse(cid, ERR_INVALID_CID))
    else if p[4] != s.nextSeq then (Idle, Refuse(cid, ERR_INVALID_SEQ))
    else if s.expected - |s.data| <= CONT_PAYLOAD then
      (Idle, Dispatch(cid, s.cmd, s.data + p[5..5 + if s.expected >= |s.data| then s.expected - |s.data| else 0]))
    else (s.(nextSeq := s.nextSeq + 1, data := s.data + p[5..]), Quiet)
  }

  /** What the table holds for one id. */
  function View(t: seq<Channel>, cid: u32): Partial
    requires Formed(t)
  {
    var i := Find(t, cid);
    if i == |t| then Idle else Busy(t[i].cmd, t[i].nextSeq, t[i].expected, t[i].msg[..t[i].received])
  }

  /** Four busy channels with other ids than `cid` need five ids. */
  lemma RoomForOneMore(t: seq<Channel>, cids: set<u32>, cid: u32)
    requires Ok(t, cids) && |cids| <= MAX_CHANNELS && cid in cids && Find(t, cid) == |t|
    ensures FirstFree(t) < |t|
  {
    if FirstFree(t) == |t| {
      var five := {t[0].cid, t[1].cid, t[2].cid, t[3].cid, cid};
      assert |five| == 5;
      SubsetSize(five, cids);
      assert false;
    }
  }

  lemma {:induction false} SubsetSize(a: set<u32>, b: set<u32>)
    requires a <= b
    ensures |a| <= |b|
  {
    assert b == a + (b - a);
  }

  lemma FindUnique(t: seq<Channel>, cids: set<u32>, cid: u32, i: nat)
    requires Ok(t, cids) && i < |t| && t[i].inUse && t[i].cid == cid
    ensures Find(t, cid) == i
  {
  }

  /** Replacing a channel of `cid` (or a free one) leaves every other id's view alone. */
  lemma OtherViews(t: seq<Channel>, cids: set<u32>, i: nat, ch: Channel, cid: u32, d: u32)
    requires Ok(t, cids) && i < |t| && (!t[i].inUse || t[i].cid == cid) && (ch.inUse ==> ch.cid == cid) && d != cid
    requires Formed(t[i := ch])
    ensures View(t[i := ch], d) == View(t, d)
  {
    var u := t[i := ch];
    if Find(t, d) < |t| {
      assert u[Find(t, d)] == t[Find(t, d)];
    }
    if Find(u, d) < |t| {
      assert u[Find(u, d)] == t[Find(u, d)];
    }
  }

  /** The table behaves as four independent channels: one packet, its own id's step, nothing else touched. */
  lemma StepIsolated(s: State, cids: set<u32>, p: Packet)
    requires Ok(s.channels, cids) && |cids| <= MAX_CHANNELS && CidOf(p) in cids
    requires IsInit(p) ==> CommandOf(p) != HID_INIT
    ensures var (s', o) := Step(s, p);
      var (mine, reply) := SoloStep(View(s.channels, CidOf(p)), p);
      && s'.nextCid == s.nextCid && Ok(s'.channels, cids) && o == reply && View(s'.channels, CidOf(p)) == mine
      && forall d: u32 :: d != CidOf(p) ==> View(s'.channels, d) == View(s.channels, d)
  {
    hide CidOf;
    hide LengthOf;
    hide Find;
    var t, cid := s.channels, CidOf(p);
    var (t', o) := StepTable(t, p);
    if IsInit(p) {
      InitIsolated(t, cids, p);
    } else {
      ContIsolated(t, cids, p);
    }
    assert o.Dispatch? ==> Find(t', cid) == |t'|;
  }

  lemma InitIsolated(t: seq<Channel>, cids: set<u32>, p: Packet)
    requires Ok(t, cids) && |cids| <= MAX_CHANNELS && CidOf(p) in cids && IsInit(p) && CommandOf(p) != HID_INIT
    ensures var (t', o) := StepInit(t, p);
      && Ok(t', cids) && SoloStep(View(t, CidOf(p)), p) == (View(t', CidOf(p)), o)
      && (o.Dispatch? ==> o.cid == CidOf(p) && o.cmd != HID_INIT && Find(t', CidOf(p)) == |t'|)
      && forall d: u32 :: d != CidOf(p) ==> View(t', d) == View(t, d)
  {
    hide CidOf;
    hide LengthOf;
    hide Find;
    var cid, i := CidOf(p), StartSlot(t, CidOf(p));
    if Find(t, cid) == |t| {
      RoomForOneMore(t, cids, cid);
    }
    var (t', o) := StepInit(t, p);
    if LengthOf(p) <= MAX_MSG {
      assert t' == t[i := t'[i]];
      forall d: u32 | d != cid
        ensures View(t', d) == View(t, d)
      {
        OtherViews(t, cids, i, t'[i], cid, d);
      }
      if LengthOf(p) > INIT_PAYLOAD {
        FindUnique(t', cids, cid, i);
        assert t'[i].msg[..INIT_PAYLOAD] == p[7..];
      } else {
        assert Find(t', cid) == |t'|;
      }
    }
  }

  lemma ContIsolated(t: seq<Channel>, cids: set<u32>, p: Packet)
    requires Ok(t, cids) && CidOf(p) in cids && !IsInit(p)
    ensures var (t', o) := StepCont(t, p);
      && Ok(t', cids) && SoloStep(View(t, CidOf(p)), p) == (View(t', CidOf(p)), o)
      && (o.Dispatch? ==> o.cid == CidOf(p) && o.cmd != HID_INIT && Find(t', CidOf(p)) == |t'|)
      && forall d: u32 :: d != CidOf(p) ==> View(t', d) == View(t, d)
  {
    hide CidOf;
    hide LengthOf;
    hide Find;
    var cid, i := CidOf(p), Find(t, CidOf(p));
    var (t', o) := StepCont(t, p);
    if i < |t| {
      assert t' == t[i := t'[i]];
      forall d: u32 | d != cid
        ensures View(t', d) == View(t, d)
      {
        OtherViews(t, cids, i, t'[i], cid, d);
      }
      if t'[i].inUse {
        FindUnique(t', cids, cid, i);
        assert t'[i].msg[..t'[i].received] == t[i].msg[..t[i].received] + p[5..];
      } else {
        assert Find(t', cid) == |t'|;
        if o.Dispatch? {
          assert o.data == t[i].msg[..t[i].received] + p[5..5 + (t[i].expected - t[i].received)];
        }
      }
    }
  }
}
