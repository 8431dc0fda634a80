/** The bounded report queue of a transport, and the sender that fills it. */
module ReportQueue {
  import opened Bytes
  import opened HidFraming

  const QUEUE_DEPTH := 32

  class Queue {
    const items: array<Packet>
    var head: nat
    var tail: nat
    var count: nat

    ghost predicate Valid()
      reads this
    {
      && items.Length == QUEUE_DEPTH
      && head < QUEUE_DEPTH && count <= QUEUE_DEPTH
      && tail == (if head + count < QUEUE_DEPTH then head + count else head + count - QUEUE_DEPTH)
    }

    /** The queued reports, oldest first. */
    ghost function Contents(): (s: seq<Packet>)
      reads this, items
      requires Valid()
      ensures |s| == count
    {
      seq(count, i requires 0 <= i < count && Valid() reads this, items =>
          items[if head + i < QUEUE_DEPTH then head + i else head + i - QUEUE_DEPTH])
    }

    constructor ()
      ensures Valid() && fresh(items) && Contents() == []
    {
      items := new Packet[QUEUE_DEPTH](_ => seq(REPORT_LEN, _ => 0));
      head, tail, count := 0, 0, 0;
    }

    method Push(p: Packet) returns (ok: bool)
      requires Valid()
      modifies this, items
      ensures Valid() && ok == (|old(Contents())| < QUEUE_DEPTH)
      ensures Contents() == if ok then old(Contents()) + [p] else old(Contents())
    {
      if count == QUEUE_DEPTH {
        return false;
      }
      items[tail] := p;
      tail := (tail + 1) % QUEUE_DEPTH;
      count := count + 1;
      return true;
    }

    method Pop() returns (r: Option<Packet>)
      requires Valid()
      modifies this
      ensures Valid()
      ensures r == if old(Contents()) == [] then None else Some(old(Contents())[0])
      ensures Contents() == if r.None? then old(Contents()) else old(Contents())[1..]
    {
      if count == 0 {
        return None;
      }
      r := Some(items[head]);
      head := (head + 1) % QUEUE_DEPTH;
      count := count - 1;
    }

    /** What is left of a burst once the queue is full: its front, never a gap. */
    static function Accepted(before: nat, burst: seq<Packet>): seq<Packet>
      requires before <= QUEUE_DEPTH
    {
      burst[..Min(|burst|, QUEUE_DEPTH - before)]
    }

    /** Queue a message packet by packet; a packet that finds the queue full is dropped without notice. */
    method Send(cid: u32, cmd: Command, payload: seq<byte>)
      requires Valid()
      modifies this, items
      ensures Valid()
      ensures Contents() == old(Contents()) + Accepted(|old(Contents())|, Fragments(cid, cmd, payload))
    {
      hide ContPacket;
      hide InitPacket;
      hide Queue.Contents;
      var offset := Min(|payload|, INIT_PAYLOAD);
      var packet := InitPacket(cid, cmd, payload);
      ghost var all := Fragments(cid, cmd, payload);
      ghost var before := Contents();
      var pushed := Push(packet);
      ghost var done := 1;
      AcceptedStep(before, all, 0);
      var number := 0;
      while offset < |payload|
        invariant Valid() && offset <= |payload| && done == 1 + number <= |all|
        invariant all[done..] == Continuations(cid, number, payload[offset..])
        invariant Contents() == before + Accepted(|before|, all[..done])
      {
        var n := Min(|payload| - offset, CONT_PAYLOAD);
        packet := ContPacket(cid, number, payload[offset..offset + n]);
        assert payload[offset..][..n] == payload[offset..offset + n];
        assert payload[offset..][n..] == payload[offset + n..];
        assert all[done] == all[done..][0] == packet && all[done + 1..] == all[done..][1..];
        AcceptedStep(before, all, done);
        pushed := Push(packet);
        done := done + 1;
        number := number + 1;
        offset := offset + n;
      }
      assert all[..done] == all;
    }

    /** Offering one more packet of a burst. */
    static lemma AcceptedStep(before: seq<Packet>, all: seq<Packet>, done: nat)
      requires |before| <= QUEUE_DEPTH && done < |all|
      ensures var now := before + Accepted(|before|, all[..done]);
        before + Accepted(|before|, all[..done + 1]) == if |now| < QUEUE_DEPTH then now + [all[done]] else now
    {
      assert all[..done + 1] == all[..done] + [all[done]];
    }
  }

  /** A message reaches the queue whole exactly when all its packets still fit. */
  lemma SentWholeIff(before: nat, cid: u32, cmd: Command, payload: seq<byte>)
    requires before <= QUEUE_DEPTH
    ensures Queue.Accepted(before, Fragments(cid, cmd, payload)) == Fragments(cid, cmd, payload)
       <==> before + FragmentCount(|payload|) <= QUEUE_DEPTH
  {
    FragmentsCounted(cid, cmd, payload);
    var all := Fragments(cid, cmd, payload);
    if before + |all| <= QUEUE_DEPTH {
      assert all[..|all|] == all;
    }
  }

  /** A CBOR reply (status byte and at most 1536 payload bytes) takes at most 27 reports of an empty queue. */
  lemma CborReplyFits(status: byte, payload: seq<byte>, cid: u32)
    requires |payload| <= 1536
    ensures var reply := Fragments(cid, HID_CBOR, [status] + payload);
      |reply| <= 27 && Queue.Accepted(0, reply) == reply
  {
    FragmentsCounted(cid, HID_CBOR, [status] + payload);
    SentWholeIff(0, cid, HID_CBOR, [status] + payload);
  }

  /** A PING echo comes back whole exactly up to 1886 bytes, although 2048 bytes are accepted inbound. */
  lemma PingEchoFitsIff(cid: u32, payload: seq<byte>)
    ensures Queue.Accepted(0, Fragments(cid, HID_PING, payload)) == Fragments(cid, HID_PING, payload) <==> |payload| <= 1886
  {
    SentWholeIff(0, cid, HID_PING, payload);
  }
}
