/** The channel table as the driver keeps it: four records searched and overwritten in place. */
module ChannelTable {
  import opened Bytes
  import opened HidFraming
  import opened Channels

  class Table {
    const channels: array<Channel>
    var nextCid: u32

    ghost predicate Valid()
      reads this, channels
    {
      Formed(channels[..])
    }

    ghost function Value(): State
      reads this, channels
    {
      State(channels[..], nextCid)
    }

    constructor ()
      ensures Valid() && fresh(channels) && Value() == State([FREE, FREE, FREE, FREE], 1)
    {
      channels := new Channel[MAX_CHANNELS](_ => FREE);
      nextCid := 1;
    }

    method FindChannel(cid: u32) returns (i: nat)
      ensures i == Find(channels[..], cid)
    {
      i := 0;
      while i < channels.Length && !(channels[i].inUse && channels[i].cid == cid)
        invariant i <= channels.Length
        invariant forall j :: 0 <= j < i ==> !(channels[j].inUse && channels[j].cid == cid)
      {
        i := i + 1;
      }
    }

    /** A zeroed channel for `cid`; with all four in use, channel 0 as it stands. */
    method AllocChannel(cid: u32) returns (i: nat)
      requires Valid()
      modifies channels
      ensures Valid() && i < channels.Length
      ensures var f := FirstFree(old(channels[..]));
        if f < channels.Length then i == f && channels[..] == old(channels[..])[f := FREE.(inUse := true, cid := cid)]
        else i == 0 && channels[..] == old(channels[..])
    {
      i := 0;
      while i < channels.Length && channels[i].inUse
        invariant i <= channels.Length
        invariant forall j :: 0 <= j < i ==> channels[j].inUse
      {
        i := i + 1;
      }
      if i < channels.Length {
        channels[i] := FREE.(inUse := true, cid := cid);
      } else {
        i := 0;
      }
    }

    method TakeCid() returns (cid: u32)
      modifies this`nextCid
      ensures (cid, nextCid) == NextCid(old(nextCid))
    {
      cid := nextCid;
      nextCid := (nextCid + 1) % TWO_32;
      if cid == 0 || cid == CID_BROADCAST {
        nextCid := (nextCid + 1) % TWO_32;
        cid := nextCid;
      }
    }

    method First(packet: Packet) returns (o: Outcome)
      requires Valid() && IsInit(packet)
      modifies channels
      ensures Valid() && (channels[..], o) == StepInit(old(channels[..]), packet)
    {
      hide CidOf;
      hide LengthOf;
      hide Find;
      hide FirstFree;
      var cid := CidOf(packet);
      var expected := LengthOf(packet);
      if expected > MAX_MSG {
        return Refuse(cid, ERR_INVALID_LEN);
      }
      var i := FindChannel(cid);
      if i == channels.Length {
        i := AllocChannel(cid);
      }
      var received := Min(expected, INIT_PAYLOAD);
      var data := packet[7..7 + received];
      channels[i] := Channel(true, false, cid, CommandOf(packet), 0, expected, received, data + Zeros(MAX_MSG - received));
      if received == expected {
        o := Dispatch(cid, channels[i].cmd, channels[i].msg[..received]);
        assert channels[i].msg[..received] == data;
        channels[i] := FREE;
        assert channels[..] == old(channels[..])[i := FREE];
        return;
      }
      assert channels[..] == old(channels[..])[i := channels[i]];
      return Quiet;
    }

    method Continue(packet: Packet) returns (o: Outcome)
      requires Valid() && !IsInit(packet)
      modifies channels
      ensures Valid() && (channels[..], o) == StepCont(old(channels[..]), packet)
    {
      hide CidOf;
      hide Find;
      var cid := CidOf(packet);
      var i := FindChannel(cid);
      if i == channels.Length {
        return Refuse(cid, ERR_INVALID_CID);
      }
      var ch := channels[i];
      if packet[4] != ch.nextSeq {
        channels[i] := FREE;
        return Refuse(cid, ERR_INVALID_SEQ);
      }
      var chunk := Min(ch.expected - ch.received, CONT_PAYLOAD);
      var received := ch.received + chunk;
      ch := ch.(nextSeq := (ch.nextSeq + 1) % 256,
                msg := ch.msg[..ch.received] + packet[5..5 + chunk] + ch.msg[received..],
                received := received);
      channels[i] := ch;
      if received == ch.expected {
        channels[i] := FREE;
        assert channels[..] == old(channels[..])[i := FREE];
        return Dispatch(cid, ch.cmd, ch.msg[..received]);
      }
      return Quiet;
    }

    /** One report from the host; the message it completes, if any, is dispatched before the next report. */
    method ProcessPacket(packet: Packet) returns (o: Outcome)
      requires Valid()
      modifies this, channels
      ensures Valid() && (Value(), o) == Step(old(Value()), packet)
    {
      hide CidOf;
      hide LengthOf;
      hide Find;
      hide FirstFree;
      hide StepInit;
      hide StepCont;
      StepFormed(Value(), packet);
      if IsInit(packet) {
        o := First(packet);
      } else {
        o := Continue(packet);
      }
      match o
      case Dispatch(cid, cmd, data) =>
        if cmd == HID_INIT && |data| >= 8 {
          var newCid := TakeCid();
          var i := AllocChannel(newCid);
        } else if cmd == HID_CANCEL {
          var i := FindChannel(cid);
          if i < channels.Length {
            channels[i] := channels[i].(cancelled := true);
          }
        }
      case _ =>
    }
  }
}
