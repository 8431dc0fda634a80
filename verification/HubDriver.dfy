/** The hub's fields as its methods change them: one method per section under the mutex, channel operation or close. */
module HubDriver {
  import opened Bytes
  import opened HidHub

  class Agent {
    var active: Option<nat>
    var pending: seq<nat>
    var sessions: seq<Session>
    var reader: Reader
    ghost var arrived: nat
    ghost var dropped: seq<nat>
    ghost var abandoned: seq<nat>
    ghost var written: seq<nat>

    ghost function Value(): Hub
      reads this
    {
      Hub(active, pending, sessions, reader, arrived, dropped, abandoned, written)
    }

    constructor ()
      ensures Value() == START
    {
      active, pending, sessions, reader := None, [], [], Idle;
      arrived, dropped, abandoned, written := 0, [], [], [];
    }

    /** `subscribe` under the mutex: the newcomer takes over and takes the backlog along. */
    method Take() returns (s: nat, previous: Option<nat>)
      modifies this
      ensures Value() == Step(old(Value()), Subscribe) && s == |old(sessions)| && previous == old(active)
    {
      s, previous := |sessions|, active;
      active := Some(s);
      sessions := sessions + [Session([], [], pending, previous, false)];
      pending := [];
    }

    /** `subscribe` after the mutex: the superseded session is closed. */
    method ClosePrevious(s: nat)
      requires Possible(Value(), CloseOlder(s))
      modifies this
      ensures Value() == Step(old(Value()), CloseOlder(s))
    {
      var older := sessions[s].closes.value;
      sessions := sessions[s := sessions[s].(closes := None)];
      sessions := sessions[older := sessions[older].(done := true)];
    }

    /** One turn of the moving loop; with room in the channel and the session closed, the choice is free. */
    method MovePending(s: nat, send: bool)
      requires Possible(Value(), if send then MoveOne(s) else GiveUpMoving(s))
      modifies this
      ensures Value() == Step(old(Value()), if send then MoveOne(s) else GiveUpMoving(s))
    {
      var x := sessions[s];
      if send {
        sessions := sessions[s := x.(queue := x.queue + [x.moving[0]], moving := x.moving[1..])];
      } else {
        abandoned := abandoned + x.moving;
        sessions := sessions[s := x.(moving := [])];
      }
    }

    /** `unsubscribe` under the mutex. */
    method Leave(s: nat)
      requires Possible(Value(), Unsubscribe(s))
      modifies this
      ensures Value() == Step(old(Value()), Unsubscribe(s))
    {
      if active == Some(s) {
        active := None;
      }
    }

    /** `run` under the mutex, with a packet in hand. */
    method RoutePacket()
      requires Possible(Value(), Route)
      modifies this
      ensures Value() == Step(old(Value()), Route)
    {
      var packet := reader.packet;
      if active.None? {
        if |pending| < MAX_PENDING {
          pending := pending + [packet];
        } else {
          dropped := dropped + [packet];
        }
        reader := Idle;
        return;
      }
      reader := Sending(packet, active.value);
    }

    /** The select of `run`: into the channel, or given up because the session is closed. */
    method SendOrGiveUp(send: bool)
      requires Possible(Value(), if send then Send else GiveUpSending)
      modifies this
      ensures Value() == Step(old(Value()), if send then Send else GiveUpSending)
    {
      var x := sessions[reader.to];
      if send {
        sessions := sessions[reader.to := x.(queue := x.queue + [reader.packet])];
      } else {
        abandoned := abandoned + [reader.packet];
      }
      reader := Idle;
    }

    /** A reply of session `s`, written while the mutex is held; `accepted` is what the device makes of it. */
    method WriteReply(s: nat, size: nat, accepted: bool) returns (r: Reply)
      requires Possible(Value(), Write(s, size, accepted))
      modifies this
      ensures Value() == Step(old(Value()), Write(s, size, accepted)) && r == WriteResult(old(Value()), s, size, accepted)
    {
      if size != 64 {
        return InvalidPacket;
      }
      if sessions[s].done {
        return Superseded;
      }
      if active != Some(s) {
        return Superseded;
      }
      if !accepted {
        return DeviceFailure;
      }
      written := written + [s];
      return Written;
    }
  }
}
