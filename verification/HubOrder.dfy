/** When a session of the hub gets its packets in the order they arrived. */
module HubOrder {
  import opened Bytes
  import opened HidHub

  /** Everything that entered the channel of `s`, in order; what was taken comes first. */
  function Line(h: Hub, s: nat): seq<nat> {
    if s < |h.sessions| then h.sessions[s].taken + h.sessions[s].queue else []
  }

  function MovingOf(h: Hub, s: nat): seq<nat> {
    if s < |h.sessions| then h.sessions[s].moving else []
  }

  predicate Ascending(xs: seq<nat>) {
    forall i, j :: 0 <= i < j < |xs| ==> xs[i] < xs[j]
  }

  /** Whether the reader put a packet of its own into the channel of `s` during the run. */
  predicate SentTo(es: seq<Event>, s: nat)
    decreases |es|
  {
    es != [] && var n := |es| - 1; var h := Run(es[..n]);
      SentTo(es[..n], s) || (es[n] == Send && Possible(h, Send) && h.reader.to == s)
  }

  /** Whether a waiting packet was moved into the channel of `s` after the reader had put one there. */
  predicate MovedLate(es: seq<Event>, s: nat)
    decreases |es|
  {
    es != [] && var n := |es| - 1;
      MovedLate(es[..n], s) || (es[n] == MoveOne(s) && Possible(Run(es[..n]), MoveOne(s)) && SentTo(es[..n], s))
  }

  // ----- what every run keeps -----

  /** The packet the reader holds is the newest; waiting packets are in order wherever they wait. */
  ghost predicate Tidy(h: Hub) {
    && (h.reader.Got? || h.reader.Sending? ==> h.reader.packet + 1 == h.arrived)
    && Ascending(h.pending)
    && forall s :: 0 <= s < |h.sessions| ==> Ascending(h.sessions[s].moving)
  }

  lemma NewestIsLargest(h: Hub, p: Place, x: nat)
    requires Accounted(h) && Tidy(h) && (h.reader.Got? || h.reader.Sending?) && x in Box(h, p)
    requires p != InHand && !p.Held?
    ensures x < h.reader.packet
  {
    var here := if h.reader.Got? then InHand else Held(h.reader.to);
    assert h.reader.packet in Box(h, here);
  }

  lemma Appended(xs: seq<nat>, x: nat)
    requires Ascending(xs) && forall i :: 0 <= i < |xs| ==> xs[i] < x
    ensures Ascending(xs + [x])
  {
  }

  lemma TidyStep(h: Hub, e: Event)
    requires Accounted(h) && Shaped(h) && Tidy(h) && Possible(h, e)
    ensures Tidy(Step(h, e))
  {
    hide Accounted;
    if e.Route? && h.active.None? && |h.pending| < MAX_PENDING {
      forall i | 0 <= i < |h.pending|
        ensures h.pending[i] < h.reader.packet
      {
        assert h.pending[i] in Box(h, Pending);
        NewestIsLargest(h, Pending, h.pending[i]);
      }
      Appended(h.pending, h.reader.packet);
    }
  }

  /** Some packet of the line is newer than all that still have to be moved. */
  ghost predicate Overtaken(line: seq<nat>, moving: seq<nat>) {
    exists i :: 0 <= i < |line| && Above(line[i], moving)
  }

  predicate Above(newer: nat, xs: seq<nat>) {
    forall x :: x in xs ==> x < newer
  }

  /** The order of one session, seen from the history. */
  ghost predicate Ordered(h: Hub, s: nat, sent: bool, late: bool) {
    && (Ascending(Line(h, s)) <==> !late)
    && (!sent ==> Ascending(Line(h, s) + MovingOf(h, s)))
    && (sent ==> Overtaken(Line(h, s), MovingOf(h, s)))
    && (late ==> sent)
  }

  lemma MoveKeepsOrder(h: Hub, s: nat, sent: bool, late: bool)
    requires Possible(h, MoveOne(s)) && Ordered(h, s, sent, late)
    ensures Ordered(Step(h, MoveOne(s)), s, sent, late || sent)
  {
    var k := Step(h, MoveOne(s));
    var line, moving := Line(h, s), MovingOf(h, s);
    var x := moving[0];
    assert Line(k, s) == line + [x] && MovingOf(k, s) == moving[1..];
    if sent {
      var i :| 0 <= i < |line| && Above(line[i], moving);
      assert x in moving && Line(k, s)[i] == line[i] && Line(k, s)[|line|] == x;
      assert Above((line + [x])[i], moving);
      assert !Ascending(Line(k, s));
      FewerToMove(line + [x], moving, MovingOf(k, s));
    } else {
      assert Line(k, s) + MovingOf(k, s) == line + moving;
      assert Line(k, s) == (line + moving)[..|line| + 1];
    }
  }

  lemma NewerThanAll(h: Hub, s: nat)
    requires Accounted(h) && Tidy(h) && h.reader.Sending? && s < |h.sessions|
    ensures forall i :: 0 <= i < |Line(h, s)| ==> Line(h, s)[i] < h.reader.packet
    ensures forall y :: y in MovingOf(h, s) ==> y < h.reader.packet
  {
    hide Accounted;
    hide Tidy;
    var x := h.sessions[s];
    forall i | 0 <= i < |Line(h, s)|
      ensures Line(h, s)[i] < h.reader.packet
    {
      var place := if i < |x.taken| then Taken(s) else Queued(s);
      assert Line(h, s)[i] in Box(h, place);
      NewestIsLargest(h, place, Line(h, s)[i]);
    }
    forall y | y in MovingOf(h, s)
      ensures y < h.reader.packet
    {
      assert y in Box(h, Moving(s));
      NewestIsLargest(h, Moving(s), y);
    }
  }

  lemma AppendedIff(xs: seq<nat>, x: nat)
    requires forall i :: 0 <= i < |xs| ==> xs[i] < x
    ensures Ascending(xs + [x]) <==> Ascending(xs)
  {
    if Ascending(xs) {
      Appended(xs, x);
    } else {
      var i, j :| 0 <= i < j < |xs| && xs[i] >= xs[j];
      assert (xs + [x])[i] >= (xs + [x])[j];
    }
  }

  lemma SendKeepsOrder(h: Hub, s: nat, sent: bool, late: bool)
    requires Possible(h, Send) && h.reader.to == s && Accounted(h) && Tidy(h) && Ordered(h, s, sent, late)
    ensures Ordered(Step(h, Send), s, true, late)
  {
    hide Accounted;
    hide Tidy;
    hide Ascending;
    var k := Step(h, Send);
    var line, moving, p := Line(h, s), MovingOf(h, s), h.reader.packet;
    assert Line(k, s) == line + [p] && MovingOf(k, s) == moving;
    NewerThanAll(h, s);
    AppendedIff(line, p);
    assert (line + [p])[|line|] == p && Above(p, moving);
  }

  lemma OtherSteps(h: Hub, e: Event, s: nat, sent: bool, late: bool)
    requires Possible(h, e) && Shaped(h) && Tidy(h) && Ordered(h, s, sent, late)
    requires e != MoveOne(s) && !(e == Send && h.reader.to == s)
    ensures Ordered(Step(h, e), s, sent, late)
  {
    hide Ordered;
    hide Ascending;
    match e
    case Subscribe =>
      if s == |h.sessions| {
        NewcomerOrdered(h, sent, late);
      } else {
        SameOrdered(h, Step(h, e), s, sent, late);
      }
    case GiveUpMoving(t) =>
      if t == s {
        GiveUpOrdered(h, s, sent, late);
      } else {
        SameOrdered(h, Step(h, e), s, sent, late);
      }
    case _ =>
      assert Line(Step(h, e), s) == Line(h, s);
      SameOrdered(h, Step(h, e), s, sent, late);
  }

  lemma SameOrdered(h: Hub, k: Hub, s: nat, sent: bool, late: bool)
    requires Ordered(h, s, sent, late) && Line(k, s) == Line(h, s) && MovingOf(k, s) == MovingOf(h, s)
    ensures Ordered(k, s, sent, late)
  {
    hide Line;
    hide MovingOf;
    hide Ascending;
    hide Overtaken;
  }

  lemma NewcomerOrdered(h: Hub, sent: bool, late: bool)
    requires Tidy(h) && Ordered(h, |h.sessions|, sent, late)
    ensures Ordered(Step(h, Subscribe), |h.sessions|, sent, late)
  {
    var k, s := Step(h, Subscribe), |h.sessions|;
    assert Line(k, s) == [] && Line(k, s) + MovingOf(k, s) == h.pending;
  }

  lemma GiveUpOrdered(h: Hub, s: nat, sent: bool, late: bool)
    requires Possible(h, GiveUpMoving(s)) && Ordered(h, s, sent, late)
    ensures Ordered(Step(h, GiveUpMoving(s)), s, sent, late)
  {
    var k := Step(h, GiveUpMoving(s));
    var line := Line(h, s);
    assert Line(k, s) == line && MovingOf(k, s) == [];
    assert Line(k, s) + MovingOf(k, s) == (line + MovingOf(h, s))[..|line|];
    if sent {
      FewerToMove(line, MovingOf(h, s), MovingOf(k, s));
    }
  }

  lemma FewerToMove(line: seq<nat>, moving: seq<nat>, fewer: seq<nat>)
    requires Overtaken(line, moving) && forall x :: x in fewer ==> x in moving
    ensures Overtaken(line, fewer)
  {
    var i :| 0 <= i < |line| && Above(line[i], moving);
    assert Above(line[i], fewer);
  }

  lemma {:induction false} RunOrdered(es: seq<Event>, s: nat)
    ensures Tidy(Run(es)) && Ordered(Run(es), s, SentTo(es, s), MovedLate(es, s))
    decreases |es|
  {
    hide Accounted;
    hide Shaped;
    hide Tidy;
    hide Ordered;
    hide Step;
    if es == [] {
      EmptyOrdered(s);
    } else {
      var n := |es| - 1;
      var h, e := Run(es[..n]), es[n];
      RunOrdered(es[..n], s);
      EveryPacketAccounted(es[..n]);
      if Possible(h, e) {
        TidyStep(h, e);
        if e == MoveOne(s) {
          MoveKeepsOrder(h, s, SentTo(es[..n], s), MovedLate(es[..n], s));
        } else if e == Send && h.reader.to == s {
          SendKeepsOrder(h, s, SentTo(es[..n], s), MovedLate(es[..n], s));
        } else {
          OtherSteps(h, e, s, SentTo(es[..n], s), MovedLate(es[..n], s));
        }
      }
    }
  }

  lemma EmptyOrdered(s: nat)
    ensures Tidy(START) && Ordered(START, s, false, false)
  {
    assert Line(START, s) == [] && Line(START, s) + MovingOf(START, s) == [];
  }

  /** In every interleaving a session's packets, those it took and then those in its channel, are in arrival order exactly
      when no waiting packet was moved into its channel after the reader had put one there. */
  lemma InOrderIff(es: seq<Event>, s: nat)
    ensures Ascending(Line(Run(es), s)) <==> !MovedLate(es, s)
  {
    hide Tidy;
    hide Run;
    hide SentTo;
    hide MovedLate;
    RunOrdered(es, s);
  }

  /** The reader puts packets into the channel of `s` only once nothing is left to be moved there. */
  predicate WaitsForMoves(es: seq<Event>, s: nat)
    decreases |es|
  {
    es == [] || (var n := |es| - 1; var h := Run(es[..n]);
      && WaitsForMoves(es[..n], s)
      && (es[n] == Send && Possible(h, Send) && h.reader.to == s ==> MovingOf(h, s) == []))
  }

  lemma {:induction false} NothingMovesLate(es: seq<Event>, s: nat)
    requires WaitsForMoves(es, s)
    ensures !MovedLate(es, s) && (SentTo(es, s) ==> s < |Run(es).sessions| && MovingOf(Run(es), s) == [])
    decreases |es|
  {
    hide Step;
    hide MovingOf;
    if es != [] {
      var h, e := Run(es[..|es| - 1]), es[|es| - 1];
      NothingMovesLate(es[..|es| - 1], s);
      if Possible(h, e) && s < |h.sessions| && MovingOf(h, s) == [] {
        StaysMoved(h, e, s);
      }
    }
  }

  lemma StaysMoved(h: Hub, e: Event, s: nat)
    requires Possible(h, e) && s < |h.sessions| && MovingOf(h, s) == []
    ensures s < |Step(h, e).sessions| && MovingOf(Step(h, e), s) == [] && e != MoveOne(s)
  {
  }

  /** A `subscribe` that finishes moving before the reader sends to it gives the session all its packets in order. */
  lemma InOrderIfMovedFirst(es: seq<Event>, s: nat)
    requires WaitsForMoves(es, s)
    ensures Ascending(Line(Run(es), s))
  {
    hide Run;
    NothingMovesLate(es, s);
    InOrderIff(es, s);
  }
}
