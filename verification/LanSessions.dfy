/** Which LAN session may use the key: the newest one whose first request came through the authenticated channel. */
module LanSessions {
  import opened Bytes

  /** The active session, every session that ever took over (oldest first), the holder of the transport lock, and the
      sessions of all exchanges begun. */
  datatype Lan = Lan(active: Option<nat>, tookOver: seq<nat>, holder: Option<nat>, exchanges: seq<nat>)

  const START := Lan(None, [], None, [])

  datatype Event = TakeOver(s: nat) | Begin(s: nat) | Finish | Close(s: nat) | Stop

  /** A session takes over once, with its first complete request, and exchanges only after that. */
  predicate Possible(l: Lan, e: Event) {
    match e
    case TakeOver(s) => s !in l.tookOver
    case Begin(s) => s in l.tookOver && l.holder.None?
    case Finish => l.holder.Some?
    case _ => true
  }

  function Step(l: Lan, e: Event): Lan
    requires Possible(l, e)
  {
    match e
    case TakeOver(s) => l.(active := Some(s), tookOver := l.tookOver + [s])
    case Begin(s) => if l.active == Some(s) then l.(holder := Some(s), exchanges := l.exchanges + [s]) else l
    case Finish => l.(holder := None)
    case Close(s) => if l.active == Some(s) then l.(active := None) else l
    case Stop => l.(active := None)
  }

  function Run(es: seq<Event>): Lan {
    if es == [] then START else
      var l := Run(es[..|es| - 1]);
      if Possible(l, es[|es| - 1]) then Step(l, es[|es| - 1]) else l
  }

  predicate Newest(l: Lan, s: nat) {
    l.tookOver != [] && l.tookOver[|l.tookOver| - 1] == s
  }

  ghost predicate Inv(l: Lan) {
    && (forall i, j :: 0 <= i < j < |l.tookOver| ==> l.tookOver[i] != l.tookOver[j])
    && (l.active.Some? ==> Newest(l, l.active.value))
  }

  lemma {:induction false} RunKeeps(es: seq<Event>)
    ensures Inv(Run(es))
    decreases |es|
  {
    if es != [] {
      RunKeeps(es[..|es| - 1]);
    }
  }

  /** A session that was superseded never begins another exchange: from any moment on, every exchange begun belongs to the
      session that was newest then or to one that took over later. */
  lemma {:induction false} OnlyNewestExchanges(es: seq<Event>, more: seq<Event>)
    ensures var early, late := Run(es), Run(es + more);
      && early.tookOver <= late.tookOver && early.exchanges <= late.exchanges
      && forall i :: |early.exchanges| <= i < |late.exchanges| ==> Current(early.tookOver, late.exchanges[i])
    decreases |more|
  {
    hide Step;
    hide Possible;
    hide Current;
    if more == [] {
      assert es + more == es;
    } else {
      var n := |more| - 1;
      var all := es + more;
      assert all[..|all| - 1] == es + more[..n] && all[|all| - 1] == more[n];
      OnlyNewestExchanges(es, more[..n]);
      var l := Run(es + more[..n]);
      RunKeeps(es + more[..n]);
      if Possible(l, more[n]) {
        OneStep(l, more[n], Run(es).tookOver);
      }
    }
  }

  /** The session that took over last may exchange, whenever the transport is free, until another takes over, it closes, or
      the server stops. */
  lemma {:induction false} NewestMayExchange(es: seq<Event>, s: nat, quiet: seq<Event>)
    requires s !in Run(es).tookOver && forall i :: 0 <= i < |quiet| ==> !quiet[i].TakeOver? && !quiet[i].Stop? && quiet[i] != Close(s)
    ensures var before := es + [TakeOver(s)] + quiet; var l := Run(before); var k := Run(before + [Begin(s)]);
      && l.active == Some(s) && s in l.tookOver
      && (l.holder.None? ==> k.exchanges == l.exchanges + [s] && k.holder == Some(s))
    decreases |quiet|
  {
    var before := es + [TakeOver(s)] + quiet;
    assert (before + [Begin(s)])[..|before|] == before;
    if quiet == [] {
      assert before == es + [TakeOver(s)] && before[..|es|] == es;
    } else {
      var n := |quiet| - 1;
      NewestMayExchange(es, s, quiet[..n]);
      assert before[..|before| - 1] == es + [TakeOver(s)] + quiet[..n];
    }
  }

  /** A session that closed, or any after a stop, begins nothing more. */
  lemma ClosedMayNot(l: Lan, s: nat)
    requires Inv(l)
    ensures Step(l, Close(s)).active != Some(s) && (l.active != Some(s) ==> Step(l, Close(s)) == l)
    ensures Step(l, Stop).active.None? && Step(l, Stop) == l.(active := None)
    ensures Possible(l, Begin(s)) && l.active != Some(s) ==> Step(l, Begin(s)) == l
  {
  }

  /** Session `s` is the last of `list` or none of it. */
  predicate Current(list: seq<nat>, s: nat) {
    list == [] || s !in list[..|list| - 1]
  }

  lemma OneStep(l: Lan, e: Event, early: seq<nat>)
    requires Inv(l) && Possible(l, e) && early <= l.tookOver
    ensures var k := Step(l, e);
      && l.tookOver <= k.tookOver
      && (k.exchanges == l.exchanges || exists s :: k.exchanges == l.exchanges + [s] && Current(early, s))
  {
    if e.Begin? && l.active == Some(e.s) {
      assert Current(early, e.s);
    }
  }

  /** `activeClient` and the transport lock, as the session threads use them. */
  class Server {
    var activeClient: Option<nat>
    var holder: Option<nat>
    ghost var tookOver: seq<nat>
    ghost var exchanges: seq<nat>

    ghost function Value(): Lan
      reads this
    {
      Lan(activeClient, tookOver, holder, exchanges)
    }

    constructor ()
      ensures Value() == START
    {
      activeClient, holder, tookOver, exchanges := None, None, [], [];
    }

    /** `getAndSet`; the previous session, if it is another one, is to be closed. */
    method Replace(s: nat) returns (close: Option<nat>)
      requires Possible(Value(), TakeOver(s))
      modifies this
      ensures Value() == Step(old(Value()), TakeOver(s))
      ensures close == if old(activeClient) == Some(s) then None else old(activeClient)
    {
      close := if activeClient == Some(s) then None else activeClient;
      activeClient, tookOver := Some(s), tookOver + [s];
    }

    /** Under the transport lock: the exchange goes ahead, or the session is told that it was superseded. */
    method Enter(s: nat) returns (ok: bool)
      requires Possible(Value(), Begin(s))
      modifies this
      ensures Value() == Step(old(Value()), Begin(s)) && ok == (old(activeClient) == Some(s))
    {
      if activeClient != Some(s) {
        return false;
      }
      holder, exchanges := Some(s), exchanges + [s];
      return true;
    }

    /** `compareAndSet` when a session ends. */
    method Ended(s: nat)
      modifies this
      ensures Value() == Step(old(Value()), Close(s))
    {
      if activeClient == Some(s) {
        activeClient := None;
      }
    }
  }
}
