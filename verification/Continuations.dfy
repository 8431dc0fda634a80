/** The getAssertion continuation over whole runs: what is served, in which order, and when it ends. */
module Continuations {
  import opened Bytes
  import opened RequestParsers
  import opened StoreImage
  import opened Gate
  import opened Handlers
  import opened Runs
  import opened Approvals
  import opened Commands

  predicate IsFirst(w: What) { w.Replied? && w.answer.FirstServed? }

  predicate IsNext(w: What) { w.Replied? && w.answer.NextServed? }

  /** The slots that successful getNextAssertion calls served from entry `from` on, in order. */
  function Served(log: seq<Entry>, from: nat): seq<byte> {
    if |log| <= from then [] else
      var n := |log| - 1;
      Served(log[..n], from) + if IsNext(log[n].what) then [log[n].what.answer.slot] else []
  }

  lemma {:induction false} ServedFollows(log: seq<Entry>, j: nat)
    requires Obeys(log) && j < |log| && IsFirst(log[j].what) && forall k :: j < k < |log| ==> !IsFirst(log[k].what)
    ensures var list := log[j].what.answer.slots; var offer := Watch(log).offer;
      && list != [] && Ascending(list) && Served(log, j + 1) <= list[1..]
      && (offer.Some? ==> offer.value.rest != [] && Served(log, j + 1) + offer.value.rest == list[1..])
    decreases |log|
  {
    hide Obeys;
    hide Ascending;
    hide Watch;
    hide Observe;
    hide Permitted;
    var n := |log| - 1;
    ObeysAt(log, n);
    assert log[..n + 1] == log;
    if j < n {
      var front := log[..n];
      ServedFollows(front, j);
      ServeOne(Watch(front), log[n], Served(front, j + 1), log[j].what.answer.slots[1..]);
      assert IsNext(log[n].what) || Served(log, j + 1) == Served(front, j + 1);
    } else {
      OpensOffer(Watch(log[..n]), log[n]);
      assert Served(log, j + 1) == [];
    }
  }

  /** One more entry: the next slot of the list is served, or nothing is. */
  lemma ServeOne(m: Monitor, e: Entry, done: seq<byte>, list: seq<byte>)
    requires Permitted(m, e) && !IsFirst(e.what) && done <= list
    requires m.offer.Some? ==> m.offer.value.rest != [] && done + m.offer.value.rest == list
    ensures var next := if IsNext(e.what) then done + [e.what.answer.slot] else done;
      var offer := Observe(m, e).offer;
      next <= list && (offer.Some? ==> offer.value.rest != [] && next + offer.value.rest == list)
  {
    if IsNext(e.what) {
      var slot, rest := e.what.answer.slot, m.offer.value.rest;
      assert rest == [slot] + rest[1..];
      assert done + [slot] + rest[1..] == done + rest;
    }
  }

  lemma OpensOffer(m: Monitor, e: Entry)
    requires Permitted(m, e) && IsFirst(e.what)
    ensures var list := e.what.answer.slots; var offer := Observe(m, e).offer;
      list != [] && Ascending(list) && (offer.Some? ==> offer.value.rest == list[1..] && offer.value.rest != [])
  {
  }

  /** A later assertion is signed for the same relying party and over the same client data hash. */
  predicate SameSubject(w: What, first: Answer)
    requires first.FirstServed?
  {
    IsNext(w) ==> w.answer.rpId == first.rpId && w.answer.hash == first.hash
  }

  lemma {:induction false} SubjectFollows(log: seq<Entry>, j: nat)
    requires Obeys(log) && j < |log| && IsFirst(log[j].what) && forall k :: j < k < |log| ==> !IsFirst(log[k].what)
    ensures var first := log[j].what.answer; var offer := Watch(log).offer;
      && (offer.Some? ==> offer.value.rpId == first.rpId && offer.value.hash == first.hash)
      && forall k :: j < k < |log| ==> SameSubject(log[k].what, first)
    decreases |log|
  {
    hide Obeys;
    hide Watch;
    hide Observe;
    hide Permitted;
    hide SameSubject;
    var n := |log| - 1;
    ObeysAt(log, n);
    assert log[..n + 1] == log;
    if j < n {
      var front := log[..n];
      assert forall k :: j < k < n ==> front[k] == log[k];
      SubjectFollows(front, j);
      SubjectStays(Watch(front), log[n], log[j].what.answer);
    } else {
      SubjectOpens(Watch(log[..n]), log[n]);
    }
  }

  lemma SubjectStays(m: Monitor, e: Entry, first: Answer)
    requires Permitted(m, e) && !IsFirst(e.what) && first.FirstServed?
    requires m.offer.Some? ==> m.offer.value.rpId == first.rpId && m.offer.value.hash == first.hash
    ensures SameSubject(e.what, first)
    ensures var offer := Observe(m, e).offer; offer.Some? ==> offer.value.rpId == first.rpId && offer.value.hash == first.hash
  {
  }

  lemma SubjectOpens(m: Monitor, e: Entry)
    requires IsFirst(e.what)
    ensures var offer := Observe(m, e).offer; offer.Some? ==> offer.value.rpId == e.what.answer.rpId && offer.value.hash == e.what.answer.hash
  {
  }

  /** In every run: after a getAssertion answered with the first of `list`, the successful getNextAssertion calls up to the
      next such answer serve a prefix of the rest of `list`, in its order, so no slot twice, and sign for its relying party
      over its client data hash. */
  lemma ServedInOrderOnce(store: Store, es: seq<Event>, j: nat)
    requires |store.creds| == MAX_CREDS && j < |Run(store, es).log|
    requires var log := Run(store, es).log; IsFirst(log[j].what) && forall k :: j < k < |log| ==> !IsFirst(log[k].what)
    ensures var log := Run(store, es).log;
      var list, served := log[j].what.answer.slots, Served(log, j + 1);
      && list != [] && served <= list[1..] && Ascending([list[0]] + served)
      && forall k :: j < k < |log| ==> SameSubject(log[k].what, log[j].what.answer)
  {
    hide Run;
    hide Obeys;
    hide Watch;
    var log := Run(store, es).log;
    ServedFollows(log, j);
    SubjectFollows(log, j);
    var list, served := log[j].what.answer.slots, Served(log, j + 1);
    assert [list[0]] + served == list[..|served| + 1];
  }

  /** An offer that was ended, or served to its end, brings no further assertion until a new getAssertion succeeds. */
  lemma {:induction false} NothingAfterTheEnd(log: seq<Entry>, j: nat)
    requires Obeys(log) && j <= |log| && Watch(log[..j]).offer.None? && forall k :: j <= k < |log| ==> !IsFirst(log[k].what)
    ensures Served(log, j) == [] && Watch(log).offer.None?
    decreases |log|
  {
    hide Obeys;
    hide Watch;
    hide Observe;
    hide Permitted;
    assert log[..|log|] == log;
    if j < |log| {
      var n := |log| - 1;
      ObeysAt(log, n);
      assert log[..n + 1] == log && log[..n][..j] == log[..j];
      NothingAfterTheEnd(log[..n], j);
      StaysEnded(Watch(log[..n]), log[n]);
    }
  }

  lemma StaysEnded(m: Monitor, e: Entry)
    requires m.offer.None? && Permitted(m, e) && !IsFirst(e.what)
    ensures !IsNext(e.what) && Observe(m, e).offer.None?
  {
  }

  /** In every run: while nothing is on offer, no client data hash is kept. */
  lemma HashIsWiped(store: Store, es: seq<Event>)
    requires |store.creds| == MAX_CREDS && Watch(Run(store, es).log).offer.None?
    ensures var c := Run(store, es).dev.cont; !c.valid && forall i :: 0 <= i < |c.hash| ==> c.hash[i] == 0
  {
    hide Run;
    hide Watch;
    hide Obeys;
  }

  // ----- what one call does -----

  /** What a call for the next assertion finds in the log. */
  function OnOffer(s: System): Option<Offer> {
    Watch(s.log).offer
  }

  /** A getNextAssertion is answered "not allowed", without a prompt, exactly when nothing is on offer or its 30 s are over. */
  lemma NextRefusedIff(s: System, rest: seq<byte>, luck: Luck)
    requires Inv(s) && s.phase.Idle? && luck.Shaped()
    ensures Formed(s)
    ensures var after := Step(s, Command([0x08] + rest, luck));
      Told(s, after, Failed(NotAllowed)) <==> OnOffer(s).None? || OnOffer(s).value.until <= s.now
  {
    hide Step;
    hide Watch;
    hide Obeys;
    hide GateTied;
    hide OfferTied;
    hide PhaseTied;
    GetNextAssertionDoes(s, rest, luck);
  }

  /** In every run: once as many calls succeeded as credentials were left, exactly the rest of the list was served, and the
      next call is refused without a prompt. */
  lemma AllServedThenRefused(store: Store, es: seq<Event>, j: nat, rest: seq<byte>, luck: Luck)
    requires |store.creds| == MAX_CREDS && j < |Run(store, es).log| && luck.Shaped() && Run(store, es).phase.Idle?
    requires var log := Run(store, es).log;
      && IsFirst(log[j].what) && (forall k :: j < k < |log| ==> !IsFirst(log[k].what))
      && |Served(log, j + 1)| + 1 >= |log[j].what.answer.slots|
    ensures Formed(Run(store, es))
    ensures var s := Run(store, es);
      var list := s.log[j].what.answer.slots;
      && list != [] && Served(s.log, j + 1) == list[1..]
      && Told(s, Step(s, Command([0x08] + rest, luck)), Failed(NotAllowed))
  {
    hide Run;
    hide Watch;
    hide Obeys;
    hide Step;
    hide Told;
    var s := Run(store, es);
    ServedFollows(s.log, j);
    NextRefusedIff(s, rest, luck);
  }

  /** Within the grant window the next assertion on offer is served without a prompt, and the offer moves on by one. */
  lemma NextIsServed(s: System, rest: seq<byte>, luck: Luck)
    requires Inv(s) && s.phase.Idle? && luck.Shaped() && luck.crypto
    requires OnOffer(s).Some? && s.now < OnOffer(s).value.until
    requires var slot := OnOffer(s).value.rest[0]; slot < MAX_CREDS && s.dev.store.creds[slot].inUse
    requires WindowsLeft(s.dev.gate, s.now).0 > 0
    ensures Formed(s)
    ensures var after := Step(s, Command([GET_NEXT_ASSERTION] + rest, luck));
      var o := OnOffer(s).value;
      var list := o.rest;
      && after.log == Say(Say(s.log, s.now, GrantUsed), s.now, Replied(NextServed(list[0], (s.dev.store.signCount + 1) % TWO_32, o.rpId, o.hash)))
      && OnOffer(after) == (if |list| > 1 then Some(o.(rest := list[1..], until := s.now + ASSERT_WINDOW_MS)) else None)
  {
    hide Watch;
    hide Obeys;
    hide Say;
    hide Ascending;
    assert ([GET_NEXT_ASSERTION] + rest)[0] == GET_NEXT_ASSERTION;
    var log := Say(s.log, s.now, GrantUsed);
    Said(s.log, s.now, GrantUsed);
    Said(log, s.now, Replied(NextServed(OnOffer(s).value.rest[0], (s.dev.store.signCount + 1) % TWO_32,
      OnOffer(s).value.rpId, OnOffer(s).value.hash)));
  }

  /** A command other than getNextAssertion leaves an offer as it was if it is empty or a getAssertion that does not parse;
      after every other one there is no offer but one that this very command's first assertion opened. */
  lemma OfferSurvivesIff(s: System, msg: seq<byte>, luck: Luck)
    requires Inv(s) && s.phase.Idle? && luck.Shaped() && OnOffer(s).Some?
    requires msg != [] ==> msg[0] != GET_NEXT_ASSERTION
    ensures Formed(s)
    ensures var after := Step(s, Command(msg, luck));
      if msg == [] || (msg[0] == GET_ASSERTION && ParseGetAssertion(msg[1..]).None?)
      then after.dev.cont == s.dev.cont && OnOffer(after) == OnOffer(s)
      else OnOffer(after).Some? ==> IsFirst(after.log[|after.log| - 1].what)
  {
    hide Watch;
    hide Obeys;
    hide Begin;
    hide Finish;
    hide Prepare;
    hide WellPlanned;
    hide GateTied;
    hide ParseGetAssertion;
    var (cont, prepared) := Prepare(s.dev, msg, s.now);
    EndsUnless(s.dev, msg, s.now);
    PlansFit(s.dev, msg, s.now);
    ReceiveKeeps(s, msg, luck);
    Said(s.log, s.now, Replied(Failed(Malformed)));
    if prepared.Ask? {
      OpensOnlyFirst(s.dev.(gate := Begin(s.dev.gate, s.now).0, cont := cont), prepared.plan, s.now, luck);
    }
  }

  lemma EndsUnless(d: Device, msg: seq<byte>, now: nat)
    requires d.Shaped() && d.cont.count <= MAX_CREDS && (msg != [] ==> msg[0] != GET_NEXT_ASSERTION)
    ensures var (cont, p) := Prepare(d, msg, now);
      |cont.slots| == |d.cont.slots| &&
      if msg == [] || (msg[0] == GET_ASSERTION && ParseGetAssertion(msg[1..]).None?)
      then cont == d.cont && p == Answered(Failed(Malformed))
      else !cont.valid && (p.Ask? ==> !p.plan.Next?)
  {
    hide ParseGetAssertion;
    hide ParseMakeCredential;
    hide Collect;
    hide IsSelection;
  }

  lemma OpensOnlyFirst(d: Device, plan: Plan, now: nat, luck: Luck)
    requires d.Shaped() && WellPlanned(plan) && luck.Shaped() && !d.cont.valid && !plan.Next?
    ensures var (after, answer) := Finish(d, plan, now, luck); after.cont.valid ==> answer.FirstServed?
  {
    hide FinishCreate;
    hide HmacError;
    if plan.Create? {
      CreateKeepsContinuation(d, plan.make, luck);
    }
  }

  lemma CreateKeepsContinuation(d: Device, req: MakeReq, luck: Luck)
    requires d.Shaped() && WellPlanned(Create(req)) && luck.Shaped()
    ensures FinishCreate(d, req, luck).0.cont == d.cont
  {
    hide NewCredential;
    hide Excluded;
    hide FreeSlot;
  }

  /** While a request waits, its plan is fixed and other events leave the continuation alone; only a replaced store can
      change the credentials under the plan, and the handler does not look at them again. */
  lemma PlanStays(s: System, e: Event)
    requires Inv(s) && Formed(s) && !s.phase.Idle? && Possible(s, e) && !e.Continue?
    ensures var after := Step(s, e); !after.phase.Idle? && after.phase.plan == s.phase.plan && after.dev.cont == s.dev.cont
    ensures !e.StoreReplaced? ==> Step(s, e).dev.store == s.dev.store
  {
  }
}
