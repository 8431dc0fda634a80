/** What the policy means for every run: approvals, refusals, and the getAssertion continuation. */
module Approvals {
  import opened Bytes
  import opened RequestParsers
  import opened StoreImage
  import opened Gate
  import opened Handlers
  import opened Runs

  /** All events in order, from a booted device with any store; an event that cannot happen in its state is passed over.
      The log obeys the policy, and the device's fields are what the log says they are. */
  function Run(store: Store, es: seq<Event>): (s: System)
    requires |store.creds| == MAX_CREDS
    ensures Inv(s)
    decreases |es|
  {
    if es == [] then BootInv(store); Boot(store) else
      var before := Run(store, es[..|es| - 1]);
      InvFormed(before);
      var e := es[|es| - 1];
      if Possible(before, e) then
        StepKeeps(before, e);
        Step(before, e)
      else before
  }

  lemma BootInv(store: Store)
    requires |store.creds| == MAX_CREDS
    ensures Inv(Boot(store))
  {
  }

  // ----- reading the policy off a log -----

  lemma {:induction false} ObeysAt(log: seq<Entry>, i: nat)
    requires Obeys(log) && i < |log|
    ensures Obeys(log[..i]) && Permitted(Watch(log[..i]), log[i])
    ensures Watch(log[..i + 1]) == Observe(Watch(log[..i]), log[i])
    decreases |log|
  {
    hide Permitted;
    hide Observe;
    assert log[..i + 1][..i] == log[..i];
    if i < |log| - 1 {
      var front := log[..|log| - 1];
      assert front[..i] == log[..i] && front[..i + 1] == log[..i + 1];
      ObeysAt(front, i);
    } else {
      assert log[..i + 1] == log;
    }
  }

  lemma {:induction false} TimeNeverFallsBack(log: seq<Entry>, i: nat, j: nat)
    requires Obeys(log) && i <= j < |log|
    ensures log[i].at <= log[j].at
    decreases j
  {
    hide Permitted;
    if i < j {
      ObeysAt(log, j);
      ObeysAt(log, j - 1);
      LaterThan(Watch(log[..j]), log[j]);
      TimeNeverFallsBack(log, i, j - 1);
    }
  }

  lemma LaterThan(m: Monitor, e: Entry)
    requires Permitted(m, e)
    ensures m.lastAt <= e.at
  {
  }

  /** Entry `v` is the last one before `n` that moved the gate. */
  ghost predicate LastMove(log: seq<Entry>, v: int, n: nat)
    requires n <= |log|
  {
    0 <= v < n && MovesGate(log[v].what) && forall k :: v < k < n ==> !MovesGate(log[k].what)
  }

  /** The gate as the policy sees it is what its last move left. */
  lemma {:induction false} GateIsLastMove(log: seq<Entry>, n: nat) returns (v: int)
    requires n <= |log|
    ensures if v < 0 then Watch(log[..n]).gate == Quiet && forall k :: 0 <= k < n ==> !MovesGate(log[k].what)
      else LastMove(log, v, n) && Watch(log[..n]).gate == GateAfter(Quiet, log[v])
    decreases n
  {
    v := -1;
    if n > 0 {
      var front := log[..n];
      assert front[..n - 1] == log[..n - 1];
      if MovesGate(log[n - 1].what) {
        v := n - 1;
      } else {
        v := GateIsLastMove(log, n - 1);
      }
    }
  }

  lemma GateOfLastMove(log: seq<Entry>, v: nat, n: nat)
    requires n <= |log| && LastMove(log, v, n)
    ensures Watch(log[..n]).gate == GateAfter(Quiet, log[v])
  {
    hide GateAfter;
    var w := GateIsLastMove(log, n);
    assert v <= w;
    assert w <= v;
  }

  /** Entry `p` shows the prompt `id`, and nothing but decisions about it moved the gate since. */
  ghost predicate PromptOpen(log: seq<Entry>, p: int, n: nat, id: u32)
    requires n <= |log|
  {
    && 0 <= p < n && log[p].what == PromptShown(id)
    && forall k :: p < k < n && MovesGate(log[k].what) ==> log[k].what.Verdict? && log[k].what.id == id
  }

  predicate Pending(g: GateView, id: u32) {
    g == Asked(id) || (g.Judged? && g.id == id)
  }

  lemma {:induction false} PendingHasPrompt(log: seq<Entry>, n: nat, id: u32) returns (p: nat)
    requires Obeys(log) && n <= |log| && Pending(Watch(log[..n]).gate, id)
    ensures PromptOpen(log, p, n, id) && log[p].at == Watch(log[..n]).askedAt
    decreases n
  {
    hide Obeys;
    assert log[..0] == [];
    p := 0;
    if n > 0 {
      ObeysAt(log, n - 1);
      p := n - 1;
      if !log[n - 1].what.PromptShown? {
        p := PendingHasPrompt(log, n - 1, id);
      }
    }
  }

  // ----- nothing is released without the user -----

  /** Entry `k` approves prompt `id`: the prompt was shown, only decisions about it followed, and the last of them allowed. */
  ghost predicate ByVerdict(log: seq<Entry>, k: nat)
    requires k < |log|
  {
    && log[k].what.Approved?
    && exists p, v ::
        && PromptOpen(log, p, k, log[k].what.id) && LastMove(log, v, k)
        && log[v].what == Verdict(log[k].what.id, true)
  }

  /** Entry `k` uses the grant: less than 3 s before, a request was approved, and the gate has not moved since. */
  ghost predicate ByGrant(log: seq<Entry>, k: nat)
    requires k < |log|
  {
    && log[k].what.GrantUsed?
    && exists v :: LastMove(log, v, k) && log[v].what.Approved? && log[k].at < log[v].at + GRANT_MS
  }

  lemma ApprovalBehindRelease(log: seq<Entry>, i: nat)
    requires Obeys(log) && i < |log| && Releases(log[i].what)
    ensures i > 0 && log[i - 1].at == log[i].at && (log[i - 1].what.Approved? || log[i - 1].what.GrantUsed?)
  {
    assert log[..0] == [];
    ObeysAt(log, i);
    if i > 0 {
      ObeysAt(log, i - 1);
    }
  }

  lemma ApprovedByVerdict(log: seq<Entry>, k: nat)
    requires Obeys(log) && k < |log| && log[k].what.Approved?
    ensures ByVerdict(log, k)
  {
    hide Watch;
    ObeysAt(log, k);
    var id := log[k].what.id;
    var p := PendingHasPrompt(log, k, id);
    var v := GateIsLastMove(log, k);
    assert log[v].what == Verdict(id, true);
  }

  lemma GrantedByApproval(log: seq<Entry>, k: nat)
    requires Obeys(log) && k < |log| && log[k].what.GrantUsed?
    ensures ByGrant(log, k)
  {
    hide Watch;
    ObeysAt(log, k);
    var v := GateIsLastMove(log, k);
    assert log[v].what.Approved?;
  }

  /** In every run, every assertion, registration and reset happens at once after an approval whose prompt's last decision
      was to allow, or at once after a use of a grant less than 3 s old with no prompt, refusal or interruption since. */
  lemma EveryReleaseIsApproved(store: Store, es: seq<Event>, i: nat)
    requires |store.creds| == MAX_CREDS && i < |Run(store, es).log| && Releases(Run(store, es).log[i].what)
    ensures var log := Run(store, es).log;
      i > 0 && log[i - 1].at == log[i].at && (ByVerdict(log, i - 1) || ByGrant(log, i - 1))
  {
    hide Run;
    hide ByVerdict;
    hide ByGrant;
    hide Obeys;
    var log := Run(store, es).log;
    ApprovalBehindRelease(log, i);
    if log[i - 1].what.Approved? {
      ApprovedByVerdict(log, i - 1);
    } else {
      GrantedByApproval(log, i - 1);
    }
  }

  // ----- a refusal shuts the gate -----

  /** What cannot happen while the cooldown runs. */
  predicate NeedsOpenGate(w: What) {
    MovesGate(w) || w.GrantUsed? || Releases(w)
  }

  lemma {:induction false} ShutAfterRefusal(log: seq<Entry>, j: nat, i: nat)
    requires Obeys(log) && j < i < |log| && log[j].what.Refused? && log[i].at < log[j].at + DENY_MS
    ensures forall k :: j < k <= i ==> !NeedsOpenGate(log[k].what)
    decreases i
  {
    hide Watch;
    hide Obeys;
    if j + 1 < i {
      TimeNeverFallsBack(log, i - 1, i);
      ShutAfterRefusal(log, j, i - 1);
    }
    assert LastMove(log, j, i);
    GateOfLastMove(log, j, i);
    ObeysAt(log, i);
    if Releases(log[i].what) {
      ApprovalBehindRelease(log, i);
      assert false;
    }
  }

  /** In every run, for 3 s after a denied or unanswered prompt nothing is released, no prompt is shown, no decision counts
      and no grant is used; with no prompt the request id stands still. */
  lemma RefusalShutsTheGate(store: Store, es: seq<Event>, j: nat, i: nat)
    requires |store.creds| == MAX_CREDS && j < i < |Run(store, es).log|
    requires var log := Run(store, es).log; log[j].what.Refused? && log[i].at < log[j].at + DENY_MS
    ensures !NeedsOpenGate(Run(store, es).log[i].what)
    ensures var log := Run(store, es).log; Watch(log[..i + 1]).prompts == Watch(log[..j + 1]).prompts
  {
    hide Run;
    hide Obeys;
    hide NeedsOpenGate;
    var log := Run(store, es).log;
    ShutAfterRefusal(log, j, i);
    NoPromptsBetween(log, j + 1, i + 1);
  }

  lemma {:induction false} NoPromptsBetween(log: seq<Entry>, a: nat, b: nat)
    requires a <= b <= |log| && forall k :: a <= k < b ==> !NeedsOpenGate(log[k].what)
    ensures Watch(log[..b]).prompts == Watch(log[..a]).prompts
    decreases b
  {
    if a < b {
      NoPromptsBetween(log, a, b - 1);
      assert log[..b][..b - 1] == log[..b - 1];
    }
  }

  /** And for those 3 s every request that would need the user is turned away without touching the gate. */
  lemma CooldownRefuses(store: Store, es: seq<Event>, j: nat, msg: seq<byte>, luck: Luck)
    requires |store.creds| == MAX_CREDS && j < |Run(store, es).log| && luck.Shaped()
    requires var s := Run(store, es);
      s.phase.Idle? && s.log[j].what.Refused? && s.now < s.log[j].at + DENY_MS && Prepare(s.dev, msg, s.now).1.Ask?
    ensures var s := Run(store, es);
      var after := Step(s, Command(msg, luck));
      && after.dev.gate == s.dev.gate && after.dev.store == s.dev.store && after.phase.Idle?
      && |after.log| >= 2 && after.log[|after.log| - 2..] == [Entry(s.now, Blocked), Entry(s.now, Replied(Failed(NotPermitted)))]
  {
    hide Run;
    hide Watch;
    hide Obeys;
    hide Prepare;
    hide Complete;
    hide WellPlanned;
    hide NeedsOpenGate;
    var s := Run(store, es);
    var n := |s.log|;
    assert s.log[..n] == s.log && s.log[..n - 1 + 1] == s.log;
    ObeysAt(s.log, n - 1);
    if j < n - 1 {
      ShutAfterRefusal(s.log, j, n - 1);
    }
    StillShut(s.log, j);
    GateOfLastMove(s.log, j, n);
    PlansFit(s.dev, msg, s.now);
    ContShape(s.dev, msg, s.now);
  }

  lemma StillShut(log: seq<Entry>, j: nat)
    requires j < |log| && MovesGate(log[j].what) && forall k :: j < k < |log| ==> !NeedsOpenGate(log[k].what)
    ensures LastMove(log, j, |log|)
  {
  }

  /** A refusal is a denied prompt or one that stood for the whole 30 s, whatever else was decided. */
  lemma RefusedBecause(store: Store, es: seq<Event>, i: nat)
    requires |store.creds| == MAX_CREDS && i < |Run(store, es).log| && Run(store, es).log[i].what.Refused?
    ensures var log := Run(store, es).log;
      exists p :: PromptOpen(log, p, i, log[i].what.id)
        && (log[p].at + WAIT_MS <= log[i].at || exists v :: LastMove(log, v, i) && log[v].what == Verdict(log[i].what.id, false))
  {
    hide Run;
    hide Obeys;
    hide Watch;
    hide LastMove;
    var log := Run(store, es).log;
    var id := log[i].what.id;
    ObeysAt(log, i);
    var p := PendingHasPrompt(log, i, id);
    var v := GateIsLastMove(log, i);
    assert PromptOpen(log, p, i, id);
    if log[p].at + WAIT_MS > log[i].at {
      assert log[v].what == Verdict(id, false);
      assert LastMove(log, v, i);
    }
  }

  /** The grant window and the cooldown are never both open. */
  lemma WindowsExclusive(store: Store, es: seq<Event>)
    requires |store.creds| == MAX_CREDS
    ensures var s := Run(store, es); !(s.dev.gate.grantValid && s.dev.gate.denyValid)
    ensures var s := Run(store, es); WindowsLeft(s.dev.gate, s.now).0 == 0 || WindowsLeft(s.dev.gate, s.now).1 == 0
  {
    hide Run;
    hide Obeys;
    hide Watch;
  }

  /** Two prompts fewer than 2^32 apart carry different ids, so an answer meant for one never decides the other. */
  lemma PromptIdsDiffer(log: seq<Entry>, i: nat, j: nat)
    requires Obeys(log) && i < j < |log| && log[i].what.PromptShown? && log[j].what.PromptShown?
    requires Watch(log[..j]).prompts < Watch(log[..i]).prompts + TWO_32
    ensures log[i].what.id != log[j].what.id
  {
    hide Watch;
    hide Obeys;
    ObeysAt(log, i);
    ObeysAt(log, j);
    PromptsGrow(log, i + 1, j);
    DifferentResidues(Watch(log[..i]).prompts + 1, Watch(log[..j]).prompts + 1);
  }

  lemma DifferentResidues(a: nat, b: nat)
    requires a < b < a + TWO_32
    ensures a % TWO_32 != b % TWO_32
  {
  }

  lemma {:induction false} PromptsGrow(log: seq<Entry>, a: nat, b: nat)
    requires a <= b <= |log|
    ensures Watch(log[..a]).prompts <= Watch(log[..b]).prompts
    decreases b
  {
    if a < b {
      PromptsGrow(log, a, b - 1);
      assert log[..b][..b - 1] == log[..b - 1];
    }
  }

  /** A decision that names another request, or comes when none is pending, changes nothing at all. */
  lemma StaleDecisionChangesNothing(store: Store, es: seq<Event>, allow: bool, id: u32)
    requires |store.creds| == MAX_CREDS
    requires Run(store, es).phase.Idle? || id != Run(store, es).dev.gate.requestId
    ensures Run(store, es + [Decision(allow, id, true)]) == Run(store, es)
  {
    var all := es + [Decision(allow, id, true)];
    assert all[..|es|] == es;
    var s := Run(store, es);
    assert s.phase.Idle? ==> !s.dev.gate.pending;
    assert Run(store, all) == Step(s, Decision(allow, id, true));
  }

  // ----- nothing is changed without the user -----

  /** A grant was used or a request approved at or after entry `from`. */
  ghost predicate ApprovedSince(log: seq<Entry>, from: nat) {
    exists k :: from <= k < |log| && (log[k].what.Approved? || log[k].what.GrantUsed?)
  }

  lemma SayApproves(log: seq<Entry>, from: nat, at: nat, what: What, more: What)
    requires from <= |log| && (what.Approved? || what.GrantUsed?)
    ensures ApprovedSince(Say(Say(log, at, what), at, more), from)
  {
    assert Say(Say(log, at, what), at, more)[|log|].what == what;
  }

  /** Apart from a restore, no step changes the credentials, the counter or any other part of the store unless that very
      step used a grant or saw its request approved. */
  lemma StoreChangesNeedApproval(s: System, e: Event)
    requires Inv(s) && Formed(s) && Possible(s, e) && !e.StoreReplaced?
    ensures var after := Step(s, e);
      after.dev.store == s.dev.store || ApprovedSince(after.log, |s.log|)
  {
    hide Watch;
    hide Obeys;
    hide Prepare;
    hide Finish;
    hide WellPlanned;
    hide GateTied;
    hide Begin;
    hide Resume;
    hide Decide;
    hide Say;
    hide ApprovedSince;
    match e
    case Command(msg, luck) =>
      var (cont, prepared) := Prepare(s.dev, msg, s.now);
      PlansFit(s.dev, msg, s.now);
      if prepared.Ask? {
        var log := if cont == s.dev.cont then s.log else Say(s.log, s.now, Ended);
        assert |s.log| <= |log| by {
          Longer(s.log, s.now, Ended);
        }
        var dev := s.dev.(gate := Begin(s.dev.gate, s.now).0, cont := cont);
        ContShape(s.dev, msg, s.now);
        SayApproves(log, |s.log|, s.now, GrantUsed, Replied(Finish(dev, prepared.plan, s.now, luck).1));
      }
    case Continue(luck) =>
      var dev := s.dev.(gate := Resume(s.dev.gate, s.phase.end, s.now).0);
      SayApproves(s.log, |s.log|, s.now, Approved(s.dev.gate.requestId), Replied(Finish(dev, s.phase.plan, s.now, luck).1));
    case _ =>
  }

  lemma Longer(log: seq<Entry>, at: nat, what: What)
    ensures |log| <= |Say(log, at, what)|
  {
  }

  lemma ContShape(d: Device, msg: seq<byte>, now: nat)
    requires d.Shaped() && d.cont.count <= MAX_CREDS
    ensures |Prepare(d, msg, now).0.slots| == MAX_CREDS
  {
    hide ParseGetAssertion;
    hide ParseMakeCredential;
    hide Collect;
  }

  /** A request always gets an answer: once its 30 s are over, its wait can end, and then the handler can go on. */
  lemma WaitsEnd(s: System, luck: Luck)
    requires Inv(s) && luck.Shaped() && !s.phase.Idle?
    ensures s.phase.Waiting? && s.phase.since + WAIT_MS <= s.now ==>
      exists end :: Possible(s, WaitEnds(end)) && Formed(s) && Step(s, WaitEnds(end)).phase.Returned?
    ensures s.phase.Returned? ==> Formed(s) && Possible(s, Event.Continue(luck)) && Step(s, Event.Continue(luck)).phase.Idle?
  {
    hide Watch;
    hide Obeys;
    hide Finish;
    hide Resume;
    if s.phase.Waiting? && s.phase.since + WAIT_MS <= s.now {
      var end := if s.dev.gate.decided then Woken else TimedOut;
      assert Possible(s, WaitEnds(end));
      assert Step(s, WaitEnds(end)).phase.Returned?;
    }
  }
}
