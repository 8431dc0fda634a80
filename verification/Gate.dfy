/** The local approval gate: the prompt, the grant window an approval opens and the cooldown a refusal starts.
    Time is a number of milliseconds that never wraps; every function and method is one section under the lock. */
module Gate {
  import opened Bytes

  const GRANT_MS := 3000
  const DENY_MS := 3000
  const WAIT_MS := 30000

  datatype GateState = GateState(
    pending: bool, decided: bool, allowed: bool, requestId: u32,
    grantValid: bool, grantExpires: nat, denyValid: bool, denyExpires: nat)

  const CLOSED := GateState(false, false, false, 0, false, 0, false, 0)

  /** How a request fares before any waiting. */
  datatype Begun = Cooldown | Granted | Prompted

  /** How the wait for a decision ends. */
  datatype WaitEnd = Woken | TimedOut | Interrupted

  datatype Decision = NotPending | Stale | Accepted

  // ----- the locked sections -----

  function Begin(g: GateState, now: nat): (GateState, Begun) {
    if g.denyValid && now < g.denyExpires then (g, Cooldown) else
      var open := g.(denyValid := false);
      if open.grantValid && now < open.grantExpires then (open, Granted) else
        (open.(grantValid := false, requestId := (open.requestId + 1) % TWO_32,
               pending := true, decided := false, allowed := false), Prompted)
  }

  function StartCooldown(g: GateState, now: nat): GateState {
    g.(grantValid := false, denyValid := true, denyExpires := now + DENY_MS)
  }

  /** The lock is held again after the wait; true lets the request go on. */
  function Resume(g: GateState, end: WaitEnd, now: nat): (GateState, bool) {
    match end
    case Interrupted => (g.(pending := false), false)
    case TimedOut => (StartCooldown(g.(pending := false, decided := false), now), false)
    case Woken =>
      var over := g.(pending := false, decided := false);
      if !over.allowed then (StartCooldown(over, now), false)
      else (over.(denyValid := false, grantValid := true, grantExpires := now + GRANT_MS), true)
  }

  function Decide(g: GateState, allow: bool, requestId: u32, checkId: bool): (GateState, Decision) {
    if !g.pending then (g, NotPending)
    else if checkId && requestId != g.requestId then (g, Stale)
    else (g.(allowed := allow, decided := true, grantValid := allow && g.grantValid), Accepted)
  }

  /** What the status file reports: the milliseconds left in the grant window and in the cooldown. */
  function WindowsLeft(g: GateState, now: nat): (nat, nat) {
    (if g.grantValid && now < g.grantExpires then g.grantExpires - now else 0,
     if g.denyValid && now < g.denyExpires then g.denyExpires - now else 0)
  }

  /** The reported windows foretell the next request: refused while the cooldown runs, else let through while the
      grant runs, else prompted. */
  lemma WindowsForetell(g: GateState, now: nat)
    ensures var (grant, deny) := WindowsLeft(g, now);
      && (Begin(g, now).1 == Cooldown <==> deny > 0)
      && (Begin(g, now).1 == Granted <==> deny == 0 && grant > 0)
  {
  }

  /** A decision has an effect exactly when a request is pending and the id, if one is given, is that request's. */
  lemma DecisionCountsIff(g: GateState, allow: bool, requestId: u32, checkId: bool)
    ensures var (after, d) := Decide(g, allow, requestId, checkId);
      && (d == Accepted <==> g.pending && (checkId ==> requestId == g.requestId))
      && (d != Accepted ==> after == g)
      && (d == Accepted ==> after.decided && after.allowed == allow && after.requestId == g.requestId && after.pending)
  {
  }

  /** The gate fields of the device, changed in place under its lock. */
  class AuthGate {
    var pending: bool
    var decided: bool
    var allowed: bool
    var requestId: u32
    var grantValid: bool
    var grantExpires: nat
    var denyValid: bool
    var denyExpires: nat

    ghost function Value(): GateState
      reads this
    {
      GateState(pending, decided, allowed, requestId, grantValid, grantExpires, denyValid, denyExpires)
    }

    constructor ()
      ensures Value() == CLOSED
    {
      pending, decided, allowed, requestId := false, false, false, 0;
      grantValid, grantExpires, denyValid, denyExpires := false, 0, false, 0;
    }

    method StartCooldownLocked(now: nat)
      modifies this
      ensures Value() == StartCooldown(old(Value()), now)
    {
      grantValid := false;
      denyValid := true;
      denyExpires := now + DENY_MS;
    }

    /** Up to the point where the lock is dropped to wait. */
    method BeginLocked(now: nat) returns (begun: Begun)
      modifies this
      ensures (Value(), begun) == Begin(old(Value()), now)
    {
      if denyValid {
        if now < denyExpires {
          return Cooldown;
        }
        denyValid := false;
      }
      if grantValid && now < grantExpires {
        return Granted;
      }
      grantValid := false;
      requestId := (requestId + 1) % TWO_32;
      pending, decided, allowed := true, false, false;
      return Prompted;
    }

    /** From the point where the lock is taken again. */
    method ResumeLocked(end: WaitEnd, now: nat) returns (ok: bool)
      modifies this
      ensures (Value(), ok) == Resume(old(Value()), end, now)
    {
      if end == Interrupted {
        pending := false;
        return false;
      }
      if end == TimedOut {
        pending, decided := false, false;
        StartCooldownLocked(now);
        return false;
      }
      pending, decided := false, false;
      if !allowed {
        StartCooldownLocked(now);
        return false;
      }
      denyValid := false;
      grantValid, grantExpires := true, now + GRANT_MS;
      return true;
    }

    method DecideLocked(allow: bool, id: u32, checkId: bool) returns (d: Decision)
      modifies this
      ensures (Value(), d) == Decide(old(Value()), allow, id, checkId)
    {
      if !pending {
        return NotPending;
      }
      if checkId && id != requestId {
        return Stale;
      }
      allowed, decided := allow, true;
      if !allow {
        grantValid := false;
      }
      return Accepted;
    }
  }
}
