/**
 * The per-user anti-spam limiter: a map from user id to the time of the last
 * action it let through. The clock value and the window are parameters.
 */
module Cooldown {

  /** `lastUse.get(userId) || 0`: an unknown user counts as last seen at 0. */
  function LastUse(lastUse: map<string, int>, user: string): (t: int)
  {
    if user in lastUse then lastUse[user] else 0
  }

  datatype Verdict = Verdict(blocked: bool, lastUse: map<string, int>)

  /** `onCooldown`: blocked while less than a window has passed since the last
      action let through; otherwise the action is let through and stamped. */
  function OnCooldown(lastUse: map<string, int>, user: string, now: int, windowMs: int): (v: Verdict)
    ensures v.blocked <==> now - LastUse(lastUse, user) < windowMs
    ensures v.blocked ==> v.lastUse == lastUse
    ensures !v.blocked ==> v.lastUse.Keys == lastUse.Keys + {user} && v.lastUse[user] == now
    ensures forall u | u in lastUse && u != user :: v.lastUse[u] == lastUse[u]
  {
    if now - LastUse(lastUse, user) < windowMs then Verdict(true, lastUse)
    else Verdict(false, lastUse[user := now])
  }

  /** After an action is let through at `now`, the same user is blocked
      exactly until a full window has passed. */
  lemma BlockedUntilWindowPasses(lastUse: map<string, int>, user: string, now: int, later: int, windowMs: int)
    requires !OnCooldown(lastUse, user, now, windowMs).blocked
    ensures var m := OnCooldown(lastUse, user, now, windowMs).lastUse;
            OnCooldown(m, user, later, windowMs).blocked <==> later - now < windowMs
  {
  }

  /** One user's action never changes another user's verdict. */
  lemma UsersIndependent(lastUse: map<string, int>, user: string, other: string, now: int, later: int, windowMs: int)
    requires user != other
    ensures var m := OnCooldown(lastUse, user, now, windowMs).lastUse;
            OnCooldown(m, other, later, windowMs).blocked == OnCooldown(lastUse, other, later, windowMs).blocked
  {
  }

  /** A 1000 ms window: let through at `t`, blocked at `t + 500`, let through
      again at `t + 1000`. A user never seen before is let through at any
      time at least one window after the epoch. */
  lemma ThreeCalls(user: string, t: int)
    requires t >= 1000
    ensures var first := OnCooldown(map[], user, t, 1000);
            var second := OnCooldown(first.lastUse, user, t + 500, 1000);
            var third := OnCooldown(second.lastUse, user, t + 1000, 1000);
            !first.blocked && second.blocked && !third.blocked
  {
  }
}
