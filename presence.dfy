/**
 * `checkUserOnline`: a user counts as online when their last-seen time is
 * less than two minutes before now. The current time is a parameter instead
 * of `Date.now()`; a missing last-seen time is None.
 */
module Presence {
  import opened Wrappers

  const OnlineWindow := 120000

  /**
   * Missing or zero last-seen times (both falsy in JavaScript) mean offline;
   * otherwise the user is online while less than two minutes have passed.
   * The lemmas below say what this means over time: OnlineEarlier,
   * OfflineLater and WindowEdges together fix the answer for every `now`.
   */
  function CheckUserOnline(lastSeen: Option<int>, now: int): bool
  {
    if lastSeen.None? || lastSeen.value == 0 then false
    else now - lastSeen.value < OnlineWindow
  }

  /** Going back in time never turns an online user offline. */
  lemma OnlineEarlier(lastSeen: Option<int>, earlier: int, now: int)
    requires earlier <= now && CheckUserOnline(lastSeen, now)
    ensures CheckUserOnline(lastSeen, earlier)
  {
  }

  /** Once offline, a user stays offline until a newer last-seen time arrives. */
  lemma OfflineLater(lastSeen: Option<int>, now: int, later: int)
    requires now <= later && !CheckUserOnline(lastSeen, now)
    ensures !CheckUserOnline(lastSeen, later)
  {
  }

  /**
   * The window is half open: 119999 ms after is online, 120000 ms is not, and
   * a last-seen time in the future counts as online.
   */
  lemma WindowEdges(t: int)
    requires t != 0
    ensures CheckUserOnline(Some(t), t) && CheckUserOnline(Some(t), t - 1)
    ensures CheckUserOnline(Some(t), t + OnlineWindow - 1)
    ensures !CheckUserOnline(Some(t), t + OnlineWindow)
    ensures forall now :: !CheckUserOnline(None, now) && !CheckUserOnline(Some(0), now)
  {
  }
}
