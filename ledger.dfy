/**
 * The `user_activity` table of database.py: an append-only log of add and
 * get actions, and the two eligibility queries asked of it. Timestamps are
 * whole seconds; database.py writes them as 'YYYY-MM-DD HH:MM:SS' Tokyo wall
 * time and compares the strings, which orders them as the seconds they name.
 */
module Ledger {
  import opened Wrappers

  /** Rate-limit window of `can_get_code`: `timedelta(hours=1)`. */
  const WINDOW: int := 3600

  datatype Action = Add | Get

  /** One row of `user_activity`; `referral_code` is nullable. */
  datatype Activity = Activity(user: int, action: Action, code: Option<string>, ts: int)

  /** A row matching `user_id = ? AND action = "add" AND referral_code = ?`. */
  predicate AddedBy(a: Activity, user: int, code: string) {
    a.user == user && a.action == Add && a.code == Some(code)
  }

  /** A row matching `user_id = ? AND action = "get" AND timestamp > ?` with `?` one hour before now. */
  predicate RecentGetBy(a: Activity, user: int, now: int) {
    a.user == user && a.action == Get && a.ts > now - WINDOW
  }

  /**
   * `can_add_code`: true iff no add record pairs this user with this code;
   * False when the store raises an error.
   */
  function CanAddCode(ledger: seq<Activity>, user: int, code: string, fault: bool): (ok: bool)
    ensures ok <==> !fault && forall i :: 0 <= i < |ledger| ==> !AddedBy(ledger[i], user, code)
  {
    if fault then false
    else if ledger == [] then true
    else !AddedBy(ledger[0], user, code) && CanAddCode(ledger[1..], user, code, fault)
  }

  /**
   * `can_get_code`: true iff no get record of this user is younger than the
   * window; False when the store raises an error.
   */
  function CanGetCode(ledger: seq<Activity>, user: int, now: int, fault: bool): (ok: bool)
    ensures ok <==> !fault && forall i :: 0 <= i < |ledger| ==> !RecentGetBy(ledger[i], user, now)
  {
    if fault then false
    else if ledger == [] then true
    else !RecentGetBy(ledger[0], user, now) && CanGetCode(ledger[1..], user, now, fault)
  }

  /** Records of other users, and get records, never change whether a user may add a code. */
  lemma CanAddIgnoresOtherRecords(ledger: seq<Activity>, a: Activity, user: int, code: string, fault: bool)
    requires a.user != user || a.action == Get
    ensures CanAddCode(ledger + [a], user, code, fault) == CanAddCode(ledger, user, code, fault)
  {
    if CanAddCode(ledger, user, code, fault) {
      var l := ledger + [a];
      forall i | 0 <= i < |l| ensures !AddedBy(l[i], user, code) {
        if i < |ledger| { assert l[i] == ledger[i]; }
      }
    } else if !fault {
      var i :| 0 <= i < |ledger| && AddedBy(ledger[i], user, code);
      assert (ledger + [a])[i] == ledger[i];
    }
  }

  /** Once an add record exists, appending to the ledger never lifts the refusal. */
  lemma AddRefusalIsPermanent(ledger: seq<Activity>, more: seq<Activity>, user: int, code: string)
    requires !CanAddCode(ledger, user, code, false)
    ensures !CanAddCode(ledger + more, user, code, false)
  {
    var i :| 0 <= i < |ledger| && AddedBy(ledger[i], user, code);
    assert (ledger + more)[i] == ledger[i];
  }

  /** Records of other users, and add records, never change whether a user may get a code. */
  lemma CanGetIgnoresOtherRecords(ledger: seq<Activity>, a: Activity, user: int, now: int, fault: bool)
    requires a.user != user || a.action == Add
    ensures CanGetCode(ledger + [a], user, now, fault) == CanGetCode(ledger, user, now, fault)
  {
    if CanGetCode(ledger, user, now, fault) {
      var l := ledger + [a];
      forall i | 0 <= i < |l| ensures !RecentGetBy(l[i], user, now) {
        if i < |ledger| { assert l[i] == ledger[i]; }
      }
    } else if !fault {
      var i :| 0 <= i < |ledger| && RecentGetBy(ledger[i], user, now);
      assert (ledger + [a])[i] == ledger[i];
    }
  }

  /** Without new get records, a user who may get a code still may later. */
  lemma CanGetStaysTrue(ledger: seq<Activity>, user: int, now: int, later: int)
    requires now <= later && CanGetCode(ledger, user, now, false)
    ensures CanGetCode(ledger, user, later, false)
  {
  }

  /**
   * A get logged at `t` blocks its user at every instant before `t + WINDOW`
   * and no longer blocks at `t + WINDOW` itself: the window is strict.
   */
  lemma GetWindowIsStrict(ledger: seq<Activity>, user: int, code: Option<string>, t: int, now: int)
    ensures now < t + WINDOW ==> !CanGetCode(ledger + [Activity(user, Get, code, t)], user, now, false)
    ensures now >= t + WINDOW ==>
              CanGetCode(ledger + [Activity(user, Get, code, t)], user, now, false)
              == CanGetCode(ledger, user, now, false)
  {
    var l := ledger + [Activity(user, Get, code, t)];
    assert l[|ledger|] == Activity(user, Get, code, t);
    if now >= t + WINDOW && CanGetCode(ledger, user, now, false) {
      forall i | 0 <= i < |l| ensures !RecentGetBy(l[i], user, now) {
        if i < |ledger| { assert l[i] == ledger[i]; }
      }
    } else if now >= t + WINDOW {
      var i :| 0 <= i < |ledger| && RecentGetBy(ledger[i], user, now);
      assert l[i] == ledger[i];
    }
  }
}
