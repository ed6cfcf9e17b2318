/** Passkeys and password login: no statement sequence locks an account out, and signature
    counters only move forward. */
module Passkeys {
  datatype Passkey = Passkey(userId: int, credentialId: string, signCount: int)

  /** The tables. `disabled` says for each user whether password login is off; `codes` counts
      the unused recovery codes of a user. */
  datatype Tables = Tables(disabled: map<int, bool>, passkeys: map<int, Passkey>, codes: map<int, nat>)

  function OfUser(t: Tables, userId: int): set<int> {
    set id | id in t.passkeys && t.passkeys[id].userId == userId
  }

  /** `COALESCE((SELECT password_login_disabled ...), 1)`: an unknown user counts as disabled. */
  predicate PasswordDisabled(t: Tables, userId: int) {
    userId in t.disabled ==> t.disabled[userId]
  }

  function UnusedCodes(t: Tables, userId: int): nat {
    if userId in t.codes then t.codes[userId] else 0
  }

  datatype Event =
    | Create(id: int, passkey: Passkey)
    | DisablePasswordLogin(userId: int)
    | Advance(credentialId: string, signCount: int)
    | Delete(id: int, userId: int)
    | Reset(userId: int)
    | UseRecoveryCode(userId: int)
    | DeleteAll(userId: int)

  predicate MayDisable(t: Tables, userId: int) {
    userId in t.disabled && OfUser(t, userId) != {} && UnusedCodes(t, userId) > 0
  }

  predicate MayDelete(t: Tables, id: int, userId: int) {
    id in OfUser(t, userId) && (!PasswordDisabled(t, userId) || |OfUser(t, userId)| > 1)
  }

  /** A counter that may follow the stored one. */
  predicate Advances(stored: int, signCount: int) {
    (stored == 0 && signCount == 0) || signCount > stored
  }

  function WithCounter(p: Passkey, credentialId: string, signCount: int): Passkey {
    if p.credentialId == credentialId && Advances(p.signCount, signCount) then p.(signCount := signCount) else p
  }

  /** One statement or transaction. */
  function Step(t: Tables, e: Event): Tables {
    match e
    case Create(id, passkey) => if id in t.passkeys then t else t.(passkeys := t.passkeys[id := passkey])
    case DisablePasswordLogin(userId) => if MayDisable(t, userId) then t.(disabled := t.disabled[userId := true]) else t
    case Advance(credentialId, signCount) =>
      t.(passkeys := map id | id in t.passkeys :: WithCounter(t.passkeys[id], credentialId, signCount))
    case Delete(id, userId) => if MayDelete(t, id, userId) then t.(passkeys := t.passkeys - {id}) else t
    case Reset(userId) =>
      t.(disabled := if userId in t.disabled then t.disabled[userId := false] else t.disabled,
         passkeys := t.passkeys - OfUser(t, userId))
    case UseRecoveryCode(userId) =>
      if UnusedCodes(t, userId) > 0 then t.(codes := t.codes[userId := UnusedCodes(t, userId) - 1]) else t
    case DeleteAll(userId) => t.(passkeys := t.passkeys - OfUser(t, userId))
  }

  function Run(t: Tables, events: seq<Event>): Tables {
    if events == [] then t else Step(Run(t, events[..|events| - 1]), events[|events| - 1])
  }

  /** Whoever cannot use a password has a passkey. */
  predicate NobodyLockedOut(t: Tables) {
    forall userId | userId in t.disabled && t.disabled[userId] :: OfUser(t, userId) != {}
  }

  lemma AnotherRemains(ids: set<int>, id: int)
    requires id in ids && |ids| > 1
    ensures ids - {id} != {}
  {
    assert |ids - {id}| == |ids| - 1;
  }

  /** The bulk delete does not look at the password. */
  predicate LocksOut(t: Tables, e: Event) {
    e.DeleteAll? && e.userId in t.disabled && t.disabled[e.userId]
  }

  /** Every statement but the bulk delete keeps everybody able to log in; the bulk delete does
      exactly when the user's password works or there was nobody to lock out. */
  lemma StepLocksOutExactly(t: Tables, e: Event)
    requires NobodyLockedOut(t)
    ensures NobodyLockedOut(Step(t, e)) <==> !LocksOut(t, e)
  {
    match e {
      case Create(id, passkey) =>
        assert forall u :: OfUser(t, u) <= OfUser(Step(t, e), u);
      case DisablePasswordLogin(userId) =>
        assert forall u :: OfUser(Step(t, e), u) == OfUser(t, u);
      case Advance(credentialId, signCount) =>
        forall u ensures OfUser(Step(t, e), u) == OfUser(t, u) {
          assert forall id :: id in OfUser(Step(t, e), u) <==> id in OfUser(t, u);
        }
      case Delete(id, userId) =>
        if MayDelete(t, id, userId) {
          forall u | u in t.disabled && t.disabled[u] ensures OfUser(Step(t, e), u) != {} {
            assert OfUser(Step(t, e), u) == OfUser(t, u) - {id};
            if u == userId { AnotherRemains(OfUser(t, u), id); } else { assert id !in OfUser(t, u); }
          }
        }
      case Reset(userId) =>
        forall u | u != userId ensures OfUser(Step(t, e), u) == OfUser(t, u) {
        }
      case UseRecoveryCode(userId) =>
        assert forall u :: OfUser(Step(t, e), u) == OfUser(t, u);
      case DeleteAll(userId) =>
        assert OfUser(Step(t, e), userId) == {};
        forall u | u != userId ensures OfUser(Step(t, e), u) == OfUser(t, u) {
        }
    }
  }

  /** Nobody is locked out at any point of the run. */
  predicate NeverLockedOut(t: Tables, events: seq<Event>) {
    NobodyLockedOut(Run(t, events)) && (events == [] || NeverLockedOut(t, events[..|events| - 1]))
  }

  /** No bulk delete of the run meets a disabled password. */
  predicate Careful(t: Tables, events: seq<Event>) {
    events == [] ||
    (Careful(t, events[..|events| - 1]) && !LocksOut(Run(t, events[..|events| - 1]), events[|events| - 1]))
  }

  /** Over any run, nobody is ever locked out exactly when no bulk delete meets a disabled
      password. */
  lemma {:induction false} NobodyIsLockedOut(t: Tables, events: seq<Event>)
    requires NobodyLockedOut(t)
    ensures NeverLockedOut(t, events) <==> Careful(t, events)
  {
    hide Step, NobodyLockedOut, LocksOut;
    if events != [] {
      var before := events[..|events| - 1];
      NobodyIsLockedOut(t, before);
      if NobodyLockedOut(Run(t, before)) {
        StepLocksOutExactly(Run(t, before), events[|events| - 1]);
      }
    }
  }

  /** It would lock out a user who has disabled the password. */
  lemma BulkDeleteLocksOut(userId: int, passkey: Passkey)
    requires passkey.userId == userId
    ensures var t := Tables(map[userId := true], map[1 := passkey], map[]);
            NobodyLockedOut(t) && !NobodyLockedOut(Step(t, DeleteAll(userId)))
  {
    var t := Tables(map[userId := true], map[1 := passkey], map[]);
    assert 1 in OfUser(t, userId);
    StepLocksOutExactly(t, DeleteAll(userId));
  }

  /** A stored signature counter never moves back, and once it is positive the same or an
      older counter is never accepted again. */
  lemma {:induction false} CountersMoveForward(t: Tables, events: seq<Event>, id: int, signCount: int)
    requires id in t.passkeys && t.passkeys[id].signCount >= 0
    requires forall k | 0 <= k <= |events| :: id in Run(t, events[..k]).passkeys
    ensures id in Run(t, events).passkeys
    ensures Run(t, events).passkeys[id].signCount >= t.passkeys[id].signCount
    ensures 0 < signCount <= t.passkeys[id].signCount ==> !Advances(Run(t, events).passkeys[id].signCount, signCount)
  {
    assert events[..|events|] == events;
    if events != [] {
      var before := events[..|events| - 1];
      assert forall k | 0 <= k <= |before| :: before[..k] == events[..k];
      CountersMoveForward(t, before, id, signCount);
    }
  }

  // ---------------------------------------------------------------- what each statement does

  /** Password login is switched off exactly for a known user with a passkey and an unused
      recovery code. */
  lemma DisabledExactly(t: Tables, userId: int)
    requires userId in t.disabled && !t.disabled[userId]
    ensures Step(t, DisablePasswordLogin(userId)).disabled[userId] <==>
            && (exists id :: id in t.passkeys && t.passkeys[id].userId == userId)
            && userId in t.codes && t.codes[userId] > 0
  {
    if exists id :: id in t.passkeys && t.passkeys[id].userId == userId {
      var id :| id in t.passkeys && t.passkeys[id].userId == userId;
      assert id in OfUser(t, userId);
    } else {
      assert forall id :: id !in OfUser(t, userId);
    }
  }

  /** A passkey is deleted exactly by its owner, and not the last one while the password is off. */
  lemma DeletedExactly(t: Tables, id: int, userId: int)
    requires id in t.passkeys
    ensures id !in Step(t, Delete(id, userId)).passkeys <==>
            && t.passkeys[id].userId == userId
            && ((userId in t.disabled && !t.disabled[userId]) ||
                exists other :: other in t.passkeys && other != id && t.passkeys[other].userId == userId)
  {
    var ids := OfUser(t, userId);
    if t.passkeys[id].userId == userId {
      assert id in ids && |ids - {id}| == |ids| - 1;
      if other :| other in t.passkeys && other != id && t.passkeys[other].userId == userId {
        assert other in ids - {id};
      }
      if |ids| > 1 {
        AnotherRemains(ids, id);
        var other :| other in ids - {id};
      }
    }
  }

  /** A signature counter is recorded exactly if it is larger, or both are zero. */
  lemma AdvancedExactly(t: Tables, id: int, signCount: int)
    requires id in t.passkeys
    ensures var after := Step(t, Advance(t.passkeys[id].credentialId, signCount)).passkeys;
            id in after && after[id].signCount ==
              if signCount > t.passkeys[id].signCount then signCount else t.passkeys[id].signCount
  {
  }

  /** A reset leaves the user without passkeys and with a password that works, and touches nobody
      else. */
  lemma ResetExactly(t: Tables, userId: int)
    ensures var after := Step(t, Reset(userId));
            && after.disabled.Keys == t.disabled.Keys && (userId in t.disabled ==> !after.disabled[userId])
            && (forall other | other in t.disabled && other != userId :: after.disabled[other] == t.disabled[other])
            && after.passkeys == map id | id in t.passkeys && t.passkeys[id].userId != userId :: t.passkeys[id]
  {
  }
}
