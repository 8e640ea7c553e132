/** The account operations as the repository runs them: rows updated in place, an email change
    and a reconcile that may stop after any durable write.  Every call is a run of the steps
    of `Accounts`, so what holds of all runs holds of all calls. */
module AccountService {
  import opened Chronology
  import opened Accounts

  datatype Outcome = Done | Refused | AuthFailed | AuthDiffers | LocalFailure | RepairNeeded | Stopped

  class AccountStore {
    var active: bool
    var archived: bool
    var localEmail: Email
    var authEmail: Email
    var sessions: map<SessionId, Session>
    var actions: seq<Action>
    ghost var requests: map<nat, Request>
    ghost var inFlight: set<nat>

    constructor (email: Email)
      ensures View() == NewAccount(email)
    {
      active, archived, localEmail, authEmail := true, false, email, email;
      sessions, actions, requests, inFlight := map[], [], map[], {};
    }

    ghost function View(): Account
      reads this
    {
      Account(active, archived, localEmail, authEmail, sessions, actions, requests, inFlight)
    }

    predicate AnyOpen()
      reads this
      ensures AnyOpen() == HasOpen(View())
    {
      exists i | 0 <= i < |actions| :: Open(actions[i])
    }

    // -------------------------------------------------------------- sessions

    method GetDecision(sid: SessionId) returns (decision: Decision)
      ensures decision == Decide(View(), sid)
    {
      if archived {
        return Archived;
      }
      if !active {
        return Disabled;
      }
      if sid !in sessions {
        return UnknownSession;
      }
      if !sessions[sid].own {
        return SessionUserMismatch;
      }
      if sessions[sid].revoked {
        return RevokedSession;
      }
      return if AnyOpen() then ChangePending else Allowed;
    }

    method RegisterSession(sid: SessionId) returns (registered: bool)
      modifies this`sessions
      ensures View() == Apply(old(View()), Register(sid))
      ensures registered <==> sid !in old(sessions) && sid in sessions
    {
      if !active || archived {
        return false;
      }
      if AnyOpen() {
        return false;
      }
      // The primary key refuses a second row for the same session.
      if sid in sessions {
        return false;
      }
      sessions := sessions[sid := Session(true, false)];
      return true;
    }

    method RevokeSessions()
      modifies this`sessions
      ensures View() == Apply(old(View()), RecoverPassword)
      ensures sessions == Revoked(old(sessions))
    {
      sessions := Revoked(sessions);
    }

    method SetManagerAccountActive(isActive: bool, reset: bool) returns (outcome: Outcome)
      modifies this`active, this`sessions
      ensures View() == Apply(old(View()), SetActive(isActive, reset))
      ensures outcome == Done ==> active == isActive
      ensures outcome != Done ==> View() == old(View())
    {
      if archived || AnyOpen() || reset {
        return Refused;
      }
      if active == isActive {
        return Done;
      }
      active := isActive;
      RevokeSessions();
      return Done;
    }

    method ArchiveManagerAccount(obligations: bool, reset: bool) returns (outcome: Outcome)
      modifies this`active, this`archived, this`sessions
      ensures View() == Apply(old(View()), Archive(obligations, reset))
      ensures outcome == Done ==> archived
      ensures outcome != Done ==> View() == old(View())
    {
      if archived {
        return Done;
      }
      if AnyOpen() || reset || obligations {
        return Refused;
      }
      active, archived := false, true;
      RevokeSessions();
      return Done;
    }

    /** The administrator's path sets the flag and nothing else. */
    method DeactivateByAdmin() returns (found: bool)
      modifies this`active
      ensures View() == Apply(old(View()), AdminDeactivate)
      ensures found <==> old(active) && !archived
      ensures found ==> !active
      ensures !found ==> active == old(active)
    {
      found := active && !archived;
      if found {
        active := false;
      }
    }

    // -------------------------------------------------------------- email

    /** The transaction that ends a change; `commits` is false when the database fails and
        rolls it back. */
    method FinishEmailAction(action: nat, email: Email, commits: bool, ghost r: nat)
      requires action < |actions| && email == actions[action].newEmail
      requires r in requests && (requests[r] == Finishing(action) || requests[r] == Confirming(action))
      modifies this
      ensures View() == Apply(old(View()), Finish(r, commits))
      ensures authEmail == old(authEmail)
      ensures commits ==> localEmail == email && sessions == Revoked(old(sessions))
      ensures commits ==> actions == Marked(old(actions), action, Completed) && requests == old(requests) - {r}
      ensures !commits ==> localEmail == old(localEmail) && sessions == old(sessions) && actions == old(actions)
      ensures !commits && old(requests[r]).Finishing? ==> requests == old(requests)[r := LocalFailed(action)]
      ensures !commits && old(requests[r]).Confirming? ==> requests == old(requests) - {r}
    {
      if commits {
        localEmail := email;
        sessions := Revoked(sessions);
        actions := Marked(actions, action, Completed);
        requests := requests - {r};
      } else {
        requests := if requests[r].Finishing? then requests[r := LocalFailed(action)] else requests - {r};
      }
    }

    /** A write of the action's status alone. */
    method Mark(action: nat, status: ActionStatus, ghost step: Step)
      requires action < |actions| && IsRequestStep(step) && step.r in requests
      requires var now := requests[step.r];
        || (step.MarkFailed? && status == Failed && (now == AuthRefused(action) || now == Abandoning(action)))
        || (step.MarkAuthUpdated? && status == AuthUpdated && now == AuthAccepted(action))
        || (step.MarkRepair? && status == RepairRequired && now == LocalFailed(action))
      modifies this`actions, this`requests
      ensures View() == Apply(old(View()), step)
      ensures actions == Marked(old(actions), action, status)
      ensures requests == if step.MarkAuthUpdated? then old(requests)[step.r := Finishing(action)]
                          else old(requests) - {step.r}
    {
      actions := Marked(actions, action, status);
      requests := if step.MarkAuthUpdated? then requests[step.r := Finishing(action)] else requests - {step.r};
    }

    /** The request opens the change if it may. */
    method BeginEmailChange(email: Email, reset: bool, ghost r: nat) returns (action: Option<nat>)
      requires r !in requests
      modifies this`actions, this`requests
      ensures View() == Apply(old(View()), BeginChange(r, email, reset))
      ensures action.None? ==> View() == old(View())
      ensures action.Some? ==> && requests == old(requests)[r := AwaitingAuth(action.value)] && action.value < |actions|
                               && actions[action.value] == Action(Pending, localEmail, email)
    {
      if archived || AnyOpen() || reset {
        return None;
      }
      if localEmail == email {
        return None;
      }
      actions := actions + [Action(Pending, localEmail, email)];
      requests := requests[r := AwaitingAuth(|actions| - 1)];
      return Some(|actions| - 1);
    }

    /** The call to the provider; it may change the stored email and answer with an error, or
        not answer before the process stops. */
    method UpdateAuth(action: nat, answer: AuthAnswer, ghost r: nat)
      requires action < |actions| && r in requests && requests[r] == AwaitingAuth(action)
      modifies this`authEmail, this`requests
      ensures View() == Apply(old(View()), AuthReply(r, answer))
      ensures requests == old(requests)[r := if answer == Accepted then AuthAccepted(action) else AuthRefused(action)]
      ensures answer == Accepted ==> authEmail == actions[action].newEmail
    {
      if answer != Rejected {
        authEmail := actions[action].newEmail;
      }
      requests := requests[r := if answer == Accepted then AuthAccepted(action) else AuthRefused(action)];
    }

    /** One email change; the process stops after `survives` writes if it is not done by then. */
    method ChangeManagerAccountEmail(email: Email, reset: bool, answer: AuthAnswer, commits: bool, survives: nat,
                                     ghost r: nat)
      returns (outcome: Outcome, ghost steps: seq<Step>)
      requires r !in requests
      modifies this
      ensures requests == old(requests) && View() == After(old(View()), steps)
      ensures outcome == Done ==> localEmail == email == authEmail && sessions == Revoked(old(sessions))
      ensures outcome == Refused ==> View() == old(View())
    {
      ghost var start := View();
      var action := BeginEmailChange(email, reset, r);
      steps := [BeginChange(r, email, reset)];
      AfterAppend(start, [], BeginChange(r, email, reset));
      if action.None? {
        return Refused, steps;
      }
      if survives <= 1 {
        steps := Halt(start, steps, r);
        return Stopped, steps;
      }
      UpdateAuth(action.value, answer, r);
      AfterAppend(start, steps, AuthReply(r, answer));
      steps := steps + [AuthReply(r, answer)];
      if survives <= 2 {
        steps := Halt(start, steps, r);
        return Stopped, steps;
      }
      outcome, steps := AfterAuth(action.value, answer == Accepted, commits, survives, start, steps, r);
    }

    /** What the request does with the provider's answer. */
    method AfterAuth(action: nat, accepted: bool, commits: bool, survives: nat, ghost start: Account,
                     ghost before: seq<Step>, ghost r: nat)
      returns (outcome: Outcome, ghost steps: seq<Step>)
      requires action < |actions| && r in requests
      requires requests[r] == (if accepted then AuthAccepted(action) else AuthRefused(action))
      requires View() == After(start, before) && (accepted ==> authEmail == actions[action].newEmail)
      modifies this
      ensures requests == old(requests) - {r} && View() == After(start, steps)
      ensures outcome != Refused && authEmail == old(authEmail)
      ensures outcome == Done ==>
                accepted && localEmail == old(actions[action].newEmail) && sessions == Revoked(old(sessions))
    {
      steps := before;
      if !accepted {
        Mark(action, Failed, MarkFailed(r));
        AfterAppend(start, steps, MarkFailed(r));
        steps := steps + [MarkFailed(r)];
        return AuthFailed, steps;
      }
      Mark(action, AuthUpdated, MarkAuthUpdated(r));
      AfterAppend(start, steps, MarkAuthUpdated(r));
      steps := steps + [MarkAuthUpdated(r)];
      if survives <= 3 {
        steps := Halt(start, steps, r);
        return Stopped, steps;
      }
      outcome, steps := FinishOrMark(action, commits, survives, start, steps, r);
    }

    /** The final transaction of a change, and the mark that a repair is needed if it fails. */
    method FinishOrMark(action: nat, commits: bool, survives: nat, ghost start: Account, ghost before: seq<Step>,
                        ghost r: nat)
      returns (outcome: Outcome, ghost steps: seq<Step>)
      requires action < |actions| && r in requests && requests[r] == Finishing(action) && View() == After(start, before)
      requires authEmail == actions[action].newEmail
      modifies this
      ensures requests == old(requests) - {r} && View() == After(start, steps)
      ensures outcome != Refused && authEmail == old(authEmail)
      ensures outcome == Done ==> localEmail == authEmail && sessions == Revoked(old(sessions))
    {
      FinishEmailAction(action, authEmail, commits, r);
      AfterAppend(start, before, Finish(r, commits));
      steps := before + [Finish(r, commits)];
      if commits {
        return Done, steps;
      }
      if survives <= 4 {
        steps := Halt(start, steps, r);
        return Stopped, steps;
      }
      Mark(action, RepairRequired, MarkRepair(r));
      AfterAppend(start, steps, MarkRepair(r));
      return RepairNeeded, steps + [MarkRepair(r)];
    }

    ghost method Halt(start: Account, before: seq<Step>, r: nat) returns (steps: seq<Step>)
      requires View() == After(start, before) && Running(View(), r)
      modifies this`requests, this`inFlight
      ensures requests == old(requests) - {r} && View() == After(start, steps)
    {
      inFlight := if requests[r].AwaitingAuth? then inFlight + {requests[r].action} else inFlight;
      requests := requests - {r};
      AfterAppend(start, before, Stop(r));
      steps := before + [Stop(r)];
    }

    /** The latest open change, found by walking back over the actions. */
    method FindOpen(ghost r: nat) returns (action: Option<nat>)
      requires r !in requests
      modifies this`requests
      ensures View() == Apply(old(View()), StartReconcile(r)) && action == LatestOpen(actions)
      ensures action.None? ==> !AnyOpen() && requests == old(requests)
      ensures action.Some? ==> AnyOpen() && action.value < |actions| && Open(actions[action.value])
      ensures action.Some? ==> requests == old(requests)[r := ReadingAuth(action.value)]
    {
      LatestOpenFinds(actions);
      var i := |actions|;
      assert actions[..i] == actions;
      while i > 0
        invariant 0 <= i <= |actions| && requests == old(requests)
        invariant LatestOpen(actions) == LatestOpen(actions[..i])
      {
        assert actions[..i][i - 1] == actions[i - 1];
        if Open(actions[i - 1]) {
          requests := requests[r := ReadingAuth(i - 1)];
          return Some(i - 1);
        }
        assert actions[..i][..i - 1] == actions[..i - 1];
        i := i - 1;
      }
      return None;
    }

    /** Reconcile the latest open change; `available` tells whether Auth answers, `commits`
        whether the final transaction does. */
    method ReconcileManagerAccountEmail(available: bool, commits: bool, survives: nat, ghost r: nat)
      returns (outcome: Outcome, ghost steps: seq<Step>)
      requires r !in requests
      modifies this
      ensures requests == old(requests) && View() == After(old(View()), steps)
      ensures authEmail == old(authEmail)
      ensures outcome == Refused <==> !old(AnyOpen())
      ensures old(Agree(View())) && outcome == Done ==> !AnyOpen() && localEmail == authEmail
      ensures old(Agree(View())) && old(AnyOpen()) && available && commits && survives > 0 ==> outcome == Done
    {
      ghost var start := View();
      var found := FindOpen(r);
      AfterAppend(start, [], StartReconcile(r));
      if found.None? {
        return Refused, [StartReconcile(r)];
      }
      outcome, steps := ReconcileAction(found.value, available, commits, survives, start, [StartReconcile(r)], r);
    }

    /** The email Auth has, if it answers. */
    method GetAuthUser(i: nat, available: bool, ghost r: nat) returns (email: Option<Email>)
      requires i < |actions| && r in requests && requests[r] == ReadingAuth(i)
      modifies this`requests
      ensures View() == Apply(old(View()), ReadAuth(r, available))
      ensures email == if available then Some(authEmail) else None
      ensures requests == if email == Some(actions[i].newEmail) then old(requests)[r := Confirming(i)]
                          else if email == Some(actions[i].oldEmail) then old(requests)[r := Abandoning(i)]
                          else old(requests) - {r}
    {
      email := if available then Some(authEmail) else None;
      requests := if email == Some(actions[i].newEmail) then requests[r := Confirming(i)]
                  else if email == Some(actions[i].oldEmail) then requests[r := Abandoning(i)]
                  else requests - {r};
    }

    method ReconcileAction(i: nat, available: bool, commits: bool, survives: nat, ghost start: Account,
                           ghost before: seq<Step>, ghost r: nat)
      returns (outcome: Outcome, ghost steps: seq<Step>)
      requires i < |actions| && Open(actions[i]) && r in requests && requests[r] == ReadingAuth(i)
      requires View() == After(start, before)
      modifies this
      ensures requests == old(requests) - {r} && View() == After(start, steps)
      ensures authEmail == old(authEmail) && outcome != Refused
      ensures outcome == AuthDiffers ==> old(Differs(View(), i)) && !old(Agree(View()))
      ensures old(Agree(View())) && outcome == Done ==> !AnyOpen() && localEmail == authEmail
      ensures available && commits && survives > 0 ==> outcome == Done || outcome == AuthDiffers
    {
      var email := GetAuthUser(i, available, r);
      AfterAppend(start, before, ReadAuth(r, available));
      steps := before + [ReadAuth(r, available)];
      if email.None? {
        return AuthFailed, steps;
      }
      if email.value != actions[i].newEmail {
        if email.value != actions[i].oldEmail {
          return AuthDiffers, steps;
        }
        outcome, steps := GiveUp(i, survives, start, steps, r);
        return;
      }
      outcome, steps := Confirm(i, commits, survives, start, steps, r);
    }

    method GiveUp(i: nat, survives: nat, ghost start: Account, ghost before: seq<Step>, ghost r: nat)
      returns (outcome: Outcome, ghost steps: seq<Step>)
      requires i < |actions| && Open(actions[i]) && r in requests && requests[r] == Abandoning(i)
      requires authEmail == actions[i].oldEmail && View() == After(start, before)
      modifies this`actions, this`requests, this`inFlight
      ensures requests == old(requests) - {r} && View() == After(start, steps)
      ensures outcome == if survives == 0 then Stopped else Done
      ensures old(Agree(View())) && outcome == Done ==> !AnyOpen() && localEmail == authEmail
    {
      if survives == 0 {
        steps := Halt(start, before, r);
        return Stopped, steps;
      }
      if Agree(View()) {
        ClosedOthers(actions, i, Failed);
      }
      Mark(i, Failed, MarkFailed(r));
      AfterAppend(start, before, MarkFailed(r));
      return Done, before + [MarkFailed(r)];
    }

    method Confirm(i: nat, commits: bool, survives: nat, ghost start: Account, ghost before: seq<Step>, ghost r: nat)
      returns (outcome: Outcome, ghost steps: seq<Step>)
      requires i < |actions| && Open(actions[i]) && r in requests && requests[r] == Confirming(i)
      requires authEmail == actions[i].newEmail && View() == After(start, before)
      modifies this
      ensures requests == old(requests) - {r} && View() == After(start, steps)
      ensures authEmail == old(authEmail)
      ensures outcome == if survives == 0 then Stopped else if commits then Done else LocalFailure
      ensures old(Agree(View())) && outcome == Done ==> !AnyOpen() && localEmail == authEmail
    {
      if survives == 0 {
        steps := Halt(start, before, r);
        return Stopped, steps;
      }
      if Agree(View()) {
        ClosedOthers(actions, i, Completed);
      }
      FinishEmailAction(i, authEmail, commits, r);
      AfterAppend(start, before, Finish(r, commits));
      return if commits then Done else LocalFailure, before + [Finish(r, commits)];
    }
  }
}
