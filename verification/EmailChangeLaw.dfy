/** What each step of an email change and of a reconcile writes, column by column, and when it is
    taken at all. */
module EmailChangeLaw {
  import opened Chronology
  import opened Accounts
  import opened AccountAccess

  predicate Unsettled(a: Action) {
    a.status != Completed && a.status != Failed
  }

  /** The latest change that is still open. */
  predicate LatestAt(s: Account, i: nat) {
    i < |s.actions| && Unsettled(s.actions[i]) && forall j | i < j < |s.actions| :: !Unsettled(s.actions[j])
  }

  predicate Stands(s: Account, r: nat, now: Request) {
    r in s.requests && s.requests[r] == now && now.action < |s.actions|
  }

  /** The request moves on, or ends. */
  function Moved(s: Account, r: nat, next: Option<Request>): Account {
    s.(requests := if next.Some? then s.requests[r := next.value] else s.requests - {r})
  }

  /** A change begins exactly for an account that is not archived, with no change open, no reset
      running and another email; it records the old and the new one. */
  lemma BeginIsExact(s: Account, r: nat, email: Email, reset: bool)
    ensures Apply(s, BeginChange(r, email, reset))
         == if r !in s.requests && !s.archived && !ChangeOpen(s) && !reset && email != s.localEmail
            then s.(actions := s.actions + [Action(Pending, s.localEmail, email)],
                    requests := s.requests[r := AwaitingAuth(|s.actions|)])
            else s
  {
    OpenAlike(s);
  }

  lemma {:induction false} LatestIsFound(s: Account)
    ensures match LatestOpen(s.actions)
            case None => forall i | 0 <= i < |s.actions| :: !Unsettled(s.actions[i])
            case Some(i) => LatestAt(s, i)
    decreases |s.actions|
  {
    if s.actions != [] && !Unsettled(s.actions[|s.actions| - 1]) {
      var t := s.(actions := s.actions[..|s.actions| - 1]);
      LatestIsFound(t);
      assert forall i | 0 <= i < |t.actions| :: t.actions[i] == s.actions[i];
    }
  }

  /** A reconcile takes up the latest open change, and does nothing without one. */
  lemma ReconcileIsExact(s: Account, r: nat)
    ensures var t := Apply(s, StartReconcile(r));
            if r !in s.requests && ChangeOpen(s)
            then exists i: nat :: LatestAt(s, i) && t == Moved(s, r, Some(ReadingAuth(i)))
            else t == s
  {
    LatestIsFound(s);
    if r !in s.requests && ChangeOpen(s) {
      var i := LatestOpen(s.actions).value;
      assert LatestAt(s, i);
    }
  }

  /** Auth stores the new email, answers with an error, or both. */
  lemma ReplyIsExact(s: Account, r: nat, i: nat, answer: AuthAnswer)
    requires Stands(s, r, AwaitingAuth(i))
    ensures var t := Apply(s, AuthReply(r, answer));
            match answer
            case Accepted => t == Moved(s, r, Some(AuthAccepted(i))).(authEmail := s.actions[i].newEmail)
            case Rejected => t == Moved(s, r, Some(AuthRefused(i)))
            case ErrorAfterUpdate => t == Moved(s, r, Some(AuthRefused(i))).(authEmail := s.actions[i].newEmail)
  {
  }

  /** A reconcile that reads the new email goes on to finish, with the old one it gives the change
      up, and with neither, or without an answer, it ends. */
  lemma ReadIsExact(s: Account, r: nat, i: nat, available: bool)
    requires Stands(s, r, ReadingAuth(i)) && s.actions[i].oldEmail != s.actions[i].newEmail
    ensures var next := if !available then None
                        else if s.authEmail == s.actions[i].newEmail then Some(Confirming(i))
                        else if s.authEmail == s.actions[i].oldEmail then Some(Abandoning(i)) else None;
            Apply(s, ReadAuth(r, available)) == Moved(s, r, next)
  {
  }

  /** Each mark sets the status of the action of its request and nothing else. */
  lemma MarksAreExact(s: Account, r: nat, i: nat)
    requires i < |s.actions|
    ensures var a := s.actions[i];
            && (Stands(s, r, AuthRefused(i)) || Stands(s, r, Abandoning(i)) ==>
                  Apply(s, MarkFailed(r))
                  == Moved(s, r, None).(actions := s.actions[i := Action(Failed, a.oldEmail, a.newEmail)]))
            && (Stands(s, r, AuthAccepted(i)) ==>
                  Apply(s, MarkAuthUpdated(r))
                  == Moved(s, r, Some(Finishing(i)))
                     .(actions := s.actions[i := Action(AuthUpdated, a.oldEmail, a.newEmail)]))
            && (Stands(s, r, LocalFailed(i)) ==>
                  Apply(s, MarkRepair(r))
                  == Moved(s, r, None).(actions := s.actions[i := Action(RepairRequired, a.oldEmail, a.newEmail)]))
  {
  }

  /** The last transaction sets the local email, revokes the sessions and completes the action; if it
      fails a change goes on to ask for repair and a reconcile ends. */
  lemma FinishIsExact(s: Account, r: nat, i: nat, commits: bool)
    requires Stands(s, r, Finishing(i)) || Stands(s, r, Confirming(i))
    ensures var t, a := Apply(s, Finish(r, commits)), s.actions[i];
            if commits
            then && OwnRevoked(s, t)
                 && t == Moved(s, r, None).(localEmail := a.newEmail, sessions := t.sessions,
                                            actions := s.actions[i := Action(Completed, a.oldEmail, a.newEmail)])
            else t == Moved(s, r, if s.requests[r].Finishing? then Some(LocalFailed(i)) else None)
  {
  }

  /** A request may stop anywhere; if its update was on its way, Auth may still make it, once. */
  lemma StopIsExact(s: Account, r: nat, i: nat)
    requires r in s.requests && s.requests[r].action == i < |s.actions|
    ensures Apply(s, Stop(r))
         == Moved(s, r, None).(inFlight := s.inFlight + if s.requests[r].AwaitingAuth? then {i} else {})
    ensures Apply(s, LandUpdate(i))
         == if i in s.inFlight then s.(authEmail := s.actions[i].newEmail, inFlight := s.inFlight - {i}) else s
  {
    assert s.inFlight + {} == s.inFlight;
  }

  /** The stages at which a request takes a step. */
  predicate Turn(step: Step, now: Request) {
    match step
    case AuthReply(_, _) => now.AwaitingAuth?
    case ReadAuth(_, _) => now.ReadingAuth?
    case MarkFailed(_) => now.AuthRefused? || now.Abandoning?
    case MarkAuthUpdated(_) => now.AuthAccepted?
    case Finish(_, _) => now.Finishing? || now.Confirming?
    case MarkRepair(_) => now.LocalFailed?
    case Stop(_) => true
    case _ => false
  }

  /** Out of turn nothing happens. */
  lemma OutOfTurn(s: Account, step: Step)
    requires step.AuthReply? || step.ReadAuth? || step.MarkFailed? || step.MarkAuthUpdated? || step.Finish?
             || step.MarkRepair? || step.Stop?
    requires step.r in s.requests ==> !Turn(step, s.requests[step.r])
    ensures Apply(s, step) == s
  {
  }

  /** While every step fits, the local email and the one at Auth are the same whenever no change is
      open, and with one open they are its old email and its old or new one. */
  lemma StoresAgree(email: Email, steps: seq<Step>, n: nat)
    requires AlwaysFits(email, steps) && n <= |steps|
    ensures var s := Run(email, steps[..n]);
            && (!ChangeOpen(s) ==> s.localEmail == s.authEmail)
            && forall i | 0 <= i < |s.actions| && Unsettled(s.actions[i]) ::
                 && s.localEmail == s.actions[i].oldEmail
                 && (s.authEmail == s.actions[i].newEmail
                     || (s.authEmail == s.actions[i].oldEmail && s.actions[i].status == Pending))
                 && forall j | 0 <= j < |s.actions| && Unsettled(s.actions[j]) :: j == i
  {
    RunsAgreeExactly(email, steps);
    assert AgreeAt(email, steps, n);
    OpenAlike(Run(email, steps[..n]));
  }
}
