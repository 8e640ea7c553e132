/** Who is let in: over every run exactly the sessions that the account registered while it was
    open and that no later request has shut out, and only while no change is open. */
module AccountAccess {
  import opened Chronology
  import opened Accounts

  // ---------------------------------------------------------------- the decision

  predicate ChangeOpen(s: Account) {
    exists i | 0 <= i < |s.actions| ::
      s.actions[i].status == Pending || s.actions[i].status == AuthUpdated || s.actions[i].status == RepairRequired
  }

  /** The columns that make a session acceptable, apart from open changes. */
  predicate Live(s: Account, sid: SessionId) {
    s.active && !s.archived && sid in s.sessions && s.sessions[sid].own && !s.sessions[sid].revoked
  }

  /** The middleware lets in exactly live sessions of accounts without an open change, and names
      the first thing that is wrong: the account, then the session, then the change. */
  lemma DecisionIsExact(user: Account, session: Account, changes: Account, sid: SessionId)
    ensures var d := DecideOver(user, session, changes, sid);
            && (d == Archived <==> user.archived)
            && (d == Disabled <==> !user.archived && !user.active)
            && (user.active && !user.archived ==>
                  && (d == UnknownSession <==> sid !in session.sessions)
                  && (sid in session.sessions ==>
                        var row := session.sessions[sid];
                        && (d == SessionUserMismatch <==> !row.own)
                        && (d == RevokedSession <==> row.own && row.revoked)
                        && (d == ChangePending <==> row.own && !row.revoked && ChangeOpen(changes))
                        && (d == Allowed <==> row.own && !row.revoked && !ChangeOpen(changes))))
    ensures Decide(user, sid) == Allowed <==> Live(user, sid) && !ChangeOpen(user)
  {
    assert ChangeOpen(changes) <==> HasOpen(changes);
    assert ChangeOpen(user) <==> HasOpen(user);
  }

  // ---------------------------------------------------------------- requests that shut out

  /** The request takes effect and ends the session: the administrator deactivates an active
      account; a manager changes the status of an account or archives it where nothing stands in
      the way; an email change or a reconcile commits its last transaction; the password is
      recovered; the session logs out. */
  predicate Shuts(s: Account, step: Step, sid: SessionId) {
    match step
    case AdminDeactivate => s.active && !s.archived
    case SetActive(isActive, reset) => !s.archived && !ChangeOpen(s) && !reset && s.active != isActive
    case Archive(obligations, reset) => !s.archived && !ChangeOpen(s) && !reset && !obligations
    case Finish(r, commits) =>
      && commits && r in s.requests && s.requests[r].action < |s.actions|
      && (s.requests[r].Finishing? || s.requests[r].Confirming?)
    case RecoverPassword => true
    case Logout(x) => x == sid
    case _ => false
  }

  /** A registered session that can no longer be used: revoked, or its account shut. */
  predicate Dead(s: Account, sid: SessionId) {
    sid in s.sessions && s.sessions[sid].own && (s.sessions[sid].revoked || !s.active || s.archived)
  }

  lemma OpenAlike(s: Account)
    ensures ChangeOpen(s) <==> HasOpen(s)
  {
  }

  /** Such a request leaves every own session dead, and a live session stays live under
      every other step. */
  lemma ShutsExactly(s: Account, sid: SessionId, step: Step)
    requires sid in s.sessions && s.sessions[sid].own
    ensures Shuts(s, step, sid) ==> Dead(Apply(s, step), sid)
    ensures Live(s, sid) && !Shuts(s, step, sid) ==> Live(Apply(s, step), sid)
  {
    OpenAlike(s);
  }

  /** Every step that changes status, archive flag or local email is one of them. */
  lemma ChangesShut(s: Account, sid: SessionId, step: Step)
    requires var t := Apply(s, step); s.active != t.active || s.archived != t.archived || s.localEmail != t.localEmail
    ensures Shuts(s, step, sid)
  {
    OpenAlike(s);
  }

  lemma StepKeepsDead(s: Account, sid: SessionId, step: Step)
    requires Dead(s, sid)
    ensures Dead(Apply(s, step), sid)
  {
  }

  lemma {:induction false} DeadForever(s: Account, sid: SessionId, steps: seq<Step>)
    requires Dead(s, sid)
    ensures Dead(After(s, steps), sid)
  {
    if steps != [] {
      DeadForever(s, sid, steps[..|steps| - 1]);
      StepKeepsDead(After(s, steps[..|steps| - 1]), sid, steps[|steps| - 1]);
    }
  }

  predicate RevokedIn(s: Account, sid: SessionId) {
    sid in s.sessions && s.sessions[sid] == Session(true, true)
  }

  lemma {:induction false} RevokedForever(s: Account, sid: SessionId, steps: seq<Step>)
    requires RevokedIn(s, sid)
    ensures RevokedIn(After(s, steps), sid)
  {
    if steps != [] {
      RevokedForever(s, sid, steps[..|steps| - 1]);
      RevokedStays(After(s, steps[..|steps| - 1]), sid, steps[|steps| - 1]);
    }
  }

  lemma RevokedStays(s: Account, sid: SessionId, step: Step)
    requires RevokedIn(s, sid)
    ensures RevokedIn(Apply(s, step), sid)
  {
  }

  /** A session registered before a deactivation by manager or administrator, an archive, a
      completed email change, a recovery or its logout is never accepted afterwards, whatever
      happens later, a manager's unblock included, and even when other steps run between the
      reads of one check. */
  lemma NeverAcceptedAgain(s: Account, sid: SessionId, step: Step, later: seq<Step>, between: seq<Step>,
                           between2: seq<Step>)
    requires sid in s.sessions && s.sessions[sid].own && Shuts(s, step, sid)
    ensures var user := After(Apply(s, step), later);
            var session := After(user, between);
            DecideOver(user, session, After(session, between2), sid) in {Archived, Disabled, RevokedSession}
  {
    var user := After(Apply(s, step), later);
    ShutsExactly(s, sid, step);
    DeadForever(Apply(s, step), sid, later);
    if user.active && !user.archived {
      RevokedForever(user, sid, between);
    }
  }

  // ---------------------------------------------------------------- exactly who is let in

  /** Step `i` registered the session: new, for an active account with no change open. */
  predicate RegisteredAt(email: Email, steps: seq<Step>, sid: SessionId, i: int) {
    && 0 <= i < |steps| && steps[i] == Register(sid)
    && var s := Run(email, steps[..i]);
       sid !in s.sessions && s.active && !s.archived && !ChangeOpen(s)
  }

  /** No step from position `i` on shuts the session out. */
  predicate NotShutSince(email: Email, steps: seq<Step>, sid: SessionId, i: int)
    requires 0 <= i <= |steps|
  {
    forall j | i <= j < |steps| :: !Shuts(Run(email, steps[..j]), steps[j], sid)
  }

  lemma StepKeepsOwner(s: Account, step: Step, sid: SessionId)
    requires sid in Apply(s, step).sessions
    ensures sid in s.sessions ==> Apply(s, step).sessions[sid].own == s.sessions[sid].own
    ensures sid !in s.sessions && Apply(s, step).sessions[sid].own ==>
              step == Register(sid) && s.active && !s.archived && !ChangeOpen(s)
  {
    OpenAlike(s);
  }

  lemma RegisterMakesLive(s: Account, sid: SessionId)
    requires sid !in s.sessions && s.active && !s.archived && !ChangeOpen(s)
    ensures Live(Apply(s, Register(sid)), sid)
  {
    OpenAlike(s);
  }

  lemma PrefixRuns(steps: seq<Step>, n: nat, j: nat)
    requires j <= n <= |steps|
    ensures steps[..n][..j] == steps[..j]
  {
  }

  lemma {:induction false} LiveSinceRegistered(email: Email, steps: seq<Step>, sid: SessionId, i: nat)
    requires RegisteredAt(email, steps, sid, i) && NotShutSince(email, steps, sid, i + 1)
    ensures Live(Run(email, steps), sid)
  {
    var n := |steps| - 1;
    RunStep(email, steps, n);
    assert steps[..n + 1] == steps;
    if i == n {
      RegisterMakesLive(Run(email, steps[..n]), sid);
    } else {
      PrefixRuns(steps, n, i);
      forall j | i + 1 <= j < n ensures !Shuts(Run(email, steps[..n][..j]), steps[..n][j], sid) {
        PrefixRuns(steps, n, j);
      }
      LiveSinceRegistered(email, steps[..n], sid, i);
      ShutsExactly(Run(email, steps[..n]), sid, steps[n]);
    }
  }

  lemma {:induction false} LiveWasRegistered(email: Email, steps: seq<Step>, sid: SessionId) returns (i: nat)
    requires Live(Run(email, steps), sid)
    ensures RegisteredAt(email, steps, sid, i) && NotShutSince(email, steps, sid, i + 1)
  {
    var n := |steps| - 1;
    var s := Run(email, steps[..n]);
    assert Run(email, steps) == Apply(s, steps[n]);
    StepKeepsOwner(s, steps[n], sid);
    if sid in s.sessions {
      StillLive(s, sid, steps[n]);
      i := LiveWasRegistered(email, steps[..n], sid);
      PrefixRuns(steps, n, i);
      forall j | i + 1 <= j < |steps| ensures !Shuts(Run(email, steps[..j]), steps[j], sid) {
        if j < n {
          PrefixRuns(steps, n, j);
          assert !Shuts(Run(email, steps[..n][..j]), steps[..n][j], sid);
        }
      }
    } else {
      i := n;
    }
  }

  /** A live session was live before the step, and the step did not shut it out. */
  lemma StillLive(s: Account, sid: SessionId, step: Step)
    requires sid in s.sessions && s.sessions[sid].own && Live(Apply(s, step), sid)
    ensures Live(s, sid) && !Shuts(s, step, sid)
  {
    if !Live(s, sid) {
      StepKeepsDead(s, sid, step);
    } else {
      ShutsExactly(s, sid, step);
    }
  }

  /** In every run a session is let in exactly when this account registered it, new, while it was
      active with no change open, nothing has shut it out since, and no change is open now. */
  lemma AllowedExactly(email: Email, steps: seq<Step>, sid: SessionId)
    ensures Decide(Run(email, steps), sid) == Allowed <==>
              && !ChangeOpen(Run(email, steps))
              && exists i: nat :: RegisteredAt(email, steps, sid, i) && NotShutSince(email, steps, sid, i + 1)
  {
    var s := Run(email, steps);
    DecisionIsExact(s, s, s, sid);
    if Live(s, sid) {
      var i := LiveWasRegistered(email, steps, sid);
    }
    if i: nat :| RegisteredAt(email, steps, sid, i) && NotShutSince(email, steps, sid, i + 1) {
      LiveSinceRegistered(email, steps, sid, i);
    }
  }

  /** While a change is open nobody is let in, and no session can be registered. */
  lemma OpenChangeShutsOut(s: Account, sid: SessionId)
    requires ChangeOpen(s)
    ensures Decide(s, sid) != Allowed && Apply(s, Register(sid)) == s
  {
    OpenAlike(s);
  }

  // ---------------------------------------------------------------- requests of managers

  /** Nothing else of the account differs. */
  predicate SameEmails(s: Account, t: Account) {
    && t.localEmail == s.localEmail && t.authEmail == s.authEmail && t.actions == s.actions
    && t.requests == s.requests && t.inFlight == s.inFlight
  }

  predicate OwnRevoked(s: Account, t: Account) {
    && t.sessions.Keys == s.sessions.Keys
    && forall k | k in s.sessions ::
         t.sessions[k].own == s.sessions[k].own && t.sessions[k].revoked == (s.sessions[k].own || s.sessions[k].revoked)
  }

  /** A status change takes effect exactly when the account is not archived, no change is open, no
      reset is running and the status differs; it then sets the status and revokes every session. */
  lemma SetActiveIsExact(s: Account, isActive: bool, reset: bool)
    ensures var t := Apply(s, SetActive(isActive, reset));
            && SameEmails(s, t) && t.archived == s.archived
            && if !s.archived && !ChangeOpen(s) && !reset && s.active != isActive
               then t.active == isActive && OwnRevoked(s, t)
               else t.active == s.active && t.sessions == s.sessions
  {
    OpenAlike(s);
  }

  /** Archiving, likewise, unless commitments at the school remain. */
  lemma ArchiveIsExact(s: Account, obligations: bool, reset: bool)
    ensures var t := Apply(s, Archive(obligations, reset));
            && SameEmails(s, t)
            && if !s.archived && !ChangeOpen(s) && !reset && !obligations
               then t.archived && !t.active && OwnRevoked(s, t)
               else t == s
  {
    OpenAlike(s);
  }

  /** The administrator's deactivation clears the flag and revokes nothing. */
  lemma AdminDeactivateIsExact(s: Account)
    ensures var t := Apply(s, AdminDeactivate);
            && SameEmails(s, t) && t.archived == s.archived && t.sessions == s.sessions
            && (t.active <==> s.active && s.archived)
  {
  }

  /** A session id is taken once, by whichever account registers it first. */
  lemma RegistrationIsExact(s: Account, sid: SessionId, other: SessionId)
    ensures var t := Apply(s, Register(sid));
            && (t != s <==> sid !in s.sessions && s.active && !s.archived && !ChangeOpen(s))
            && (t != s ==> t == s.(sessions := s.sessions[sid := Session(true, false)]))
    ensures var t := Apply(s, RegisterElsewhere(sid));
            && (t != s <==> sid !in s.sessions)
            && (t != s ==>
                   && !t.sessions[sid].own
                   && (other != sid && other in s.sessions ==> t.sessions[other] == s.sessions[other]))
  {
    OpenAlike(s);
  }
}
