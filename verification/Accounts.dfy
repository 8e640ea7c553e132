/** One managed account: its local row, its row at the Auth provider, its sessions and its
    email changes.  An email change writes two stores in several steps and the process may
    stop between any two of them; a later reconcile repairs what was left.  Any number of
    requests may be between their steps at once. */
module Accounts {
  import opened Chronology

  type Email = nat
  type SessionId = nat

  datatype ActionStatus = Pending | AuthUpdated | RepairRequired | Completed | Failed

  datatype Action = Action(status: ActionStatus, oldEmail: Email, newEmail: Email)

  /** `own` is false for a session of another account. */
  datatype Session = Session(own: bool, revoked: bool)

  /** Where a running email request stands: a change in the first five, a reconcile in the
      last three.  No lock is held between two steps. */
  datatype Request =
    | AwaitingAuth(action: nat)
    | AuthAccepted(action: nat)
    | AuthRefused(action: nat)
    | Finishing(action: nat)
    | LocalFailed(action: nat)
    | ReadingAuth(action: nat)
    | Confirming(action: nat)
    | Abandoning(action: nat)

  /** `inFlight` holds the actions whose update was sent by a request that has stopped since:
      Auth may still make it, at any later moment. */
  datatype Account = Account(active: bool, archived: bool, localEmail: Email, authEmail: Email,
                             sessions: map<SessionId, Session>, actions: seq<Action>,
                             requests: map<nat, Request>, inFlight: set<nat>)

  predicate Open(a: Action) {
    a.status == Pending || a.status == AuthUpdated || a.status == RepairRequired
  }

  predicate AnyOpen(actions: seq<Action>) {
    exists i | 0 <= i < |actions| :: Open(actions[i])
  }

  predicate HasOpen(s: Account) {
    AnyOpen(s.actions)
  }

  // ---------------------------------------------------------------- steps

  /** The answer of the provider; it may also store the new email and answer with an error. */
  datatype AuthAnswer = Accepted | Rejected | ErrorAfterUpdate

  /** `r` names an email request; `reset` tells whether a password reset is in progress,
      `obligations` whether the person still has commitments at the school. */
  datatype Step =
    | BeginChange(r: nat, email: Email, reset: bool)
    | StartReconcile(r: nat)
    | AuthReply(r: nat, answer: AuthAnswer)
    | ReadAuth(r: nat, available: bool)
    | MarkFailed(r: nat)
    | MarkAuthUpdated(r: nat)
    | Finish(r: nat, commits: bool)
    | MarkRepair(r: nat)
    | Stop(r: nat)
    | LandUpdate(action: nat)
    | SetActive(isActive: bool, reset: bool)
    | Archive(obligations: bool, reset: bool)
    | AdminDeactivate
    | Register(sid: SessionId)
    | RegisterElsewhere(sid: SessionId)
    | Logout(sid: SessionId)
    | RecoverPassword

  predicate Available(s: Account, reset: bool) {
    !s.archived && !HasOpen(s) && !reset
  }

  function Revoked(sessions: map<SessionId, Session>): map<SessionId, Session> {
    map k | k in sessions :: if sessions[k].own then Session(true, true) else sessions[k]
  }

  function Marked(actions: seq<Action>, i: nat, status: ActionStatus): seq<Action>
    requires i < |actions|
  {
    actions[i := actions[i].(status := status)]
  }

  /** The transaction of `finishEmailAction`: it does not look at the action's status. */
  function Finished(s: Account, i: nat): Account
    requires i < |s.actions|
  {
    s.(localEmail := s.actions[i].newEmail, sessions := Revoked(s.sessions), actions := Marked(s.actions, i, Completed))
  }

  /** The latest open action, by creation. */
  function LatestOpen(actions: seq<Action>): Option<nat> {
    if actions == [] then None
    else if Open(actions[|actions| - 1]) then Some(|actions| - 1)
    else LatestOpen(actions[..|actions| - 1])
  }

  function At(s: Account, r: nat, next: Request): Account {
    s.(requests := s.requests[r := next])
  }

  function Ended(s: Account, r: nat): Account {
    s.(requests := s.requests - {r})
  }

  function Begun(s: Account, r: nat, email: Email, reset: bool): Account {
    if r in s.requests || !Available(s, reset) || s.localEmail == email then s
    else At(s.(actions := s.actions + [Action(Pending, s.localEmail, email)]), r, AwaitingAuth(|s.actions|))
  }

  function Started(s: Account, r: nat): Account {
    if r in s.requests then s
    else match LatestOpen(s.actions)
      case None => s
      case Some(i) => At(s, r, ReadingAuth(i))
  }

  function AfterReply(s: Account, r: nat, i: nat, answer: AuthAnswer): Account
    requires i < |s.actions|
  {
    match answer
    case Accepted => At(s.(authEmail := s.actions[i].newEmail), r, AuthAccepted(i))
    case Rejected => At(s, r, AuthRefused(i))
    case ErrorAfterUpdate => At(s.(authEmail := s.actions[i].newEmail), r, AuthRefused(i))
  }

  /** The Auth email is neither the one nor the other of the action. */
  predicate Differs(s: Account, i: nat)
    requires i < |s.actions|
  {
    s.authEmail != s.actions[i].newEmail && s.authEmail != s.actions[i].oldEmail
  }

  function AfterRead(s: Account, r: nat, i: nat): Account
    requires i < |s.actions|
  {
    if s.authEmail == s.actions[i].newEmail then At(s, r, Confirming(i))
    else if Differs(s, i) then Ended(s, r)
    else At(s, r, Abandoning(i))
  }

  /** Request `r`, which stands at `now`, takes a step. */
  function RequestStep(s: Account, step: Step, r: nat, now: Request): Account
    requires now.action < |s.actions|
  {
    var i := now.action;
    match step
    case AuthReply(_, answer) => if now.AwaitingAuth? then AfterReply(s, r, i, answer) else s
    case ReadAuth(_, available) =>
      if !now.ReadingAuth? then s else if available then AfterRead(s, r, i) else Ended(s, r)
    case MarkFailed(_) =>
      if now.AuthRefused? || now.Abandoning? then Ended(s.(actions := Marked(s.actions, i, Failed)), r) else s
    case MarkAuthUpdated(_) =>
      if now.AuthAccepted? then At(s.(actions := Marked(s.actions, i, AuthUpdated)), r, Finishing(i)) else s
    case Finish(_, true) => if now.Finishing? || now.Confirming? then Ended(Finished(s, i), r) else s
    case Finish(_, false) =>
      if now.Finishing? then At(s, r, LocalFailed(i)) else if now.Confirming? then Ended(s, r) else s
    case MarkRepair(_) =>
      if now.LocalFailed? then Ended(s.(actions := Marked(s.actions, i, RepairRequired)), r) else s
    case Stop(_) => Ended(if now.AwaitingAuth? then s.(inFlight := s.inFlight + {i}) else s, r)
    case _ => s
  }

  /** A step of a running request. */
  predicate IsRequestStep(step: Step) {
    || step.AuthReply? || step.ReadAuth? || step.MarkFailed? || step.MarkAuthUpdated? || step.Finish?
    || step.MarkRepair? || step.Stop?
  }

  predicate IsEmailStep(step: Step) {
    IsRequestStep(step) || step.BeginChange? || step.StartReconcile? || step.LandUpdate?
  }

  /** Request `r` is running; its action always exists, see `WellFormed`. */
  predicate Running(s: Account, r: nat) {
    r in s.requests && s.requests[r].action < |s.actions|
  }

  /** The update of a stopped request reaches Auth after all. */
  function Landed(s: Account, i: nat): Account {
    if i in s.inFlight && i < |s.actions|
    then s.(authEmail := s.actions[i].newEmail, inFlight := s.inFlight - {i})
    else s
  }

  function EmailStep(s: Account, step: Step): Account
    requires IsEmailStep(step)
  {
    if step.BeginChange? then Begun(s, step.r, step.email, step.reset)
    else if step.StartReconcile? then Started(s, step.r)
    else if step.LandUpdate? then Landed(s, step.action)
    else if Running(s, step.r) then RequestStep(s, step, step.r, s.requests[step.r])
    else s
  }

  function SessionStep(s: Account, step: Step): Account {
    match step
    case SetActive(isActive, reset) =>
      if !Available(s, reset) || s.active == isActive then s
      else s.(active := isActive, sessions := Revoked(s.sessions))
    case Archive(obligations, reset) =>
      if s.archived || !Available(s, reset) || obligations then s
      else s.(active := false, archived := true, sessions := Revoked(s.sessions))
    case AdminDeactivate => if s.active && !s.archived then s.(active := false) else s
    case Register(sid) =>
      if !s.active || s.archived || HasOpen(s) || sid in s.sessions then s
      else s.(sessions := s.sessions[sid := Session(true, false)])
    case RegisterElsewhere(sid) =>
      if sid in s.sessions then s else s.(sessions := s.sessions[sid := Session(false, false)])
    case Logout(sid) =>
      if sid in s.sessions && s.sessions[sid].own then s.(sessions := s.sessions[sid := Session(true, true)]) else s
    case RecoverPassword => s.(sessions := Revoked(s.sessions))
    case _ => s
  }

  function Apply(s: Account, step: Step): Account {
    if IsEmailStep(step) then EmailStep(s, step) else SessionStep(s, step)
  }

  function After(s: Account, steps: seq<Step>): Account {
    if steps == [] then s else Apply(After(s, steps[..|steps| - 1]), steps[|steps| - 1])
  }

  function NewAccount(email: Email): Account {
    Account(true, false, email, email, map[], [], map[], {})
  }

  function Run(email: Email, steps: seq<Step>): Account {
    After(NewAccount(email), steps)
  }

  lemma AfterAppend(s: Account, steps: seq<Step>, step: Step)
    ensures After(s, steps + [step]) == Apply(After(s, steps), step)
  {
    assert (steps + [step])[..|steps|] == steps;
  }

  lemma RunStep(email: Email, steps: seq<Step>, n: nat)
    requires n < |steps|
    ensures Run(email, steps[..n + 1]) == Apply(Run(email, steps[..n]), steps[n])
  {
    assert steps[..n + 1][..n] == steps[..n];
  }

  // ---------------------------------------------------------------- the access decision

  datatype Decision =
    | Allowed | Archived | Disabled | UnknownSession | SessionUserMismatch | RevokedSession | ChangePending

  /** The checks in the order of the middleware.  They are three separate reads, so each may
      see a later state than the one before: the user row, the session row, the open changes. */
  function DecideOver(user: Account, session: Account, changes: Account, sid: SessionId): Decision {
    if user.archived then Archived
    else if !user.active then Disabled
    else if sid !in session.sessions then UnknownSession
    else if !session.sessions[sid].own then SessionUserMismatch
    else if session.sessions[sid].revoked then RevokedSession
    else if HasOpen(changes) then ChangePending
    else Allowed
  }

  function Decide(s: Account, sid: SessionId): Decision {
    DecideOver(s, s, s, sid)
  }

  // ---------------------------------------------------------------- emails agree

  /** With this action open the local email is its old one and the Auth email its old or its
      new one, the new one for certain once the action says so. */
  predicate OpenOk(a: Action, local: Email, auth: Email) {
    && local == a.oldEmail
    && (auth == a.newEmail || (auth == a.oldEmail && a.status == Pending))
  }

  /** At most one change is open; with none open the two stores agree. */
  predicate AgreeOn(actions: seq<Action>, local: Email, auth: Email) {
    && (forall i, j | 0 <= i < |actions| && 0 <= j < |actions| && Open(actions[i]) && Open(actions[j]) :: i == j)
    && (forall i | 0 <= i < |actions| && Open(actions[i]) :: OpenOk(actions[i], local, auth))
    && (AnyOpen(actions) || local == auth)
  }

  predicate Agree(s: Account) {
    AgreeOn(s.actions, s.localEmail, s.authEmail)
  }

  /** A request works on an action that exists, and every action changes the email. */
  predicate WellFormed(s: Account) {
    && (forall r | r in s.requests :: s.requests[r].action < |s.actions|)
    && (forall i | i in s.inFlight :: i < |s.actions|)
    && forall i | 0 <= i < |s.actions| :: s.actions[i].oldEmail != s.actions[i].newEmail
  }

  /** The Auth email may become `e`. */
  predicate AuthMayBe(actions: seq<Action>, local: Email, e: Email) {
    if AnyOpen(actions) then forall i | 0 <= i < |actions| && Open(actions[i]) :: OpenOk(actions[i], local, e)
    else local == e
  }

  /** The step writes nothing, or what it writes suits the action, the local email and the Auth
      email as they are when it does. */
  predicate Fits(s: Account, step: Step) {
    && (IsRequestStep(step) && Running(s, step.r) ==> RequestFits(s, step, s.requests[step.r]))
    && (step.LandUpdate? && step.action in s.inFlight && step.action < |s.actions| ==>
          Open(s.actions[step.action]) || AuthMayBe(s.actions, s.localEmail, s.actions[step.action].newEmail))
  }

  predicate RequestFits(s: Account, step: Step, now: Request)
    requires now.action < |s.actions|
  {
    var a := s.actions[now.action];
    match step
    case AuthReply(_, answer) =>
      now.AwaitingAuth? && answer != Rejected ==> Open(a) || AuthMayBe(s.actions, s.localEmail, a.newEmail)
    case MarkFailed(_) => (now.AuthRefused? || now.Abandoning?) && Open(a) ==> s.authEmail == a.oldEmail
    case MarkAuthUpdated(_) => now.AuthAccepted? ==> Open(a) && s.authEmail == a.newEmail
    case MarkRepair(_) => now.LocalFailed? ==> Open(a) && s.authEmail == a.newEmail
    case Finish(_, commits) =>
      commits && (now.Finishing? || now.Confirming?) ==>
        (if Open(a) then s.authEmail else s.localEmail) == a.newEmail
    case _ => true
  }

  lemma AuthWriteExactly(actions: seq<Action>, local: Email, auth: Email, i: nat)
    requires AgreeOn(actions, local, auth) && i < |actions|
    ensures AgreeOn(actions, local, actions[i].newEmail)
       <==> Open(actions[i]) || AuthMayBe(actions, local, actions[i].newEmail)
  {
  }

  lemma MarkedAt(actions: seq<Action>, i: nat, status: ActionStatus)
    requires i < |actions|
    ensures var t := Marked(actions, i, status);
            && |t| == |actions| && t[i] == Action(status, actions[i].oldEmail, actions[i].newEmail)
            && forall j | 0 <= j < |actions| && j != i :: t[j] == actions[j]
  {
  }

  /** What is open after action `i` was closed. */
  lemma ClosedOthers(actions: seq<Action>, i: nat, status: ActionStatus)
    requires i < |actions| && (status == Completed || status == Failed)
    requires forall j, k | 0 <= j < |actions| && 0 <= k < |actions| && Open(actions[j]) && Open(actions[k]) :: j == k
    ensures AnyOpen(Marked(actions, i, status)) <==> AnyOpen(actions) && !Open(actions[i])
  {
    var t := Marked(actions, i, status);
    MarkedAt(actions, i, status);
    if AnyOpen(actions) && !Open(actions[i]) {
      var j :| 0 <= j < |actions| && Open(actions[j]);
      assert t[j] == actions[j];
    }
  }

  lemma CloseExactly(actions: seq<Action>, local: Email, auth: Email, i: nat)
    requires AgreeOn(actions, local, auth) && i < |actions|
    ensures AgreeOn(Marked(actions, i, Failed), local, auth) <==> (Open(actions[i]) ==> auth == actions[i].oldEmail)
  {
    ClosedOthers(actions, i, Failed);
    MarkedAt(actions, i, Failed);
    assert Open(actions[i]) ==> local == actions[i].oldEmail;
  }

  lemma FinishExactly(actions: seq<Action>, local: Email, auth: Email, i: nat)
    requires AgreeOn(actions, local, auth) && i < |actions|
    ensures AgreeOn(Marked(actions, i, Completed), actions[i].newEmail, auth)
       <==> (if Open(actions[i]) then auth else local) == actions[i].newEmail
  {
    var t := Marked(actions, i, Completed);
    ClosedOthers(actions, i, Completed);
    MarkedAt(actions, i, Completed);
    if AnyOpen(actions) && !Open(actions[i]) {
      var j :| 0 <= j < |actions| && Open(actions[j]);
      assert t[j] == actions[j] && local == actions[j].oldEmail;
    }
  }

  lemma KeepOpenExactly(actions: seq<Action>, local: Email, auth: Email, i: nat, status: ActionStatus)
    requires AgreeOn(actions, local, auth) && i < |actions| && actions[i].oldEmail != actions[i].newEmail
    requires status == AuthUpdated || status == RepairRequired
    ensures AgreeOn(Marked(actions, i, status), local, auth) <==> Open(actions[i]) && auth == actions[i].newEmail
  {
    var t := Marked(actions, i, status);
    MarkedAt(actions, i, status);
    assert Open(t[i]);
    if !Open(actions[i]) && AnyOpen(actions) {
      var j :| 0 <= j < |actions| && Open(actions[j]);
      assert Open(t[j]) && j != i;
    }
  }

  lemma BeginAgrees(s: Account, r: nat, email: Email, reset: bool)
    requires Agree(s)
    ensures Agree(Begun(s, r, email, reset))
  {
    var t := Begun(s, r, email, reset);
    if t != s {
      var n := |s.actions|;
      assert t.actions[n] == Action(Pending, s.localEmail, email);
      assert forall j | 0 <= j < n :: t.actions[j] == s.actions[j] && !Open(s.actions[j]);
    }
  }

  lemma MarkAgreesExactly(s: Account, step: Step, r: nat)
    requires Agree(s) && WellFormed(s) && r in s.requests
    requires step.MarkFailed? || step.MarkAuthUpdated? || step.MarkRepair?
    ensures Agree(RequestStep(s, step, r, s.requests[r])) <==> RequestFits(s, step, s.requests[r])
  {
    var i := s.requests[r].action;
    match step
    case MarkFailed(_) => CloseExactly(s.actions, s.localEmail, s.authEmail, i);
    case MarkAuthUpdated(_) => KeepOpenExactly(s.actions, s.localEmail, s.authEmail, i, AuthUpdated);
    case MarkRepair(_) => KeepOpenExactly(s.actions, s.localEmail, s.authEmail, i, RepairRequired);
  }

  lemma ReplyAgreesExactly(s: Account, step: Step, r: nat)
    requires Agree(s) && WellFormed(s) && r in s.requests && step.AuthReply?
    ensures Agree(RequestStep(s, step, r, s.requests[r])) <==> RequestFits(s, step, s.requests[r])
  {
    AuthWriteExactly(s.actions, s.localEmail, s.authEmail, s.requests[r].action);
  }

  lemma FinishAgreesExactly(s: Account, step: Step, r: nat)
    requires Agree(s) && WellFormed(s) && r in s.requests && step.Finish?
    ensures Agree(RequestStep(s, step, r, s.requests[r])) <==> RequestFits(s, step, s.requests[r])
  {
    FinishExactly(s.actions, s.localEmail, s.authEmail, s.requests[r].action);
  }

  lemma RequestAgreesExactly(s: Account, step: Step, r: nat)
    requires Agree(s) && WellFormed(s) && r in s.requests
    ensures Agree(RequestStep(s, step, r, s.requests[r])) <==> RequestFits(s, step, s.requests[r])
  {
    if step.AuthReply? {
      ReplyAgreesExactly(s, step, r);
    } else if step.Finish? {
      FinishAgreesExactly(s, step, r);
    } else if step.MarkFailed? || step.MarkAuthUpdated? || step.MarkRepair? {
      MarkAgreesExactly(s, step, r);
    }
  }

  /** From agreement a step leads to agreement exactly when it fits: a change begun, a start,
      a read, a refusal, a stop and every step of the sessions always do; a write of a request
      does when its action is still open and Auth holds the email the write goes by, or when it
      happens to write what is there already. */
  lemma StepAgreesExactly(s: Account, step: Step)
    requires Agree(s) && WellFormed(s)
    ensures Agree(Apply(s, step)) <==> Fits(s, step)
  {
    if step.BeginChange? {
      BeginAgrees(s, step.r, step.email, step.reset);
    } else if IsRequestStep(step) && Running(s, step.r) {
      RequestAgreesExactly(s, step, step.r);
    } else if step.LandUpdate? && step.action < |s.actions| {
      AuthWriteExactly(s.actions, s.localEmail, s.authEmail, step.action);
    }
  }

  lemma {:induction false} LatestOpenFinds(actions: seq<Action>)
    ensures match LatestOpen(actions)
            case None => !AnyOpen(actions)
            case Some(i) => i < |actions| && Open(actions[i])
  {
    if actions != [] && !Open(actions[|actions| - 1]) {
      var rest := actions[..|actions| - 1];
      LatestOpenFinds(rest);
      if AnyOpen(actions) {
        var i :| 0 <= i < |actions| && Open(actions[i]);
        assert rest[i] == actions[i];
      }
    }
  }

  lemma RequestKeepsWellFormed(s: Account, step: Step, r: nat)
    requires WellFormed(s) && r in s.requests
    ensures WellFormed(RequestStep(s, step, r, s.requests[r]))
  {
    var i := s.requests[r].action;
    var t := RequestStep(s, step, r, s.requests[r]);
    assert |t.actions| == |s.actions|;
    assert forall q | q in t.requests :: q in s.requests && t.requests[q].action == s.requests[q].action;
  }

  lemma StepKeepsWellFormed(s: Account, step: Step)
    requires WellFormed(s)
    ensures WellFormed(Apply(s, step))
  {
    if step.StartReconcile? {
      LatestOpenFinds(s.actions);
    } else if IsRequestStep(step) && Running(s, step.r) {
      RequestKeepsWellFormed(s, step, step.r);
    }
  }

  lemma {:induction false} RunIsWellFormed(email: Email, steps: seq<Step>)
    ensures WellFormed(Run(email, steps))
  {
    if steps != [] {
      RunIsWellFormed(email, steps[..|steps| - 1]);
      StepKeepsWellFormed(Run(email, steps[..|steps| - 1]), steps[|steps| - 1]);
    }
  }

  predicate FitsAt(email: Email, steps: seq<Step>, n: nat)
    requires n < |steps|
  {
    Fits(Run(email, steps[..n]), steps[n])
  }

  predicate AgreeAt(email: Email, steps: seq<Step>, n: nat)
    requires n <= |steps|
  {
    Agree(Run(email, steps[..n]))
  }

  predicate AlwaysFits(email: Email, steps: seq<Step>) {
    forall n: nat | n < |steps| :: FitsAt(email, steps, n)
  }

  predicate AlwaysAgree(email: Email, steps: seq<Step>) {
    forall n: nat | n <= |steps| :: AgreeAt(email, steps, n)
  }

  lemma AgreeAtStep(email: Email, steps: seq<Step>, n: nat)
    requires n < |steps| && AgreeAt(email, steps, n)
    ensures AgreeAt(email, steps, n + 1) <==> FitsAt(email, steps, n)
  {
    RunStep(email, steps, n);
    RunIsWellFormed(email, steps[..n]);
    StepAgreesExactly(Run(email, steps[..n]), steps[n]);
  }

  lemma {:induction false} FittingPrefix(email: Email, steps: seq<Step>, n: nat)
    requires AlwaysFits(email, steps) && n <= |steps|
    ensures AgreeAt(email, steps, n)
  {
    if n > 0 {
      FittingPrefix(email, steps, n - 1);
      AgreeAtStep(email, steps, n - 1);
    }
  }

  /** In every run, however many changes and reconciles overlap, wherever they stop and whatever
      the provider answers: the emails agree at every moment exactly when every step fits. */
  lemma RunsAgreeExactly(email: Email, steps: seq<Step>)
    ensures AlwaysAgree(email, steps) <==> AlwaysFits(email, steps)
  {
    if AlwaysFits(email, steps) {
      forall n: nat | n <= |steps| ensures AgreeAt(email, steps, n) {
        FittingPrefix(email, steps, n);
      }
    }
    if AlwaysAgree(email, steps) {
      forall n: nat | n < |steps| ensures FitsAt(email, steps, n) {
        AgreeAtStep(email, steps, n);
      }
    }
  }

  // ---------------------------------------------------------------- one request at a time

  /** No reconcile starts while another email request is running. */
  predicate OneAtATime(email: Email, steps: seq<Step>) {
    forall n | 0 <= n < |steps| :: steps[n].StartReconcile? ==> Run(email, steps[..n]).requests == map[]
  }

  /** The provider answers no change it has made with an error, and makes none after the
      request that sent it has stopped. */
  predicate Truthful(steps: seq<Step>) {
    forall n | 0 <= n < |steps| :: TrueAnswer(steps[n])
  }

  predicate TrueAnswer(step: Step) {
    (step.AuthReply? ==> step.answer != ErrorAfterUpdate) && !step.LandUpdate?
  }

  /** Where a request stands agrees with its action and the Auth email. */
  predicate StageOk(now: Request, a: Action, auth: Email) {
    match now
    case AwaitingAuth(_) => a.status == Pending && auth == a.oldEmail
    case AuthAccepted(_) => a.status == Pending && auth == a.newEmail
    case AuthRefused(_) => a.status == Pending && auth == a.oldEmail
    case Finishing(_) => a.status == AuthUpdated
    case LocalFailed(_) => a.status == AuthUpdated
    case ReadingAuth(_) => true
    case Confirming(_) => auth == a.newEmail
    case Abandoning(_) => auth == a.oldEmail
  }

  /** At most one request is running, and it works on the one open action. */
  predicate Steady(s: Account) {
    && Agree(s) && WellFormed(s)
    && (forall q, r | q in s.requests && r in s.requests :: q == r)
    && forall r | r in s.requests :: SteadyAt(s, r)
  }

  predicate SteadyAt(s: Account, r: nat) {
    Running(s, r)
    && var a := s.actions[s.requests[r].action];
       Open(a) && StageOk(s.requests[r], a, s.authEmail)
  }

  /** The step neither starts a reconcile beside another request nor brings a false answer. */
  predicate Orderly(s: Account, step: Step) {
    (step.StartReconcile? ==> s.requests == map[]) && TrueAnswer(step)
  }

  lemma SteadyFits(s: Account, step: Step)
    requires Steady(s) && Orderly(s, step)
    ensures Fits(s, step)
  {
    if IsRequestStep(step) && Running(s, step.r) {
      assert SteadyAt(s, step.r);
    }
  }

  lemma RequestStaysSteady(s: Account, step: Step, r: nat)
    requires Steady(s) && Orderly(s, step) && r in s.requests && IsRequestStep(step) && step.r == r
    ensures var t := RequestStep(s, step, r, s.requests[r]);
            t.requests.Keys <= {r} && (r in t.requests ==> SteadyAt(t, r))
  {
    assert SteadyAt(s, r);
    assert s.requests.Keys == {r};
  }

  /** While a request is running no change begins: its action is open. */
  lemma StartStaysSteady(s: Account, step: Step)
    requires Steady(s) && Orderly(s, step) && (step.BeginChange? || step.StartReconcile?)
    ensures var t := Apply(s, step);
            t == s || (t.requests.Keys == {step.r} && SteadyAt(t, step.r))
  {
    LatestOpenFinds(s.actions);
    if q :| q in s.requests {
      assert SteadyAt(s, q);
      assert HasOpen(s);
    } else {
      assert s.requests == map[];
    }
  }

  lemma SteadyStays(s: Account, step: Step)
    requires Steady(s) && Orderly(s, step)
    ensures Steady(Apply(s, step))
  {
    var t := Apply(s, step);
    SteadyFits(s, step);
    StepAgreesExactly(s, step);
    StepKeepsWellFormed(s, step);
    if step.BeginChange? || step.StartReconcile? {
      StartStaysSteady(s, step);
    } else if IsRequestStep(step) {
      if Running(s, step.r) {
        RequestStaysSteady(s, step, step.r);
      }
    } else {
      assert t.actions == s.actions && t.authEmail == s.authEmail && t.requests == s.requests;
      assert forall r | r in t.requests :: SteadyAt(s, r);
    }
  }

  predicate SteadyAfter(email: Email, steps: seq<Step>, n: nat)
    requires n <= |steps|
  {
    Steady(Run(email, steps[..n]))
  }

  lemma SteadyNext(email: Email, steps: seq<Step>, n: nat)
    requires n < |steps| && SteadyAfter(email, steps, n) && Orderly(Run(email, steps[..n]), steps[n])
    ensures SteadyAfter(email, steps, n + 1)
  {
    RunStep(email, steps, n);
    SteadyStays(Run(email, steps[..n]), steps[n]);
  }

  lemma {:induction false} OrderlyRunIsSteady(email: Email, steps: seq<Step>, n: nat)
    requires OneAtATime(email, steps) && Truthful(steps) && n <= |steps|
    ensures SteadyAfter(email, steps, n)
  {
    if n > 0 {
      OrderlyRunIsSteady(email, steps, n - 1);
      SteadyNext(email, steps, n - 1);
    }
  }

  /** In every run in which no reconcile starts beside another email request and the provider
      answers truly, wherever requests stop: at most one change is open; with none open the two
      stores agree; with one open the local email is the old one and the Auth email the old or
      the new one. */
  lemma EmailsAgree(email: Email, steps: seq<Step>)
    requires OneAtATime(email, steps) && Truthful(steps)
    ensures AlwaysAgree(email, steps) && AlwaysFits(email, steps)
  {
    forall n: nat | n <= |steps| ensures AgreeAt(email, steps, n) {
      OrderlyRunIsSteady(email, steps, n);
    }
    RunsAgreeExactly(email, steps);
  }

  // ---------------------------------------------------------------- runs that end in disagreement

  /** Nothing is open, so nothing is left to reconcile, and the stores disagree. */
  predicate Astray(s: Account) {
    !HasOpen(s) && s.localEmail != s.authEmail
  }

  lemma {:induction false} AfterConcat(s: Account, a: seq<Step>, b: seq<Step>)
    ensures After(s, a + b) == After(After(s, a), b)
  {
    if b == [] {
      assert a + b == a;
    } else {
      var n := |b| - 1;
      AfterConcat(s, a, b[..n]);
      assert (a + b)[..|a + b| - 1] == a + b[..n];
    }
  }

  lemma AfterTwo(s: Account, a: Step, b: Step)
    ensures After(s, [a, b]) == Apply(Apply(s, a), b)
  {
    AfterAppend(s, [], a);
    AfterAppend(s, [a], b);
    assert [] + [a] == [a] && [a] + [b] == [a, b];
  }

  lemma AfterThree(s: Account, a: Step, b: Step, c: Step)
    ensures After(s, [a, b, c]) == Apply(Apply(Apply(s, a), b), c)
  {
    var two := [a, b];
    AfterTwo(s, a, b);
    AfterAppend(s, two, c);
    assert two + [c] == [a, b, c];
  }

  function Emails(local: Email, auth: Email, actions: seq<Action>, requests: map<nat, Request>): Account {
    Account(true, false, local, auth, map[], actions, requests, {})
  }

  /** A change that stops once Auth has the new email. */
  function StoppedChange(): seq<Step> {
    [BeginChange(0, 2, false), AuthReply(0, Accepted), Stop(0)]
  }

  /** Two reconciles of it, of which the first has read Auth. */
  function TwoReconciles(): seq<Step> {
    [StartReconcile(1), StartReconcile(2), ReadAuth(1, true)]
  }

  /** The first one completes it, and another change goes through. */
  function SecondChange(): seq<Step> {
    [Finish(1, true), BeginChange(0, 3, false), AuthReply(0, Accepted)] + [MarkAuthUpdated(0)] + [Finish(0, true)]
  }

  /** The first change of the runs, before Auth has it. */
  function Sent(requests: map<nat, Request>, inFlight: set<nat>): Account {
    Emails(1, 1, [Action(Pending, 1, 2)], requests).(inFlight := inFlight)
  }

  lemma ChangeIsSent()
    ensures Apply(NewAccount(1), BeginChange(0, 2, false)) == Sent(map[0 := AwaitingAuth(0)], {})
  {
  }

  lemma ReconcileOfSent(requests: map<nat, Request>, inFlight: set<nat>, r: nat)
    requires r !in requests
    ensures Apply(Sent(requests, inFlight), StartReconcile(r)) == Sent(requests[r := ReadingAuth(0)], inFlight)
    ensures Apply(Sent(requests[r := ReadingAuth(0)], inFlight), ReadAuth(r, true))
         == Sent(requests[r := Abandoning(0)], inFlight)
  {
    assert LatestOpen([Action(Pending, 1, 2)]) == Some(0);
    assert requests[r := ReadingAuth(0)][r := Abandoning(0)] == requests[r := Abandoning(0)];
  }

  lemma StoppedChangeRuns()
    ensures Run(1, StoppedChange()) == Emails(1, 2, [Action(Pending, 1, 2)], map[])
  {
    var open := [Action(Pending, 1, 2)];
    AfterThree(NewAccount(1), BeginChange(0, 2, false), AuthReply(0, Accepted), Stop(0));
    ChangeIsSent();
    assert Emails(1, 2, open, map[0 := AuthAccepted(0)]).requests - {0} == map[];
  }

  lemma TwoReconcilesRun()
    ensures After(Emails(1, 2, [Action(Pending, 1, 2)], map[]), TwoReconciles())
         == Emails(1, 2, [Action(Pending, 1, 2)], map[1 := Confirming(0), 2 := ReadingAuth(0)])
  {
    var open := [Action(Pending, 1, 2)];
    AfterThree(Emails(1, 2, open, map[]), StartReconcile(1), StartReconcile(2), ReadAuth(1, true));
    assert Apply(Emails(1, 2, open, map[]), StartReconcile(1)) == Emails(1, 2, open, map[1 := ReadingAuth(0)]);
  }

  lemma FirstReconcileFinishes(other: Request)
    ensures Apply(Emails(1, 2, [Action(Pending, 1, 2)], map[1 := Confirming(0), 2 := other]), Finish(1, true))
         == Emails(2, 2, [Action(Completed, 1, 2)], map[2 := other])
  {
  }

  lemma SecondChangeReachesAuth(other: Request)
    ensures Apply(Apply(Emails(2, 2, [Action(Completed, 1, 2)], map[2 := other]), BeginChange(0, 3, false)),
                  AuthReply(0, Accepted))
         == Emails(2, 3, [Action(Completed, 1, 2), Action(Pending, 2, 3)], map[2 := other, 0 := AuthAccepted(1)])
  {
    var s := Emails(2, 2, [Action(Completed, 1, 2)], map[2 := other]);
    assert Apply(s, BeginChange(0, 3, false)).actions == [Action(Completed, 1, 2), Action(Pending, 2, 3)];
  }

  lemma SecondChangeFinishes(other: Request)
    ensures Apply(Apply(Emails(2, 3, [Action(Completed, 1, 2), Action(Pending, 2, 3)],
                               map[2 := other, 0 := AuthAccepted(1)]),
                        MarkAuthUpdated(0)), Finish(0, true))
         == Emails(3, 3, [Action(Completed, 1, 2), Action(Completed, 2, 3)], map[2 := other])
  {
  }

  lemma SecondChangeRuns(s: Account, other: Request)
    requires s == Emails(1, 2, [Action(Pending, 1, 2)], map[1 := Confirming(0), 2 := other])
    ensures After(s, SecondChange())
         == Emails(3, 3, [Action(Completed, 1, 2), Action(Completed, 2, 3)], map[2 := other])
  {
    var first := [Finish(1, true), BeginChange(0, 3, false), AuthReply(0, Accepted)];
    AfterThree(s, Finish(1, true), BeginChange(0, 3, false), AuthReply(0, Accepted));
    FirstReconcileFinishes(other);
    SecondChangeReachesAuth(other);
    AfterAppend(s, first, MarkAuthUpdated(0));
    AfterAppend(s, first + [MarkAuthUpdated(0)], Finish(0, true));
    SecondChangeFinishes(other);
  }

  lemma OtherReads()
    ensures Apply(Emails(1, 2, [Action(Pending, 1, 2)], map[1 := Confirming(0), 2 := ReadingAuth(0)]),
                  ReadAuth(2, true))
         == Emails(1, 2, [Action(Pending, 1, 2)], map[1 := Confirming(0), 2 := Confirming(0)])
  {
  }

  lemma OtherFinishesLate()
    ensures Astray(Apply(Emails(3, 3, [Action(Completed, 1, 2), Action(Completed, 2, 3)], map[2 := Confirming(0)]),
                         Finish(2, true)))
  {
  }

  lemma OverlapRuns()
    ensures Run(1, StoppedChange() + TwoReconciles())
         == Emails(1, 2, [Action(Pending, 1, 2)], map[1 := Confirming(0), 2 := ReadingAuth(0)])
  {
    AfterConcat(NewAccount(1), StoppedChange(), TwoReconciles());
    StoppedChangeRuns();
    TwoReconcilesRun();
  }

  /** Both reconciles read the same change; the second commits after the next change has gone
      through, and puts the email of the first back. */
  lemma OverlappingReconcilesCanDisagree()
    ensures Astray(Run(1, StoppedChange() + TwoReconciles() + [ReadAuth(2, true)] + SecondChange() + [Finish(2, true)]))
  {
    var before := StoppedChange() + TwoReconciles();
    var read := before + [ReadAuth(2, true)];
    OverlapRuns();
    AfterAppend(NewAccount(1), before, ReadAuth(2, true));
    OtherReads();
    AfterConcat(NewAccount(1), read, SecondChange());
    SecondChangeRuns(Run(1, read), Confirming(0));
    AfterAppend(NewAccount(1), read + SecondChange(), Finish(2, true));
    OtherFinishesLate();
  }

  /** If it reads Auth only then, it finds an email that is neither of its action's. */
  lemma OverlappingReconcileCanDiffer()
    ensures var s := Run(1, StoppedChange() + TwoReconciles() + SecondChange());
            Running(s, 2) && s.requests[2] == ReadingAuth(0) && Differs(s, 0)
  {
    var before := StoppedChange() + TwoReconciles();
    OverlapRuns();
    AfterConcat(NewAccount(1), before, SecondChange());
    SecondChangeRuns(Run(1, before), ReadingAuth(0));
  }

  /** A reconcile of a change that is still on its way finds the old email, and gives it up. */
  function EarlyReconcile(): seq<Step> {
    [BeginChange(0, 2, false), StartReconcile(1), ReadAuth(1, true)]
  }

  lemma EarlyReconcileRuns()
    ensures Run(1, EarlyReconcile()) == Sent(map[0 := AwaitingAuth(0), 1 := Abandoning(0)], {})
  {
    AfterThree(NewAccount(1), BeginChange(0, 2, false), StartReconcile(1), ReadAuth(1, true));
    ChangeIsSent();
    ReconcileOfSent(map[0 := AwaitingAuth(0)], {}, 1);
  }

  lemma ChangeGoesOn()
    ensures Astray(Apply(Apply(Sent(map[0 := AwaitingAuth(0), 1 := Abandoning(0)], {}), MarkFailed(1)),
                         AuthReply(0, Accepted)))
  {
  }

  /** The change then reaches Auth all the same. */
  lemma ReconcileDuringChangeCanDisagree()
    ensures Astray(Run(1, EarlyReconcile() + [MarkFailed(1)] + [AuthReply(0, Accepted)]))
  {
    EarlyReconcileRuns();
    AfterAppend(NewAccount(1), EarlyReconcile(), MarkFailed(1));
    AfterAppend(NewAccount(1), EarlyReconcile() + [MarkFailed(1)], AuthReply(0, Accepted));
    ChangeGoesOn();
  }

  /** The provider stores the email and answers with an error: the change is marked failed. */
  lemma ErrorAfterUpdateDisagrees()
    ensures Astray(Run(1, [BeginChange(0, 2, false), AuthReply(0, ErrorAfterUpdate), MarkFailed(0)]))
  {
    AfterThree(NewAccount(1), BeginChange(0, 2, false), AuthReply(0, ErrorAfterUpdate), MarkFailed(0));
    ChangeIsSent();
  }

  /** The process stops while the update is on its way, and a reconcile finds the old email. */
  function StoppedUnanswered(): seq<Step> {
    [BeginChange(0, 2, false), Stop(0), StartReconcile(1)]
  }

  lemma StoppedUnansweredRuns()
    ensures Run(1, StoppedUnanswered()) == Sent(map[1 := ReadingAuth(0)], {0})
  {
    AfterThree(NewAccount(1), BeginChange(0, 2, false), Stop(0), StartReconcile(1));
    ChangeIsSent();
    assert map[0 := AwaitingAuth(0)] - {0} == map[];
    assert Apply(Sent(map[0 := AwaitingAuth(0)], {}), Stop(0)) == Sent(map[], {0});
    ReconcileOfSent(map[], {0}, 1);
  }

  lemma UpdateLandsLate()
    ensures Astray(Apply(Apply(Sent(map[1 := Abandoning(0)], {0}), MarkFailed(1)), LandUpdate(0)))
  {
  }

  /** The reconcile gives the change up, and only then the update arrives. */
  lemma LateUpdateDisagrees()
    ensures Astray(Run(1, StoppedUnanswered() + [ReadAuth(1, true)] + [MarkFailed(1)] + [LandUpdate(0)]))
  {
    var first := StoppedUnanswered();
    StoppedUnansweredRuns();
    ReconcileOfSent(map[], {0}, 1);
    AfterAppend(NewAccount(1), first, ReadAuth(1, true));
    AfterAppend(NewAccount(1), first + [ReadAuth(1, true)], MarkFailed(1));
    AfterAppend(NewAccount(1), first + [ReadAuth(1, true)] + [MarkFailed(1)], LandUpdate(0));
    UpdateLandsLate();
  }

  // ---------------------------------------------------------------- what a reconcile achieves

  /** A reconcile whose action is still open never finds an Auth email that is neither the old
      nor the new one, however requests overlap, as long as every step fits. */
  lemma DiffersOnlyWhenClosed(email: Email, steps: seq<Step>, r: nat)
    requires AlwaysFits(email, steps) && r in Run(email, steps).requests
    ensures var s := Run(email, steps);
            Running(s, r) && (Open(s.actions[s.requests[r].action]) ==> !Differs(s, s.requests[r].action))
  {
    RunIsWellFormed(email, steps);
    FittingPrefix(email, steps, |steps|);
    assert steps[..|steps|] == steps;
  }

  /** With one request at a time and true answers it therefore never does. */
  lemma DiffersIsUnreachable(email: Email, steps: seq<Step>, r: nat)
    requires OneAtATime(email, steps) && Truthful(steps) && r in Run(email, steps).requests
    ensures var s := Run(email, steps);
            Running(s, r) && !Differs(s, s.requests[r].action)
  {
    EmailsAgree(email, steps);
    DiffersOnlyWhenClosed(email, steps, r);
    OrderlyRunIsSteady(email, steps, |steps|);
    assert steps[..|steps|] == steps;
    assert SteadyAt(Run(email, steps), r);
  }

  /** A reconcile up to its reading of Auth. */
  function Read(s: Account, r: nat): Account {
    Apply(Apply(s, StartReconcile(r)), ReadAuth(r, true))
  }

  /** The rest of it, when the local writes commit: a mark in one case, a transaction in the other. */
  function Repaired(s: Account, r: nat): Account {
    Apply(Apply(s, MarkFailed(r)), Finish(r, true))
  }

  lemma ReadDecides(s: Account, r: nat)
    requires Agree(s) && HasOpen(s) && r !in s.requests
    ensures LatestOpen(s.actions).Some?
    ensures var i := LatestOpen(s.actions).value;
            && i < |s.actions| && Open(s.actions[i])
            && Read(s, r) == At(s, r, if s.authEmail == s.actions[i].newEmail then Confirming(i) else Abandoning(i))
  {
    LatestOpenFinds(s.actions);
  }

  /** The write of a reconcile that finds its action open and Auth as it read it closes the
      action and leaves the two stores in agreement, whatever else is running. */
  lemma OpenReconcileCloses(s: Account, r: nat)
    requires Agree(s) && Running(s, r) && (s.requests[r].Confirming? || s.requests[r].Abandoning?)
    requires Open(s.actions[s.requests[r].action])
    requires Fits(s, if s.requests[r].Confirming? then Finish(r, true) else MarkFailed(r))
    ensures var t := Repaired(s, r);
            && !HasOpen(t) && t.localEmail == t.authEmail == s.authEmail && r !in t.requests
            && t.actions == Marked(s.actions, s.requests[r].action,
                                   if s.requests[r].Confirming? then Completed else Failed)
  {
    ClosedOthers(s.actions, s.requests[r].action, Completed);
    ClosedOthers(s.actions, s.requests[r].action, Failed);
  }

  /** From every state in which the emails agree, other requests running or not: a reconcile
      whose reads and writes follow each other and commit closes the open change, completed or
      failed by what Auth has, keeps that email and leaves the two stores in agreement. */
  lemma ReconcileCloses(s: Account, r: nat)
    requires Agree(s) && HasOpen(s) && r !in s.requests
    ensures LatestOpen(s.actions).Some? && LatestOpen(s.actions).value < |s.actions|
    ensures var t, i := Repaired(Read(s, r), r), LatestOpen(s.actions).value;
            && !HasOpen(t) && t.localEmail == t.authEmail == s.authEmail
            && t.actions == Marked(s.actions, i, if s.authEmail == s.actions[i].newEmail then Completed else Failed)
  {
    ReadDecides(s, r);
    OpenReconcileCloses(Read(s, r), r);
  }
}
