/** What each credential call does and when it is refused, in terms of the tables' fields: which
    tokens it ends, which reset rows and accounts it changes, and how long what it issues lasts. */
module CredentialEffects {
  import opened Options
  import opened Credentials
  import opened CredentialRuns

  // ----- Refresh tokens -----

  ghost predicate IssuesToken(op: Op, jti: Jti, expiresAt: Instant) {
    match op
    case LoginOp(_, _, j, x) => j == jti && x == expiresAt
    case OAuthOp(_, _, j, x) => j == jti && x == expiresAt
    case RotateOp(_, j, x) => j == jti && x == expiresAt
    case _ => false
  }

  /** A token issued by any of the three issuers starts out unrevoked, and in every later state in
      which it still is, it can be rotated up to its own expiry and not after. */
  lemma IssuedTokenRotatesUntilExpiry(s: Store, t: Instant, e: Event, events: seq<Event>, jti: Jti, expiresAt: Instant,
                                      now: Instant, sub: string, newJti: Jti, newExpiresAt: Instant)
    requires Reachable(s, t) && t <= e.at && Enabled(s, e)
    requires IssuesToken(e.op, jti, expiresAt) && Step(s, e).1 == Tokens(jti)
    requires IsRun(Step(s, e).0, e.at, events) && EndTime(e.at, events) <= now
    requires FreshJti(RunFrom(Step(s, e).0, events), newJti) && sub != ""
    ensures
      var s', claims := RunFrom(Step(s, e).0, events), Claims(jti, sub);
      && jti in Step(s, e).0.refresh && Step(s, e).0.refresh[jti].revokedAt.None?
      && jti in s'.refresh
      && (s'.refresh[jti].revokedAt.None? ==>
            (RotateRefresh(s', now, Some(claims), newJti, newExpiresAt).1 == Tokens(newJti) <==> now < expiresAt))
  {
    var s1 := Step(s, e).0;
    ReachableStep(s, t, e);
    ReachableRun(s1, e.at, events);
    RevocationIsWriteOnce(s1, e.at, events);
    IssuedRow(s, t, e, jti, expiresAt);
    var s', claims := RunFrom(s1, events), Claims(jti, sub);
    assert s'.refresh[jti].expiresAt == expiresAt;
    RotationExtendsTheLine(s', EndTime(e.at, events), now, claims, newJti, newExpiresAt);
  }

  /** Whose token it is, and what it hangs on. */
  lemma IssuedRow(s: Store, t: Instant, e: Event, jti: Jti, expiresAt: Instant)
    requires Reachable(s, t) && t <= e.at && Enabled(s, e)
    requires IssuesToken(e.op, jti, expiresAt) && Step(s, e).1 == Tokens(jti)
    ensures jti !in s.refresh && jti in Step(s, e).0.refresh
    ensures
      var row := Step(s, e).0.refresh[jti];
      && row.expiresAt == expiresAt && row.revokedAt.None? && row.reason.None?
      && (e.op.LoginOp? || e.op.OAuthOp? ==> row.user == e.op.user && row.parent.None?)
      && (e.op.RotateOp? ==>
            && e.op.claims.Some? && e.op.claims.value.jti in s.refresh
            && row.parent == Some(e.op.claims.value.jti) && row.user == s.refresh[e.op.claims.value.jti].user)
  {
  }

  /** When a sign-in issues. */
  lemma SignInRepliesIff(s: Store, user: UserId, password: string, jti: Jti, expiresAt: Instant)
    ensures Login(s, user, password, jti, expiresAt).1 == Tokens(jti) <==>
      user in s.users && s.users[user].active && s.users[user].password == Hashed(password)
    ensures !Login(s, user, password, jti, expiresAt).1.Tokens? ==>
      Login(s, user, password, jti, expiresAt) == (s, BadCredentials)
    ensures OAuthSignIn(s, user, password, jti, expiresAt).1 == Tokens(jti) <==>
      user in s.users ==> s.users[user].active
    ensures !OAuthSignIn(s, user, password, jti, expiresAt).1.Tokens? ==>
      OAuthSignIn(s, user, password, jti, expiresAt) == (s, UserInactive)
  {
  }

  /** A decoded token is called reused exactly when it is known and revoked. */
  lemma ReuseIsReportedIff(s: Store, now: Instant, claims: Claims, newJti: Jti, newExpiresAt: Instant)
    requires claims.jti != "" && claims.sub != ""
    ensures RotateRefresh(s, now, Some(claims), newJti, newExpiresAt).1 == ReuseRejected <==>
      claims.jti in s.refresh && s.refresh[claims.jti].revokedAt.Some?
    ensures claims.jti !in s.refresh ==>
      RotateRefresh(s, now, Some(claims), newJti, newExpiresAt) == (s, InvalidRefresh)
  {
  }

  /** Which unrevoked tokens a call ends. */
  ghost predicate Ends(s: Store, e: Event, j: Jti)
    requires j in s.refresh
  {
    match e.op
    case RotateOp(claims, _, _) => claims.Some? && claims.value.jti == j && claims.value.sub != ""
    case LogoutOp(claims) => claims.Some? && claims.value.jti == j
    case ConsumeOp(_, _, _) => Step(s, e).1 == PasswordChanged(s.refresh[j].user)
    case DeactivateOp(_, user) => Step(s, e).1 == Done && user == s.refresh[j].user
    case _ => false
  }

  ghost function ReasonOf(op: Op, row: RefreshRow, at: Instant): Reason {
    match op
    case RotateOp(_, _, _) => if row.expiresAt <= at then Expired else Rotated
    case ConsumeOp(_, _, _) => ReuseDetected
    case _ => Logout
  }

  lemma RotationEndsOwn(s: Store, t: Instant, e: Event, j: Jti)
    requires Reachable(s, t) && Enabled(s, e) && e.op.RotateOp? && j in s.refresh && s.refresh[j].revokedAt.None?
    ensures j in Step(s, e).0.refresh
    ensures
      var row := s.refresh[j];
      Step(s, e).0.refresh[j] ==
        if Ends(s, e, j) then row.(revokedAt := Some(e.at), reason := Some(ReasonOf(e.op, row, e.at))) else row
  {
    ReachableInv(s, t);
    var claims := e.op.claims;
    if claims.Some? && claims.value.jti in s.refresh && claims.value.sub != "" {
      if s.refresh[claims.value.jti].revokedAt.Some? {
        ReuseChangesNothing(s, t, e.at, claims.value, e.op.jti, e.op.expiresAt);
      }
    }
  }

  lemma ConsumeEnds(s: Store, e: Event, j: Jti)
    requires e.op.ConsumeOp? && IsCandidateAnswer(s.resets, e.at, e.op.candidates)
    requires j in s.refresh && s.refresh[j].revokedAt.None?
    ensures j in Step(s, e).0.refresh
    ensures
      var row := s.refresh[j];
      Step(s, e).0.refresh[j] ==
        if Ends(s, e, j) then row.(revokedAt := Some(e.at), reason := Some(ReuseDetected)) else row
  {
    var m := FirstMatch(s.resets, e.op.candidates, e.op.plaintext);
  }

  lemma DeactivateEnds(s: Store, e: Event, j: Jti)
    requires e.op.DeactivateOp? && j in s.refresh && s.refresh[j].revokedAt.None? && InactiveHoldNone(s)
    ensures j in Step(s, e).0.refresh
    ensures
      var row := s.refresh[j];
      Step(s, e).0.refresh[j] ==
        if Ends(s, e, j) then row.(revokedAt := Some(e.at), reason := Some(Logout)) else row
  {
    assert j in TokensOf(s.refresh, e.op.user) <==> s.refresh[j].user == e.op.user;
  }

  /** In every reachable state, every call ends exactly the tokens it should, with its own time
      and reason, and leaves every other unrevoked token as it is. In particular a consumed reset or a
      deactivation ends the sessions of that user and of nobody else. */
  lemma TokensEndedBy(s: Store, t: Instant, e: Event, j: Jti)
    requires Reachable(s, t) && Enabled(s, e) && j in s.refresh && s.refresh[j].revokedAt.None?
    ensures j in Step(s, e).0.refresh
    ensures
      var row := s.refresh[j];
      Step(s, e).0.refresh[j] ==
        if Ends(s, e, j) then row.(revokedAt := Some(e.at), reason := Some(ReasonOf(e.op, row, e.at))) else row
  {
    ReachableInv(s, t);
    if e.op.RotateOp? {
      RotationEndsOwn(s, t, e, j);
    } else if e.op.ConsumeOp? {
      ConsumeEnds(s, e, j);
    } else if e.op.DeactivateOp? {
      DeactivateEnds(s, e, j);
    }
  }

  // ----- Password resets -----

  ghost predicate AskedWithin(rows: ResetTable, user: UserId, since: Instant, i: nat) {
    && i < |rows| && rows[i].user == user && since <= rows[i].createdAt
    && rows[i].usedAt.None? && rows[i].invalidatedAt.None?
  }

  /** A request issues exactly for an active user with no pending token asked for within the
      cooldown; an administrator's reset does for everybody known. */
  lemma ResetRepliesIff(s: Store, now: Instant, user: UserId, cooldown: int, secret: string)
    ensures
      var reply := RequestPasswordReset(s, now, user, cooldown, secret).1;
      var known, since := user in s.users && s.users[user].active, now - cooldown;
      && (reply == NoSuchAccount <==> !known)
      && (reply == ResetIssued <==> known && forall i: nat :: !AskedWithin(s.resets, user, since, i))
      && (reply == AmbiguousQuery <==>
            (known && exists i: nat, k: nat ::
               i != k && AskedWithin(s.resets, user, since, i) && AskedWithin(s.resets, user, since, k)))
      && (reply in {NoSuchAccount, ResetIssued, AmbiguousQuery, CoolingDown})
    ensures InitiatePasswordReset(s, now, user, secret).1 == if user in s.users then ResetIssued else UserNotFound
  {
    RecentCounts(s.resets, user, now, cooldown);
  }

  /** How many rows the cooldown query selects. */
  lemma RecentCounts(rows: ResetTable, user: UserId, now: Instant, cooldown: int)
    ensures
      var n, since := |Recent(rows, user, now, cooldown)|, now - cooldown;
      && (n == 0 <==> forall i: nat :: !AskedWithin(rows, user, since, i))
      && (n > 1 <==>
            exists i: nat, k: nat :: i != k && AskedWithin(rows, user, since, i) && AskedWithin(rows, user, since, k))
  {
    var recent, since := Recent(rows, user, now, cooldown), now - cooldown;
    assert forall i: nat :: i in recent <==> AskedWithin(rows, user, since, i);
    TwoMembers(recent);
  }

  lemma TwoMembers(s: set<nat>)
    ensures |s| == 0 <==> forall i: nat :: i !in s
    ensures |s| > 1 <==> exists i: nat, k: nat :: i != k && i in s && k in s
  {
    if i: nat, k: nat :| i != k && i in s && k in s {
      assert |{i, k}| == 2 && {i, k} <= s;
      Larger({i, k}, s);
    }
    if |s| > 1 {
      var i :| i in s;
      assert |s - {i}| == |s| - 1;
      var k :| k in s - {i};
    }
  }

  lemma {:induction false} Larger(a: set<nat>, b: set<nat>)
    requires a <= b
    ensures |a| <= |b|
    decreases a
  {
    if x :| x in a { Larger(a - {x}, b - {x}); }
  }

  /** In every reachable state: issuing invalidates the user's own live rows, consuming uses the row
      of that plaintext, and every other row stays as it is. */
  lemma ResetRowChangedBy(s: Store, t: Instant, e: Event, i: nat)
    requires Reachable(s, t) && t <= e.at && Enabled(s, e) && i < |s.resets|
    ensures i < |Step(s, e).0.resets|
    ensures
      var row, reply := s.resets[i], Step(s, e).1;
      Step(s, e).0.resets[i] ==
        if reply == ResetIssued && (e.op.RequestResetOp? || e.op.AdminResetOp?) && row.user == e.op.user &&
           row.usedAt.None? && row.invalidatedAt.None? && e.at < row.expiresAt
        then row.(invalidatedAt := Some(e.at))
        else if e.op.ConsumeOp? && reply.PasswordChanged? && row.secret == e.op.plaintext
        then row.(usedAt := Some(e.at))
        else row
  {
    ReachableInv(s, t);
    if e.op.ConsumeOp? { var m := FirstMatch(s.resets, e.op.candidates, e.op.plaintext); }
  }

  lemma ResetRowAddedBy(s: Store, e: Event)
    requires Enabled(s, e)
    ensures
      var rows := Step(s, e).0.resets;
      if Step(s, e).1 == ResetIssued then
        && (e.op.RequestResetOp? || e.op.AdminResetOp?)
        && |rows| == |s.resets| + 1
        && rows[|s.resets|] == ResetRow(e.op.user, e.op.secret, e.at, e.at + 3_600_000_000, None, None)
      else |rows| == |s.resets|
  {
  }

  // ----- Accounts -----

  /** A consumed reset changes that owner's password, and the four administrator calls one flag of
      their target; nothing else touches an account. */
  lemma AccountChangedBy(s: Store, e: Event, u: UserId)
    requires u in s.users
    ensures u in Step(s, e).0.users
    ensures
      var user, reply := Step(s, e).0.users[u], Step(s, e).1;
      && user.password == (if e.op.ConsumeOp? && reply == PasswordChanged(u) then Hashed(e.op.newPassword)
                           else s.users[u].password)
      && user.active == (if e.op.ActivateOp? && e.op.user == u then true
                         else if e.op.DeactivateOp? && e.op.user == u && reply == Done then false
                         else s.users[u].active)
      && user.super == (if e.op.PromoteOp? && e.op.user == u && reply == Done then true
                        else if e.op.DemoteOp? && e.op.user == u && reply == Done then false
                        else s.users[u].super)
  {
    match e.op
    case ConsumeOp(plaintext, _, candidates) => var m := FirstMatch(s.resets, candidates, plaintext);
    case _ =>
  }

  /** Accounts come from registrations and provider sign-ins, active and without privileges. */
  lemma AccountAddedBy(s: Store, e: Event, u: UserId)
    requires u !in s.users
    ensures u in Step(s, e).0.users <==> (e.op.RegisterOp? || e.op.OAuthOp?) && e.op.user == u
    ensures e.op.RegisterOp? && e.op.user == u ==> Step(s, e).0.users[u] == User(true, false, Hashed(e.op.password))
    ensures e.op.OAuthOp? && e.op.user == u ==> Step(s, e).0.users[u] == User(true, false, Hashed(e.op.random))
  {
    match e.op
    case ConsumeOp(plaintext, _, candidates) => var m := FirstMatch(s.resets, candidates, plaintext);
    case _ =>
  }

  ghost predicate IsAdmin(s: Store, u: UserId) { u in s.users && s.users[u].active && s.users[u].super }

  ghost predicate AnotherAdmin(s: Store, user: UserId) { exists other :: other != user && IsAdmin(s, other) }

  /** The count of at most one means: the target is an active super-admin and there is no other. */
  lemma CountMeansNoOther(s: Store, user: UserId)
    requires IsAdmin(s, user)
    ensures |ActiveSuperAdmins(s.users)| <= 1 <==> !AnotherAdmin(s, user)
  {
    var admins := ActiveSuperAdmins(s.users);
    assert user in admins && |admins - {user}| == |admins| - 1;
    if other :| other != user && IsAdmin(s, other) { assert other in admins - {user}; }
    if |admins| > 1 {
      var other :| other in admins - {user};
      assert IsAdmin(s, other);
    }
  }

  /** The administrator calls refuse the actor as target, unknown users, and the last active
      super-admin, and nobody else. */
  lemma AdminRepliesIff(s: Store, now: Instant, actor: UserId, user: UserId)
    ensures
      var last := IsAdmin(s, user) && !AnotherAdmin(s, user);
      var removal :=
        if user == actor then SelfProtected else if user !in s.users then UserNotFound
        else if last then LastSuperAdminProtected else Done;
      && DeactivateUser(s, now, actor, user).1 == removal && DemoteUser(s, actor, user).1 == removal
    ensures PromoteUser(s, actor, user).1 ==
      if user == actor then SelfProtected else if user !in s.users then UserNotFound else Done
    ensures ActivateUser(s, user).1 == if user in s.users then Done else UserNotFound
  {
    if IsAdmin(s, user) { CountMeansNoOther(s, user); }
  }
}
