/** Every sequence of credential calls, under a clock that never goes back: the shape of
    refresh-token families, write-once revocation, and the single live reset token. */
module CredentialRuns {
  import opened Options
  import opened Credentials
  import Utf8Clamp

  // ----- The machine -----

  datatype Op =
    | LoginOp(user: UserId, password: string, jti: Jti, expiresAt: Instant)
    | RegisterOp(user: UserId, password: string)
    | OAuthOp(user: UserId, random: string, jti: Jti, expiresAt: Instant)
    | RotateOp(claims: Option<Claims>, jti: Jti, expiresAt: Instant)
    | LogoutOp(claims: Option<Claims>)
    | RequestResetOp(user: UserId, cooldown: int, secret: string)
    | AdminResetOp(user: UserId, secret: string)
    | ConsumeOp(plaintext: string, newPassword: string, candidates: seq<nat>)
    | DeactivateOp(actor: UserId, user: UserId)
    | ActivateOp(user: UserId)
    | PromoteOp(actor: UserId, user: UserId)
    | DemoteOp(actor: UserId, user: UserId)

  datatype Event = Event(at: Instant, op: Op)

  ghost predicate FreshJti(s: Store, jti: Jti) { jti != "" && jti !in s.refresh }

  ghost predicate FreshSecret(s: Store, secret: string) {
    secret != "" && forall i :: 0 <= i < |s.resets| ==> s.resets[i].secret != secret
  }

  /** Generated ids and secrets are new, and a candidate list is one the query can return. */
  ghost predicate Enabled(s: Store, e: Event) {
    match e.op
    case LoginOp(_, _, jti, _) => FreshJti(s, jti)
    case OAuthOp(_, _, jti, _) => FreshJti(s, jti)
    case RotateOp(_, jti, _) => FreshJti(s, jti)
    case RequestResetOp(_, _, secret) => FreshSecret(s, secret)
    case AdminResetOp(_, secret) => FreshSecret(s, secret)
    case ConsumeOp(_, _, candidates) => IsCandidateAnswer(s.resets, e.at, candidates)
    case _ => true
  }

  ghost function Step(s: Store, e: Event): (Store, Reply) {
    match e.op
    case LoginOp(user, password, jti, expiresAt) => Login(s, user, password, jti, expiresAt)
    case RegisterOp(user, password) => RegisterUser(s, user, password)
    case OAuthOp(user, random, jti, expiresAt) => OAuthSignIn(s, user, random, jti, expiresAt)
    case RotateOp(claims, jti, expiresAt) => RotateRefresh(s, e.at, claims, jti, expiresAt)
    case LogoutOp(claims) => (RevokeRefresh(s, e.at, claims), Done)
    case RequestResetOp(user, cooldown, secret) => RequestPasswordReset(s, e.at, user, cooldown, secret)
    case AdminResetOp(user, secret) => InitiatePasswordReset(s, e.at, user, secret)
    case ConsumeOp(plaintext, newPassword, candidates) =>
      ConsumeResetToken(s, e.at, plaintext, newPassword, candidates)
    case DeactivateOp(actor, user) => DeactivateUser(s, e.at, actor, user)
    case ActivateOp(user) => ActivateUser(s, user)
    case PromoteOp(actor, user) => PromoteUser(s, actor, user)
    case DemoteOp(actor, user) => DemoteUser(s, actor, user)
  }

  ghost predicate IsRun(s: Store, t: Instant, events: seq<Event>)
    decreases events
  {
    events == [] ||
    (t <= events[0].at && Enabled(s, events[0]) && IsRun(Step(s, events[0]).0, events[0].at, events[1..]))
  }

  ghost function RunFrom(s: Store, events: seq<Event>): Store
    decreases events
  {
    if events == [] then s else RunFrom(Step(s, events[0]).0, events[1..])
  }

  ghost function EndTime(t: Instant, events: seq<Event>): Instant
    decreases events
  {
    if events == [] then t else EndTime(events[0].at, events[1..])
  }

  /** Any users, and no credentials issued yet. */
  ghost predicate Initial(s: Store) { s.refresh == map[] && s.resets == [] }

  ghost predicate Reachable(s: Store, t: Instant) {
    exists s0, t0, events ::
      Initial(s0) && IsRun(s0, t0, events) && s == RunFrom(s0, events) && t == EndTime(t0, events)
  }

  // ----- Invariants -----

  /** `depth` numbers each row by its distance from the login that started its family. */
  ghost predicate DepthOf(rows: RefreshTable, depth: map<Jti, nat>) {
    && depth.Keys == rows.Keys
    && forall j :: j in rows && rows[j].parent.Some? ==>
         var p := rows[j].parent.value;
         p in rows && rows[p].revokedAt.Some? && rows[p].user == rows[j].user && depth[j] == depth[p] + 1
  }

  ghost predicate OneChild(rows: RefreshTable) {
    forall a, b :: a in rows && b in rows && rows[a].parent.Some? && rows[a].parent == rows[b].parent ==> a == b
  }

  ghost predicate Families(rows: RefreshTable) {
    "" !in rows && OneChild(rows) && exists depth :: DepthOf(rows, depth)
  }

  ghost predicate InactiveHoldNone(s: Store) {
    forall j :: j in s.refresh && s.refresh[j].revokedAt.None? ==>
      s.refresh[j].user in s.users && s.users[s.refresh[j].user].active
  }

  ghost predicate SingleLive(rows: ResetTable, t: Instant) {
    forall i, k | 0 <= i < |rows| && 0 <= k < |rows| && rows[i].LiveAt(t) && rows[k].LiveAt(t) ::
      rows[i].user == rows[k].user ==> i == k
  }

  ghost predicate ResetsWellFormed(rows: ResetTable, t: Instant) {
    && (forall i :: 0 <= i < |rows| ==>
          rows[i].secret != "" && rows[i].createdAt <= t && rows[i].expiresAt == rows[i].createdAt + RESET_TTL)
    && (forall i, k :: 0 <= i < |rows| && 0 <= k < |rows| && rows[i].secret == rows[k].secret ==> i == k)
  }

  ghost predicate Inv(s: Store, t: Instant) {
    Families(s.refresh) && InactiveHoldNone(s) && SingleLive(s.resets, t) && ResetsWellFormed(s.resets, t)
  }

  lemma RevokingKeepsFamilies(rows: RefreshTable, picked: set<Jti>, at: Instant, why: Reason)
    requires Families(rows)
    ensures Families(RevokeIn(rows, picked, at, why))
  {
    var rows' := RevokeIn(rows, picked, at, why);
    assert forall j :: j in rows ==> rows'[j].parent == rows[j].parent && rows'[j].user == rows[j].user;
    assert forall j :: j in rows && rows[j].revokedAt.Some? ==> rows'[j] == rows[j];
    var depth :| DepthOf(rows, depth);
    assert DepthOf(rows', depth);
    assert OneChild(rows');
  }

  lemma IssuingKeepsFamilies(rows: RefreshTable, jti: Jti, row: RefreshRow)
    requires Families(rows) && jti != "" && jti !in rows
    requires row.parent.Some? ==>
      var p := row.parent.value;
      p in rows && rows[p].revokedAt.Some? && rows[p].user == row.user &&
      forall j :: j in rows ==> rows[j].parent != row.parent
    ensures Families(rows[jti := row])
  {
    var depth :| DepthOf(rows, depth);
    var own: nat := if row.parent.Some? then depth[row.parent.value] + 1 else 0;
    assert DepthOf(rows[jti := row], depth[jti := own]);
  }

  lemma RotationKeepsFamilies(s: Store, now: Instant, claims: Option<Claims>, newJti: Jti, newExpiresAt: Instant)
    requires Families(s.refresh) && FreshJti(s, newJti)
    ensures Families(RotateRefresh(s, now, claims, newJti, newExpiresAt).0.refresh)
  {
    if claims.Some? && claims.value.jti in s.refresh {
      var jti := claims.value.jti;
      var row := s.refresh[jti];
      if row.revokedAt.Some? {
        RevokingKeepsFamilies(s.refresh, Chain(s.refresh, jti), now, ReuseDetected);
      } else if row.expiresAt <= now {
        RevokingKeepsFamilies(s.refresh, {jti}, now, Expired);
      } else {
        // A token that is not revoked has no child yet.
        var depth :| DepthOf(s.refresh, depth);
        RevokingKeepsFamilies(s.refresh, {jti}, now, Rotated);
        var rows := RevokeIn(s.refresh, {jti}, now, Rotated);
        assert forall j :: j in rows ==> rows[j].parent != Some(jti);
        IssuingKeepsFamilies(rows, newJti, RefreshRow(row.user, Some(jti), newExpiresAt, None, None));
      }
    }
  }

  lemma StepKeepsFamilies(s: Store, e: Event)
    requires Families(s.refresh) && Enabled(s, e)
    ensures Families(Step(s, e).0.refresh)
  {
    match e.op
    case LoginOp(user, password, jti, expiresAt) =>
      IssuingKeepsFamilies(s.refresh, jti, RefreshRow(user, None, expiresAt, None, None));
    case OAuthOp(user, _, jti, expiresAt) =>
      IssuingKeepsFamilies(s.refresh, jti, RefreshRow(user, None, expiresAt, None, None));
    case RotateOp(claims, jti, expiresAt) =>
      RotationKeepsFamilies(s, e.at, claims, jti, expiresAt);
    case LogoutOp(claims) =>
      if claims.Some? { RevokingKeepsFamilies(s.refresh, {claims.value.jti}, e.at, Logout); }
    case ConsumeOp(plaintext, newPassword, candidates) =>
      var m := FirstMatch(s.resets, candidates, plaintext);
      if m.Some? {
        RevokingKeepsFamilies(s.refresh, TokensOf(s.refresh, s.resets[m.value].user), e.at, ReuseDetected);
      }
    case DeactivateOp(_, user) =>
      RevokingKeepsFamilies(s.refresh, TokensOf(s.refresh, user), e.at, Logout);
    case _ =>
  }

  lemma DeactivationKeepsInactiveHoldNone(s: Store, now: Instant, actor: UserId, user: UserId)
    requires InactiveHoldNone(s)
    ensures InactiveHoldNone(DeactivateUser(s, now, actor, user).0)
  {
    var rows := RevokeIn(s.refresh, TokensOf(s.refresh, user), now, Logout);
    assert forall j :: j in rows && rows[j].revokedAt.None? ==> s.refresh[j].revokedAt.None? && rows[j].user != user;
  }

  lemma ConsumingKeepsInactiveHoldNone(s: Store, now: Instant, plaintext: string, newPassword: string,
                                       candidates: seq<nat>)
    requires InactiveHoldNone(s)
    ensures InactiveHoldNone(ConsumeResetToken(s, now, plaintext, newPassword, candidates).0)
  {
    var m := FirstMatch(s.resets, candidates, plaintext);
  }

  lemma StepKeepsInactiveHoldNone(s: Store, e: Event)
    requires InactiveHoldNone(s)
    ensures InactiveHoldNone(Step(s, e).0)
  {
    match e.op
    case ConsumeOp(plaintext, newPassword, candidates) =>
      ConsumingKeepsInactiveHoldNone(s, e.at, plaintext, newPassword, candidates);
    case DeactivateOp(actor, user) =>
      DeactivationKeepsInactiveHoldNone(s, e.at, actor, user);
    case _ =>
  }

  lemma IssuingKeepsResets(rows: ResetTable, user: UserId, now: Instant, secret: string)
    requires SingleLive(rows, now) && ResetsWellFormed(rows, now)
    requires secret != "" && forall i :: 0 <= i < |rows| ==> rows[i].secret != secret
    ensures SingleLive(IssueReset(rows, user, now, secret), now)
    ensures ResetsWellFormed(IssueReset(rows, user, now, secret), now)
  {
    var kept := Invalidated(rows, user, now);
    assert forall i :: 0 <= i < |rows| ==>
      kept[i].secret == rows[i].secret && (kept[i].LiveAt(now) ==> rows[i].LiveAt(now));
  }

  lemma StepKeepsResets(s: Store, e: Event)
    requires SingleLive(s.resets, e.at) && ResetsWellFormed(s.resets, e.at) && Enabled(s, e)
    ensures SingleLive(Step(s, e).0.resets, e.at) && ResetsWellFormed(Step(s, e).0.resets, e.at)
  {
    match e.op
    case RequestResetOp(user, _, secret) => IssuingKeepsResets(s.resets, user, e.at, secret);
    case AdminResetOp(user, secret) => IssuingKeepsResets(s.resets, user, e.at, secret);
    case _ =>
  }

  lemma StepKeepsInv(s: Store, t: Instant, e: Event)
    requires Inv(s, t) && t <= e.at && Enabled(s, e)
    ensures Inv(Step(s, e).0, e.at)
  {
    StepKeepsFamilies(s, e);
    StepKeepsInactiveHoldNone(s, e);
    StepKeepsResets(s, e);
  }

  lemma {:induction false} RunKeepsInv(s: Store, t: Instant, events: seq<Event>)
    requires Inv(s, t) && IsRun(s, t, events)
    ensures Inv(RunFrom(s, events), EndTime(t, events))
    decreases events
  {
    if events != [] {
      StepKeepsInv(s, t, events[0]);
      RunKeepsInv(Step(s, events[0]).0, events[0].at, events[1..]);
    }
  }

  lemma ReachableInv(s: Store, t: Instant)
    requires Reachable(s, t)
    ensures Inv(s, t)
  {
    var s0, t0, events :|
      Initial(s0) && IsRun(s0, t0, events) && s == RunFrom(s0, events) && t == EndTime(t0, events);
    assert DepthOf(s0.refresh, map[]);
    RunKeepsInv(s0, t0, events);
  }

  lemma {:induction false} RunSnoc(s: Store, t: Instant, events: seq<Event>, e: Event)
    requires IsRun(s, t, events) && EndTime(t, events) <= e.at && Enabled(RunFrom(s, events), e)
    ensures IsRun(s, t, events + [e])
    ensures RunFrom(s, events + [e]) == Step(RunFrom(s, events), e).0 && EndTime(t, events + [e]) == e.at
    decreases events
  {
    var all := events + [e];
    if events == [] {
      assert all[1..] == [];
    } else {
      assert all[1..] == events[1..] + [e];
      RunSnoc(Step(s, events[0]).0, events[0].at, events[1..], e);
    }
  }

  lemma ReachableStep(s: Store, t: Instant, e: Event)
    requires Reachable(s, t) && t <= e.at && Enabled(s, e)
    ensures Reachable(Step(s, e).0, e.at)
  {
    var s0, t0, events :|
      Initial(s0) && IsRun(s0, t0, events) && s == RunFrom(s0, events) && t == EndTime(t0, events);
    RunSnoc(s0, t0, events, e);
  }

  lemma {:induction false} ReachableRun(s: Store, t: Instant, events: seq<Event>)
    requires Reachable(s, t) && IsRun(s, t, events)
    ensures Reachable(RunFrom(s, events), EndTime(t, events))
    decreases events
  {
    if events != [] {
      ReachableStep(s, t, events[0]);
      ReachableRun(Step(s, events[0]).0, events[0].at, events[1..]);
    }
  }

  // ----- Families are lines -----

  /** Two rows descend from a common row. */
  ghost predicate Related(rows: RefreshTable, a: Jti, b: Jti) {
    exists r, m: nat, n: nat :: r in rows && Ancestor(rows, a, r, m) && Ancestor(rows, b, r, n)
  }

  lemma {:induction false} AncestorsAreRows(rows: RefreshTable, j: Jti, a: Jti, n: nat)
    requires Families(rows) && j in rows && Ancestor(rows, j, a, n)
    ensures a in rows && rows[a].user == rows[j].user
    ensures n > 0 ==> rows[a].revokedAt.Some?
    decreases n
  {
    if n > 0 {
      var depth :| DepthOf(rows, depth);
      AncestorsAreRows(rows, j, Up(rows, j, n - 1).value, n - 1);
    }
  }

  lemma {:induction false} DepthDrops(rows: RefreshTable, depth: map<Jti, nat>, j: Jti, a: Jti, n: nat)
    requires "" !in rows && DepthOf(rows, depth) && j in rows && Ancestor(rows, j, a, n)
    ensures a in rows && depth[a] + n == depth[j]
    decreases n
  {
    if n > 0 { DepthDrops(rows, depth, j, Up(rows, j, n - 1).value, n - 1); }
  }

  /** Of two related rows, one is an ancestor of the other. */
  lemma {:induction false} FamiliesAreLines(rows: RefreshTable, a: Jti, b: Jti, r: Jti, m: nat, n: nat)
    requires Families(rows) && a in rows && b in rows && r in rows
    requires Ancestor(rows, a, r, m) && Ancestor(rows, b, r, n)
    ensures (exists k: nat :: Ancestor(rows, a, b, k)) || (exists k: nat :: Ancestor(rows, b, a, k))
    decreases m
  {
    if m > 0 && n > 0 {
      var a', b' := Up(rows, a, m - 1).value, Up(rows, b, n - 1).value;
      AncestorsAreRows(rows, a, a', m - 1);
      AncestorsAreRows(rows, b, b', n - 1);
      FamiliesAreLines(rows, a, b, a', m - 1, n - 1);
    }
  }

  /** In every reachable state the parent links are acyclic, a token has at most one child and
      is revoked once it has one, and the only possibly live member of a family is the
      token that every other member is an ancestor of. */
  lemma ReachableFamilies(s: Store, t: Instant)
    requires Reachable(s, t)
    ensures forall j, n: nat :: j in s.refresh && n > 0 ==> !Ancestor(s.refresh, j, j, n)
    ensures OneChild(s.refresh)
    ensures forall j :: j in s.refresh && s.refresh[j].parent.Some? ==>
              s.refresh[j].parent.value in s.refresh && s.refresh[s.refresh[j].parent.value].revokedAt.Some?
    ensures forall j, k ::
              j in s.refresh && k in s.refresh && s.refresh[j].revokedAt.None? && Related(s.refresh, j, k) ==>
              exists n: nat :: Ancestor(s.refresh, j, k, n)
  {
    ReachableInv(s, t);
    var rows := s.refresh;
    var depth :| DepthOf(rows, depth);
    forall j, n: nat | j in rows && n > 0 ensures !Ancestor(rows, j, j, n) {
      if Ancestor(rows, j, j, n) { DepthDrops(rows, depth, j, j, n); }
    }
    forall j, k | j in rows && k in rows && rows[j].revokedAt.None? && Related(rows, j, k)
      ensures exists n: nat :: Ancestor(rows, j, k, n)
    {
      var r, m: nat, n: nat :| r in rows && Ancestor(rows, j, r, m) && Ancestor(rows, k, r, n);
      FamiliesAreLines(rows, j, k, r, m, n);
      if i: nat :| Ancestor(rows, k, j, i) {
        AncestorsAreRows(rows, k, j, i);
        assert i == 0;
        assert Ancestor(rows, j, k, 0);
      }
    }
  }

  lemma OneLiveTokenPerFamily(s: Store, t: Instant, a: Jti, b: Jti)
    requires Reachable(s, t) && a in s.refresh && b in s.refresh && Related(s.refresh, a, b)
    requires s.refresh[a].revokedAt.None? && s.refresh[b].revokedAt.None?
    ensures a == b
  {
    ReachableFamilies(s, t);
    ReachableInv(s, t);
    var n: nat :| Ancestor(s.refresh, a, b, n);
    AncestorsAreRows(s.refresh, a, b, n);
  }

  // ----- Rotation -----

  /** In every reachable state a rotation succeeds exactly for a known token that is neither
      revoked nor expired (its owner is then active). It retires that token, puts the new one
      at the end of the same line, and touches no other row. */
  lemma RotationExtendsTheLine(s: Store, t: Instant, now: Instant, claims: Claims, newJti: Jti, newExpiresAt: Instant)
    requires Reachable(s, t) && FreshJti(s, newJti)
    requires claims.jti != "" && claims.sub != ""
    ensures
      var (s', reply) := RotateRefresh(s, now, Some(claims), newJti, newExpiresAt);
      var rows := s.refresh;
      && (reply == Tokens(newJti) <==>
          claims.jti in rows && rows[claims.jti].revokedAt.None? && now < rows[claims.jti].expiresAt)
      && (reply == Tokens(newJti) ==>
          && s'.refresh.Keys == rows.Keys + {newJti} && s'.users == s.users && s'.resets == s.resets
          && s'.refresh[claims.jti].revokedAt == Some(now) && s'.refresh[claims.jti].reason == Some(Rotated)
          && s'.refresh[newJti].revokedAt.None? && s'.refresh[newJti].user == rows[claims.jti].user
          && (forall j :: j in rows && j != claims.jti ==> s'.refresh[j] == rows[j])
          && (forall j, n: nat :: j in rows && Ancestor(rows, claims.jti, j, n) ==>
                Ancestor(s'.refresh, newJti, j, n + 1)))
  {
    ReachableInv(s, t);
    var (s', reply) := RotateRefresh(s, now, Some(claims), newJti, newExpiresAt);
    if reply == Tokens(newJti) {
      forall j, n: nat | j in s.refresh && Ancestor(s.refresh, claims.jti, j, n)
        ensures Ancestor(s'.refresh, newJti, j, n + 1)
      {
        LinePrefix(s.refresh, s'.refresh, claims.jti, newJti, j, n);
      }
    }
  }

  lemma {:induction false} LinePrefix(rows: RefreshTable, rows': RefreshTable, last: Jti, next: Jti, j: Jti, n: nat)
    requires Families(rows) && last in rows && next != "" && next in rows' && rows'[next].parent == Some(last)
    requires forall k :: k in rows ==> k in rows' && rows'[k].parent == rows[k].parent
    requires Ancestor(rows, last, j, n)
    ensures Ancestor(rows', next, j, n + 1)
    decreases n
  {
    if n > 0 {
      var below := Up(rows, last, n - 1).value;
      AncestorsAreRows(rows, last, below, n - 1);
      LinePrefix(rows, rows', last, next, below, n - 1);
    }
  }

  // ----- Reuse detection -----

  /** In a serial run the chain walk of the reuse branch finds every row revoked already, so
      presenting a revoked token changes nothing at all. */
  lemma ReuseChangesNothing(s: Store, t: Instant, now: Instant, claims: Claims, newJti: Jti, newExpiresAt: Instant)
    requires Reachable(s, t)
    requires claims.jti in s.refresh && s.refresh[claims.jti].revokedAt.Some? && claims.sub != ""
    ensures RotateRefresh(s, now, Some(claims), newJti, newExpiresAt) == (s, ReuseRejected)
  {
    ReachableInv(s, t);
    var chain := Chain(s.refresh, claims.jti);
    forall j | j in chain ensures s.refresh[j].revokedAt.Some? {
      var n: nat :| Ancestor(s.refresh, claims.jti, j, n);
      AncestorsAreRows(s.refresh, claims.jti, j, n);
    }
    assert RevokeIn(s.refresh, chain, now, ReuseDetected) == s.refresh;
  }

  /** Presenting a revoked token ends its whole family exactly when nothing in the family was
      live before: the walk goes to parents, so the newest token is out of its reach. */
  lemma ReuseEndsFamilyIff(s: Store, t: Instant, now: Instant, claims: Claims, newJti: Jti, newExpiresAt: Instant)
    requires Reachable(s, t)
    requires claims.jti in s.refresh && s.refresh[claims.jti].revokedAt.Some? && claims.sub != ""
    ensures
      var rows := RotateRefresh(s, now, Some(claims), newJti, newExpiresAt).0.refresh;
      (forall j :: j in rows && Related(rows, claims.jti, j) ==> rows[j].revokedAt.Some?) <==>
      !(exists j, n: nat :: j in s.refresh && s.refresh[j].revokedAt.None? && Ancestor(s.refresh, j, claims.jti, n))
  {
    ReuseChangesNothing(s, t, now, claims, newJti, newExpiresAt);
    ReachableFamilies(s, t);
    var rows := s.refresh;
    forall j, n: nat | j in rows && Ancestor(rows, j, claims.jti, n) ensures Related(rows, claims.jti, j) {
      assert Ancestor(rows, claims.jti, claims.jti, 0);
    }
    forall j | j in rows && Related(rows, claims.jti, j) && rows[j].revokedAt.None?
      ensures exists n: nat :: Ancestor(rows, j, claims.jti, n)
    {
      var r, m: nat, n: nat :| r in rows && Ancestor(rows, claims.jti, r, m) && Ancestor(rows, j, r, n);
      assert Related(rows, j, claims.jti);
    }
  }

  const FIRST_LOGIN := RefreshRow(0, None, 10, None, None)
  const SUCCESSOR := RefreshRow(0, Some("a"), 10, None, None)

  /** User 0 logs in and rotates once. */
  lemma RotatedOnce() returns (s: Store)
    ensures Reachable(s, 1)
    ensures s.refresh == map["a" := FIRST_LOGIN.(revokedAt := Some(1), reason := Some(Rotated)), "b" := SUCCESSOR]
  {
    var s0 := Store(map[0 := User(true, false, Hashed(""))], map[], []);
    var first, second := Event(0, LoginOp(0, "", "a", 10)), Event(1, RotateOp(Some(Claims("a", "0")), "b", 10));
    var s1 := Step(s0, first).0;
    assert s1.refresh == map["a" := FIRST_LOGIN];
    assert RunFrom(s0, []) == s0 && EndTime(0, []) == 0 && IsRun(s0, 0, []);
    assert FreshJti(s0, "a");
    ReachableStep(s0, 0, first);
    assert "b"[0] != "a"[0];
    assert FreshJti(s1, "b");
    ReachableStep(s1, 0, second);
    s := Step(s1, second).0;
  }

  /** Replaying the rotated token is refused, and its successor is as live as before. */
  lemma ReuseLeavesTheSuccessorLive() returns (s: Store)
    ensures Reachable(s, 1) && "a" in s.refresh && s.refresh["a"].revokedAt.Some?
    ensures
      var (s', reply) := RotateRefresh(s, 2, Some(Claims("a", "0")), "c", 10);
      && reply == ReuseRejected && "b" in s'.refresh && s'.refresh["b"].revokedAt.None?
      && Ancestor(s'.refresh, "b", "a", 1)
  {
    s := RotatedOnce();
    ReuseChangesNothing(s, 1, 2, Claims("a", "0"), "c", 10);
    assert Up(s.refresh, "b", 0) == Some("b");
  }

  // ----- Write-once revocation -----

  ghost predicate Settled<T>(before: Option<T>, after: Option<T>) { before.Some? ==> after == before }

  /** Rows are never dropped, a revoked row never changes again, and `used_at` and
      `invalidated_at` are set at most once. */
  ghost predicate Extends(s: Store, s': Store) {
    && (forall j | j in s.refresh ::
          && j in s'.refresh
          && (s.refresh[j].revokedAt.Some? ==> s'.refresh[j] == s.refresh[j])
          && s'.refresh[j] == s.refresh[j].(revokedAt := s'.refresh[j].revokedAt, reason := s'.refresh[j].reason))
    && |s.resets| <= |s'.resets|
    && (forall i | 0 <= i < |s.resets| ::
          && Settled(s.resets[i].usedAt, s'.resets[i].usedAt)
          && Settled(s.resets[i].invalidatedAt, s'.resets[i].invalidatedAt)
          && s'.resets[i] ==
             s.resets[i].(usedAt := s'.resets[i].usedAt, invalidatedAt := s'.resets[i].invalidatedAt))
  }

  lemma StepExtends(s: Store, e: Event)
    requires Enabled(s, e)
    ensures Extends(s, Step(s, e).0)
  {
  }

  lemma {:induction false} RevocationIsWriteOnce(s: Store, t: Instant, events: seq<Event>)
    requires IsRun(s, t, events)
    ensures Extends(s, RunFrom(s, events))
    decreases events
  {
    if events != [] {
      var s' := Step(s, events[0]).0;
      StepExtends(s, events[0]);
      RevocationIsWriteOnce(s', events[0].at, events[1..]);
    }
  }

  ghost predicate HoldsNone(s: Store, user: UserId) {
    forall j :: j in s.refresh && s.refresh[j].user == user ==> s.refresh[j].revokedAt.Some?
  }

  /** Once revoked, a token is refused in every later state of every run. */
  lemma RevokedTokensStayRefused(s: Store, t: Instant, events: seq<Event>, now: Instant, claims: Claims,
                                 newJti: Jti, newExpiresAt: Instant)
    requires IsRun(s, t, events)
    requires claims.jti in s.refresh && s.refresh[claims.jti].revokedAt.Some? && claims.jti != "" && claims.sub != ""
    ensures RotateRefresh(RunFrom(s, events), now, Some(claims), newJti, newExpiresAt).1 == ReuseRejected
  {
    RevocationIsWriteOnce(s, t, events);
  }

  /** A refresh token is good for one presentation while it decodes: whichever branch the first one
      takes, every later one, in any run, is refused. */
  lemma PresentedTokensAreSpent(s: Store, t: Instant, e: Event, events: seq<Event>, now: Instant,
                                newJti: Jti, newExpiresAt: Instant)
    requires Reachable(s, t) && Enabled(s, e) && e.op.RotateOp? && e.op.claims.Some?
    requires e.op.claims.value.jti in s.refresh && e.op.claims.value.sub != ""
    requires IsRun(Step(s, e).0, e.at, events)
    ensures RotateRefresh(RunFrom(Step(s, e).0, events), now, e.op.claims, newJti, newExpiresAt).1 == ReuseRejected
  {
    ReachableInv(s, t);
    RevokedTokensStayRefused(Step(s, e).0, e.at, events, now, e.op.claims.value, newJti, newExpiresAt);
  }

  lemma LogoutEndsTheSession(s: Store, at: Instant, events: seq<Event>, now: Instant, claims: Claims,
                             newJti: Jti, newExpiresAt: Instant)
    requires IsRun(RevokeRefresh(s, at, Some(claims)), at, events)
    requires claims.jti in s.refresh && claims.jti != "" && claims.sub != ""
    ensures
      var s' := RevokeRefresh(s, at, Some(claims));
      && (forall j :: j in s.refresh && j != claims.jti ==> s'.refresh[j] == s.refresh[j])
      && RotateRefresh(RunFrom(s', events), now, Some(claims), newJti, newExpiresAt).1 == ReuseRejected
  {
    RevokedTokensStayRefused(RevokeRefresh(s, at, Some(claims)), at, events, now, claims, newJti, newExpiresAt);
  }

  /** A consumed reset or a deactivation ends every session of the user for good: in no later
      state of any run can one of the tokens issued before be rotated. */
  lemma SessionsStayEnded(s: Store, e: Event, events: seq<Event>, user: UserId, now: Instant,
                          claims: Claims, newJti: Jti, newExpiresAt: Instant)
    requires Enabled(s, e) && IsRun(Step(s, e).0, e.at, events)
    requires
      || (e.op.ConsumeOp? && Step(s, e).1 == PasswordChanged(user))
      || (e.op.DeactivateOp? && Step(s, e).1 == Done && e.op.user == user && InactiveHoldNone(s))
    requires claims.jti in s.refresh && s.refresh[claims.jti].user == user && claims.sub != "" && claims.jti != ""
    ensures HoldsNone(Step(s, e).0, user)
    ensures RotateRefresh(RunFrom(Step(s, e).0, events), now, Some(claims), newJti, newExpiresAt).1 == ReuseRejected
  {
    RevokedTokensStayRefused(Step(s, e).0, e.at, events, now, claims, newJti, newExpiresAt);
  }

  /** What justifies the early return for a user who is already inactive. */
  lemma InactiveUsersHoldNone(s: Store, t: Instant, user: UserId)
    requires Reachable(s, t) && (user !in s.users || !s.users[user].active)
    ensures HoldsNone(s, user)
  {
    ReachableInv(s, t);
  }

  lemma OthersKeepAdmins(s: Store, e: Event)
    requires !e.op.DeactivateOp? && !e.op.DemoteOp?
    ensures ActiveSuperAdmins(s.users) <= ActiveSuperAdmins(Step(s, e).0.users)
  {
    var users, users' := s.users, Step(s, e).0.users;
    if e.op.ConsumeOp? {
      var m := FirstMatch(s.resets, e.op.candidates, e.op.plaintext);
    } else if e.op.ActivateOp? || e.op.PromoteOp? {
      assert forall u :: u in users && u != e.op.user ==> u in users' && users'[u] == users[u];
    } else {
      assert forall u :: u in users ==> u in users' && users'[u] == users[u];
    }
  }

  lemma RemovalKeepsAnAdmin(s: Store, e: Event)
    requires ActiveSuperAdmins(s.users) != {} && (e.op.DeactivateOp? || e.op.DemoteOp?)
    ensures ActiveSuperAdmins(Step(s, e).0.users) != {}
  {
    var admins, users' := ActiveSuperAdmins(s.users), Step(s, e).0.users;
    assert forall u :: u in s.users && u != e.op.user ==> u in users' && users'[u] == s.users[u];
    assert ActiveSuperAdmins(users') >= admins - {e.op.user};
    if users' != s.users && e.op.user in admins { assert |admins - {e.op.user}| == |admins| - 1; }
  }

  lemma StepKeepsAnAdmin(s: Store, e: Event)
    requires ActiveSuperAdmins(s.users) != {}
    ensures ActiveSuperAdmins(Step(s, e).0.users) != {}
  {
    if e.op.DeactivateOp? || e.op.DemoteOp? { RemovalKeepsAnAdmin(s, e); } else { OthersKeepAdmins(s, e); }
  }

  /** Serial demotions and deactivations never take the last active super-admin; `SuperAdminGuard` has the
      interleaved ones. */
  lemma {:induction false} RunKeepsAnAdmin(s: Store, t: Instant, events: seq<Event>)
    requires ActiveSuperAdmins(s.users) != {} && IsRun(s, t, events)
    ensures ActiveSuperAdmins(RunFrom(s, events).users) != {}
    decreases events
  {
    if events != [] {
      StepKeepsAnAdmin(s, events[0]);
      RunKeepsAnAdmin(Step(s, events[0]).0, events[0].at, events[1..]);
    }
  }

  /** `issue_token_pair` has no check of its own: the invariant rests on the caller's. */
  lemma IssuingNeedsTheActiveCheck(s: Store, user: UserId, jti: Jti, expiresAt: Instant)
    requires InactiveHoldNone(s) && jti !in s.refresh
    ensures InactiveHoldNone(IssueTokenPair(s, user, jti, expiresAt)) <==> user in s.users && s.users[user].active
  {
    var s' := IssueTokenPair(s, user, jti, expiresAt);
    assert s'.refresh[jti].revokedAt.None? && s'.refresh[jti].user == user;
  }

  // ----- Reset tokens -----

  lemma AtMostOneLiveReset(s: Store, t: Instant, now: Instant, i: nat, k: nat)
    requires Reachable(s, t) && t <= now
    requires i in LiveResets(s.resets, now) && k in LiveResets(s.resets, now)
    requires s.resets[i].user == s.resets[k].user
    ensures i == k
  {
    ReachableInv(s, t);
  }

  lemma SubsetOfSingleton(a: set<nat>, x: nat)
    requires forall y :: y in a ==> y == x
    ensures |a| <= 1
  {
    if a != {} { assert a == {x}; }
  }

  lemma RecentIsUnambiguous(rows: ResetTable, t: Instant, now: Instant, user: UserId, cooldown: int)
    requires SingleLive(rows, t) && ResetsWellFormed(rows, t) && t <= now && cooldown < RESET_TTL
    ensures |Recent(rows, user, now, cooldown)| <= 1
  {
    var recent := Recent(rows, user, now, cooldown);
    if x :| x in recent { SubsetOfSingleton(recent, x); }
  }

  ghost predicate NeverAmbiguous(cooldown: int) {
    forall s, t, now, user, secret :: Reachable(s, t) && t <= now ==>
      RequestPasswordReset(s, now, user, cooldown, secret).1 != AmbiguousQuery
  }

  const FIRST_RESET := ResetRow(0, "a", 0, RESET_TTL, None, None)
  const SECOND_RESET := ResetRow(0, "b", RESET_TTL, RESET_TTL + RESET_TTL, None, None)

  /** Two tokens of one user, the second issued by an administrator at the very instant the
      first expires: neither supersedes the other. */
  lemma TwoPendingReachable() returns (s: Store)
    ensures Reachable(s, RESET_TTL)
    ensures s.users == map[0 := User(true, false, [])] && s.resets == [FIRST_RESET, SECOND_RESET]
  {
    var s0 := Store(map[0 := User(true, false, [])], map[], []);
    var first, second := Event(0, AdminResetOp(0, "a")), Event(RESET_TTL, AdminResetOp(0, "b"));
    var s1 := Step(s0, first).0;
    assert s1.resets == [FIRST_RESET];
    s := Step(s1, second).0;
    assert Invalidated([FIRST_RESET], 0, RESET_TTL) == [FIRST_RESET];
    assert RunFrom(s0, []) == s0 && EndTime(0, []) == 0 && IsRun(s0, 0, []);
    ReachableStep(s0, 0, first);
    ReachableStep(s1, 0, second);
  }

  /** Both are within a cooldown of an hour or more. */
  lemma TwoPendingTokens(cooldown: int)
    requires RESET_TTL <= cooldown
    ensures !NeverAmbiguous(cooldown)
  {
    var s := TwoPendingReachable();
    assert Recent(s.resets, 0, RESET_TTL, cooldown) == {0, 1};
    assert RequestPasswordReset(s, RESET_TTL, 0, cooldown, "c").1 == AmbiguousQuery;
  }

  /** The cooldown query returns at most one row in every reachable state exactly when the
      cooldown is strictly shorter than a reset token's hour. */
  lemma CooldownQueryIsSafeIff(cooldown: int)
    ensures NeverAmbiguous(cooldown) <==> cooldown < 3_600_000_000
  {
    if cooldown < RESET_TTL {
      forall s, t, now, user, secret | Reachable(s, t) && t <= now
        ensures RequestPasswordReset(s, now, user, cooldown, secret).1 != AmbiguousQuery
      {
        ReachableInv(s, t);
        RecentIsUnambiguous(s.resets, t, now, user, cooldown);
      }
    } else {
      TwoPendingTokens(cooldown);
    }
  }

  /** Within the cooldown a user's second request issues nothing, unless the token of the first
      has been used or superseded meanwhile. */
  lemma CooldownHolds(s: Store, e: Event, events: seq<Event>, now: Instant, cooldown: int, secret: string)
    requires Enabled(s, e) && e.op.RequestResetOp? && Step(s, e).1 == ResetIssued
    requires IsRun(Step(s, e).0, e.at, events) && now <= e.at + cooldown
    ensures
      var s' := RunFrom(Step(s, e).0, events);
      && |s.resets| < |s'.resets|
      && (RequestPasswordReset(s', now, e.op.user, cooldown, secret).1 == ResetIssued ==>
            !s'.resets[|s.resets|].Pending())
  {
    RevocationIsWriteOnce(Step(s, e).0, e.at, events);
    var s' := RunFrom(Step(s, e).0, events);
    var first := |s.resets|;
    assert s'.resets[first].Pending() && e.op.user in s'.users ==> first in Recent(s'.resets, e.op.user, now, cooldown);
  }

  lemma {:induction false} DistinctCardinality(xs: seq<nat>, all: set<nat>)
    requires forall k, l :: 0 <= k < l < |xs| ==> xs[k] != xs[l]
    requires forall k :: 0 <= k < |xs| ==> xs[k] in all
    ensures |xs| <= |all|
    ensures |xs| == |all| ==> forall x :: x in all ==> x in xs
  {
    if xs != [] {
      DistinctCardinality(xs[1..], all - {xs[0]});
      assert forall x :: x in xs <==> x == xs[0] || x in xs[1..];
    }
  }

  /** The 256-row cap hides a live token only behind 256 others that are at least as new. */
  lemma HiddenOnlyBehindNewer(rows: ResetTable, now: Instant, candidates: seq<nat>, i: nat)
    requires IsCandidateAnswer(rows, now, candidates)
    requires i in LiveResets(rows, now) && i !in candidates
    ensures |set k | k in LiveResets(rows, now) && k != i && rows[i].createdAt <= rows[k].createdAt| >= 256
  {
    DistinctCardinality(candidates, LiveResets(rows, now));
    DistinctCardinality(candidates,
      set k | k in LiveResets(rows, now) && k != i && rows[i].createdAt <= rows[k].createdAt);
  }

  function LiveHolders(rows: ResetTable, now: Instant): set<UserId> {
    set i | i in LiveResets(rows, now) :: rows[i].user
  }

  lemma {:induction false} InjectiveImage(rows: ResetTable, picked: set<nat>)
    requires forall i :: i in picked ==> i < |rows|
    requires forall i, k :: i in picked && k in picked && rows[i].user == rows[k].user ==> i == k
    ensures |picked| == |set i | i in picked :: rows[i].user|
  {
    if x :| x in picked {
      InjectiveImage(rows, picked - {x});
      assert (set i | i in picked :: rows[i].user) ==
             (set i | i in picked - {x} :: rows[i].user) + {rows[x].user};
    }
  }

  /** While at most 256 users hold a live token, consuming succeeds for exactly the plaintexts
      of live tokens whose owner is active, and for that owner. */
  lemma ConsumeSucceedsIff(s: Store, t: Instant, now: Instant, plaintext: string, newPassword: string,
                           candidates: seq<nat>, user: UserId)
    requires Reachable(s, t) && t <= now && IsCandidateAnswer(s.resets, now, candidates)
    requires |LiveHolders(s.resets, now)| <= 256
    ensures ConsumeResetToken(s, now, plaintext, newPassword, candidates).1 == PasswordChanged(user) <==>
      user in s.users && s.users[user].active &&
      exists i :: i in LiveResets(s.resets, now) && s.resets[i].secret == plaintext && s.resets[i].user == user
  {
    ReachableInv(s, t);
    InjectiveImage(s.resets, LiveResets(s.resets, now));
    DistinctCardinality(candidates, LiveResets(s.resets, now));
    var m := FirstMatch(s.resets, candidates, plaintext);
  }

  /** A reset token works once: after a successful consume its plaintext is refused for ever. */
  lemma ResetTokensAreSingleUse(s: Store, t: Instant, e: Event, events: seq<Event>, user: UserId,
                                now: Instant, newPassword: string, candidates: seq<nat>)
    requires Reachable(s, t) && t <= e.at && Enabled(s, e) && e.op.ConsumeOp? && Step(s, e).1 == PasswordChanged(user)
    requires IsRun(Step(s, e).0, e.at, events) && EndTime(e.at, events) <= now
    requires IsCandidateAnswer(RunFrom(Step(s, e).0, events).resets, now, candidates)
    ensures
      var s' := RunFrom(Step(s, e).0, events);
      ConsumeResetToken(s', now, e.op.plaintext, newPassword, candidates).1 == InvalidReset
  {
    ReachableInv(s, t);
    var s1 := Step(s, e).0;
    StepKeepsInv(s, t, e);
    RunKeepsInv(s1, e.at, events);
    RevocationIsWriteOnce(s1, e.at, events);
    var s2 := RunFrom(s1, events);
    var used := FirstMatch(s.resets, e.op.candidates, e.op.plaintext).value;
    assert s2.resets[used].usedAt.Some? && s2.resets[used].secret == e.op.plaintext;
  }

  lemma {:induction false} EncodingIsLonger(s: string)
    ensures |s| <= |Utf8Clamp.Encode(s)|
  {
    if s != "" { EncodingIsLonger(s[1..]); }
  }

  lemma Associates<T>(a: seq<T>, b: seq<T>, c: seq<T>)
    ensures a + (b + c) == (a + b) + c
  {
  }

  lemma {:induction false} EncodingConcat(a: string, b: string)
    ensures Utf8Clamp.Encode(a + b) == Utf8Clamp.Encode(a) + Utf8Clamp.Encode(b)
  {
    if a == "" {
      assert a + b == b;
    } else {
      assert (a + b)[0] == a[0] && (a + b)[1..] == a[1..] + b;
      EncodingConcat(a[1..], b);
      Associates(Utf8Clamp.EncodeChar(a[0]), Utf8Clamp.Encode(a[1..]), Utf8Clamp.Encode(b));
    }
  }

  /** The cut to 72 characters is never seen: the bytes beyond it are dropped anyway. */
  lemma HashedIsBytePrefix(s: string)
    ensures Hashed(s) == if |Utf8Clamp.Encode(s)| <= 72 then Utf8Clamp.Encode(s) else Utf8Clamp.Encode(s)[..72]
  {
    EncodingIsLonger(s);
    if |s| > 72 {
      assert s == s[..72] + s[72..];
      EncodingConcat(s[..72], s[72..]);
      EncodingIsLonger(s[..72]);
    }
  }

  lemma EncodingIsInjective(a: string, b: string)
    ensures Utf8Clamp.Encode(a) == Utf8Clamp.Encode(b) <==> a == b
  {
    Utf8Clamp.RoundTrip(a);
    Utf8Clamp.RoundTrip(b);
  }

  predicate Alike<T(==)>(x: seq<T>, y: seq<T>) { x == y || (|x| >= 72 && |y| >= 72 && x[..72] == y[..72]) }

  lemma CutAlike<T>(x: seq<T>, y: seq<T>)
    ensures (if |x| <= 72 then x else x[..72]) == (if |y| <= 72 then y else y[..72]) <==> Alike(x, y)
  {
    assert |x| == 72 ==> x[..72] == x;
    assert |y| == 72 ==> y[..72] == y;
  }

  /** Two passwords are taken for each other exactly when they are the same or their encodings
      have 72 bytes or more and agree in the first 72. */
  lemma HashesAlikeIff(a: string, b: string)
    ensures Hashed(a) == Hashed(b) <==> Alike(Utf8Clamp.Encode(a), Utf8Clamp.Encode(b))
    ensures |Utf8Clamp.Encode(a)| < 72 ==> (Hashed(a) == Hashed(b) <==> a == b)
  {
    HashedIsBytePrefix(a);
    HashedIsBytePrefix(b);
    CutAlike(Utf8Clamp.Encode(a), Utf8Clamp.Encode(b));
    EncodingIsInjective(a, b);
  }

  lemma ConsumedPasswordLogsIn(s: Store, now: Instant, plaintext: string, newPassword: string, candidates: seq<nat>,
                               user: UserId, password: string, jti: Jti, expiresAt: Instant)
    requires ConsumeResetToken(s, now, plaintext, newPassword, candidates).1 == PasswordChanged(user)
    ensures
      var s' := ConsumeResetToken(s, now, plaintext, newPassword, candidates).0;
      && (Login(s', user, password, jti, expiresAt).1 == Tokens(jti) <==> Hashed(password) == Hashed(newPassword))
      && s'.users.Keys == s.users.Keys && (forall u :: u in s.users && u != user ==> s'.users[u] == s.users[u])
  {
    var m := FirstMatch(s.resets, candidates, plaintext);
  }

  predicate Short(password: string) { |Utf8Clamp.Encode(password)| <= 72 }

  /** Consuming changes the owner's password, so that exactly the texts that hash like the new one
      log in (among texts of at most 72 bytes, the new one alone), and nobody else's account. */
  lemma ConsumeChangesThePassword(s: Store, now: Instant, plaintext: string, newPassword: string, candidates: seq<nat>,
                                  user: UserId, password: string, jti: Jti, expiresAt: Instant)
    requires ConsumeResetToken(s, now, plaintext, newPassword, candidates).1 == PasswordChanged(user)
    ensures
      var s' := ConsumeResetToken(s, now, plaintext, newPassword, candidates).0;
      var accepted := Login(s', user, password, jti, expiresAt).1 == Tokens(jti);
      && (accepted <==> Hashed(password) == Hashed(newPassword))
      && (Short(password) && Short(newPassword) ==> (accepted <==> password == newPassword))
      && s'.users.Keys == s.users.Keys && (forall u :: u in s.users && u != user ==> s'.users[u] == s.users[u])
  {
    ConsumedPasswordLogsIn(s, now, plaintext, newPassword, candidates, user, password, jti, expiresAt);
    if Short(password) && Short(newPassword) {
      HashedIsBytePrefix(password);
      HashedIsBytePrefix(newPassword);
      EncodingIsInjective(password, newPassword);
    }
  }

  /** Either issuer supersedes what was pending. Through every run within the hour that leaves the
      new token pending, it is the user's only live one, and presenting it changes the password
      of a user who is active then. */
  lemma IssuedResetWorks(s: Store, t: Instant, e: Event, events: seq<Event>, user: UserId, now: Instant,
                         newPassword: string, candidates: seq<nat>)
    requires Reachable(s, t) && t <= e.at && Enabled(s, e) && Step(s, e).1 == ResetIssued
    requires (e.op.RequestResetOp? && e.op.user == user) || (e.op.AdminResetOp? && e.op.user == user)
    requires IsRun(Step(s, e).0, e.at, events) && EndTime(e.at, events) <= now < e.at + RESET_TTL
    requires IsCandidateAnswer(RunFrom(Step(s, e).0, events).resets, now, candidates)
    requires |LiveHolders(RunFrom(Step(s, e).0, events).resets, now)| <= CANDIDATE_CAP
    ensures
      var s', mine := RunFrom(Step(s, e).0, events), |s.resets|;
      && mine < |s'.resets|
      && (s'.resets[mine].Pending() ==>
            && (forall i :: i in LiveResets(s'.resets, now) && s'.resets[i].user == user <==> i == mine)
            && (user in s'.users && s'.users[user].active ==>
                  ConsumeResetToken(s', now, e.op.secret, newPassword, candidates).1 == PasswordChanged(user)))
  {
    var s1, mine := Step(s, e).0, |s.resets|;
    var s' := RunFrom(s1, events);
    ReachableStep(s, t, e);
    ReachableRun(s1, e.at, events);
    RevocationIsWriteOnce(s1, e.at, events);
    assert s1.resets[mine] == ResetRow(user, e.op.secret, e.at, e.at + RESET_TTL, None, None);
    if s'.resets[mine].Pending() {
      assert mine in LiveResets(s'.resets, now) && s'.resets[mine].secret == e.op.secret;
      forall i | i in LiveResets(s'.resets, now) && s'.resets[i].user == user ensures i == mine {
        AtMostOneLiveReset(s', EndTime(e.at, events), now, i, mine);
      }
      ConsumeSucceedsIff(s', EndTime(e.at, events), now, e.op.secret, newPassword, candidates, user);
    }
  }
}
