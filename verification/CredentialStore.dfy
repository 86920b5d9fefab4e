/** The service calls themselves, updating the tables in place. Each method is proved
    against the function of the same name in `Credentials`; what holds over whole runs is
    proved about those functions in `CredentialRuns`. */
module CredentialStore {
  import opened Options
  import opened Credentials

  lemma {:induction false} RevisitStaysInside(rows: RefreshTable, leaf: Jti, i: nat, n: nat, m: nat) returns (k: nat)
    requires i < n && Up(rows, leaf, n) == Up(rows, leaf, i)
    ensures k < n && Up(rows, leaf, m) == Up(rows, leaf, k)
    decreases m
  {
    if m < n {
      k := m;
    } else if m == n {
      k := i;
    } else {
      var before := RevisitStaysInside(rows, leaf, i, n, m - 1);
      k := if before + 1 == n then i else before + 1;
    }
  }

  lemma {:induction false} StopsForGood(rows: RefreshTable, leaf: Jti, n: nat, m: nat)
    requires Up(rows, leaf, n).None? || Up(rows, leaf, n).value == "" || Up(rows, leaf, n).value !in rows
    requires n < m
    ensures Up(rows, leaf, m).None?
    decreases m
  {
    if m > n + 1 { StopsForGood(rows, leaf, n, m - 1); }
  }

  /** The jtis met in the first `n` rounds of the walk. */
  ghost function Visited(rows: RefreshTable, leaf: Jti, n: nat): set<Jti> {
    if n == 0 then {}
    else
      var last := Up(rows, leaf, n - 1);
      Visited(rows, leaf, n - 1) + (if last.Some? then {last.value} else {})
  }

  lemma {:induction false} VisitedMembers(rows: RefreshTable, leaf: Jti, n: nat, j: Jti)
    ensures j in Visited(rows, leaf, n) <==> exists i: nat :: i < n && Ancestor(rows, leaf, j, i)
    decreases n
  {
    if n > 0 {
      VisitedMembers(rows, leaf, n - 1, j);
      assert Up(rows, leaf, n - 1) == Some(j) <==> Ancestor(rows, leaf, j, n - 1);
    }
  }

  /** Nothing above round `n` is a row that was not met before. */
  ghost predicate WalkEnds(rows: RefreshTable, leaf: Jti, n: nat) {
    var next := Up(rows, leaf, n);
    next.None? || next.value == "" || next.value !in rows || next.value in Visited(rows, leaf, n)
  }

  lemma BeyondTheEnd(rows: RefreshTable, leaf: Jti, n: nat, m: nat, j: Jti)
    requires WalkEnds(rows, leaf, n) && n <= m && j in rows && j != "" && Ancestor(rows, leaf, j, m)
    ensures exists k: nat :: k < n && Ancestor(rows, leaf, j, k)
  {
    var next := Up(rows, leaf, n);
    if next.Some? && next.value in Visited(rows, leaf, n) {
      VisitedMembers(rows, leaf, n, next.value);
      var i: nat :| i < n && Ancestor(rows, leaf, next.value, i);
      var k := RevisitStaysInside(rows, leaf, i, n, m);
      assert Ancestor(rows, leaf, j, k);
    } else if m > n {
      StopsForGood(rows, leaf, n, m);
    }
  }

  lemma VisitedIsChain(rows: RefreshTable, leaf: Jti, n: nat)
    requires WalkEnds(rows, leaf, n) && "" !in Visited(rows, leaf, n)
    ensures Visited(rows, leaf, n) * rows.Keys == Chain(rows, leaf)
  {
    forall j | j in rows ensures j in Visited(rows, leaf, n) <==> j in Chain(rows, leaf) {
      VisitedMembers(rows, leaf, n, j);
      if j in Chain(rows, leaf) {
        var m: nat :| Ancestor(rows, leaf, j, m);
        if m >= n { BeyondTheEnd(rows, leaf, n, m, j); }
      }
    }
  }

  lemma RevokeOneMore(rows: RefreshTable, picked: set<Jti>, j: Jti, at: Instant, why: Reason)
    requires j in rows && j !in picked
    ensures RevokeIn(rows, picked + {j}, at, why) ==
      if rows[j].revokedAt.None?
      then RevokeIn(rows, picked, at, why)[j := rows[j].(revokedAt := Some(at), reason := Some(why))]
      else RevokeIn(rows, picked, at, why)
  {
  }

  lemma RevokeOnlyRows(rows: RefreshTable, picked: set<Jti>, at: Instant, why: Reason)
    ensures RevokeIn(rows, picked, at, why) == RevokeIn(rows, picked * rows.Keys, at, why)
  {
  }

  class CredentialStore {
    var users: map<UserId, User>
    var refresh: RefreshTable
    var resets: ResetTable

    ghost function State(): Store
      reads this
    {
      Store(users, refresh, resets)
    }

    constructor (users: map<UserId, User>)
      ensures State() == Store(users, map[], [])
    {
      this.users, refresh, resets := users, map[], [];
    }

    // ----- Refresh tokens -----

    method IssueTokenPair(user: UserId, jti: Jti, expiresAt: Instant)
      requires jti !in refresh
      modifies this
      ensures State() == Credentials.IssueTokenPair(old(State()), user, jti, expiresAt)
    {
      refresh := refresh[jti := RefreshRow(user, None, expiresAt, None, None)];
    }

    method Login(user: UserId, password: string, jti: Jti, expiresAt: Instant) returns (reply: Reply)
      requires jti !in refresh
      modifies this
      ensures (State(), reply) == Credentials.Login(old(State()), user, password, jti, expiresAt)
    {
      if user !in users || !users[user].active || users[user].password != Hashed(password) {
        return BadCredentials;
      }
      IssueTokenPair(user, jti, expiresAt);
      return Tokens(jti);
    }

    method RegisterUser(user: UserId, password: string) returns (reply: Reply)
      modifies this
      ensures (State(), reply) == Credentials.RegisterUser(old(State()), user, password)
    {
      if user in users {
        return EmailTaken;
      }
      users := users[user := User(true, false, Hashed(password))];
      return Done;
    }

    method OAuthSignIn(user: UserId, random: string, jti: Jti, expiresAt: Instant) returns (reply: Reply)
      requires jti !in refresh
      modifies this
      ensures (State(), reply) == Credentials.OAuthSignIn(old(State()), user, random, jti, expiresAt)
    {
      if user !in users {
        users := users[user := User(true, false, Hashed(random))];
      }
      if !users[user].active {
        return UserInactive;
      }
      IssueTokenPair(user, jti, expiresAt);
      return Tokens(jti);
    }

    /** Ends on every parent graph, cyclic ones included, and revokes exactly the rows on the
        path upward from `leaf` that were not revoked yet. */
    method RevokeChain(leaf: Jti, why: Reason, now: Instant)
      modifies this`refresh
      ensures refresh == RevokeIn(old(refresh), Chain(old(refresh), leaf), now, why)
    {
      ghost var rows := refresh;
      var seen: set<Jti> := {};
      var current := Some(leaf);
      ghost var n: nat := 0;
      while current.Some? && current.value != "" && current.value !in seen
        invariant current == Up(rows, leaf, n)
        invariant seen == Visited(rows, leaf, n) && "" !in seen
        invariant refresh == RevokeIn(rows, seen, now, why)
        decreases rows.Keys - seen
      {
        var jti := current.value;
        ghost var before := seen;
        seen, n := seen + {jti}, n + 1;
        if jti !in refresh {
          assert seen * rows.Keys == before * rows.Keys;
          RevokeOnlyRows(rows, seen, now, why);
          RevokeOnlyRows(rows, before, now, why);
          break;
        }
        RevokeOneMore(rows, before, jti, now, why);
        var row := refresh[jti];
        if row.revokedAt.None? {
          refresh := refresh[jti := row.(revokedAt := Some(now), reason := Some(why))];
        }
        current := row.parent;
      }
      VisitedIsChain(rows, leaf, n);
      RevokeOnlyRows(rows, seen, now, why);
    }

    method RotateRefresh(now: Instant, claims: Option<Claims>, newJti: Jti, newExpiresAt: Instant)
      returns (reply: Reply)
      requires newJti !in refresh
      modifies this
      ensures (State(), reply) == Credentials.RotateRefresh(old(State()), now, claims, newJti, newExpiresAt)
    {
      if claims.None? || claims.value.jti == "" || claims.value.sub == "" {
        return InvalidRefresh;
      }
      var jti := claims.value.jti;
      if jti !in refresh {
        return InvalidRefresh;
      }
      var row := refresh[jti];
      if row.revokedAt.Some? {
        RevokeChain(jti, ReuseDetected, now);
        return ReuseRejected;
      }
      if row.expiresAt <= now {
        refresh := refresh[jti := row.(revokedAt := Some(now), reason := Some(Expired))];
        assert refresh == RevokeIn(old(refresh), {jti}, now, Expired);
        return InvalidRefresh;
      }
      if row.user !in users || !users[row.user].active {
        return InvalidRefresh;
      }
      refresh := refresh[jti := row.(revokedAt := Some(now), reason := Some(Rotated))];
      assert refresh == RevokeIn(old(refresh), {jti}, now, Rotated);
      refresh := refresh[newJti := RefreshRow(row.user, Some(jti), newExpiresAt, None, None)];
      return Tokens(newJti);
    }

    method RevokeRefresh(now: Instant, claims: Option<Claims>)
      modifies this
      ensures State() == Credentials.RevokeRefresh(old(State()), now, claims)
    {
      if claims.None? || claims.value.jti == "" {
        return;
      }
      var jti := claims.value.jti;
      if jti !in refresh || refresh[jti].revokedAt.Some? {
        assert jti in refresh ==> refresh == RevokeIn(refresh, {jti}, now, Logout);
        return;
      }
      refresh := refresh[jti := refresh[jti].(revokedAt := Some(now), reason := Some(Logout))];
      assert refresh == RevokeIn(old(refresh), {jti}, now, Logout);
    }

    /** The loop that deactivation and reset consumption share, over the user's live rows. */
    method RevokeLiveTokens(user: UserId, now: Instant, why: Reason)
      modifies this`refresh
      ensures refresh == RevokeIn(old(refresh), TokensOf(old(refresh), user), now, why)
    {
      ghost var rows := refresh;
      var live := set j | j in refresh && refresh[j].user == user && refresh[j].revokedAt.None?;
      ghost var done: set<Jti> := {};
      while live != {}
        invariant refresh == RevokeIn(rows, done, now, why)
        invariant live !! done
        invariant live + done == set j | j in rows && rows[j].user == user && rows[j].revokedAt.None?
      {
        var j :| j in live;
        refresh := refresh[j := refresh[j].(revokedAt := Some(now), reason := Some(why))];
        live, done := live - {j}, done + {j};
      }
    }

    // ----- Password resets -----

    method SupersedeAndIssue(user: UserId, now: Instant, secret: string)
      modifies this`resets
      ensures resets == IssueReset(old(resets), user, now, secret)
    {
      ghost var rows := resets;
      var live := set i: nat | i < |resets| && resets[i].user == user && resets[i].LiveAt(now);
      ghost var all := live;
      while live != {}
        invariant live <= all && |resets| == |rows|
        invariant forall i :: 0 <= i < |rows| ==>
          resets[i] == if i in all - live then rows[i].(invalidatedAt := Some(now)) else rows[i]
      {
        var i :| i in live;
        resets := resets[i := resets[i].(invalidatedAt := Some(now))];
        live := live - {i};
      }
      assert resets == Invalidated(rows, user, now);
      resets := resets + [ResetRow(user, secret, now, now + RESET_TTL, None, None)];
    }

    method RequestPasswordReset(now: Instant, user: UserId, cooldown: int, secret: string) returns (reply: Reply)
      modifies this
      ensures (State(), reply) == Credentials.RequestPasswordReset(old(State()), now, user, cooldown, secret)
    {
      if user !in users || !users[user].active {
        return NoSuchAccount;
      }
      var recent := Recent(resets, user, now, cooldown);
      if |recent| > 1 {
        return AmbiguousQuery;
      }
      if recent != {} {
        return CoolingDown;
      }
      SupersedeAndIssue(user, now, secret);
      return ResetIssued;
    }

    method InitiatePasswordReset(now: Instant, user: UserId, secret: string) returns (reply: Reply)
      modifies this
      ensures (State(), reply) == Credentials.InitiatePasswordReset(old(State()), now, user, secret)
    {
      if user !in users {
        return UserNotFound;
      }
      SupersedeAndIssue(user, now, secret);
      return ResetIssued;
    }

    method ConsumeResetToken(now: Instant, plaintext: string, newPassword: string, candidates: seq<nat>)
      returns (reply: Reply)
      requires IsCandidateAnswer(resets, now, candidates)
      modifies this
      ensures (State(), reply) ==
              Credentials.ConsumeResetToken(old(State()), now, plaintext, newPassword, candidates)
    {
      if plaintext == "" {
        return InvalidReset;
      }
      var matched: Option<nat> := None;
      var k := 0;
      while k < |candidates|
        invariant k <= |candidates|
        invariant matched.None?
        invariant FirstMatch(resets, candidates[k..], plaintext) == FirstMatch(resets, candidates, plaintext)
      {
        assert candidates[k] in LiveResets(resets, now);
        assert candidates[k..][1..] == candidates[k + 1..];
        if resets[candidates[k]].secret == plaintext {
          matched := Some(candidates[k]);
          break;
        }
        k := k + 1;
      }
      assert matched == FirstMatch(resets, candidates, plaintext);
      if matched.None? {
        return InvalidReset;
      }
      var user := resets[matched.value].user;
      if user !in users || !users[user].active {
        return InvalidReset;
      }
      users := users[user := users[user].(password := Hashed(newPassword))];
      resets := resets[matched.value := resets[matched.value].(usedAt := Some(now))];
      RevokeLiveTokens(user, now, ReuseDetected);
      return PasswordChanged(user);
    }

    // ----- Activation and roles -----

    method DeactivateUser(now: Instant, actor: UserId, user: UserId) returns (reply: Reply)
      modifies this
      ensures (State(), reply) == Credentials.DeactivateUser(old(State()), now, actor, user)
      ensures reply == Done && old(users)[user].active ==>
        !users[user].active && forall j :: j in refresh && refresh[j].user == user ==> refresh[j].revokedAt.Some?
      ensures forall u :: u in old(users) && u != user ==> u in users && users[u] == old(users)[u]
      ensures forall j :: j in old(refresh) && (old(refresh)[j].user != user || old(refresh)[j].revokedAt.Some?) ==>
        j in refresh && refresh[j] == old(refresh)[j]
      ensures reply != Done ==> State() == old(State())
      ensures old(ActiveSuperAdmins(users)) != {} ==> ActiveSuperAdmins(users) != {}
    {
      if user == actor {
        return SelfProtected;
      }
      if user !in users {
        return UserNotFound;
      }
      if !users[user].active {
        return Done;
      }
      if users[user].super && |ActiveSuperAdmins(users)| <= 1 {
        return LastSuperAdminProtected;
      }
      ghost var admins := ActiveSuperAdmins(users);
      users := users[user := users[user].(active := false)];
      assert ActiveSuperAdmins(users) == admins - {user};
      assert user in admins ==> |admins - {user}| == |admins| - 1;
      RevokeLiveTokens(user, now, Logout);
      return Done;
    }

    method ActivateUser(user: UserId) returns (reply: Reply)
      modifies this
      ensures (State(), reply) == Credentials.ActivateUser(old(State()), user)
    {
      if user !in users {
        return UserNotFound;
      }
      users := users[user := users[user].(active := true)];
      return Done;
    }

    method PromoteUser(actor: UserId, user: UserId) returns (reply: Reply)
      modifies this
      ensures (State(), reply) == Credentials.PromoteUser(old(State()), actor, user)
    {
      if user == actor {
        return SelfProtected;
      }
      if user !in users {
        return UserNotFound;
      }
      users := users[user := users[user].(super := true)];
      return Done;
    }

    method DemoteUser(actor: UserId, user: UserId) returns (reply: Reply)
      modifies this
      ensures (State(), reply) == Credentials.DemoteUser(old(State()), actor, user)
    {
      if user == actor {
        return SelfProtected;
      }
      if user !in users {
        return UserNotFound;
      }
      if users[user].super {
        var count := |ActiveSuperAdmins(users)|;
        if users[user].active && count <= 1 {
          return LastSuperAdminProtected;
        }
        users := users[user := users[user].(super := false)];
      }
      assert users == old(users)[user := old(users)[user].(super := false)];
      return Done;
    }
  }
}
