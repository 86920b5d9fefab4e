/** The two credential tables (refresh tokens and password-reset tokens), the users
    they belong to, and what each service call does to them, as functions on values.
    `CredentialStore` performs the same calls on mutable fields; `CredentialRuns`
    proves what every sequence of calls keeps. */
module Credentials {
  import opened Options
  import Utf8Clamp

  type Jti = string
  type UserId = nat
  /** Microseconds. */
  type Instant = int

  const RESET_TTL: int := 3_600_000_000
  const CANDIDATE_CAP: nat := 256

  datatype Reason = Rotated | Logout | ReuseDetected | Expired

  datatype RefreshRow = RefreshRow(
    user: UserId, parent: Option<Jti>, expiresAt: Instant,
    revokedAt: Option<Instant>, reason: Option<Reason>)

  const PASSWORD_MAX: nat := 72

  function Cut<T>(s: seq<T>, n: nat): seq<T> { if |s| <= n then s else s[..n] }

  /** bcrypt is abstracted as injective: what stands for a hash is what is hashed. Passwords are
      cut to 72 characters, and bcrypt takes 72 bytes of their encoding. Generated secrets are
      shorter than that. */
  function Hashed(plain: string): seq<Utf8Clamp.Byte> {
    Cut(Utf8Clamp.Encode(Cut(plain, PASSWORD_MAX)), PASSWORD_MAX)
  }

  datatype User = User(active: bool, super: bool, password: seq<Utf8Clamp.Byte>)

  datatype ResetRow = ResetRow(
    user: UserId, secret: string, createdAt: Instant, expiresAt: Instant,
    usedAt: Option<Instant>, invalidatedAt: Option<Instant>)
  {
    predicate Pending() { usedAt.None? && invalidatedAt.None? }

    predicate LiveAt(now: Instant) { Pending() && now < expiresAt }
  }

  type RefreshTable = map<Jti, RefreshRow>
  type ResetTable = seq<ResetRow>

  datatype Store = Store(users: map<UserId, User>, refresh: RefreshTable, resets: ResetTable)

  /** What a decoded JWT carries; an absent claim and an empty one are both "". */
  datatype Claims = Claims(jti: string, sub: string)

  datatype Reply =
    | Tokens(jti: Jti)
    | BadCredentials
    | EmailTaken
    | UserInactive
    | InvalidRefresh
    | ReuseRejected
    | Done
    | UserNotFound
    | SelfProtected
    | LastSuperAdminProtected
    | NoSuchAccount
    | CoolingDown
    | ResetIssued
    | AmbiguousQuery
    | InvalidReset
    | PasswordChanged(user: UserId)

  // ----- Refresh tokens -----

  /** Every writer of `revoked_at` goes through this: the picked rows that are not
      revoked yet become revoked, all other rows stay as they are. */
  function RevokeIn(rows: RefreshTable, picked: set<Jti>, at: Instant, why: Reason): RefreshTable {
    map j | j in rows ::
      if j in picked && rows[j].revokedAt.None?
      then rows[j].(revokedAt := Some(at), reason := Some(why))
      else rows[j]
  }

  /** The jti reached from `leaf` by following `n` parent links. */
  function Up(rows: RefreshTable, leaf: Jti, n: nat): Option<Jti> {
    if n == 0 then Some(leaf)
    else
      match Up(rows, leaf, n - 1)
      case None => None
      case Some(j) => if j != "" && j in rows then rows[j].parent else None
  }

  /** `a` is reached from `leaf` in `n` parent links. */
  ghost predicate Ancestor(rows: RefreshTable, leaf: Jti, a: Jti, n: nat) { Up(rows, leaf, n) == Some(a) }

  ghost predicate OnChain(rows: RefreshTable, leaf: Jti, j: Jti) {
    j != "" && j in rows && exists n: nat :: Ancestor(rows, leaf, j, n)
  }

  /** The rows on the path from `leaf` upward, whatever the shape of the graph. */
  ghost function Chain(rows: RefreshTable, leaf: Jti): set<Jti> {
    set j | j in rows && OnChain(rows, leaf, j)
  }

  function TokensOf(rows: RefreshTable, user: UserId): set<Jti> {
    set j | j in rows && rows[j].user == user
  }

  predicate Authenticated(s: Store, user: UserId, password: string) {
    user in s.users && s.users[user].active && s.users[user].password == Hashed(password)
  }

  function IssueTokenPair(s: Store, user: UserId, jti: Jti, expiresAt: Instant): Store {
    s.(refresh := s.refresh[jti := RefreshRow(user, None, expiresAt, None, None)])
  }

  function Login(s: Store, user: UserId, password: string, jti: Jti, expiresAt: Instant): (Store, Reply) {
    if Authenticated(s, user, password)
    then (IssueTokenPair(s, user, jti, expiresAt), Tokens(jti))
    else (s, BadCredentials)
  }

  function RegisterUser(s: Store, user: UserId, password: string): (Store, Reply) {
    if user in s.users then (s, EmailTaken)
    else (s.(users := s.users[user := User(true, false, Hashed(password))]), Done)
  }

  /** A sign-in through a provider: an account that does not exist yet is created with a random
      password that nobody is told. */
  function OAuthSignIn(s: Store, user: UserId, random: string, jti: Jti, expiresAt: Instant): (Store, Reply) {
    if user !in s.users then
      (IssueTokenPair(RegisterUser(s, user, random).0, user, jti, expiresAt), Tokens(jti))
    else if !s.users[user].active then (s, UserInactive)
    else (IssueTokenPair(s, user, jti, expiresAt), Tokens(jti))
  }

  ghost function RotateRefresh(s: Store, now: Instant, claims: Option<Claims>, newJti: Jti, newExpiresAt: Instant)
    : (Store, Reply)
  {
    if claims.None? || claims.value.jti == "" || claims.value.sub == "" then (s, InvalidRefresh)
    else
      var jti := claims.value.jti;
      if jti !in s.refresh then (s, InvalidRefresh)
      else
        var row := s.refresh[jti];
        if row.revokedAt.Some? then
          (s.(refresh := RevokeIn(s.refresh, Chain(s.refresh, jti), now, ReuseDetected)), ReuseRejected)
        else if row.expiresAt <= now then
          (s.(refresh := RevokeIn(s.refresh, {jti}, now, Expired)), InvalidRefresh)
        else if row.user !in s.users || !s.users[row.user].active then (s, InvalidRefresh)
        else
          var child := RefreshRow(row.user, Some(jti), newExpiresAt, None, None);
          (s.(refresh := RevokeIn(s.refresh, {jti}, now, Rotated)[newJti := child]), Tokens(newJti))
  }

  function RevokeRefresh(s: Store, now: Instant, claims: Option<Claims>): Store {
    if claims.None? || claims.value.jti == "" || claims.value.jti !in s.refresh then s
    else s.(refresh := RevokeIn(s.refresh, {claims.value.jti}, now, Logout))
  }

  // ----- Password resets -----

  function Invalidated(rows: ResetTable, user: UserId, now: Instant): (r: ResetTable)
    ensures |r| == |rows|
    ensures forall i :: 0 <= i < |rows| ==>
      r[i] == if rows[i].user == user && rows[i].LiveAt(now)
              then rows[i].(invalidatedAt := Some(now)) else rows[i]
  {
    seq(|rows|, i requires 0 <= i < |rows| =>
      if rows[i].user == user && rows[i].LiveAt(now)
      then rows[i].(invalidatedAt := Some(now)) else rows[i])
  }

  /** Both issuers supersede the user's live tokens and append one that lives an hour. */
  function IssueReset(rows: ResetTable, user: UserId, now: Instant, secret: string): ResetTable {
    Invalidated(rows, user, now) + [ResetRow(user, secret, now, now + RESET_TTL, None, None)]
  }

  /** The rows `_has_recent_token` selects: no test on `expires_at`. */
  function Recent(rows: ResetTable, user: UserId, now: Instant, cooldown: int): set<nat> {
    set i: nat | i < |rows| && rows[i].user == user && now - cooldown <= rows[i].createdAt && rows[i].Pending()
  }

  function RequestPasswordReset(s: Store, now: Instant, user: UserId, cooldown: int, secret: string): (Store, Reply) {
    if user !in s.users || !s.users[user].active then (s, NoSuchAccount)
    else
      var recent := Recent(s.resets, user, now, cooldown);
      if |recent| > 1 then (s, AmbiguousQuery)
      else if |recent| == 1 then (s, CoolingDown)
      else (s.(resets := IssueReset(s.resets, user, now, secret)), ResetIssued)
  }

  function InitiatePasswordReset(s: Store, now: Instant, user: UserId, secret: string): (Store, Reply) {
    if user !in s.users then (s, UserNotFound)
    else (s.(resets := IssueReset(s.resets, user, now, secret)), ResetIssued)
  }

  function LiveResets(rows: ResetTable, now: Instant): set<nat> {
    set i: nat | i < |rows| && rows[i].LiveAt(now)
  }

  /** `candidates` is an answer the database may give to "live rows of all users, newest
      first, at most 256": ties in `created_at` may come in any order. */
  ghost predicate IsCandidateAnswer(rows: ResetTable, now: Instant, candidates: seq<nat>) {
    && (forall k :: 0 <= k < |candidates| ==> candidates[k] in LiveResets(rows, now))
    && (forall k, l :: 0 <= k < l < |candidates| ==>
          candidates[k] != candidates[l] && rows[candidates[l]].createdAt <= rows[candidates[k]].createdAt)
    && |candidates| == (if |LiveResets(rows, now)| <= CANDIDATE_CAP then |LiveResets(rows, now)| else CANDIDATE_CAP)
    && (forall i, k :: i in LiveResets(rows, now) && i !in candidates && 0 <= k < |candidates| ==>
          rows[i].createdAt <= rows[candidates[k]].createdAt)
  }

  /** The first candidate whose hash verifies. */
  function FirstMatch(rows: ResetTable, candidates: seq<nat>, plaintext: string): (m: Option<nat>)
    ensures m.Some? ==> m.value in candidates && m.value < |rows| && rows[m.value].secret == plaintext
    ensures m.None? ==> forall i :: i in candidates && i < |rows| ==> rows[i].secret != plaintext
  {
    if candidates == [] then None
    else if candidates[0] < |rows| && rows[candidates[0]].secret == plaintext then Some(candidates[0])
    else FirstMatch(rows, candidates[1..], plaintext)
  }

  function ConsumeResetToken(s: Store, now: Instant, plaintext: string, newPassword: string, candidates: seq<nat>)
    : (Store, Reply)
  {
    if plaintext == "" then (s, InvalidReset)
    else
      match FirstMatch(s.resets, candidates, plaintext)
      case None => (s, InvalidReset)
      case Some(i) =>
        var user := s.resets[i].user;
        if user !in s.users || !s.users[user].active then (s, InvalidReset)
        else
          (Store(s.users[user := s.users[user].(password := Hashed(newPassword))],
                 RevokeIn(s.refresh, TokensOf(s.refresh, user), now, ReuseDetected),
                 s.resets[i := s.resets[i].(usedAt := Some(now))]),
           PasswordChanged(user))
  }

  // ----- Activation and roles -----

  function ActiveSuperAdmins(users: map<UserId, User>): set<UserId> {
    set u | u in users && users[u].active && users[u].super
  }

  function DeactivateUser(s: Store, now: Instant, actor: UserId, user: UserId): (Store, Reply) {
    if user == actor then (s, SelfProtected)
    else if user !in s.users then (s, UserNotFound)
    else if !s.users[user].active then (s, Done)
    else if s.users[user].super && |ActiveSuperAdmins(s.users)| <= 1 then (s, LastSuperAdminProtected)
    else
      (s.(users := s.users[user := s.users[user].(active := false)],
          refresh := RevokeIn(s.refresh, TokensOf(s.refresh, user), now, Logout)),
       Done)
  }

  function ActivateUser(s: Store, user: UserId): (Store, Reply) {
    if user !in s.users then (s, UserNotFound)
    else (s.(users := s.users[user := s.users[user].(active := true)]), Done)
  }

  function PromoteUser(s: Store, actor: UserId, user: UserId): (Store, Reply) {
    if user == actor then (s, SelfProtected)
    else if user !in s.users then (s, UserNotFound)
    else (s.(users := s.users[user := s.users[user].(super := true)]), Done)
  }

  function DemoteUser(s: Store, actor: UserId, user: UserId): (Store, Reply) {
    if user == actor then (s, SelfProtected)
    else if user !in s.users then (s, UserNotFound)
    else if s.users[user].super && s.users[user].active && |ActiveSuperAdmins(s.users)| <= 1 then
      (s, LastSuperAdminProtected)
    else (s.(users := s.users[user := s.users[user].(super := false)]), Done)
  }
}
