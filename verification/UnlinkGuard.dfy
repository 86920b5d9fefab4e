/** "Never remove the last login method", as interleaved transactions: an unlocked lookup of
    the identity, a lock on the user row, a count, a delete and a commit, against concurrent
    links and password changes, for any number of users and transactions. */
module UnlinkGuard {
  type UserId = nat
  type IdentityId = nat
  type Tid = nat

  /** What `hashed_password` holds: nothing, the hash of a random text that nobody knows, as
      a sign-up through a provider stores it, or the hash of a password the user chose. */
  datatype Password = Empty | Random | Chosen

  /** `stored` is what the transaction believes about the column being filled. */
  datatype Phase = Found | Locked | Cleared
  datatype Txn = Txn(user: UserId, identity: IdentityId, stored: bool, phase: Phase)

  /** `used` holds every identity id ever handed out; ids are not handed out twice. */
  datatype State = State(
    passwords: map<UserId, Password>, identities: map<IdentityId, UserId>, used: set<IdentityId>,
    txns: map<Tid, Txn>, owner: map<UserId, Tid>)

  datatype Action =
    | Lookup(t: Tid, user: UserId, identity: IdentityId)
    | LockUser(t: Tid, reread: bool)
    | Check(t: Tid)
    | CommitDelete(t: Tid)
    | Rollback(t: Tid)
    | Link(linkUser: UserId, newIdentity: IdentityId)
    | SetPassword(pwUser: UserId)
    | Register(newUser: UserId)
    | SignUp(newUser: UserId, newIdentity: IdentityId)

  function IdentitiesOf(s: State, u: UserId): set<IdentityId> {
    set i | i in s.identities && s.identities[i] == u
  }

  predicate Stored(s: State, u: UserId) { u in s.passwords && s.passwords[u] != Empty }

  /** What the guard counts as a way to log in. */
  predicate HasLogin(s: State, u: UserId) { Stored(s, u) || (u in s.passwords && IdentitiesOf(s, u) != {}) }

  /** What the user can log in with; all others have the reset flow alone. */
  predicate CanLogIn(s: State, u: UserId) { u in s.passwords && (s.passwords[u] == Chosen || IdentitiesOf(s, u) != {}) }

  /** Links and password changes may also happen while the user row is locked. */
  predicate Enabled(s: State, a: Action) {
    match a
    case Lookup(t, user, _) => t !in s.txns && user in s.passwords
    case LockUser(t, _) =>
      && t in s.txns && s.txns[t].phase.Found?
      && s.txns[t].user !in s.owner && s.txns[t].user in s.passwords
    case Check(t) => t in s.txns && s.txns[t].phase.Locked?
    case CommitDelete(t) => t in s.txns && s.txns[t].phase.Cleared?
    case Rollback(t) => t in s.txns
    case Link(u, i) => u in s.passwords && i !in s.used
    case SetPassword(u) => u in s.passwords
    case Register(u) => u !in s.passwords
    case SignUp(u, i) => u !in s.passwords && i !in s.used
  }

  function End(s: State, t: Tid): State {
    s.(txns := s.txns - {t}, owner := map u | u in s.owner && s.owner[u] != t :: s.owner[u])
  }

  function Apply(s: State, a: Action): State
    requires Enabled(s, a)
  {
    match a
    case Lookup(t, user, identity) =>
      if identity in s.identities && s.identities[identity] == user
      then s.(txns := s.txns[t := Txn(user, identity, Stored(s, user), Found)])
      else s
    case LockUser(t, reread) =>
      var txn := s.txns[t];
      var stored := if reread then Stored(s, txn.user) else txn.stored;
      s.(txns := s.txns[t := txn.(phase := Locked, stored := stored)], owner := s.owner[txn.user := t])
    case Check(t) =>
      var txn := s.txns[t];
      if !txn.stored && |IdentitiesOf(s, txn.user)| <= 1 then End(s, t)
      else s.(txns := s.txns[t := txn.(phase := Cleared)])
    case CommitDelete(t) => End(s, t).(identities := s.identities - {s.txns[t].identity})
    case Rollback(t) => End(s, t)
    case Link(u, i) => s.(identities := s.identities[i := u], used := s.used + {i})
    case SetPassword(u) => s.(passwords := s.passwords[u := Chosen])
    case Register(u) => s.(passwords := s.passwords[u := Chosen])
    case SignUp(u, i) =>
      s.(passwords := s.passwords[u := Random], identities := s.identities[i := u], used := s.used + {i})
  }

  ghost predicate TxnInv(s: State, t: Tid)
    requires t in s.txns
  {
    var txn := s.txns[t];
    && txn.user in s.passwords
    && (txn.stored ==> Stored(s, txn.user))
    && txn.identity in s.used
    && (txn.identity in s.identities ==> s.identities[txn.identity] == txn.user)
    && (!txn.phase.Found? ==> txn.user in s.owner && s.owner[txn.user] == t)
    && (txn.phase.Cleared? ==> Stored(s, txn.user) || |IdentitiesOf(s, txn.user)| >= 2)
  }

  ghost predicate Inv(s: State) {
    s.identities.Keys <= s.used && forall t :: t in s.txns ==> TxnInv(s, t)
  }

  /** What an action does to the identities of one user. */
  lemma IdentitiesChange(s: State, a: Action, u: UserId)
    requires Inv(s) && Enabled(s, a)
    ensures IdentitiesOf(Apply(s, a), u) ==
      match a
      case CommitDelete(t) =>
        if s.txns[t].user == u then IdentitiesOf(s, u) - {s.txns[t].identity} else IdentitiesOf(s, u)
      case Link(v, i) => if v == u then IdentitiesOf(s, u) + {i} else IdentitiesOf(s, u)
      case SignUp(v, i) => if v == u then IdentitiesOf(s, u) + {i} else IdentitiesOf(s, u)
      case _ => IdentitiesOf(s, u)
  {
    if a.CommitDelete? { assert TxnInv(s, a.t); }
  }

  lemma StepKeepsTxnInv(s: State, a: Action, t: Tid)
    requires Inv(s) && Enabled(s, a) && t in Apply(s, a).txns
    ensures TxnInv(Apply(s, a), t)
  {
    if t in s.txns { assert TxnInv(s, t); }
    if a.CommitDelete? { assert TxnInv(s, a.t); }
    IdentitiesChange(s, a, Apply(s, a).txns[t].user);
  }

  lemma StepKeepsInv(s: State, a: Action)
    requires Inv(s) && Enabled(s, a)
    ensures Inv(Apply(s, a))
  {
    forall t | t in Apply(s, a).txns ensures TxnInv(Apply(s, a), t) { StepKeepsTxnInv(s, a, t); }
  }

  lemma StepKeepsLogin(s: State, a: Action, u: UserId)
    requires Inv(s) && Enabled(s, a) && HasLogin(s, u)
    ensures HasLogin(Apply(s, a), u)
  {
    IdentitiesChange(s, a, u);
    if a.CommitDelete? {
      assert TxnInv(s, a.t);
      var txn := s.txns[a.t];
      if txn.user == u && !Stored(s, u) {
        assert |IdentitiesOf(s, u) - {txn.identity}| >= 1;
      }
    }
  }

  ghost predicate IsRun(s: State, actions: seq<Action>)
    decreases actions
  {
    actions == [] || (Enabled(s, actions[0]) && IsRun(Apply(s, actions[0]), actions[1..]))
  }

  ghost function RunFrom(s: State, actions: seq<Action>): State
    requires IsRun(s, actions)
    decreases actions
  {
    if actions == [] then s else RunFrom(Apply(s, actions[0]), actions[1..])
  }

  lemma {:induction false} LoginSurvives(s: State, actions: seq<Action>, u: UserId)
    requires Inv(s) && IsRun(s, actions) && HasLogin(s, u)
    ensures HasLogin(RunFrom(s, actions), u)
    decreases actions
  {
    if actions != [] {
      StepKeepsInv(s, actions[0]);
      StepKeepsLogin(s, actions[0], u);
      LoginSurvives(Apply(s, actions[0]), actions[1..], u);
    }
  }

  /** A user who starts with a password or an identity never ends up with neither. */
  lemma NobodyIsLockedOut(s: State, actions: seq<Action>)
    requires s.txns == map[] && s.identities.Keys <= s.used && IsRun(s, actions)
    ensures forall u :: HasLogin(s, u) ==> HasLogin(RunFrom(s, actions), u)
  {
    forall u | HasLogin(s, u) ensures HasLogin(RunFrom(s, actions), u) {
      LoginSurvives(s, actions, u);
    }
  }

  /** The guard is not stricter than it must be: when the password was read under the lock and
      the identity is still there, it refuses exactly the deletes that would lock the user out. */
  lemma BlocksExactlyTheLastMethod(s: State, t: Tid)
    requires Inv(s) && t in s.txns && s.txns[t].phase.Locked?
    requires s.txns[t].stored == Stored(s, s.txns[t].user) && s.txns[t].identity in s.identities
    ensures t !in Apply(s, Check(t)).txns <==>
      !HasLogin(s.(identities := s.identities - {s.txns[t].identity}), s.txns[t].user)
  {
    assert TxnInv(s, t);
    var txn := s.txns[t];
    var mine := IdentitiesOf(s, txn.user);
    var s' := s.(identities := s.identities - {txn.identity});
    assert IdentitiesOf(s', txn.user) == mine - {txn.identity};
    assert |mine - {txn.identity}| == |mine| - 1;
  }

  // ----- Accounts created through a provider -----

  /** A step leaves a user with the reset flow alone if and only if it deletes the only identity
      of a user whose stored hash is the random one: the guard takes that hash for a password. */
  lemma LeftWithResetOnlyIff(s: State, a: Action, u: UserId)
    requires Inv(s) && Enabled(s, a) && CanLogIn(s, u)
    ensures !CanLogIn(Apply(s, a), u) <==>
      && a.CommitDelete? && s.txns[a.t].user == u && s.passwords[u] == Random
      && IdentitiesOf(s, u) == {s.txns[a.t].identity}
  {
    IdentitiesChange(s, a, u);
    if a.CommitDelete? {
      assert TxnInv(s, a.t);
      var txn := s.txns[a.t];
      if txn.user == u && s.passwords[u] == Empty {
        assert |IdentitiesOf(s, u) - {txn.identity}| >= 1;
      }
    }
  }

  /** Everybody else keeps a way to log in that works, in every run. */
  lemma {:induction false} UsableLoginSurvives(s: State, actions: seq<Action>, u: UserId)
    requires Inv(s) && IsRun(s, actions) && CanLogIn(s, u) && s.passwords[u] != Random
    ensures CanLogIn(RunFrom(s, actions), u)
    decreases actions
  {
    if actions != [] {
      StepKeepsInv(s, actions[0]);
      LeftWithResetOnlyIff(s, actions[0], u);
      UsableLoginSurvives(Apply(s, actions[0]), actions[1..], u);
    }
  }

  /** And a user with the random hash and a single identity can always unlink it. */
  lemma OnlyIdentityCanBeUnlinked(s: State, u: UserId, i: IdentityId, t: Tid)
    requires t !in s.txns && u !in s.owner && u in s.passwords && s.passwords[u] == Random && IdentitiesOf(s, u) == {i}
    ensures
      var actions := [Lookup(t, u, i), LockUser(t, true), Check(t), CommitDelete(t)];
      IsRun(s, actions) && !CanLogIn(RunFrom(s, actions), u)
  {
    assert i in IdentitiesOf(s, u);
    var s1 := Apply(s, Lookup(t, u, i));
    var s2 := Apply(s1, LockUser(t, true));
    var s3 := Apply(s2, Check(t));
    var s4 := Apply(s3, CommitDelete(t));
    assert IdentitiesOf(s4, u) == IdentitiesOf(s, u) - {i};
    FirstThen(s3, CommitDelete(t), []);
    FirstThen(s2, Check(t), [CommitDelete(t)]);
    FirstThen(s1, LockUser(t, true), [Check(t), CommitDelete(t)]);
    FirstThen(s, Lookup(t, u, i), [LockUser(t, true), Check(t), CommitDelete(t)]);
  }

  lemma FirstThen(s: State, a: Action, rest: seq<Action>)
    requires Enabled(s, a) && IsRun(Apply(s, a), rest)
    ensures IsRun(s, [a] + rest) && RunFrom(s, [a] + rest) == RunFrom(Apply(s, a), rest)
  {
    assert ([a] + rest)[1..] == rest;
  }

  // ----- What the other steps do -----

  lemma PasswordsChange(s: State, a: Action, u: UserId)
    requires Enabled(s, a) && u in s.passwords
    ensures u in Apply(s, a).passwords
    ensures Apply(s, a).passwords[u] == if a.SetPassword? && a.pwUser == u then Chosen else s.passwords[u]
  {
  }

  /** Linking, setting a password and either way of signing up leave a login that works. */
  lemma NewLoginsWork(s: State, a: Action)
    requires Enabled(s, a)
    ensures a.Link? ==> CanLogIn(Apply(s, a), a.linkUser)
    ensures a.SetPassword? ==> CanLogIn(Apply(s, a), a.pwUser)
    ensures a.Register? ==> CanLogIn(Apply(s, a), a.newUser)
    ensures a.SignUp? ==> CanLogIn(Apply(s, a), a.newUser) && Apply(s, a).passwords[a.newUser] == Random
  {
    if a.Link? { assert a.newIdentity in IdentitiesOf(Apply(s, a), a.linkUser); }
    if a.SignUp? { assert a.newIdentity in IdentitiesOf(Apply(s, a), a.newUser); }
  }

  /** A lookup finds exactly the user's own identities. */
  lemma LookupFindsOwn(s: State, t: Tid, user: UserId, identity: IdentityId)
    requires Enabled(s, Lookup(t, user, identity))
    ensures t in Apply(s, Lookup(t, user, identity)).txns <==> identity in IdentitiesOf(s, user)
  {
  }
}
