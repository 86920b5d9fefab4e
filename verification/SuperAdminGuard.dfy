/** "Never remove the last active super-admin", as any number of interleaved database
    transactions. A request is accepted from an active super-admin other than the target. Its
    transaction loads the target without a lock; when the loaded copy says the target is a
    super-admin, a demotion or deactivation locks the active super-admins row by row and counts
    them. Then it writes, where the trigger on the table looks once more, and commits. The copy
    may be stale by then. Isolation is READ COMMITTED: a locking read that had to wait looks at
    the row again, and the trigger sees what others have committed, not what they have written. */
module SuperAdminGuard {
  type UserId = nat
  type Tid = nat

  datatype Flags = Flags(active: bool, super: bool) {
    predicate Admin() { active && super }
  }

  datatype Kind = Demote | Deactivate | Promote | Activate

  datatype Phase =
    | Requested
    | Loaded
    | Locking(todo: set<UserId>, counted: set<UserId>)
    | Cleared(counted: set<UserId>)
    | Written(counted: set<UserId>)

  /** `snap` is the loaded copy of the target, or the row at the request before that. */
  datatype Txn = Txn(kind: Kind, target: UserId, snap: Flags, phase: Phase)

  /** Committed rows, transactions in flight, and who holds each row lock. */
  datatype State = State(users: map<UserId, Flags>, txns: map<Tid, Txn>, owner: map<UserId, Tid>)

  datatype Action =
    | Request(t: Tid, actor: UserId, kind: Kind, target: UserId)
    | Load(t: Tid)
    | StartCount(t: Tid)
    | LockRow(t: Tid, u: UserId)
    | CheckCount(t: Tid)
    | Write(t: Tid)
    | Commit(t: Tid)
    | Rollback(t: Tid)

  function Admins(s: State): set<UserId> { set u | u in s.users && s.users[u].Admin() }

  predicate FreeFor(s: State, u: UserId, t: Tid) { u !in s.owner || s.owner[u] == t }

  /** Loading finds nothing to do. */
  predicate Idle(kind: Kind, snap: Flags) {
    (kind == Deactivate && !snap.active) || (kind == Activate && snap.active)
  }

  predicate Counts(kind: Kind, snap: Flags) { (kind == Demote || kind == Deactivate) && snap.super }

  function AfterLoad(kind: Kind, snap: Flags): Phase { if Counts(kind, snap) then Loaded else Cleared({}) }

  /** Whether the guard turns the transaction down after its count. */
  predicate Rejects(txn: Txn, count: nat) { count <= 1 && (txn.kind == Deactivate || txn.snap.active) }

  /** Columns whose loaded value does not change are not written. */
  function Effect(txn: Txn, row: Flags): Flags {
    match txn.kind
    case Demote => if txn.snap.super then row.(super := false) else row
    case Deactivate => row.(active := false)
    case Promote => if txn.snap.super then row else row.(super := true)
    case Activate => row.(active := true)
  }

  predicate Removes(s: State, txn: Txn) {
    txn.target in s.users && s.users[txn.target].Admin() && !Effect(txn, s.users[txn.target]).Admin()
  }

  /** The trigger of migration 0013. */
  predicate TriggerRejects(s: State, txn: Txn) { Removes(s, txn) && Admins(s) - {txn.target} == {} }

  predicate Enabled(s: State, a: Action) {
    match a
    case Request(t, actor, _, target) => t !in s.txns && actor in Admins(s) && target != actor && target in s.users
    case Load(t) => t in s.txns && s.txns[t].phase.Requested? && s.txns[t].target in s.users
    case StartCount(t) => t in s.txns && s.txns[t].phase.Loaded?
    case LockRow(t, u) => t in s.txns && s.txns[t].phase.Locking? && u in s.txns[t].phase.todo && FreeFor(s, u, t)
    case CheckCount(t) => t in s.txns && s.txns[t].phase.Locking? && s.txns[t].phase.todo == {}
    case Write(t) => t in s.txns && s.txns[t].phase.Cleared? && FreeFor(s, s.txns[t].target, t)
    case Commit(t) => t in s.txns && s.txns[t].phase.Written? && s.txns[t].target in s.users
    case Rollback(t) => t in s.txns
  }

  function End(s: State, t: Tid): State {
    s.(txns := s.txns - {t}, owner := map u | u in s.owner && s.owner[u] != t :: s.owner[u])
  }

  function Enter(s: State, t: Tid, phase: Phase): State
    requires t in s.txns
  {
    s.(txns := s.txns[t := s.txns[t].(phase := phase)])
  }

  function Apply(s: State, a: Action): State
    requires Enabled(s, a)
  {
    match a
    case Request(t, _, kind, target) => s.(txns := s.txns[t := Txn(kind, target, s.users[target], Requested)])
    case Load(t) =>
      var (kind, target) := (s.txns[t].kind, s.txns[t].target);
      var snap := s.users[target];
      if Idle(kind, snap) then End(s, t)
      else s.(txns := s.txns[t := Txn(kind, target, snap, AfterLoad(kind, snap))])
    case StartCount(t) => Enter(s, t, Locking(Admins(s), {}))
    case LockRow(t, u) =>
      var phase := s.txns[t].phase;
      var hit := if u in Admins(s) then {u} else {};
      Enter(s, t, Locking(phase.todo - {u}, phase.counted + hit)).(owner := s.owner[u := t])
    case CheckCount(t) =>
      var counted := s.txns[t].phase.counted;
      if Rejects(s.txns[t], |counted|) then End(s, t) else Enter(s, t, Cleared(counted))
    case Write(t) =>
      if TriggerRejects(s, s.txns[t]) then End(s, t)
      else Enter(s, t, Written(s.txns[t].phase.counted)).(owner := s.owner[s.txns[t].target := t])
    case Commit(t) =>
      var txn := s.txns[t];
      End(s, t).(users := s.users[txn.target := Effect(txn, s.users[txn.target])])
    case Rollback(t) => End(s, t)
  }

  // ----- What every run keeps -----

  /** Rows a transaction counted are still active super-admins and still locked by it; past
      the check it has counted two, unless its copy let it skip the check. */
  ghost predicate TxnInv(s: State, t: Tid)
    requires t in s.txns
  {
    var txn := s.txns[t];
    && txn.target in s.users
    && (txn.kind == Deactivate && !txn.phase.Requested? ==> txn.snap.active)
    && (!txn.phase.Requested? && !txn.phase.Loaded? ==>
          forall u :: u in txn.phase.counted ==> u in s.users && s.users[u].Admin() && u in s.owner && s.owner[u] == t)
    && (txn.phase.Written? ==> txn.target in s.owner && s.owner[txn.target] == t)
    && ((txn.phase.Cleared? || txn.phase.Written?) && Counts(txn.kind, txn.snap) && txn.snap.active ==>
          |txn.phase.counted| >= 2)
  }

  ghost predicate Inv(s: State) { forall t :: t in s.txns ==> TxnInv(s, t) }

  lemma CountKeepsTxnInv(s: State, a: Action)
    requires Inv(s) && Enabled(s, a) && (a.LockRow? || a.CheckCount?) && a.t in Apply(s, a).txns
    ensures TxnInv(Apply(s, a), a.t)
  {
    assert TxnInv(s, a.t);
  }

  lemma WriteKeepsTxnInv(s: State, a: Action)
    requires Inv(s) && Enabled(s, a) && a.Write? && a.t in Apply(s, a).txns
    ensures TxnInv(Apply(s, a), a.t)
  {
    assert TxnInv(s, a.t);
  }

  lemma OwnStepKeepsTxnInv(s: State, a: Action, t: Tid)
    requires Inv(s) && Enabled(s, a) && t in Apply(s, a).txns
    requires t !in s.txns || Apply(s, a).txns[t] != s.txns[t]
    ensures TxnInv(Apply(s, a), t)
  {
    assert t == a.t;
    if a.LockRow? || a.CheckCount? {
      CountKeepsTxnInv(s, a);
    } else if a.Write? {
      WriteKeepsTxnInv(s, a);
    } else if !a.Request? {
      assert TxnInv(s, t);
    }
  }

  lemma OthersStepKeepsTxnInv(s: State, a: Action, t: Tid)
    requires Inv(s) && Enabled(s, a) && t in s.txns && t in Apply(s, a).txns && Apply(s, a).txns[t] == s.txns[t]
    ensures TxnInv(Apply(s, a), t)
  {
    assert TxnInv(s, t);
    if a.Commit? { assert TxnInv(s, a.t); }
  }

  lemma StepKeepsInv(s: State, a: Action)
    requires Inv(s) && Enabled(s, a)
    ensures Inv(Apply(s, a))
  {
    var s' := Apply(s, a);
    forall t | t in s'.txns ensures TxnInv(s', t) {
      if t in s.txns && s'.txns[t] == s.txns[t] {
        OthersStepKeepsTxnInv(s, a, t);
      } else {
        OwnStepKeepsTxnInv(s, a, t);
      }
    }
  }

  /** The transaction writes although its copy let it skip the check. */
  predicate Bypasses(txn: Txn) {
    match txn.kind
    case Demote => txn.snap.super && !txn.snap.active
    case Deactivate => !txn.snap.super
    case _ => false
  }

  lemma OtherMember(s: set<UserId>, x: UserId) returns (y: UserId)
    requires |s| >= 2
    ensures y in s && y != x
  {
    var rest := s - {x};
    assert |rest| >= 1;
    y :| y in rest;
  }

  /** A transaction that would remove an active super-admin and did not bypass the check holds
      the lock of another one. */
  lemma CheckedHoldsAnother(s: State, t: Tid) returns (u: UserId)
    requires Inv(s) && t in s.txns && Removes(s, s.txns[t]) && !Bypasses(s.txns[t])
    requires s.txns[t].phase.Cleared? || s.txns[t].phase.Written?
    ensures u in Admins(s) && u != s.txns[t].target && u in s.owner && s.owner[u] == t
  {
    assert TxnInv(s, t);
    u := OtherMember(s.txns[t].phase.counted, s.txns[t].target);
  }

  /** A step takes the last active super-admin away if and only if it commits a bypassing
      transaction on the only one there is. */
  lemma LosesLastAdminIff(s: State, a: Action)
    requires Inv(s) && Enabled(s, a) && Admins(s) != {}
    ensures Admins(Apply(s, a)) == {} <==>
      a.Commit? && Bypasses(s.txns[a.t]) && Admins(s) == {s.txns[a.t].target}
  {
    var s' := Apply(s, a);
    if a.Commit? {
      assert TxnInv(s, a.t);
      var txn := s.txns[a.t];
      assert forall u :: u in Admins(s) && u != txn.target ==> u in Admins(s');
      if Removes(s, txn) {
        assert Admins(s') == Admins(s) - {txn.target};
        if !Bypasses(txn) { var other := CheckedHoldsAnother(s, a.t); }
      } else {
        assert Admins(s) <= Admins(s');
      }
    } else {
      assert s'.users == s.users;
    }
  }

  // ----- Written but not committed -----

  predicate Dooms(s: State, t: Tid, u: UserId) {
    t in s.txns && s.txns[t].phase.Written? && s.txns[t].target == u && Removes(s, s.txns[t])
  }

  /** The active super-admins whose removal is written but not committed. */
  function Doomed(s: State): set<UserId> {
    set t | t in s.txns && Dooms(s, t, s.txns[t].target) :: s.txns[t].target
  }

  /** Some active super-admin is not about to be removed. */
  predicate Covered(s: State) { Admins(s) - Doomed(s) != {} }

  lemma DoomedMember(s: State, u: UserId)
    ensures u in Doomed(s) <==> exists t :: Dooms(s, t, u)
  {
    if t :| Dooms(s, t, u) { assert s.txns[t].target in Doomed(s); }
  }

  lemma DoomedOwner(s: State, t: Tid, u: UserId)
    requires Inv(s) && Dooms(s, t, u)
    ensures u in s.owner && s.owner[u] == t
  {
    assert TxnInv(s, t);
  }

  lemma NothingWritten(s: State)
    requires forall t :: t in s.txns ==> !s.txns[t].phase.Written?
    ensures Doomed(s) == {}
  {
  }

  function DoomedBy(s: State, txn: Txn): set<UserId> {
    if Removes(s, txn) && !TriggerRejects(s, txn) then {txn.target} else {}
  }

  lemma DoomedAfterWrite(s: State, t: Tid)
    requires Enabled(s, Write(t))
    ensures Doomed(Apply(s, Write(t))) == Doomed(s) + DoomedBy(s, s.txns[t])
  {
    var s' := Apply(s, Write(t));
    assert s'.users == s.users;
    forall v ensures v in Doomed(s') <==> v in Doomed(s) || v in DoomedBy(s, s.txns[t]) {
      DoomedMember(s, v);
      DoomedMember(s', v);
      assert Dooms(s', t, v) <==> v in DoomedBy(s, s.txns[t]);
      assert forall t2 :: t2 != t ==> (Dooms(s', t2, v) <==> Dooms(s, t2, v));
      assert !Dooms(s, t, v);
    }
  }

  lemma DoomsBefore(s: State, a: Action, t: Tid, u: UserId)
    requires Inv(s) && Enabled(s, a) && !a.Write? && Dooms(Apply(s, a), t, u)
    ensures Dooms(s, t, u)
  {
    assert t in s.txns && s.txns[t] == Apply(s, a).txns[t];
    if a.Commit? { assert TxnInv(s, a.t) && TxnInv(s, t); }
  }

  lemma DoomedAfterOther(s: State, a: Action)
    requires Inv(s) && Enabled(s, a) && !a.Write?
    ensures Doomed(Apply(s, a)) <= Doomed(s)
  {
    var s' := Apply(s, a);
    forall v | v in Doomed(s') ensures v in Doomed(s) {
      DoomedMember(s', v);
      var t :| Dooms(s', t, v);
      DoomsBefore(s, a, t, v);
      DoomedMember(s, v);
    }
  }

  /** The exact condition. From a covered state a step leads to an uncovered one if and only if
      it writes the removal of the only one not doomed; the trigger lets it pass because those
      already doomed are not committed yet. */
  lemma CoverLostIff(s: State, a: Action)
    requires Inv(s) && Enabled(s, a) && Covered(s)
    ensures !Covered(Apply(s, a)) <==>
      && a.Write? && Removes(s, s.txns[a.t]) && !TriggerRejects(s, s.txns[a.t])
      && Admins(s) - Doomed(s) == {s.txns[a.t].target}
  {
    var s' := Apply(s, a);
    if a.Write? {
      DoomedAfterWrite(s, a.t);
      assert Admins(s') == Admins(s);
    } else {
      DoomedAfterOther(s, a);
      forall u | u in Admins(s) - Doomed(s) ensures u in Admins(s') {
        if a.Commit? && u == s.txns[a.t].target { DoomedMember(s, u); }
      }
    }
  }

  /** Two bypassing transactions have both written the removal of an active super-admin and
      neither has committed it. */
  ghost predicate Overlap(s: State, a: Action) {
    && a.Write? && a.t in s.txns && Bypasses(s.txns[a.t]) && Removes(s, s.txns[a.t])
    && exists t, u :: t != a.t && Dooms(s, t, u) && Bypasses(s.txns[t])
  }

  /** Whoever passed the check leaves another one that nobody dooms. */
  lemma CheckedLeavesAnother(s: State, t: Tid) returns (u: UserId)
    requires Inv(s) && t in s.txns && Removes(s, s.txns[t]) && !Bypasses(s.txns[t])
    requires s.txns[t].phase.Cleared? || s.txns[t].phase.Written?
    ensures u in Admins(s) - Doomed(s) && u != s.txns[t].target && u in s.owner && s.owner[u] == t
  {
    u := CheckedHoldsAnother(s, t);
    DoomedMember(s, u);
    if t2 :| Dooms(s, t2, u) { DoomedOwner(s, t2, u); }
  }

  /** Only an overlap of two bypassing transactions loses the cover. */
  lemma CoverLostOnlyByOverlap(s: State, a: Action)
    requires Inv(s) && Enabled(s, a) && Covered(s) && !Covered(Apply(s, a))
    ensures Overlap(s, a)
  {
    CoverLostIff(s, a);
    var txn := s.txns[a.t];
    assert Admins(s) - Doomed(s) == {txn.target};
    if !Bypasses(txn) { var u := CheckedLeavesAnother(s, a.t); }
    var w :| w in Admins(s) - {txn.target};
    assert w in Doomed(s);
    DoomedMember(s, w);
    var t :| Dooms(s, t, w);
    if !Bypasses(s.txns[t]) { var u := CheckedLeavesAnother(s, t); }
  }

  // ----- What a transaction does, and when it is turned down -----

  /** What each kind of change commits, in terms of the flags: a deactivation and an activation set
      one flag whatever the loaded copy said, a promotion or demotion another one if the copy had it
      otherwise. Nothing else changes. */
  lemma CommitChanges(s: State, t: Tid)
    requires Inv(s) && Enabled(s, Commit(t))
    ensures
      var txn, s' := s.txns[t], Apply(s, Commit(t));
      var row := s.users[txn.target];
      && s'.users.Keys == s.users.Keys && t !in s'.txns
      && (forall u :: u in s.users && u != txn.target ==> s'.users[u] == s.users[u])
      && (txn.kind == Deactivate ==> s'.users[txn.target] == Flags(false, row.super))
      && (txn.kind == Activate ==> s'.users[txn.target] == Flags(true, row.super))
      && (txn.kind == Demote ==> s'.users[txn.target] == Flags(row.active, row.super && !txn.snap.super))
      && (txn.kind == Promote ==> s'.users[txn.target] == Flags(row.active, row.super || !txn.snap.super))
  {
  }

  /** Only commits change committed rows. */
  lemma OthersChangeNothing(s: State, a: Action)
    requires Enabled(s, a) && !a.Commit?
    ensures Apply(s, a).users == s.users
  {
  }

  /** Loading takes the committed row as the copy, and gives up exactly on a deactivation of an
      inactive or an activation of an active user. Only removals from super-admins have to count. */
  lemma LoadTakesTheRow(s: State, t: Tid)
    requires Enabled(s, Load(t))
    ensures
      var txn, txns := s.txns[t], Apply(s, Load(t)).txns;
      var row := s.users[txn.target];
      && (t !in txns <==> (txn.kind == Deactivate && !row.active) || (txn.kind == Activate && row.active))
      && (t in txns ==>
            && txns[t].kind == txn.kind && txns[t].target == txn.target && txns[t].snap == row
            && (txns[t].phase == Loaded <==> row.super && txn.kind in {Demote, Deactivate})
            && (txns[t].phase != Loaded ==> txns[t].phase == Cleared({})))
  {
  }

  /** With a fresh copy and a count nobody interfered with, the guard refuses exactly the removal
      of the last active super-admin. */
  lemma GuardRefusesIff(s: State, t: Tid)
    requires Inv(s) && Enabled(s, CheckCount(t)) && s.txns[t].phase.counted == Admins(s)
    requires s.txns[t].target in s.users && s.txns[t].snap == s.users[s.txns[t].target]
    requires s.txns[t].kind in {Demote, Deactivate} && s.txns[t].snap.super
    requires Admins(s) != {}
    ensures t !in Apply(s, CheckCount(t)).txns <==> Admins(s) == {s.txns[t].target}
  {
    assert TxnInv(s, t);
    var admins, u := Admins(s), s.txns[t].target;
    if admins == {u} { assert |admins| == 1; }
    if |admins| <= 1 && u in admins {
      assert |admins - {u}| == 0;
      assert admins == {u};
    }
  }

  /** The trigger refuses exactly what would remove the last committed active super-admin. */
  lemma TriggerRefusesIff(s: State, t: Tid)
    requires Inv(s) && Enabled(s, Write(t))
    ensures
      var txn := s.txns[t];
      t !in Apply(s, Write(t)).txns <==>
        Admins(s) == {txn.target} && (txn.kind == Deactivate || (txn.kind == Demote && txn.snap.super))
  {
    assert TxnInv(s, t);
  }

  /** Requests come from active super-admins about somebody else, so while there is one alone
      nobody can ask for that one's removal. */
  lemma NobodyAsksForTheOnlyOne(s: State, t: Tid, actor: UserId, kind: Kind, u: UserId)
    requires Admins(s) == {u}
    ensures !Enabled(s, Request(t, actor, kind, u))
  {
  }

  // ----- Runs -----

  ghost predicate IsRun(s: State, actions: seq<Action>)
    decreases actions
  {
    actions == [] || (Enabled(s, actions[0]) && IsRun(Apply(s, actions[0]), actions[1..]))
  }

  ghost function RunFrom(s: State, actions: seq<Action>): State
    requires IsRun(s, actions)
    decreases actions
  {
    if actions == [] then s else RunFrom(Apply(s, actions[0]), actions[1..])
  }

  ghost predicate NoOverlap(s: State, actions: seq<Action>)
    requires IsRun(s, actions)
    decreases actions
  {
    actions == [] || (!Overlap(s, actions[0]) && NoOverlap(Apply(s, actions[0]), actions[1..]))
  }

  /** Any number of transactions, in any interleaving in which no two bypassing removals
      overlap: with an active super-admin at the start there is one at the end. */
  lemma {:induction false} AlwaysAnAdmin(s: State, actions: seq<Action>)
    requires Inv(s) && Covered(s) && IsRun(s, actions) && NoOverlap(s, actions)
    ensures Covered(RunFrom(s, actions)) && Admins(RunFrom(s, actions)) != {}
    decreases actions
  {
    if actions != [] {
      StepKeepsInv(s, actions[0]);
      if !Covered(Apply(s, actions[0])) { CoverLostOnlyByOverlap(s, actions[0]); }
      AlwaysAnAdmin(Apply(s, actions[0]), actions[1..]);
    }
  }

  lemma FromRest(s: State, actions: seq<Action>)
    requires s.txns == map[] && Admins(s) != {} && IsRun(s, actions) && NoOverlap(s, actions)
    ensures Admins(RunFrom(s, actions)) != {}
  {
    assert Admins(s) - Doomed(s) == Admins(s);
    AlwaysAnAdmin(s, actions);
  }

  /** The step commits no promotion or activation of a user whom a loaded demotion or deactivation
      targets. */
  ghost predicate Quiet(s: State, a: Action) {
    a.Commit? && a.t in s.txns && (s.txns[a.t].kind == Promote || s.txns[a.t].kind == Activate) ==>
      forall t | t in s.txns && (s.txns[t].kind == Demote || s.txns[t].kind == Deactivate) ::
        s.txns[t].phase.Requested? || s.txns[t].target != s.txns[a.t].target
  }

  ghost predicate QuietRun(s: State, actions: seq<Action>)
    requires IsRun(s, actions)
    decreases actions
  {
    actions == [] || (Quiet(s, actions[0]) && QuietRun(Apply(s, actions[0]), actions[1..]))
  }

  /** What a bypassing transaction loaded is still no active super-admin. */
  ghost predicate BypassesMiss(s: State) {
    forall t :: t in s.txns && !s.txns[t].phase.Requested? && Bypasses(s.txns[t]) ==> s.txns[t].target !in Admins(s)
  }

  lemma QuietKeepsBypassesMiss(s: State, a: Action)
    requires Inv(s) && Enabled(s, a) && Quiet(s, a) && BypassesMiss(s)
    ensures BypassesMiss(Apply(s, a))
  {
    var s' := Apply(s, a);
    forall t | t in s'.txns && !s'.txns[t].phase.Requested? && Bypasses(s'.txns[t])
      ensures s'.txns[t].target !in Admins(s')
    {
      if a.Load? && a.t == t { assert TxnInv(s', t) by { StepKeepsInv(s, a); } }
    }
  }

  lemma {:induction false} QuietRunsDoNotOverlap(s: State, actions: seq<Action>)
    requires Inv(s) && BypassesMiss(s) && IsRun(s, actions) && QuietRun(s, actions)
    ensures NoOverlap(s, actions)
    decreases actions
  {
    if actions != [] {
      StepKeepsInv(s, actions[0]);
      QuietKeepsBypassesMiss(s, actions[0]);
      QuietRunsDoNotOverlap(Apply(s, actions[0]), actions[1..]);
    }
  }

  /** In terms of requests: while no promotion or activation lands on the target of a loaded
      demotion or deactivation, an active super-admin remains in every interleaving. */
  lemma QuietRunsKeepAnAdmin(s: State, actions: seq<Action>)
    requires s.txns == map[] && Admins(s) != {} && IsRun(s, actions) && QuietRun(s, actions)
    ensures Admins(RunFrom(s, actions)) != {}
  {
    QuietRunsDoNotOverlap(s, actions);
    FromRest(s, actions);
  }

  ghost predicate Reaches(s: State, s': State) {
    exists actions :: IsRun(s, actions) && RunFrom(s, actions) == s'
  }

  lemma ReachesFirst(s: State, a: Action, s': State)
    requires Enabled(s, a) && Reaches(Apply(s, a), s')
    ensures Reaches(s, s')
  {
    var actions :| IsRun(Apply(s, a), actions) && RunFrom(Apply(s, a), actions) == s';
    var all := [a] + actions;
    assert all[1..] == actions;
    assert IsRun(s, all) && RunFrom(s, all) == s';
  }

  lemma {:induction false} RunThenReaches(s: State, actions: seq<Action>, s': State)
    requires IsRun(s, actions) && Reaches(RunFrom(s, actions), s')
    ensures Reaches(s, s')
    decreases actions
  {
    if actions != [] {
      RunThenReaches(Apply(s, actions[0]), actions[1..], s');
      ReachesFirst(s, actions[0], s');
    }
  }

  lemma ReachesTrans(s: State, s1: State, s2: State)
    requires Reaches(s, s1) && Reaches(s1, s2)
    ensures Reaches(s, s2)
  {
    var actions :| IsRun(s, actions) && RunFrom(s, actions) == s1;
    RunThenReaches(s, actions, s2);
  }

  lemma ReachesItself(s: State)
    ensures Reaches(s, s)
  {
    assert IsRun(s, []) && RunFrom(s, []) == s;
  }

  lemma ReachesStep(s: State, a: Action)
    requires Enabled(s, a)
    ensures Reaches(s, Apply(s, a))
  {
    ReachesItself(Apply(s, a));
    ReachesFirst(s, a, Apply(s, a));
  }

  lemma {:induction false} RunKeepsInv(s: State, actions: seq<Action>)
    requires Inv(s) && IsRun(s, actions)
    ensures Inv(RunFrom(s, actions))
    decreases actions
  {
    if actions != [] {
      StepKeepsInv(s, actions[0]);
      RunKeepsInv(Apply(s, actions[0]), actions[1..]);
    }
  }

  /** Once every active super-admin is doomed, committing what is written leaves none. */
  lemma {:induction false} UncoveredReachesNone(s: State) returns (s': State)
    requires Inv(s) && !Covered(s)
    ensures Reaches(s, s') && Admins(s') == {}
    decreases |Admins(s)|
  {
    if Admins(s) == {} {
      ReachesItself(s);
      s' := s;
    } else {
      var u :| u in Admins(s);
      assert u !in Admins(s) - Doomed(s);
      DoomedMember(s, u);
      var t :| Dooms(s, t, u);
      StepKeepsInv(s, Commit(t));
      StillUncovered(s, t);
      s' := UncoveredReachesNone(Apply(s, Commit(t)));
      ReachesFirst(s, Commit(t), s');
    }
  }

  lemma StillUncovered(s: State, t: Tid)
    requires Inv(s) && !Covered(s) && t in s.txns && Dooms(s, t, s.txns[t].target)
    ensures !Covered(Apply(s, Commit(t))) && Admins(Apply(s, Commit(t))) < Admins(s)
    ensures |Admins(Apply(s, Commit(t)))| < |Admins(s)|
  {
    var s1, u := Apply(s, Commit(t)), s.txns[t].target;
    assert Admins(s1) == Admins(s) - {u};
    forall v | v in Admins(s1) ensures v in Doomed(s1) {
      assert v in Admins(s) && v !in Admins(s) - Doomed(s);
      DoomedMember(s, v);
      var t2 :| Dooms(s, t2, v);
      assert Dooms(s1, t2, v);
      DoomedMember(s1, v);
    }
  }

  /** Having no active super-admin is reachable exactly when an uncovered state is. */
  lemma LossReachableIff(s: State)
    requires Inv(s)
    ensures (exists s' :: Reaches(s, s') && Admins(s') == {}) <==> (exists s' :: Reaches(s, s') && !Covered(s'))
  {
    if s1 :| Reaches(s, s1) && Admins(s1) == {} {
      assert !Covered(s1);
    }
    if s1 :| Reaches(s, s1) && !Covered(s1) {
      var actions :| IsRun(s, actions) && RunFrom(s, actions) == s1;
      RunKeepsInv(s, actions);
      var s2 := UncoveredReachesNone(s1);
      ReachesTrans(s, s1, s2);
    }
  }

  // ----- Two runs that do lose it -----

  lemma LoadReaches(s: State, t: Tid, actor: UserId, kind: Kind, target: UserId)
    requires t !in s.txns && actor in Admins(s) && target != actor && target in s.users && !Idle(kind, s.users[target])
    ensures Reaches(s, s.(txns := s.txns[t := Txn(kind, target, s.users[target], AfterLoad(kind, s.users[target]))]))
  {
    var s1 := Apply(s, Request(t, actor, kind, target));
    ReachesStep(s1, Load(t));
    assert Apply(s1, Load(t)).txns == s.txns[t := Txn(kind, target, s.users[target], AfterLoad(kind, s.users[target]))];
    ReachesFirst(s, Request(t, actor, kind, target), Apply(s1, Load(t)));
  }

  lemma WriteAndCommit(s: State, t: Tid)
    requires t in s.txns && s.txns[t].phase.Cleared? && s.txns[t].target in s.users && !TriggerRejects(s, s.txns[t])
    requires FreeFor(s, s.txns[t].target, t)
    ensures
      var txn := s.txns[t];
      Reaches(s, End(s, t).(users := s.users[txn.target := Effect(txn, s.users[txn.target])]))
  {
    var s1 := Apply(s, Write(t));
    var s2 := Apply(s1, Commit(t));
    var txn := s.txns[t];
    assert s2.txns == s.txns - {t};
    assert s2.owner == End(s, t).owner;
    assert s2 == End(s, t).(users := s.users[txn.target := Effect(txn, s.users[txn.target])]);
    ReachesStep(s1, Commit(t));
    ReachesFirst(s, Write(t), s2);
  }

  /** A promotion or activation of an unlocked user by somebody else runs through. */
  lemma RaiseReaches(s: State, t: Tid, actor: UserId, kind: Kind, target: UserId)
    requires kind == Promote || kind == Activate
    requires t !in s.txns && t !in s.owner.Values && actor in Admins(s) && target != actor && target in s.users
    requires !s.users[target].Admin() && !Idle(kind, s.users[target]) && target !in s.owner
    ensures
      var row := s.users[target];
      var raised := if kind == Promote then Flags(row.active, true) else Flags(true, row.super);
      Reaches(s, s.(users := s.users[target := raised]))
  {
    LoadReaches(s, t, actor, kind, target);
    var txn := Txn(kind, target, s.users[target], Cleared({}));
    var s1 := s.(txns := s.txns[t := txn]);
    WriteAndCommit(s1, t);
    assert End(s1, t) == s by {
      assert s1.txns - {t} == s.txns;
      assert forall u :: u in s.owner ==> s.owner[u] in s.owner.Values;
    }
    ReachesTrans(s, s1, s.(users := s.users[target := Effect(txn, s.users[target])]));
  }

  /** A deactivation of an unlocked ordinary user by somebody else runs through. */
  lemma DeactivationReaches(s: State, t: Tid, actor: UserId, target: UserId)
    requires t !in s.txns && t !in s.owner.Values && actor in Admins(s) && target in s.users && target !in s.owner
    requires s.users[target] == Flags(true, false)
    ensures Reaches(s, s.(users := s.users[target := Flags(false, false)]))
  {
    LoadReaches(s, t, actor, Deactivate, target);
    var txn := Txn(Deactivate, target, s.users[target], Cleared({}));
    var s1 := s.(txns := s.txns[t := txn]);
    WriteAndCommit(s1, t);
    assert End(s1, t) == s by {
      assert s1.txns - {t} == s.txns;
      assert forall u :: u in s.owner ==> s.owner[u] in s.owner.Values;
    }
    ReachesTrans(s, s1, s.(users := s.users[target := Flags(false, false)]));
  }

  /** The locks and the count of a demotion of `v` that finds `v` and `w`. */
  lemma CountReaches(s: State, t: Tid, v: UserId, w: UserId)
    requires v != w && Admins(s) == {v, w} && s.owner == map[]
    requires t in s.txns && s.txns[t] == Txn(Demote, v, Flags(true, true), Loaded)
    ensures
      var cleared := Txn(Demote, v, Flags(true, true), Cleared({v, w}));
      Reaches(s, State(s.users, s.txns[t := cleared], map[v := t, w := t]))
  {
    var s1 := Apply(s, StartCount(t));
    var s2 := Apply(s1, LockRow(t, v));
    assert s2.txns[t].phase == Locking({w}, {v});
    var s3 := Apply(s2, LockRow(t, w));
    assert s3.txns[t].phase == Locking({}, {v, w});
    var s4 := Apply(s3, CheckCount(t));
    assert s4.txns == s.txns[t := Txn(Demote, v, Flags(true, true), Cleared({v, w}))];
    ReachesStep(s3, CheckCount(t));
    ReachesFirst(s2, LockRow(t, w), s4);
    ReachesFirst(s1, LockRow(t, v), s4);
    ReachesFirst(s, StartCount(t), s4);
  }

  /** With two active super-admins `v` and `w`, a demotion of `v` by `w` runs through. */
  lemma DemotionReaches(s: State, t: Tid, v: UserId, w: UserId)
    requires v != w && Admins(s) == {v, w} && s.owner == map[] && t !in s.txns
    ensures Reaches(s, s.(users := s.users[v := Flags(true, false)]))
  {
    assert v in Admins(s) && w in Admins(s);
    assert s.users[v] == Flags(true, true);
    LoadReaches(s, t, w, Demote, v);
    var s1 := s.(txns := s.txns[t := Txn(Demote, v, Flags(true, true), Loaded)]);
    assert Admins(s1) == Admins(s);
    CountReaches(s1, t, v, w);
    var s2 := State(s.users, s.txns[t := Txn(Demote, v, Flags(true, true), Cleared({v, w}))], map[v := t, w := t]);
    var s3 := s.(users := s.users[v := Flags(true, false)]);
    assert w in Admins(s2) - {v};
    WriteAndCommit(s2, t);
    assert End(s2, t) == s by { assert s2.txns - {t} == s.txns; }
    ReachesTrans(s1, s2, s3);
    ReachesTrans(s, s1, s3);
  }

  /** Two bypassing transactions, on the only two active super-admins, write one after the other. */
  lemma BothWrite(s: State, t1: Tid, t2: Tid, u1: UserId, u2: UserId) returns (s': State)
    requires Inv(s) && t1 in s.txns && t2 in s.txns && t1 != t2 && u1 != u2 && Admins(s) == {u1, u2}
    requires forall t :: t in s.txns ==> !s.txns[t].phase.Written?
    requires s.txns[t1].phase.Cleared? && s.txns[t1].target == u1 && Removes(s, s.txns[t1]) && FreeFor(s, u1, t1)
    requires s.txns[t2].phase.Cleared? && s.txns[t2].target == u2 && Removes(s, s.txns[t2]) && FreeFor(s, u2, t2)
    ensures Reaches(s, s') && Admins(s') == {}
  {
    assert u2 in Admins(s) - {u1} && u1 in Admins(s) - {u2};
    NothingWritten(s);
    var s1 := Apply(s, Write(t1));
    StepKeepsInv(s, Write(t1));
    DoomedAfterWrite(s, t1);
    assert Admins(s1) == Admins(s);
    var s2 := Apply(s1, Write(t2));
    StepKeepsInv(s1, Write(t2));
    DoomedAfterWrite(s1, t2);
    assert Admins(s2) == Admins(s);
    s' := UncoveredReachesNone(s2);
    ReachesFirst(s1, Write(t2), s');
    ReachesFirst(s, Write(t1), s');
  }

  const ON := Flags(true, true)
  const OFF := Flags(true, false)
  const IDLE := Flags(false, true)

  /** User 0 asks for a change of user 1 and for a deactivation of user 2; both are loaded. */
  lemma TwoRequests(s: State, kind: Kind)
    requires s.txns == map[] && 0 in Admins(s) && 1 in s.users && 2 in s.users
    requires !Idle(kind, s.users[1]) && !Idle(Deactivate, s.users[2])
    ensures Reaches(s, s.(txns := map[
      1 := Txn(kind, 1, s.users[1], AfterLoad(kind, s.users[1])),
      2 := Txn(Deactivate, 2, s.users[2], AfterLoad(Deactivate, s.users[2]))]))
  {
    var one := Txn(kind, 1, s.users[1], AfterLoad(kind, s.users[1]));
    var two := Txn(Deactivate, 2, s.users[2], AfterLoad(Deactivate, s.users[2]));
    var s1 := s.(txns := s.txns[1 := one]);
    LoadReaches(s, 1, 0, kind, 1);
    assert 0 in Admins(s1);
    LoadReaches(s1, 2, 0, Deactivate, 2);
    assert s1.txns[2 := two] == map[1 := one, 2 := two];
    ReachesTrans(s, s1, s.(txns := map[1 := one, 2 := two]));
  }

  /** User 0 asks to deactivate users 1 and 2, and both are loaded as plain users. User 1 is
      promoted, demotes user 0, and promotes user 2. The deactivations never count; each write
      passes the trigger because the other is not committed; and none is left. */
  lemma PromotionDuringDeactivation() returns (s: State, s': State)
    ensures s.txns == map[] && Admins(s) != {} && Reaches(s, s') && Admins(s') == {}
  {
    s := State(map[0 := ON, 1 := OFF, 2 := OFF], map[], map[]);
    assert 0 in Admins(s);
    TwoRequests(s, Deactivate);
    var s2 := s.(txns := map[1 := Txn(Deactivate, 1, OFF, Cleared({})), 2 := Txn(Deactivate, 2, OFF, Cleared({}))]);
    var s3 := TakenOver(s2);
    ReachesTrans(s, s2, s3);
    ReadyWithoutCount(s3);
    s' := BothWriteFrom(s, s3);
  }

  lemma TakenOver(s: State) returns (s': State)
    requires s.users == map[0 := ON, 1 := OFF, 2 := OFF] && s.owner == map[]
    requires s.txns == map[1 := Txn(Deactivate, 1, OFF, Cleared({})), 2 := Txn(Deactivate, 2, OFF, Cleared({}))]
    ensures Reaches(s, s') && s'.users == map[0 := OFF, 1 := ON, 2 := ON] && s'.owner == map[] && s'.txns == s.txns
  {
    assert 0 in Admins(s);
    var s1 := s.(users := map[0 := ON, 1 := ON, 2 := OFF]);
    assert s1.users == s.users[1 := ON];
    RaiseReaches(s, 3, 0, Promote, 1);
    var s2 := s.(users := map[0 := OFF, 1 := ON, 2 := OFF]);
    assert s2.users == s1.users[0 := OFF] && Admins(s1) == {0, 1};
    DemotionReaches(s1, 3, 0, 1);
    ReachesTrans(s, s1, s2);
    s' := s.(users := map[0 := OFF, 1 := ON, 2 := ON]);
    assert s'.users == s2.users[2 := ON] && 1 in Admins(s2);
    RaiseReaches(s2, 3, 1, Promote, 2);
    ReachesTrans(s, s2, s');
  }

  /** Users 1 and 2 are the active super-admins, and transactions 1 and 2 may write their removal. */
  ghost predicate BothReady(s: State) {
    && s.users == map[0 := OFF, 1 := ON, 2 := ON] && s.txns.Keys == {1, 2} && Inv(s)
    && forall t :: t in s.txns ==>
         var txn := s.txns[t];
         txn.phase.Cleared? && txn.target == t && Removes(s, txn) && FreeFor(s, t, t)
  }

  lemma ReadyWithoutCount(s: State)
    requires s.users == map[0 := OFF, 1 := ON, 2 := ON] && s.owner == map[]
    requires s.txns == map[1 := Txn(Deactivate, 1, OFF, Cleared({})), 2 := Txn(Deactivate, 2, OFF, Cleared({}))]
    ensures BothReady(s)
  {
  }

  lemma ReadyAfterCount(s: State)
    requires s.users == map[0 := OFF, 1 := ON, 2 := ON] && s.owner == map[1 := 1]
    requires s.txns == map[1 := Txn(Demote, 1, IDLE, Cleared({1})), 2 := Txn(Deactivate, 2, OFF, Cleared({}))]
    ensures BothReady(s)
  {
  }

  lemma BothWriteFrom(s: State, s1: State) returns (s': State)
    requires Reaches(s, s1) && BothReady(s1)
    ensures Reaches(s, s') && Admins(s') == {}
  {
    assert Admins(s1) == {1, 2};
    s' := BothWrite(s1, 1, 2, 1, 2);
    ReachesTrans(s, s1, s');
  }

  /** The same with a demotion of user 1, an inactive super-admin, in place of one deactivation:
      it counts, but the verdict is ignored because the loaded copy says inactive. */
  lemma ActivationDuringDemotion() returns (s: State, s': State)
    ensures s.txns == map[] && Admins(s) != {} && Reaches(s, s') && Admins(s') == {}
  {
    s := State(map[0 := ON, 1 := IDLE, 2 := OFF], map[], map[]);
    assert 0 in Admins(s);
    TwoRequests(s, Demote);
    var s2 := s.(txns := map[1 := Txn(Demote, 1, IDLE, Loaded), 2 := Txn(Deactivate, 2, OFF, Cleared({}))]);
    var s3 := ActivatedAndAlone(s2);
    var s4 := CountedAlone(s3);
    ReachesTrans(s2, s3, s4);
    ReachesTrans(s, s2, s4);
    ReadyAfterCount(s4);
    s' := BothWriteFrom(s, s4);
  }

  lemma ActivatedAndAlone(s: State) returns (s': State)
    requires s.users == map[0 := ON, 1 := IDLE, 2 := OFF] && s.owner == map[]
    requires s.txns == map[1 := Txn(Demote, 1, IDLE, Loaded), 2 := Txn(Deactivate, 2, OFF, Cleared({}))]
    ensures Reaches(s, s') && s'.users == map[0 := OFF, 1 := ON, 2 := OFF] && s'.owner == map[] && s'.txns == s.txns
  {
    assert 0 in Admins(s);
    var s1 := s.(users := map[0 := ON, 1 := ON, 2 := OFF]);
    assert s1.users == s.users[1 := ON];
    RaiseReaches(s, 3, 0, Activate, 1);
    s' := s.(users := map[0 := OFF, 1 := ON, 2 := OFF]);
    assert s'.users == s1.users[0 := OFF] && Admins(s1) == {0, 1};
    DemotionReaches(s1, 3, 0, 1);
    ReachesTrans(s, s1, s');
  }

  /** The lock and the count of a demotion of `v` that finds `v` alone and was loaded inactive. */
  lemma CountAloneReaches(s: State, t: Tid, v: UserId)
    requires Admins(s) == {v} && s.owner == map[] && t in s.txns && s.txns[t] == Txn(Demote, v, IDLE, Loaded)
    ensures Reaches(s, State(s.users, s.txns[t := Txn(Demote, v, IDLE, Cleared({v}))], map[v := t]))
  {
    var s1 := Apply(s, StartCount(t));
    var s2 := Apply(s1, LockRow(t, v));
    assert s2.txns[t].phase == Locking({}, {v});
    var s3 := Apply(s2, CheckCount(t));
    assert s3.txns == s.txns[t := Txn(Demote, v, IDLE, Cleared({v}))];
    ReachesStep(s2, CheckCount(t));
    ReachesFirst(s1, LockRow(t, v), s3);
    ReachesFirst(s, StartCount(t), s3);
  }

  lemma CountedAlone(s: State) returns (s': State)
    requires s.users == map[0 := OFF, 1 := ON, 2 := OFF] && s.owner == map[]
    requires s.txns == map[1 := Txn(Demote, 1, IDLE, Loaded), 2 := Txn(Deactivate, 2, OFF, Cleared({}))]
    ensures Reaches(s, s') && s'.users == map[0 := OFF, 1 := ON, 2 := ON] && s'.owner == map[1 := 1]
    ensures s'.txns == map[1 := Txn(Demote, 1, IDLE, Cleared({1})), 2 := Txn(Deactivate, 2, OFF, Cleared({}))]
  {
    assert Admins(s) == {1};
    CountAloneReaches(s, 1, 1);
    var txns := s.txns[1 := Txn(Demote, 1, IDLE, Cleared({1}))];
    var s1 := State(s.users, txns, map[1 := 1]);
    assert 1 in Admins(s1);
    s' := s1.(users := s1.users[2 := ON]);
    RaiseReaches(s1, 3, 1, Promote, 2);
    ReachesTrans(s, s1, s');
  }
}
