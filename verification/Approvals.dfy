/** Component approvals: creates that check before they insert, decisions under a row lock with
    an If-Match version, and deletes that read without a lock, all interleaved. */
module Approvals {
  import opened Options
  import opened Actors

  type ApprovalId = nat
  type ComponentId = nat
  type ProjectId = nat
  type Tid = nat
  type Instant = int

  datatype Status = Pending | UnderReview | Approved | Rejected {
    predicate Terminal() { Approved? || Rejected? }
  }

  datatype Approval = Approval(
    component: ComponentId, project: ProjectId, team: TeamId, requester: UserId,
    status: Status, version: nat,
    decidedBy: Option<UserId>, decidedAt: Option<Instant>, note: Option<string>)
  {
    predicate OpenFor(c: ComponentId, p: ProjectId) { component == c && project == p && !status.Terminal() }
  }

  datatype Txn =
    | Creating(row: Approval)
    | Deciding(id: ApprovalId, actor: CurrentUser, action: Status, note: Option<string>, ifMatch: int)
    | Deleting(id: ApprovalId, seen: Approval)

  /** `used` holds every approval id ever handed out; `owner` the row locks. */
  datatype State = State(
    teamOf: map<ProjectId, TeamId>, components: set<ComponentId>,
    rows: map<ApprovalId, Approval>, used: set<ApprovalId>, txns: map<Tid, Txn>, owner: map<ApprovalId, Tid>)

  datatype Action =
    | Preflight(t: Tid, actor: CurrentUser, component: ComponentId, project: ProjectId)
    | CommitCreate(t: Tid, newId: ApprovalId)
    | LockAndCheck(t: Tid, actor: CurrentUser, id: ApprovalId, action: Status, note: Option<string>, ifMatch: int)
    | CommitDecision(t: Tid, now: Instant)
    | ReadForDelete(t: Tid, actor: CurrentUser, id: ApprovalId)
    | CommitDelete(t: Tid)
    | Rollback(t: Tid)

  function AllowedFrom(status: Status): set<Status> {
    match status
    case Pending => {UnderReview, Rejected}
    case UnderReview => {Approved, Rejected}
    case Approved => {}
    case Rejected => {}
  }

  predicate HasOpen(s: State, c: ComponentId, p: ProjectId) {
    exists i :: i in s.rows && s.rows[i].OpenFor(c, p)
  }

  predicate Enabled(s: State, a: Action) {
    match a
    case Preflight(t, _, _, _) => t !in s.txns
    case CommitCreate(t, newId) => t in s.txns && s.txns[t].Creating? && newId !in s.used
    case LockAndCheck(t, _, id, _, _, _) => t !in s.txns && id !in s.owner
    case CommitDecision(t, _) => t in s.txns && s.txns[t].Deciding? && s.txns[t].id in s.rows
    case ReadForDelete(t, _, _) => t !in s.txns
    case CommitDelete(t) => t in s.txns && s.txns[t].Deleting? && s.txns[t].id !in s.owner
    case Rollback(t) => t in s.txns
  }

  function End(s: State, t: Tid): State {
    s.(txns := s.txns - {t}, owner := map i | i in s.owner && s.owner[i] != t :: s.owner[i])
  }

  datatype Verdict = Ok | NotFound | EtagMismatch | InvalidTransition | Forbidden | TerminalState

  /** The guards of a transition, in the order the service checks them. */
  function CheckDecision(s: State, actor: CurrentUser, id: ApprovalId, action: Status, ifMatch: int): Verdict {
    if id !in s.rows || !actor.CanAccessTeam(s.rows[id].team) then NotFound
    else if ifMatch != s.rows[id].version then EtagMismatch
    else if action !in AllowedFrom(s.rows[id].status) then InvalidTransition
    else if !actor.HasTeamAdmin(s.rows[id].team) then Forbidden
    else Ok
  }

  function CheckDelete(s: State, actor: CurrentUser, id: ApprovalId): Verdict {
    if id !in s.rows || !actor.CanAccessTeam(s.rows[id].team) then NotFound
    else if s.rows[id].status.Terminal() then TerminalState
    else if s.rows[id].requester != actor.id && !actor.HasTeamAdmin(s.rows[id].team) then NotFound
    else Ok
  }

  function Decide(row: Approval, actor: UserId, action: Status, note: Option<string>, now: Instant): Approval {
    var moved := row.(status := action, version := row.version + 1);
    if action.Terminal() then moved.(decidedBy := Some(actor), decidedAt := Some(now), note := note) else moved
  }

  function Apply(s: State, a: Action): State
    requires Enabled(s, a)
  {
    match a
    case Preflight(t, actor, c, p) =>
      if p !in s.teamOf || !actor.CanAccessTeam(s.teamOf[p]) || c !in s.components || HasOpen(s, c, p) then s
      else s.(txns := s.txns[t := Creating(Approval(c, p, s.teamOf[p], actor.id, Pending, 1, None, None, None))])
    case CommitCreate(t, newId) =>
      var row := s.txns[t].row;
      if HasOpen(s, row.component, row.project) then End(s, t)
      else End(s, t).(rows := s.rows[newId := row], used := s.used + {newId})
    case LockAndCheck(t, actor, id, action, note, ifMatch) =>
      if CheckDecision(s, actor, id, action, ifMatch) != Ok then s
      else s.(txns := s.txns[t := Deciding(id, actor, action, note, ifMatch)], owner := s.owner[id := t])
    case CommitDecision(t, now) =>
      var txn := s.txns[t];
      End(s, t).(rows := s.rows[txn.id := Decide(s.rows[txn.id], txn.actor.id, txn.action, txn.note, now)])
    case ReadForDelete(t, actor, id) =>
      if CheckDelete(s, actor, id) != Ok then s else s.(txns := s.txns[t := Deleting(id, s.rows[id])])
    case CommitDelete(t) => End(s, t).(rows := s.rows - {s.txns[t].id})
    case Rollback(t) => End(s, t)
  }

  // ----- What every step keeps -----

  ghost predicate RowInv(row: Approval) {
    && (match row.status
        case Pending => row.version == 1
        case UnderReview => row.version == 2
        case Approved => row.version == 3
        case Rejected => row.version == 2 || row.version == 3)
    && (row.decidedAt.Some? <==> row.status.Terminal())
    && (row.decidedBy.Some? <==> row.status.Terminal())
  }

  ghost predicate TxnInv(s: State, t: Tid)
    requires t in s.txns
  {
    match s.txns[t]
    case Creating(row) => RowInv(row) && row.status == Pending
    case Deciding(id, actor, action, _, ifMatch) =>
      && id in s.owner && s.owner[id] == t
      && CheckDecision(s, actor, id, action, ifMatch) == Ok
    case Deleting(id, seen) =>
      && id in s.used && !seen.status.Terminal()
      && (id in s.rows ==> seen.version <= s.rows[id].version)
      && (id in s.rows && seen.version == s.rows[id].version ==> s.rows[id] == seen)
  }

  ghost predicate OneOpen(s: State) {
    forall i, k | i in s.rows && k in s.rows && s.rows[i].OpenFor(s.rows[k].component, s.rows[k].project) ::
      s.rows[k].status.Terminal() || i == k
  }

  ghost predicate Inv(s: State) {
    && s.rows.Keys <= s.used
    && (forall i :: i in s.rows ==> RowInv(s.rows[i]))
    && OneOpen(s)
    && (forall t :: t in s.txns ==> TxnInv(s, t))
  }

  lemma OwnStepKeepsTxnInv(s: State, a: Action, t: Tid)
    requires Inv(s) && Enabled(s, a) && t !in s.txns && t in Apply(s, a).txns
    ensures TxnInv(Apply(s, a), t)
  {
  }

  /** A row under a decision is left alone by all other transactions. */
  lemma LockedRowStays(s: State, a: Action, t: Tid)
    requires Inv(s) && Enabled(s, a) && t in s.txns && t in Apply(s, a).txns && s.txns[t].Deciding?
    ensures TxnInv(Apply(s, a), t)
  {
    assert TxnInv(s, t);
    if a.CommitDecision? { assert TxnInv(s, a.t); }
  }

  lemma OthersStepKeepsTxnInv(s: State, a: Action, t: Tid)
    requires Inv(s) && Enabled(s, a) && t in s.txns && t in Apply(s, a).txns
    ensures TxnInv(Apply(s, a), t)
  {
    assert TxnInv(s, t);
    if s.txns[t].Deciding? { LockedRowStays(s, a, t); }
  }

  lemma StepKeepsOneOpen(s: State, a: Action)
    requires Inv(s) && Enabled(s, a)
    ensures OneOpen(Apply(s, a))
  {
    if a.CommitDecision? { assert TxnInv(s, a.t); }
  }

  lemma StepKeepsInv(s: State, a: Action)
    requires Inv(s) && Enabled(s, a)
    ensures Inv(Apply(s, a))
  {
    var s' := Apply(s, a);
    forall t | t in s'.txns ensures TxnInv(s', t) {
      if t in s.txns { OthersStepKeepsTxnInv(s, a, t); } else { OwnStepKeepsTxnInv(s, a, t); }
    }
    StepKeepsOneOpen(s, a);
    if a.CommitDecision? || a.CommitCreate? { assert TxnInv(s, a.t); }
  }

  // ----- Who may do what -----

  /** May read what belongs to the team: its members and super-admins. */
  predicate Reads(actor: CurrentUser, team: TeamId) {
    actor.superuser || actor.role == SuperAdmin || team in actor.teamIds
  }

  /** Leads the team: its team admins and super-admins. */
  predicate Leads(actor: CurrentUser, team: TeamId) {
    || actor.superuser || actor.role == SuperAdmin
    || (team in actor.teamRoles && (actor.teamRoles[team] == TeamAdmin || actor.teamRoles[team] == SuperAdmin))
  }

  predicate Moves(from: Status, to: Status) {
    match from
    case Pending => to == UnderReview || to == Rejected
    case UnderReview => to == Approved || to == Rejected
    case Approved => false
    case Rejected => false
  }

  /** A transition is opened if and only if the actor can see the row, presents its version, asks
      for one of the four moves (to review or rejected from pending, approved or rejected from
      review), and leads the team; the first of these that fails names the refusal. */
  lemma DecisionOpensIff(s: State, t: Tid, actor: CurrentUser, id: ApprovalId, action: Status,
                         note: Option<string>, ifMatch: int)
    requires Enabled(s, LockAndCheck(t, actor, id, action, note, ifMatch))
    ensures
      var s' := Apply(s, LockAndCheck(t, actor, id, action, note, ifMatch));
      && (t in s'.txns <==>
            && id in s.rows && Reads(actor, s.rows[id].team) && ifMatch == s.rows[id].version
            && Moves(s.rows[id].status, action) && Leads(actor, s.rows[id].team))
      && (t in s'.txns ==> s'.txns[t] == Deciding(id, actor, action, note, ifMatch))
      && s'.rows == s.rows
    ensures
      var verdict := CheckDecision(s, actor, id, action, ifMatch);
      && (verdict == NotFound <==> (id in s.rows ==> !Reads(actor, s.rows[id].team)))
      && (verdict == EtagMismatch <==>
            id in s.rows && Reads(actor, s.rows[id].team) && ifMatch != s.rows[id].version)
      && (verdict == InvalidTransition <==>
            id in s.rows && Reads(actor, s.rows[id].team) && ifMatch == s.rows[id].version
            && !Moves(s.rows[id].status, action))
      && (verdict == Forbidden <==>
            && id in s.rows && Reads(actor, s.rows[id].team) && ifMatch == s.rows[id].version
            && Moves(s.rows[id].status, action) && !Leads(actor, s.rows[id].team))
  {
  }

  /** A create is opened exactly by somebody who can see the project, for a known component
      without an open approval there, and proposes a pending row of version 1. */
  lemma CreateOpensIff(s: State, t: Tid, actor: CurrentUser, component: ComponentId, project: ProjectId)
    requires Enabled(s, Preflight(t, actor, component, project))
    ensures
      var s' := Apply(s, Preflight(t, actor, component, project));
      && (t in s'.txns <==>
            && project in s.teamOf && Reads(actor, s.teamOf[project]) && component in s.components
            && forall i | i in s.rows && s.rows[i].component == component && s.rows[i].project == project ::
                 s.rows[i].status == Approved || s.rows[i].status == Rejected)
      && (t in s'.txns ==>
            s'.txns[t].Creating? &&
            s'.txns[t].row == Approval(component, project, s.teamOf[project], actor.id, Pending, 1, None, None, None))
      && s'.rows == s.rows
  {
    assert HasOpen(s, component, project) <==>
      exists i :: i in s.rows && s.rows[i].component == component && s.rows[i].project == project &&
                  s.rows[i].status != Approved && s.rows[i].status != Rejected;
  }

  /** At commit it is inserted exactly if there is still no open approval for the pair. */
  lemma CreateCommits(s: State, t: Tid, newId: ApprovalId)
    requires Enabled(s, CommitCreate(t, newId))
    ensures
      var row, rows := s.txns[t].row, Apply(s, CommitCreate(t, newId)).rows;
      rows == if exists i :: i in s.rows && s.rows[i].OpenFor(row.component, row.project) then s.rows
              else s.rows[newId := row]
  {
  }

  /** A delete is opened exactly on an open row the actor can see, by its requester or by somebody
      who leads the team, and takes that row alone. */
  lemma DeleteOpensIff(s: State, t: Tid, actor: CurrentUser, id: ApprovalId)
    requires Enabled(s, ReadForDelete(t, actor, id))
    ensures
      var s' := Apply(s, ReadForDelete(t, actor, id));
      && (t in s'.txns <==>
            && id in s.rows && Reads(actor, s.rows[id].team)
            && (s.rows[id].status == Pending || s.rows[id].status == UnderReview)
            && (s.rows[id].requester == actor.id || Leads(actor, s.rows[id].team)))
      && (t in s'.txns ==> s'.txns[t] == Deleting(id, s.rows[id]))
      && s'.rows == s.rows
    ensures CheckDelete(s, actor, id) == TerminalState <==>
      && id in s.rows && Reads(actor, s.rows[id].team)
      && (s.rows[id].status == Approved || s.rows[id].status == Rejected)
    ensures CheckDelete(s, actor, id) in {Ok, TerminalState, NotFound}
  {
  }

  lemma DeleteCommits(s: State, t: Tid)
    requires Enabled(s, CommitDelete(t))
    ensures Apply(s, CommitDelete(t)).rows == s.rows - {s.txns[t].id}
  {
  }

  // ----- Runs -----

  /** The delete removes a row whose version has moved since the delete read it. */
  predicate DeletesUnseen(s: State, a: Action) {
    a.CommitDelete? && a.t in s.txns && s.txns[a.t].Deleting? &&
    s.txns[a.t].id in s.rows && s.txns[a.t].seen.version != s.rows[s.txns[a.t].id].version
  }

  ghost predicate IsRun(s: State, actions: seq<Action>)
    decreases actions
  {
    actions == [] || (Enabled(s, actions[0]) && IsRun(Apply(s, actions[0]), actions[1..]))
  }

  ghost function RunFrom(s: State, actions: seq<Action>): State
    requires IsRun(s, actions)
    decreases actions
  {
    if actions == [] then s else RunFrom(Apply(s, actions[0]), actions[1..])
  }

  ghost predicate Initial(s: State) { s.rows == map[] && s.txns == map[] && s.owner == map[] }

  /** The transition that `a` commits on `id`, given back as its If-Match version. */
  predicate Decides(s: State, a: Action, id: ApprovalId) {
    a.CommitDecision? && a.t in s.txns && s.txns[a.t].Deciding? && s.txns[a.t].id == id
  }

  /** How many transitions on `id` the run commits. */
  ghost function Accepted(s: State, actions: seq<Action>, id: ApprovalId): nat
    requires IsRun(s, actions)
    decreases actions
  {
    if actions == [] then 0
    else (if Decides(s, actions[0], id) then 1 else 0) + Accepted(Apply(s, actions[0]), actions[1..], id)
  }

  /** How many of them presented the version `m`. */
  ghost function AcceptedWith(s: State, actions: seq<Action>, id: ApprovalId, m: int): nat
    requires IsRun(s, actions)
    decreases actions
  {
    if actions == [] then 0
    else
      (if Decides(s, actions[0], id) && s.txns[actions[0].t].ifMatch == m then 1 else 0) +
      AcceptedWith(Apply(s, actions[0]), actions[1..], id, m)
  }

  lemma {:induction false} VersionCounts(s: State, actions: seq<Action>, id: ApprovalId)
    requires Inv(s) && IsRun(s, actions) && id in RunFrom(s, actions).rows
    requires id in s.used ==> id in s.rows
    ensures RunFrom(s, actions).rows[id].version ==
      (if id in s.rows then s.rows[id].version else 1) + Accepted(s, actions, id)
    decreases actions
  {
    if actions != [] {
      var a, s' := actions[0], Apply(s, actions[0]);
      StepKeepsInv(s, a);
      if a.CommitDecision? || a.CommitCreate? { assert TxnInv(s, a.t); }
      if id in s'.used && id !in s'.rows { GoneForGood(s', actions[1..], id); }
      VersionCounts(s', actions[1..], id);
    }
  }

  lemma {:induction false} GoneForGood(s: State, actions: seq<Action>, id: ApprovalId)
    requires IsRun(s, actions) && id in s.used && id !in s.rows
    ensures id !in RunFrom(s, actions).rows
    decreases actions
  {
    if actions != [] { GoneForGood(Apply(s, actions[0]), actions[1..], id); }
  }

  lemma {:induction false} RunKeepsInv(s: State, actions: seq<Action>)
    requires Inv(s) && IsRun(s, actions)
    ensures Inv(RunFrom(s, actions))
    decreases actions
  {
    if actions != [] {
      StepKeepsInv(s, actions[0]);
      RunKeepsInv(Apply(s, actions[0]), actions[1..]);
    }
  }

  /** In every run: one open approval per pair, the version counts the accepted transitions and
      never passes 3, and decision fields are set exactly on terminal rows. */
  lemma EveryRun(s: State, actions: seq<Action>)
    requires Initial(s) && s.used == {} && IsRun(s, actions)
    ensures
      var s' := RunFrom(s, actions);
      && (forall i, k, c, p |
            i in s'.rows && k in s'.rows && s'.rows[i].OpenFor(c, p) && s'.rows[k].OpenFor(c, p) :: i == k)
      && (forall i | i in s'.rows :: s'.rows[i].version == 1 + Accepted(s, actions, i) && s'.rows[i].version <= 3)
      && (forall i | i in s'.rows ::
            && (s'.rows[i].decidedAt.Some? <==> s'.rows[i].status.Terminal())
            && (s'.rows[i].decidedBy.Some? <==> s'.rows[i].status.Terminal()))
  {
    RunKeepsInv(s, actions);
    var s' := RunFrom(s, actions);
    forall i | i in s'.rows ensures s'.rows[i].version == 1 + Accepted(s, actions, i) {
      VersionCounts(s, actions, i);
    }
  }

  lemma {:induction false} StaleIfMatchNeverWins(s: State, actions: seq<Action>, id: ApprovalId, m: int)
    requires Inv(s) && IsRun(s, actions) && id in s.used && (id in s.rows ==> m < s.rows[id].version)
    ensures AcceptedWith(s, actions, id, m) == 0
    decreases actions
  {
    if actions != [] {
      var a := actions[0];
      StepKeepsInv(s, a);
      if a.CommitDecision? { assert TxnInv(s, a.t); }
      StaleIfMatchNeverWins(Apply(s, a), actions[1..], id, m);
    }
  }

  /** Of any number of transitions that present the same version, at most one succeeds. */
  lemma {:induction false} IfMatchWinsOnce(s: State, actions: seq<Action>, id: ApprovalId, m: int)
    requires Inv(s) && IsRun(s, actions)
    ensures AcceptedWith(s, actions, id, m) <= 1
    decreases actions
  {
    if actions != [] {
      var a := actions[0];
      StepKeepsInv(s, a);
      if Decides(s, a, id) && s.txns[a.t].ifMatch == m {
        assert TxnInv(s, a.t);
        StaleIfMatchNeverWins(Apply(s, a), actions[1..], id, m);
      } else {
        IfMatchWinsOnce(Apply(s, a), actions[1..], id, m);
      }
    }
  }

  /** Thanks to the lock, every guard of a transition still holds when it commits, so each
      decision is signed by somebody entitled to make it at that moment. */
  lemma DecisionsAreAuthorised(s: State, t: Tid, now: Instant)
    requires Inv(s) && Enabled(s, CommitDecision(t, now))
    ensures
      var txn, rows' := s.txns[t], Apply(s, CommitDecision(t, now)).rows;
      var row := s.rows[txn.id];
      && Reads(txn.actor, row.team) && Leads(txn.actor, row.team)
      && txn.ifMatch == row.version && Moves(row.status, txn.action)
      && rows'[txn.id] ==
           (if txn.action == UnderReview then row.(status := UnderReview, version := row.version + 1)
            else Approval(row.component, row.project, row.team, row.requester, txn.action, row.version + 1,
                          Some(txn.actor.id), Some(now), txn.note))
      && rows'.Keys == s.rows.Keys && (forall i :: i in s.rows && i != txn.id ==> rows'[i] == s.rows[i])
  {
    assert TxnInv(s, t);
  }

  // ----- Terminal rows -----

  /** A step changes or removes a decided row exactly when it commits a delete of it, and that
      delete then read the row before the decision. */
  lemma TerminalRowLostIff(s: State, a: Action, id: ApprovalId)
    requires Inv(s) && Enabled(s, a) && id in s.rows && s.rows[id].status.Terminal()
    ensures !(id in Apply(s, a).rows && Apply(s, a).rows[id] == s.rows[id]) <==>
      a.CommitDelete? && s.txns[a.t].id == id
    ensures a.CommitDelete? && s.txns[a.t].id == id ==> DeletesUnseen(s, a)
  {
    if a.CommitDecision? || a.CommitDelete? { assert TxnInv(s, a.t); }
  }

  /** `t` is a delete of `id` that read the row while it was open. */
  ghost predicate ReadOpen(s: State, t: Tid, id: ApprovalId) {
    t in s.txns && s.txns[t].Deleting? && s.txns[t].id == id && !s.txns[t].seen.status.Terminal()
  }

  /** The run commits such a delete. */
  ghost predicate CommitsDelete(s: State, actions: seq<Action>, id: ApprovalId)
    requires IsRun(s, actions)
    decreases actions
  {
    actions != [] &&
    (|| (actions[0].CommitDelete? && ReadOpen(s, actions[0].t, id))
     || CommitsDelete(Apply(s, actions[0]), actions[1..], id))
  }

  ghost predicate Kept(s: State, s': State, id: ApprovalId)
    requires id in s.rows
  {
    id in s'.rows && s'.rows[id] == s.rows[id]
  }

  /** The next step takes the decided row away. */
  lemma LostNow(s: State, actions: seq<Action>, id: ApprovalId)
    requires Inv(s) && IsRun(s, actions) && actions != []
    requires id in s.rows && s.rows[id].status.Terminal() && id !in Apply(s, actions[0]).rows
    ensures id !in RunFrom(s, actions).rows && actions[0].CommitDelete? && ReadOpen(s, actions[0].t, id)
  {
    var a := actions[0];
    StepKeepsInv(s, a);
    TerminalRowLostIff(s, a, id);
    assert TxnInv(s, a.t);
    GoneForGood(Apply(s, a), actions[1..], id);
  }

  /** The next step leaves it alone, and starts no delete of it. */
  lemma KeptNow(s: State, a: Action, id: ApprovalId)
    requires Inv(s) && Enabled(s, a)
    requires id in s.rows && s.rows[id].status.Terminal() && id in Apply(s, a).rows
    ensures Apply(s, a).rows[id] == s.rows[id]
    ensures !(a.CommitDelete? && ReadOpen(s, a.t, id))
    ensures forall t :: ReadOpen(Apply(s, a), t, id) ==> ReadOpen(s, t, id)
  {
    TerminalRowLostIff(s, a, id);
  }

  /** A decided row is lost if and only if a delete that read it before the decision commits
      after it. Such a delete is in flight already when the decision has just been made. */
  lemma {:induction false} DecidedRowLostIff(s: State, actions: seq<Action>, id: ApprovalId)
    requires Inv(s) && IsRun(s, actions) && id in s.rows && s.rows[id].status.Terminal()
    ensures !Kept(s, RunFrom(s, actions), id) <==> CommitsDelete(s, actions, id)
    ensures CommitsDelete(s, actions, id) ==> exists t :: ReadOpen(s, t, id)
    decreases actions
  {
    if actions != [] {
      var a, s' := actions[0], Apply(s, actions[0]);
      if id in s'.rows {
        StepKeepsInv(s, a);
        KeptNow(s, a, id);
        DecidedRowLostIff(s', actions[1..], id);
      } else {
        LostNow(s, actions, id);
      }
    }
  }

  /** When no delete of it is in flight, a decided row stays as it is for ever. */
  lemma TerminalRowsArePermanent(s: State, actions: seq<Action>, id: ApprovalId)
    requires Inv(s) && IsRun(s, actions) && id in s.rows && s.rows[id].status.Terminal()
    requires forall t :: !ReadOpen(s, t, id)
    ensures id in RunFrom(s, actions).rows && RunFrom(s, actions).rows[id] == s.rows[id]
  {
    DecidedRowLostIff(s, actions, id);
  }

  ghost predicate Reaches(s: State, s': State) {
    exists actions :: IsRun(s, actions) && RunFrom(s, actions) == s'
  }

  lemma ReachesFirst(s: State, a: Action, s': State)
    requires Enabled(s, a) && Reaches(Apply(s, a), s')
    ensures Reaches(s, s')
  {
    var actions :| IsRun(Apply(s, a), actions) && RunFrom(Apply(s, a), actions) == s';
    var all := [a] + actions;
    assert all[1..] == actions;
    assert IsRun(s, all) && RunFrom(s, all) == s';
  }

  lemma DeleteOverDecision(s: State) returns (s': State)
    requires s.rows.Keys == {0} && s.owner == map[] && 1 in s.txns && s.txns[1].Deleting? && s.txns[1].id == 0
    ensures Reaches(s, s') && 0 !in s'.rows
  {
    s' := Apply(s, CommitDelete(1));
    assert IsRun(s', []) && RunFrom(s', []) == s';
    ReachesFirst(s, CommitDelete(1), s');
  }

  const ADMIN := CurrentUser(7, SuperAdmin, true, [], map[])
  const OPEN_ROW := Approval(0, 0, 0, 7, Pending, 1, None, None, None)

  /** A delete has read the row; then the row is rejected. */
  lemma DecisionOverRead(s: State) returns (decided: State)
    requires s == State(map[0 := 0], {0}, map[0 := OPEN_ROW], {0}, map[1 := Deleting(0, OPEN_ROW)], map[])
    ensures Reaches(s, decided) && decided.rows.Keys == {0} && decided.rows[0].status == Rejected
    ensures decided.txns == s.txns && decided.owner == map[]
  {
    var a1, a2 := LockAndCheck(2, ADMIN, 0, Rejected, None, 1), CommitDecision(2, 0);
    var s1 := Apply(s, a1);
    decided := Apply(s1, a2);
    assert IsRun(decided, []) && RunFrom(decided, []) == decided;
    ReachesFirst(s1, a2, decided);
    ReachesFirst(s, a1, decided);
  }

  /** A run in which a decision made between a delete's read and its commit is lost. */
  lemma DecisionLostToDelete() returns (s: State, decided: State, s': State)
    ensures Inv(s) && Reaches(s, decided) && Reaches(decided, s')
    ensures 0 in decided.rows && decided.rows[0].status == Rejected && 0 !in s'.rows
  {
    s := State(map[0 := 0], {0}, map[0 := OPEN_ROW], {0}, map[], map[]);
    var read := ReadForDelete(1, ADMIN, 0);
    assert Apply(s, read).txns == map[1 := Deleting(0, OPEN_ROW)];
    decided := DecisionOverRead(Apply(s, read));
    ReachesFirst(s, read, decided);
    s' := DeleteOverDecision(decided);
  }
}
