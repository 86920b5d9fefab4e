# Backend state machines and algorithms, modelled and proved in Dafny

A model of the parts of the backend (`apps/backend`) that keep state under rules, and of the small
algorithms whose correctness does not show in one branch.

| module | what it models |
|---|---|
| `Credentials`, `CredentialStore`, `CredentialRuns`, `CredentialEffects` | the refresh-token and reset-token tables with the calls of the four services that write them: the calls as functions, the same calls as methods that update a store in place, what every sequence of calls keeps under a clock that never goes back, and what each call changes and refuses |
| `SuperAdminGuard` | "never remove the last active super-admin": interleaved transactions with stale reads, row locks, counts, the trigger and commits |
| `UnlinkGuard` | "never remove the last login method", in the same style |
| `Approvals` | the approval state machine: unlocked creates, row-locked decisions with an If-Match version, unlocked deletes |
| `ScanJoin`, `ScanOverview` | the three-way outer join behind the component list and the overview against the detail page's separate queries; distributions, risk score, licence on display |
| `Drawer` | which scan the drawer picks, and when that agrees with the list and the overview |
| `LikeSearch` | LIKE escaping against a LIKE matcher |
| `Utf8Clamp` | the byte-budget clamp of obligation texts |
| `OrphanWalk` | the early-stopping walk over catalogue pages |
| `ApiKeys` | the bearer format, the key table, who may list, revoke and authenticate |
| `PiiMask` | recursive masking of sensitive values |
| `SafeLink` | link validation composed with truncation |
| `Options`, `Actors`, `Text` | a nullable value; the authenticated principal; stripping and substrings |

`dafny verify dfyconfig.toml` checks everything.

## Conventions

Tables are maps or sequences in memory. The clock, UUIDs, token ids and random secrets are parameters
of each call; a call that issues something requires its id or secret to be new. bcrypt, SHA-256 and
JWT signatures are abstracted as injective: a row keeps the text it would hash, and a bearer token
arrives as the claims it decodes to, or as none when it does not decode (a token whose own expiry has
passed does not). Passwords are cut to 72 characters before hashing, as `hash_password` does, and bcrypt takes
72 bytes of their encoding. Where the
database may answer in more than one order (ties in `created_at`, queries without ORDER BY), the
proofs hold for every order.

The straight-line methods of `CredentialStore` and `ApiKeys.ApiKeyTable` are proved equal to the
function of the same name; what they are for is stated by the lemmas about those functions, so they
have no row below.

## What the code does differently from what it says

The model follows the code in each of these.

- `auth_service.py:8-15` says that a replayed token revokes its entire chain. The walk goes to parents
  only, and in a serial run all of those are revoked already. `ReuseChangesNothing` proves that the
  branch changes no row, and `ReuseEndsFamilyIff` says exactly when the family is dead afterwards: when
  no live descendant of the presented token existed before. `ReuseLeavesTheSuccessorLive` is a run in
  which one did.
- `password_reset_service.py:223` speaks of a non-expired token, but the query has no test on
  `expires_at`. `CooldownQueryIsSafeIff`: the query can select two rows, and so fail, exactly when the
  cooldown is an hour or more.
- `password_reset_service.py:369-370` names the reason `password_reset`; the code writes
  `reuse_detected` (lines 433-442).
- The super-admin guard relies on a copy of the target loaded before the lock, and the trigger behind
  it counts rows whose removal is written but not committed. `LosesLastAdminIff` and `CoverLostIff` give
  the exact steps; `AlwaysAnAdmin` excludes only the overlap of two transactions that bypassed the check,
  and `QuietRunsKeepAnAdmin` says which requests must not meet;
  `PromotionDuringDeactivation` and `ActivationDuringDemotion` are full runs with such an overlap.
- `project_detail_service.py:602-605` says that the drawer uses a scan the actor can access. The query
  takes the newest of all projects and checks access afterwards: `NotFoundIsJustifiedIff`. Its scan need
  not be the one whose list was opened: `DrawerDisagrees`, `DrawerAgreesWithListIff`,
  `OverviewCountsDrawersIff`.
- `oauth_identity_service.py:266-281` means to keep a login method, and takes the random hash that an
  OAuth sign-up stores for a password: `LeftWithResetOnlyIff`.
- `project_detail_service.py:542-543` says that rank ties resolve by SPDX id. The query has no ORDER BY:
  `DisplayIsDeterminedIff`, `DisplayDependsOnOrder`.
- The list's `vulnerability_count` counts joined rows, not findings: `VulnCountIsProduct`,
  `VulnCountAgreesIff`, `VulnCountInflated`.
- `project_detail_service.py:486-488` searches without escaping: `UnescapedSearchIsSubstringIff`.
- `api_key_service.py:163-167` asks for lowercase hex and checks with `int(..., 16)`:
  `AcceptsMoreThanLowerHex`. `OnlyIssuedPlaintextsAuthenticate` shows that it never matters.
- `component_approval_service.py:504-522` deletes after an unlocked read, so a decision made in between
  is lost: `TerminalRowLostIff`, `DecidedRowLostIff`, `DecisionLostToDelete`.

## Model

| member | source | states |
|---|---|---|
| CredentialStore.CredentialStore.RevokeChain | apps/backend/services/auth_service.py:194-216 | the walk ends on every parent graph, cyclic ones included, and revokes exactly the rows reachable upward that were not revoked yet; every other row, and every earlier reason and time, stays |
| CredentialStore.VisitedIsChain | apps/backend/services/auth_service.py:205-216 | stopping at a jti seen before, an unknown one or an empty one misses no row of the upward path, whatever the shape of the graph |
| CredentialStore.CredentialStore.RotateRefresh | apps/backend/services/auth_service.py:219-296 | all branches (bad token, unknown, reused, expired, inactive owner, rotated) with their replies and new tables |
| CredentialStore.CredentialStore.RevokeRefresh | apps/backend/services/auth_service.py:304-332 | logout revokes the one presented row if it is known and live, else nothing |
| CredentialStore.CredentialStore.RevokeLiveTokens | apps/backend/services/admin_user_service.py:539-553 | the loop over live rows, in whatever order they come, revokes exactly the user's unrevoked rows (the same loop is at password_reset_service.py:426-442) |
| CredentialStore.CredentialStore.SupersedeAndIssue | apps/backend/services/password_reset_service.py:301-327 | exactly the user's live reset rows become invalidated and one row that lives an hour is appended (the same at admin_user_service.py:634-659) |
| CredentialStore.CredentialStore.ConsumeResetToken | apps/backend/services/password_reset_service.py:355-451 | the candidate walk with its break, for any order the query may answer in; on success password, `used_at` and every live session change, else nothing |
| CredentialStore.CredentialStore.DeactivateUser | apps/backend/services/admin_user_service.py:503-574 | a deactivation that goes through leaves the user inactive and without an unrevoked token; other users, their tokens and tokens revoked earlier are identical; a refusal changes nothing; and the last active super-admin stays |
| Credentials.FirstMatch | apps/backend/services/password_reset_service.py:394-398 | a match is a candidate whose secret is the plaintext, and there is none only when no candidate has it |
| CredentialRuns.RunKeepsInv | apps/backend/services/auth_service.py:157-332 | every run of all twelve calls (registration, login, OAuth sign-in, rotation, logout, both resets, consume, deactivation, activation, promotion, demotion) keeps the family, session and reset invariants together |
| CredentialRuns.ReachableInv | apps/backend/services/auth_service.py:157-332 | so they hold in every reachable state |
| CredentialRuns.ReachableFamilies | apps/backend/services/auth_service.py:157-332 | parent links are acyclic, a token has at most one child, a token with a child is revoked, and everything related to a live token is its ancestor |
| CredentialRuns.FamiliesAreLines | apps/backend/services/auth_service.py:272-293 | of two tokens with a common ancestor one descends from the other |
| CredentialRuns.OneLiveTokenPerFamily | apps/backend/services/auth_service.py:219-296 | two live tokens of one family are the same token |
| CredentialRuns.RotationExtendsTheLine | apps/backend/services/auth_service.py:219-296 | in a reachable state a rotation succeeds if and only if the token is known, unrevoked and unexpired; it retires that token, puts the new one at the end of its line and leaves all other rows alone |
| CredentialRuns.ReuseChangesNothing | apps/backend/services/auth_service.py:254-259 | in every reachable state the chain walk of the reuse branch changes no row |
| CredentialRuns.ReuseEndsFamilyIff | apps/backend/services/auth_service.py:8-15 | presenting a revoked token leaves the whole family revoked if and only if the token had no live descendant |
| CredentialRuns.ReuseLeavesTheSuccessorLive | apps/backend/services/auth_service.py:254-259 | a run of a login, a rotation and a replay after which the successor of the replayed token is live |
| CredentialRuns.RevocationIsWriteOnce | apps/backend/services/auth_service.py:194-332 | over whole runs no row is dropped, a revoked row never changes, and `used_at`/`invalidated_at` are set at most once |
| CredentialRuns.RevokedTokensStayRefused | apps/backend/services/auth_service.py:254-259 | a revoked token is refused in every later state of every run |
| CredentialRuns.PresentedTokensAreSpent | apps/backend/services/auth_service.py:252-293 | from every reachable state, once a known token has been presented, whichever branch that took, every later presentation in any run is refused as reuse while the token still decodes |
| CredentialRuns.LogoutEndsTheSession | apps/backend/services/auth_service.py:304-332 | after logout the presented token is refused for ever and no other row changed |
| CredentialRuns.SessionsStayEnded | apps/backend/services/password_reset_service.py:426-442 | after a consumed reset or a deactivation the user holds no live token, and no earlier one can ever be rotated again |
| CredentialRuns.InactiveUsersHoldNone | apps/backend/services/admin_user_service.py:519-522 | in every reachable state, OAuth sign-ins included (oauth_service.py:335-349), an inactive user holds no unrevoked token, which is why the early return may skip the revocation |
| CredentialRuns.IssuingNeedsTheActiveCheck | apps/backend/services/auth_service.py:147-186 | issuing keeps that invariant if and only if the user is active, so it rests on the caller's check |
| CredentialRuns.RunKeepsAnAdmin | apps/backend/services/admin_user_service.py:392-434 | in every serial run, demotions and deactivations included, an active super-admin at the start means one at the end |
| CredentialRuns.AtMostOneLiveReset | apps/backend/services/password_reset_service.py:301-327 | across both issuers and any later time a user has at most one live reset token |
| CredentialRuns.CooldownQueryIsSafeIff | apps/backend/services/password_reset_service.py:217-232 | the one-row query never meets two rows in any reachable state if and only if the cooldown is strictly below the hour a token lives |
| CredentialRuns.TwoPendingTokens | apps/backend/services/password_reset_service.py:224-232 | for a cooldown of an hour or more, a concrete reachable state in which it does |
| CredentialRuns.CooldownHolds | apps/backend/services/password_reset_service.py:281-299 | over any run within the cooldown after a request that issued, another request of the same user issues only if that token was used or superseded meanwhile |
| CredentialRuns.HiddenOnlyBehindNewer | apps/backend/services/password_reset_service.py:381-392 | the 256-row cap hides a live token only behind 256 other live ones at least as new |
| CredentialRuns.ConsumeSucceedsIff | apps/backend/services/password_reset_service.py:378-415 | while at most 256 users hold live tokens, consuming succeeds for a user if and only if the user is active and the plaintext is that of a live token of theirs |
| CredentialRuns.ResetTokensAreSingleUse | apps/backend/services/password_reset_service.py:378-421 | after a successful consume the plaintext is refused in every later state |
| CredentialRuns.ConsumeChangesThePassword | apps/backend/services/password_reset_service.py:410-421 | afterwards exactly the texts that hash like the new password log in, among texts of at most 72 bytes the new password alone, and no other account changed |
| CredentialRuns.HashesAlikeIff | apps/backend/core/security.py:84-100 | two passwords are taken for each other exactly when they are equal or their encodings have 72 bytes or more and agree in the first 72; the cut to 72 characters never matters |
| CredentialRuns.IssuedResetWorks | apps/backend/services/password_reset_service.py:301-327 | through every run within the next hour that leaves the issued token pending, it is the user's only live one and consuming it succeeds for a user active then (at most 256 holders) |
| CredentialEffects.IssuedTokenRotatesUntilExpiry | apps/backend/services/auth_service.py:272-296 | a token from a login, a provider sign-in or a rotation starts unrevoked, and in every later state in which it still is, presenting it rotates it if and only if its own expiry has not passed |
| CredentialEffects.IssuedRow | apps/backend/services/auth_service.py:169-181 | its owner, parent and expiry, by issuer |
| CredentialEffects.SignInRepliesIff | apps/backend/services/auth_service.py:136-154 | a login issues exactly for an active user with the stored hash, a provider sign-in exactly unless the user is known and inactive, and refusals change nothing |
| CredentialEffects.ReuseIsReportedIff | apps/backend/services/auth_service.py:247-259 | a decoded token is answered with reuse exactly when it is known and revoked, and unknown ones change nothing |
| CredentialEffects.TokensEndedBy | apps/backend/services/password_reset_service.py:426-442 | in every reachable state every call ends exactly the tokens it should (its own, or its user's and nobody else's), with its own time and reason, and leaves every other unrevoked row unchanged |
| CredentialEffects.ResetRepliesIff | apps/backend/services/password_reset_service.py:217-299 | a request issues exactly for an active user with no pending token created within the cooldown, fails exactly on two such tokens, and an administrator's reset issues for every known user |
| CredentialEffects.ResetRowChangedBy | apps/backend/services/password_reset_service.py:301-421 | issuing invalidates the user's own live rows, consuming uses the row of that plaintext, every other row is unchanged |
| CredentialEffects.ResetRowAddedBy | apps/backend/services/password_reset_service.py:318-327 | only issuing adds a row: that user and secret, created now, good for one hour |
| CredentialEffects.AccountChangedBy | apps/backend/services/admin_user_service.py:400-590 | consuming changes that owner's password, each administrator call one flag of its target, and nothing else touches an account |
| CredentialEffects.AccountAddedBy | apps/backend/services/auth_service.py:93-124 | accounts come from registration and provider sign-in, active and without privileges |
| CredentialEffects.AdminRepliesIff | apps/backend/services/admin_user_service.py:392-596 | deactivation and demotion refuse the actor, unknown users, and an active super-admin who is the only one, and nobody else; promotion and activation likewise |
| SuperAdminGuard.StepKeepsInv | apps/backend/services/admin_user_service.py:179-220 | every step of every interleaving keeps counted rows locked and active, and two counted past the check unless the loaded copy skipped it |
| SuperAdminGuard.LosesLastAdminIff | apps/backend/services/admin_user_service.py:428-434 | a step removes the last active super-admin if and only if it commits a transaction whose stale copy let it bypass the check, on the only one there is |
| SuperAdminGuard.CommitChanges | apps/backend/services/admin_user_service.py:398-434 | a committed deactivation leaves its target inactive and an activation active, with the other flag as it was; a demotion or promotion sets the other flag unless the copy had it so; all other rows are unchanged |
| SuperAdminGuard.LoadTakesTheRow | apps/backend/services/admin_user_service.py:519-530 | loading copies the committed row, gives up exactly on what is done already, and only removals from super-admins go on to count |
| SuperAdminGuard.GuardRefusesIff | apps/backend/services/admin_user_service.py:428-433 | with a fresh copy and an undisturbed count, the guard refuses exactly the removal of the last active super-admin |
| SuperAdminGuard.TriggerRefusesIff | apps/backend/alembic/versions/0013_last_super_admin_constraint.py:121-186 | the trigger refuses exactly the removal of the only committed active super-admin |
| SuperAdminGuard.NobodyAsksForTheOnlyOne | apps/backend/services/admin_user_service.py:516-517 | the only active super-admin can be the target of no request |
| SuperAdminGuard.CoverLostIff | apps/backend/alembic/versions/0013_last_super_admin_constraint.py:121-186 | a step leaves no active super-admin but those whose removal is already written if and only if it writes the removal of the only other one and the trigger still counts an uncommitted one |
| SuperAdminGuard.CoverLostOnlyByOverlap | apps/backend/alembic/versions/0013_last_super_admin_constraint.py:121-186 | that takes two bypassing transactions, one written and not committed while the other writes |
| SuperAdminGuard.AlwaysAnAdmin | apps/backend/services/admin_user_service.py:519-556 | any number of demotions, deactivations, promotions and activations in any interleaving leave an active super-admin, provided no two bypassing removals overlap between write and commit |
| SuperAdminGuard.FromRest | apps/backend/services/admin_user_service.py:179-220 | the same from any state at rest |
| SuperAdminGuard.QuietRunsKeepAnAdmin | apps/backend/services/admin_user_service.py:179-220 | in terms of requests: while no promotion or activation commits on the target of a loaded demotion or deactivation, an active super-admin remains in every interleaving |
| SuperAdminGuard.LossReachableIff | apps/backend/services/admin_user_service.py:179-220 | from any state, having no active super-admin is reachable if and only if a state is in which the removal of every one of them is written |
| SuperAdminGuard.DemotionReaches | apps/backend/services/admin_user_service.py:392-434 | a demotion by the other of two active super-admins runs through to its commit |
| SuperAdminGuard.RaiseReaches | apps/backend/services/admin_user_service.py:400-403 | a promotion or activation of an unlocked user by somebody else runs through and sets its flag |
| SuperAdminGuard.DeactivationReaches | apps/backend/services/admin_user_service.py:532-556 | a deactivation of an ordinary user by somebody else runs through and leaves the user inactive |
| SuperAdminGuard.PromotionDuringDeactivation | apps/backend/services/admin_user_service.py:519-533 | a full run, with self check, actor check and trigger, in which two deactivations loaded before their targets were promoted leave no active super-admin |
| SuperAdminGuard.ActivationDuringDemotion | apps/backend/services/admin_user_service.py:428-434 | the same with a demotion, loaded before its target was activated, in place of one of them: it counts, and the verdict is ignored |
| UnlinkGuard.StepKeepsInv | apps/backend/services/oauth_identity_service.py:234-307 | past the check the user has a password or two identities, whatever others do meanwhile |
| UnlinkGuard.LoginSurvives | apps/backend/services/oauth_identity_service.py:234-307 | what the guard counts as a login method survives every interleaving of unlinks, links, password sets and sign-ups |
| UnlinkGuard.NobodyIsLockedOut | apps/backend/services/oauth_identity_service.py:214-307 | so from any state at rest nobody with a filled password column or an identity ends up with neither |
| UnlinkGuard.BlocksExactlyTheLastMethod | apps/backend/services/oauth_identity_service.py:268-341 | with a password read under the lock, the guard refuses if and only if the delete would lock the user out |
| UnlinkGuard.LeftWithResetOnlyIff | apps/backend/services/oauth_identity_service.py:266-276 | a step leaves a user with the reset flow alone if and only if it deletes the only identity of a user whose stored hash is the random one of an OAuth sign-up |
| UnlinkGuard.UsableLoginSurvives | apps/backend/services/oauth_identity_service.py:234-307 | every other user keeps a login that works, in every run |
| UnlinkGuard.OnlyIdentityCanBeUnlinked | apps/backend/services/oauth_service.py:461-478 | a user with the random hash and a single identity can always unlink it |
| UnlinkGuard.IdentitiesChange | apps/backend/services/oauth_identity_service.py:290-307 | a commit removes exactly the one identity, a link or sign-up adds one, nothing else changes anybody's |
| UnlinkGuard.NewLoginsWork | apps/backend/services/oauth_service.py:403-460 | after a link, a password set or a sign-up the user can log in |
| UnlinkGuard.LookupFindsOwn | apps/backend/services/oauth_identity_service.py:236-246 | a lookup goes on exactly for the user's own identities |
| Approvals.StepKeepsInv | apps/backend/services/component_approval_service.py:327-522 | every step of interleaved creates, decisions and deletes keeps row shapes, one open row per pair, and the guards of decisions in flight |
| Approvals.EveryRun | apps/backend/services/component_approval_service.py:327-455 | in every run: at most one open approval per pair, version is 1 plus the accepted transitions and at most 3, decision fields are set if and only if the status is terminal |
| Approvals.VersionCounts | apps/backend/services/component_approval_service.py:436-455 | the version rises by exactly the number of accepted transitions |
| Approvals.IfMatchWinsOnce | apps/backend/services/component_approval_service.py:405-425 | of any number of transitions presenting the same version at most one succeeds |
| Approvals.StaleIfMatchNeverWins | apps/backend/services/component_approval_service.py:405-425 | a version below the row's never succeeds again |
| Approvals.LockedRowStays | apps/backend/services/component_approval_service.py:397-410 | a row under a decision keeps satisfying all of that decision's guards until it ends |
| Approvals.DecisionsAreAuthorised | apps/backend/services/component_approval_service.py:405-455 | at commit time the actor is still a team admin or super-admin by the rights read with the request, the move is still allowed, the row gets exactly that status, the next version and on a decision the signature, time and note, and no other row changes |
| Approvals.DecisionOpensIff | apps/backend/services/component_approval_service.py:397-445 | a transition is accepted if and only if the row exists and is visible to the actor, the version matches, the move is one of pending to review or rejected and review to approved or rejected, and the actor is a team admin of its team or a super-admin; which refusal answers what |
| Approvals.CreateOpensIff | apps/backend/services/component_approval_service.py:285-345 | a create is accepted exactly for a visible project, a known component and no open approval of the pair, and proposes a pending row of version 1 by the actor |
| Approvals.CreateCommits | apps/backend/services/component_approval_service.py:346-375 | it inserts that row exactly if there is still no open one |
| Approvals.DeleteOpensIff | apps/backend/services/component_approval_service.py:482-522 | a delete is accepted exactly for a visible open row, by its requester, a team admin or a super-admin; terminal rows are refused as such |
| Approvals.DeleteCommits | apps/backend/services/component_approval_service.py:520-522 | it takes that row alone |
| Approvals.TerminalRowLostIff | apps/backend/services/component_approval_service.py:504-522 | a decided row is changed or removed if and only if a delete of it commits, and that delete read it before the decision |
| Approvals.DecidedRowLostIff | apps/backend/services/component_approval_service.py:504-522 | over whole runs, a decided row is lost if and only if a delete that read it before the decision commits after it |
| Approvals.TerminalRowsArePermanent | apps/backend/services/component_approval_service.py:127-145 | with no delete of it in flight, a decided row stays as it is in every run |
| Approvals.DecisionLostToDelete | apps/backend/services/component_approval_service.py:504-522 | without that, a run in which a rejection is deleted |
| ScanJoin.FindingsOf | apps/backend/services/project_detail_service.py:653-666 | exactly the findings of one component version in one scan, each as often as the table holds it |
| ScanJoin.MaxRank | apps/backend/services/project_detail_service.py:428-430 | an upper bound that is reached, or 0 |
| ScanJoin.GroupIsRepeatedBlock | apps/backend/services/project_detail_service.py:425-460 | the GROUP BY group of a component version is its findings-by-licences block once per dependency path |
| ScanJoin.ListAgreesWithDetail | apps/backend/services/project_detail_service.py:425-460 | within one scan, the join of list and overview and the separate queries of the drawer give the same worst severity and licence category |
| ScanJoin.VulnCountIsProduct | apps/backend/services/project_detail_service.py:425-460 | the list's count is paths times findings times the larger of 1 and the licence findings |
| ScanJoin.VulnCountAgreesIff | apps/backend/services/project_detail_service.py:666-729 | within one scan and given the unique constraints, it equals the number of the drawer's entries if and only if there are none or the factor is 1 |
| ScanJoin.VulnCountInflated | apps/backend/services/project_detail_service.py:425-460 | a consistent database with one finding that the list counts twice |
| ScanJoin.DeduplicateCves | apps/backend/services/project_detail_service.py:713-729 | no duplicates, the same ids, unchanged when the ids were distinct |
| Drawer.DrawerDisagrees | apps/backend/services/project_detail_service.py:610-650 | a version in two projects: the list says critical, the drawer says none, and to a member of the first team alone it is not found |
| Drawer.AgreesIffSameScan | apps/backend/services/project_detail_service.py:653-666 | for fixed scans and components, list row and drawer agree for all finding tables if and only if the drawer picks the list's scan; severity alone or category alone decides it |
| Drawer.PickIsListIff | apps/backend/services/project_detail_service.py:630-633 | the drawer picks the project's latest scan, however ties are broken, if and only if it is strictly newer than every other project's latest scan that holds the version |
| Drawer.PickIff | apps/backend/services/project_detail_service.py:610-635 | the pick is some project's latest scan that holds the version, and no other project's latest scan that does is newer |
| Drawer.DrawerAgreesWithListIff | apps/backend/services/project_detail_service.py:610-666 | together: the drawer agrees with a project's list for all finding tables if and only if that project's latest scan is strictly the newest |
| Drawer.NotFoundIsJustifiedIff | apps/backend/services/project_detail_service.py:599-650 | for all actors, not found means that they can read no project whose latest scan holds the version if and only if all those projects belong to the team of the one picked |
| Drawer.OverviewCountsDrawersIff | apps/backend/services/project_detail_service.py:256-321 | a project's overview counts what the drawers show, severity and licence buckets alike, for all finding tables and however ties are broken, if and only if its latest scan is strictly the newest for every version in it |
| Drawer.CountsDrawersIffAllOn | apps/backend/services/project_detail_service.py:256-321 | for given picks, it does so if and only if every version's drawer is on the overview's scan |
| ScanOverview.SeverityMaxMeans | apps/backend/services/project_detail_service.py:92-109 | the reported severity is critical when a critical finding exists, else high when a high one does, and so on; unknown counts as info |
| ScanOverview.LicenseCategoryMeans | apps/backend/services/project_detail_service.py:111-123 | the same for the most restrictive licence category |
| ScanOverview.GroupingConserves | apps/backend/services/project_detail_service.py:292-296 | summing the outer GROUP BY rows counts the inner ones, in total and per bucket |
| ScanOverview.Distributions | apps/backend/services/project_detail_service.py:315-321 | after the loop each bucket holds the number of component versions whose worst finding falls into it, and the total their number |
| ScanOverview.OverviewCountsDetailPages | apps/backend/services/project_detail_service.py:256-321 | a bucket of the overview counts exactly the distinct component versions for which the drawer's queries, run on the same scan, give that severity or category |
| ScanOverview.TotalIsVersions | apps/backend/services/project_detail_service.py:256-321 | the total is the number of distinct component versions in the scan |
| ScanOverview.BucketsSumToVersions | apps/backend/services/project_detail_service.py:256-321 | and so are the sums of the severity buckets and of the licence buckets |
| ScanOverview.ComputeRiskScore | apps/backend/services/project_detail_service.py:162-172 | the two weight loops compute the published formula, capped at 100 |
| ScanOverview.RiskScoreBounds | apps/backend/services/project_detail_service.py:162-172 | the score lies in 0 to 100 and never falls when buckets grow |
| ScanOverview.RiskScoreSteps | apps/backend/services/project_detail_service.py:131-172 | the score is 0 without components, and one more component adds 15, 5 or 1 for critical, high or medium, 30 or 5 for forbidden or conditional and nothing otherwise, up to 100 |
| ScanOverview.PickLicense | apps/backend/services/project_detail_service.py:705-711 | the drawer's loop picks the first row of the highest rank |
| ScanOverview.PickLicenses | apps/backend/services/project_detail_service.py:558-565 | the list's loop picks it for exactly the component versions that occur in the page's rows |
| ScanOverview.DisplayHasReportedCategory | apps/backend/services/project_detail_service.py:544-581 | for every page of versions and every order of its rows, the licence displayed for a version has the rank of the category that drawer and list report |
| ScanOverview.ListDisplaysReportedCategory | apps/backend/services/project_detail_service.py:544-581 | so the map the list's loop returns names a licence for exactly the versions of the page that have one, of the rank reported beside it |
| ScanOverview.DisplayNamesALicence | apps/backend/services/project_detail_service.py:558-565 | what is displayed is the SPDX id, or the name when there is none, of one of the version's own licences of the reported category |
| ScanOverview.DisplayIsDeterminedIff | apps/backend/services/project_detail_service.py:542-558 | for every page, the name displayed for a version does not depend on the row order if and only if all its licences of the highest rank share one name |
| ScanOverview.DisplayDependsOnOrder | apps/backend/services/project_detail_service.py:542-558 | a database on which it does depend on the order |
| LikeSearch.EscapedSearchIsSubstring | apps/backend/core/sql_safety.py:21-32 | for all texts and values, the escaped pattern matches if and only if the value contains the text |
| LikeSearch.EscapedIlikeIsFoldedSubstring | apps/backend/services/obligation_service.py:301-311 | the same under any case folding that keeps the metacharacters apart |
| LikeSearch.AuditEscapeIsEscapeLike | apps/backend/services/admin_audit_service.py:133-136 | the three chained replacements equal the one-pass escape on every string |
| LikeSearch.UnescapedSearchIsSubstringIff | apps/backend/services/project_detail_service.py:486-488 | under any case folding, an unescaped search finds exactly the values containing the stripped text, for all values, if and only if that text has no metacharacter |
| Utf8Clamp.ClampIsLongestPrefix | apps/backend/services/obligation_service.py:499-514 | the result is the longest whole-character prefix whose encoding fits, and the flag is true if and only if something was dropped |
| Utf8Clamp.ObligationTextFits | apps/backend/services/obligation_service.py:120 | at the cap of 64 KiB: texts that fit come back whole, of the others as many characters as fit |
| Utf8Clamp.CutKeepsLongestFit | apps/backend/services/obligation_service.py:512-514 | decoding a cut encoding, ignoring errors, yields that prefix |
| Utf8Clamp.RoundTrip | apps/backend/services/obligation_service.py:507-514 | decoding undoes encoding |
| Utf8Clamp.EncodedForm | apps/backend/services/obligation_service.py:507-511 | the lengths, byte ranges and bit layout of section 3 of RFC 3629 |
| OrphanWalk.ClassifyReports | apps/backend/services/admin_dt_service.py:362-412 | a page reports exactly its entries whose version is the UUID of no local scan and that no later entry of the page shares, under their own uuid, name and version |
| OrphanWalk.ReportedInOrder | apps/backend/services/admin_dt_service.py:403-412 | each once, in the order in which their scan ids first occur |
| OrphanWalk.GroupByScan | apps/backend/services/admin_dt_service.py:381-395 | the grouping loop computes the dict that the next two rows describe |
| OrphanWalk.ByScanDescribes | apps/backend/services/admin_dt_service.py:381-395 | it holds each scan id once, with the last entry of the page for it |
| OrphanWalk.ByScanInFirstOrder | apps/backend/services/admin_dt_service.py:381-395 | and lists the ids in the order of their first entries |
| OrphanWalk.ClassifyPage | apps/backend/services/admin_dt_service.py:362-412 | appends the page's orphans to what was there |
| OrphanWalk.Walk | apps/backend/services/admin_dt_service.py:329-350 | ends on every catalogue with a prefix of all orphans, and with all of them when it stopped short of the bound |
| OrphanWalk.PagesCoverCatalogue | apps/backend/services/admin_dt_service.py:329-345 | the pages of a hundred make up the catalogue, nothing skipped or repeated |
| OrphanWalk.ListOrphans | apps/backend/services/admin_dt_service.py:287-359 | the items are those at offset to offset plus limit of a full scan, as far as it goes, `has_more` is exact, and the total is exact unless there is more |
| ApiKeys.Cut | apps/backend/services/api_key_service.py:155-157 | splitting at the first underscore: the parts give the text back and the first holds no underscore |
| ApiKeys.ParseUndoesFormat | apps/backend/services/api_key_service.py:123-171 | parsing undoes formatting for every generated prefix and non-empty secret, underscores included |
| ApiKeys.FormatUndoesParse | apps/backend/services/api_key_service.py:133-171 | whatever parses is its own 12-character prefix and non-empty secret formatted again |
| ApiKeys.ParsesIff | apps/backend/services/api_key_service.py:138-171 | the parser accepts exactly "tos", eight characters that are a base-16 number (blanks, sign and 0x prefix allowed) without underscore, and a non-empty secret, and splits them there |
| ApiKeys.AcceptsMoreThanLowerHex | apps/backend/services/api_key_service.py:163-167 | a prefix that no generator makes parses with every secret |
| ApiKeys.FirstFree | apps/backend/services/api_key_service.py:329-355 | the retry loop's draw is free, and fails only when all draws are taken |
| ApiKeys.ApiKeyTable.IssueApiKey | apps/backend/services/api_key_service.py:257-375 | every error and the inserted row, with at most five draws |
| ApiKeys.ListShowsWhatMayBeViewed | apps/backend/services/api_key_service.py:217-249 | in every reachable table the list's WHERE clause selects exactly the keys the per-key check lets the actor see, and revocable keys are visible |
| ApiKeys.IssuersStayInTheirTeams | apps/backend/services/api_key_service.py:188-214 | only super-admins issue beyond their own teams, issuers may view and revoke what they issued, the prefix is new and other rows stay |
| ApiKeys.IssueRepliesIff | apps/backend/services/api_key_service.py:271-375 | a key is issued if and only if scope and ids fit, the project exists, the actor is a super-admin, an admin of the team or a member of the project's team, and one of five draws is free; which refusal answers what; refusals change nothing |
| ApiKeys.IssuedRow | apps/backend/services/api_key_service.py:335-375 | what is stored and handed out; every other key is unchanged |
| ApiKeys.RevokeRepliesIff | apps/backend/services/api_key_service.py:474-512 | not found exactly for keys the actor may not see, denied exactly for those seen but neither created nor administered; otherwise the key ends up revoked, by this actor now if it was live, and no other key changes |
| ApiKeys.RevokedKeyNeverAuthenticates | apps/backend/services/api_key_service.py:501-503 | after an answer of revoked the key's plaintext authenticates in no later state of any run |
| ApiKeys.ListedIff | apps/backend/services/api_key_service.py:411-438 | a key is listed exactly if the actor is a super-admin, its creator or in its team, and every filter that is set fits |
| ApiKeys.KeysPersist | apps/backend/services/api_key_service.py:463-512 | keys are never dropped, never change owner or scope, and revocation is write-once |
| ApiKeys.IssuedKeyAuthenticatesUntilRevoked | apps/backend/services/api_key_service.py:520-581 | the issued plaintext authenticates as its own key in every later state until that key is revoked, and not after |
| ApiKeys.OnlyIssuedPlaintextsAuthenticate | apps/backend/services/api_key_service.py:520-581 | what authenticates is the plaintext of exactly one unrevoked issued key |
| PiiMask.MaskPii | apps/backend/core/pii_mask.py:70-106 | the loops compute the masked tree |
| PiiMask.MaskEach | apps/backend/core/pii_mask.py:97-104 | each item is masked one level down, in order |
| PiiMask.SensitiveIff | apps/backend/core/pii_mask.py:30-67 | a key is sensitive if and only if, lower-cased, it contains one of fourteen words; the other seven listed tokens contain one of them |
| PiiMask.MaskMeans | apps/backend/core/pii_mask.py:70-106 | what masking makes of each kind of value, and the marker below 32 levels |
| PiiMask.MaskedEntries | apps/backend/core/pii_mask.py:88-96 | a masked dict keeps exactly the keys, each with its last entry's value masked, or the marker for a sensitive key |
| PiiMask.MaskIsCanonical | apps/backend/core/pii_mask.py:65-106 | after masking every value under a sensitive key at any level is the marker, nothing lies below the cap, and only JSON shapes are left |
| PiiMask.FixedIffCanonical | apps/backend/core/pii_mask.py:70-106 | masking leaves a tree alone if and only if it has that form |
| PiiMask.MaskIsIdempotent | apps/backend/core/pii_mask.py:70-106 | masking twice is masking once |
| PiiMask.MaskedNestingIsBounded | apps/backend/core/pii_mask.py:70-106 | the result nests at most one level beyond the cap |
| PiiMask.HarmlessTreesAreKept | apps/backend/core/pii_mask.py:70-106 | trees without sensitive keys within the cap come back unchanged, up to lists for tuples and strings for foreign values |
| SafeLink.TruncatedStaysSafe | apps/backend/services/notification_service.py:404-465 | truncation to any width of two or more breaks neither the path rule nor the absence of `..` segments, and leaves nothing to strip |
| SafeLink.SafeLinkIsStable | apps/backend/services/notification_service.py:435-465 | a kept link is at most 512 characters, safe, and validates again unchanged; the whole function is idempotent |
| SafeLink.RejectedIff | apps/backend/services/notification_service.py:435-453 | a link is rejected if and only if its stripped form breaks the path rule or has a `..` segment at some position |
| SafeLink.KeptLinkIff | apps/backend/services/notification_service.py:404-465 | a text is kept if and only if, stripped, it starts with one slash, holds no control character, backslash, `?` or `#`, and has no `..` segment; what is kept is that text, or its first 511 characters and an ellipsis when it is longer than 512 |
| Text.StripMeans | apps/backend/services/notification_service.py:441 | stripping removes whitespace at both ends, and all of it |
| SafeLink.DotDotByPosition | apps/backend/services/notification_service.py:446-453 | splitting at slashes finds a `..` segment if and only if two dots stand between slashes or ends |

## Left out

- HTTP routing, logging, e-mail, Redis, Celery, OAuth provider calls, subprocess adapters, seed scripts, health probes and the frontend: no hard property.
- Passwords containing NUL, which the hashing library refuses.
- E-mail lookup (users are keyed by id) and identity lookup (an OAuth sign-in comes with its user), `last_login_at`, the stored refresh `token_hash`, audit rows and expiry of access tokens.
- Credential calls are serial steps: `rotate_refresh` takes no row lock, so two rotations of one token at once are not modelled. A row's `created_at`, a database default, is taken equal to the service's clock.
- SuperAdminGuard, UnlinkGuard and Approvals are state machines on values, not classes: interleaving, not update in place, is their point, so aliasing of mapped rows is not captured. Deadlocks appear only as `Rollback`.
- SuperAdminGuard: memberships written by `update_user_role` and its team checks are left out, and so are direct writes to the table that bypass the services. An actor is a super-admin by flag when the request is accepted and may have lost it by the commit.
- UnlinkGuard: users are never deleted and the audit row is omitted; links and password sets are allowed even while the user row is locked, which is more than the database allows.
- Approvals: an actor's rights are the copy read with the request, so a membership lost before the commit is not seen, as in the code; cascades from deleted users, projects and components, list paging and the wording of error replies. The code does not check that the component occurs in the project, and neither does the model.
- ScanJoin, ScanOverview: filters, sorting and paging of the component list, recent scans. What a drawer shows beyond severity, category and the vulnerability list is left out.
- ScanOverview.ComputeRiskScore: computes over `real`; all the sums involved are whole numbers.
- Utf8Clamp: lone surrogates, which Python strings can hold and cannot encode, are outside `char`. The decoder drops malformed bytes one by one, which leaves the same text as dropping maximal subparts.
- LikeSearch: a pattern ending in a bare escape matches nothing here, where PostgreSQL raises an error. Unescaped searches use PostgreSQL's default escape character, the backslash.
- OrphanWalk: fetching a page never fails, and the catalogue does not change during the walk; the circuit breaker is not part of this model.
- ApiKeys: integrity errors other than a taken prefix, `last_used_at`, list order and paging. `ParsesAsHex` knows ASCII digits and blanks, where `int` also takes other Unicode digits and spaces, and it does not take the underscores `int` allows between digits, which cannot occur after the split.
- PiiMask: `str.lower` is a parameter; `redact_url_userinfo` is left out.
- `admin_team_service`, policy-gate counts, NOTICE rendering, `_order_distribution`, `_normalize_kind_filter`, the CSV export and the notification row updates would only add easy members.
