/** Which scan the component drawer shows. The list and the overview of a project read the
    project's latest scan. The drawer is asked for a component version alone: among the latest
    scans of all projects it takes the newest that holds the version, and only then looks at
    whether the actor may read it. */
module Drawer {
  import opened Options
  import opened Actors
  import opened ScanJoin
  import opened ScanOverview

  datatype Project = Project(team: TeamId, latest: Option<Id>)
  datatype Scan = Scan(project: Id, createdAt: int)
  datatype World = World(projects: map<Id, Project>, scans: map<Id, Scan>, db: Database)

  /** Whoever sets a project's latest scan sets one of its own. */
  ghost predicate LatestIsOwn(w: World) {
    forall p :: p in w.projects && w.projects[p].latest.Some? ==>
      w.projects[p].latest.value in w.scans && w.scans[w.projects[p].latest.value].project == p
  }

  /** `scan` holds the version and is the latest scan of its project. */
  ghost predicate Current(w: World, cv: Id, scan: Id) {
    && Observed(w.db, scan, cv) && scan in w.scans && w.scans[scan].project in w.projects
    && w.projects[w.scans[scan].project].latest == Some(scan)
  }

  /** The drawer's first row: newest first, ties in any order. */
  ghost predicate IsPick(w: World, cv: Id, scan: Id) {
    && Current(w, cv, scan)
    && forall other :: Current(w, cv, other) ==> w.scans[other].createdAt <= w.scans[scan].createdAt
  }

  ghost predicate LatestWith(w: World, p: Id, cv: Id, scan: Id) {
    p in w.projects && w.projects[p].latest == Some(scan) && Observed(w.db, scan, cv)
  }

  /** In terms of projects: some project's latest scan that holds the version, and no other
      project's latest scan that does is newer. Scans that are no project's latest never count. */
  lemma PickIff(w: World, cv: Id, pick: Id)
    requires LatestIsOwn(w)
    ensures IsPick(w, cv, pick) <==>
      (exists p :: LatestWith(w, p, cv, pick)) &&
      forall p, scan :: LatestWith(w, p, cv, scan) ==> w.scans[scan].createdAt <= w.scans[pick].createdAt
  {
    forall scan ensures Current(w, cv, scan) <==> exists p :: LatestWith(w, p, cv, scan) {
      if Current(w, cv, scan) { assert LatestWith(w, w.scans[scan].project, cv, scan); }
    }
  }

  function TeamOf(w: World, scan: Id): TeamId
    requires scan in w.scans && w.scans[scan].project in w.projects
  {
    w.projects[w.scans[scan].project].team
  }

  datatype Reply = NotFound | Shown(severity: SeverityKey, category: Category)

  ghost function Drawer(w: World, actor: CurrentUser, cv: Id, pick: Option<Id>): Reply
    requires pick.Some? ==> IsPick(w, cv, pick.value)
  {
    if pick.None? || !actor.CanAccessTeam(TeamOf(w, pick.value)) then NotFound
    else
      Shown(SeverityFromRank(DetailSeverity(w.db, pick.value, cv)),
            CategoryFromRank(DetailCategory(w.db, pick.value, cv)))
  }

  // ----- A version in two projects -----

  /** Version 7 is in the latest scans of two projects of two teams; the older scan found it
      critical, the newer found nothing. */
  const TWO_PROJECTS := World(
    map[0 := Project(0, Some(0)), 1 := Project(1, Some(1))], map[0 := Scan(0, 0), 1 := Scan(1, 1)],
    Database([ScanComponent(0, 7, None), ScanComponent(1, 7, None)],
             [Finding(0, 0, 7, 0)], map[0 := Vulnerability("CVE-1", Critical)], [], map[]))

  /** The first project's list says critical, the drawer says none, and to a member of the first
      team alone it says that there is no such component. */
  lemma DrawerDisagrees(actor: CurrentUser)
    ensures LatestIsOwn(TWO_PROJECTS)
    ensures IsPick(TWO_PROJECTS, 7, 1) && forall pick :: IsPick(TWO_PROJECTS, 7, pick) ==> pick == 1
    ensures SeverityFromRank(ListSeverity(TWO_PROJECTS.db, 0, 7)) == CriticalKey
    ensures Drawer(TWO_PROJECTS, actor, 7, Some(1)) ==
      if actor.CanAccessTeam(1) then Shown(NoneKey, UnknownCategory) else NotFound
  {
    TwoProjectsPick();
    TwoProjectsList();
    TwoProjectsShown(actor);
  }

  lemma TwoProjectsShown(actor: CurrentUser)
    requires IsPick(TWO_PROJECTS, 7, 1)
    ensures Drawer(TWO_PROJECTS, actor, 7, Some(1)) ==
      if actor.CanAccessTeam(1) then Shown(NoneKey, UnknownCategory) else NotFound
  {
    TwoProjectsRanks();
    DrawerShows(TWO_PROJECTS, actor, 7, 1);
    assert TeamOf(TWO_PROJECTS, 1) == 1;
  }

  lemma DrawerShows(w: World, actor: CurrentUser, cv: Id, pick: Id)
    requires IsPick(w, cv, pick)
    ensures Drawer(w, actor, cv, Some(pick)) ==
      if actor.CanAccessTeam(TeamOf(w, pick))
      then Shown(SeverityFromRank(DetailSeverity(w.db, pick, cv)), CategoryFromRank(DetailCategory(w.db, pick, cv)))
      else NotFound
  {
  }

  lemma TwoProjectsList()
    ensures SeverityFromRank(ListSeverity(TWO_PROJECTS.db, 0, 7)) == CriticalKey
  {
    TwoProjectsPick();
    TwoProjectsRanks();
    ObservedAgrees(TWO_PROJECTS.db, 0, 7);
  }

  lemma ObservedAgrees(db: Database, scan: Id, cv: Id)
    requires Observed(db, scan, cv)
    ensures ListSeverity(db, scan, cv) == DetailSeverity(db, scan, cv)
  {
    var c :| c in db.components && c.scan == scan && c.cv == cv;
    ObservedHasPath(db.components, scan, cv);
    ListAgreesWithDetail(db, scan, cv);
  }

  lemma TwoProjectsRanks()
    ensures DetailSeverity(TWO_PROJECTS.db, 0, 7) == 5
    ensures DetailSeverity(TWO_PROJECTS.db, 1, 7) == 0 && DetailCategory(TWO_PROJECTS.db, 1, 7) == 0
  {
    OnlyFinding(TWO_PROJECTS.db, Finding(0, 0, 7, 0), 0, 7);
    OnlyFinding(TWO_PROJECTS.db, Finding(0, 0, 7, 0), 1, 7);
    assert KnownRanks(CategoryOf(TWO_PROJECTS.db), LicensesOf(TWO_PROJECTS.db, 1, 7)) == [];
  }

  lemma TwoProjectsPick()
    ensures Observed(TWO_PROJECTS.db, 0, 7) && Observed(TWO_PROJECTS.db, 1, 7)
    ensures IsPick(TWO_PROJECTS, 7, 1) && forall pick :: IsPick(TWO_PROJECTS, 7, pick) ==> pick == 1
    ensures LatestIsOwn(TWO_PROJECTS)
  {
    var db := TWO_PROJECTS.db;
    assert db.components[0] in db.components && db.components[1] in db.components;
  }

  // ----- Agreement for all finding tables -----

  /** With one critical finding in the database, only its own scan and version show it. */
  lemma OnlyFinding(db: Database, f: Finding, scan: Id, cv: Id)
    requires db.vulnFindings == [f] && f.subject in db.vulns && db.vulns[f.subject].severity == Critical
    ensures DetailSeverity(db, scan, cv) == if f.scan == scan && f.cv == cv then 5 else 0
  {
    var fs := VulnsOf(db, scan, cv);
    assert fs == if f.scan == scan && f.cv == cv then [f] else [];
    assert KnownRanks(SeverityOf(db), fs) == if fs == [] then [] else [5];
  }

  lemma OnlyLicense(db: Database, f: Finding, scan: Id, cv: Id)
    requires db.licenseFindings == [f] && f.subject in db.licenses && db.licenses[f.subject].category == Forbidden
    ensures DetailCategory(db, scan, cv) == if f.scan == scan && f.cv == cv then 3 else 0
  {
    var fs := LicensesOf(db, scan, cv);
    assert fs == if f.scan == scan && f.cv == cv then [f] else [];
    assert KnownRanks(CategoryOf(db), fs) == if fs == [] then [] else [3];
  }

  function OneCritical(components: seq<ScanComponent>, scan: Id, cv: Id): Database {
    Database(components, [Finding(0, scan, cv, 0)], map[0 := Vulnerability("", Critical)], [], map[])
  }

  function OneForbidden(components: seq<ScanComponent>, scan: Id, cv: Id): Database {
    Database(components, [], map[], [Finding(0, scan, cv, 0)], map[0 := License(None, "", Forbidden)])
  }

  ghost predicate SeverityAgrees(components: seq<ScanComponent>, cv: Id, list: Id, pick: Id) {
    forall db: Database :: db.components == components ==> ListSeverity(db, list, cv) == DetailSeverity(db, pick, cv)
  }

  ghost predicate CategoryAgrees(components: seq<ScanComponent>, cv: Id, list: Id, pick: Id) {
    forall db: Database :: db.components == components ==> ListCategory(db, list, cv) == DetailCategory(db, pick, cv)
  }

  /** For fixed scans and components, the row of the list's scan and the drawer's pick agree
      whatever the finding tables hold if and only if they are the same scan; either of the two
      reported values alone decides it. */
  lemma AgreesIffSameScan(components: seq<ScanComponent>, cv: Id, list: Id, pick: Id)
    requires Paths(components, list, cv) > 0
    ensures SeverityAgrees(components, cv, list, pick) <==> pick == list
    ensures CategoryAgrees(components, cv, list, pick) <==> pick == list
  {
    forall db: Database | db.components == components
      ensures ListSeverity(db, list, cv) == DetailSeverity(db, list, cv)
      ensures ListCategory(db, list, cv) == DetailCategory(db, list, cv)
    {
      ListAgreesWithDetail(db, list, cv);
    }
    var one, two := OneCritical(components, list, cv), OneForbidden(components, list, cv);
    assert one.components == components && two.components == components;
    OnlyFinding(one, one.vulnFindings[0], list, cv);
    OnlyFinding(one, one.vulnFindings[0], pick, cv);
    OnlyLicense(two, two.licenseFindings[0], list, cv);
    OnlyLicense(two, two.licenseFindings[0], pick, cv);
  }

  lemma {:induction false} Newest(w: World, scans: set<Id>) returns (top: Id)
    requires scans != {} && forall x :: x in scans ==> x in w.scans
    ensures top in scans && forall x :: x in scans ==> w.scans[x].createdAt <= w.scans[top].createdAt
    decreases scans
  {
    var x :| x in scans;
    if scans == {x} {
      top := x;
    } else {
      var rest := Newest(w, scans - {x});
      top := if w.scans[rest].createdAt <= w.scans[x].createdAt then x else rest;
    }
  }

  /** The project's latest scan is strictly newer than every other current scan of the version. */
  ghost predicate StrictlyNewest(w: World, cv: Id, list: Id)
    requires list in w.scans
  {
    forall other :: Current(w, cv, other) && other != list ==> w.scans[other].createdAt < w.scans[list].createdAt
  }

  lemma PickIsListIff(w: World, cv: Id, list: Id)
    requires Current(w, cv, list)
    ensures (forall pick :: IsPick(w, cv, pick) ==> pick == list) <==> StrictlyNewest(w, cv, list)
  {
    if other :| Current(w, cv, other) && other != list && w.scans[list].createdAt <= w.scans[other].createdAt {
      var others := set x | x in w.scans && Current(w, cv, x) && x != list;
      assert other in others;
      var top := Newest(w, others);
      assert IsPick(w, cv, top);
    }
  }

  /** The drawer agrees with a project's list, for all finding tables and however ties are broken,
      if and only if the project's latest scan is strictly the newest that holds the version. */
  lemma DrawerAgreesWithListIff(w: World, p: Id, cv: Id)
    requires LatestIsOwn(w) && p in w.projects && w.projects[p].latest.Some?
    requires Observed(w.db, w.projects[p].latest.value, cv)
    ensures
      var components, list := w.db.components, w.projects[p].latest.value;
      var newest := StrictlyNewest(w, cv, list);
      && ((forall pick :: IsPick(w, cv, pick) ==> SeverityAgrees(components, cv, list, pick)) <==> newest)
      && ((forall pick :: IsPick(w, cv, pick) ==> CategoryAgrees(components, cv, list, pick)) <==> newest)
  {
    var list := w.projects[p].latest.value;
    ObservedHasPath(w.db.components, list, cv);
    forall pick
      ensures SeverityAgrees(w.db.components, cv, list, pick) <==> pick == list
      ensures CategoryAgrees(w.db.components, cv, list, pick) <==> pick == list
    {
      AgreesIffSameScan(w.db.components, cv, list, pick);
    }
    PickIsListIff(w, cv, list);
  }

  // ----- Not found -----

  ghost predicate Readable(w: World, actor: CurrentUser, cv: Id) {
    exists scan :: Current(w, cv, scan) && actor.CanAccessTeam(TeamOf(w, scan))
  }

  /** What the drawer promises: not found only if the actor can read no project whose latest
      scan holds the version. It keeps that for all actors if and only if all those projects
      belong to the team of the one it picks. */
  lemma NotFoundIsJustifiedIff(w: World, cv: Id, pick: Id)
    requires IsPick(w, cv, pick)
    ensures (forall actor :: Drawer(w, actor, cv, Some(pick)) == NotFound ==> !Readable(w, actor, cv)) <==>
      (forall scan :: Current(w, cv, scan) ==> TeamOf(w, scan) == TeamOf(w, pick))
  {
    if scan :| Current(w, cv, scan) && TeamOf(w, scan) != TeamOf(w, pick) {
      var actor := CurrentUser(0, Developer, false, [TeamOf(w, scan)], map[]);
      assert Drawer(w, actor, cv, Some(pick)) == NotFound && Readable(w, actor, cv);
    }
  }

  // ----- The overview -----

  /** The versions of the scan whose drawer, taken from `pick`, shows that severity. */
  ghost function DrawersShowing(db: Database, scan: Id, pick: Id -> Id, key: SeverityKey): set<Id> {
    set cv | cv in Versions(db.components, scan) && SeverityFromRank(DetailSeverity(db, pick(cv), cv)) == key
  }

  ghost function DrawersLicensed(db: Database, scan: Id, pick: Id -> Id, key: Category): set<Id> {
    set cv | cv in Versions(db.components, scan) && CategoryFromRank(DetailCategory(db, pick(cv), cv)) == key
  }

  ghost predicate SeveritiesCountDrawers(components: seq<ScanComponent>, scan: Id, pick: Id -> Id) {
    forall db: Database, rows, key :: db.components == components && IsPerCv(db, scan, rows) ==>
      CountSeverity(rows, key) == |DrawersShowing(db, scan, pick, key)|
  }

  ghost predicate CategoriesCountDrawers(components: seq<ScanComponent>, scan: Id, pick: Id -> Id) {
    forall db: Database, rows, key :: db.components == components && IsPerCv(db, scan, rows) ==>
      CountCategory(rows, key) == |DrawersLicensed(db, scan, pick, key)|
  }

  lemma {:induction false} ListOfVersions(components: seq<ScanComponent>, scan: Id) returns (ids: seq<Id>)
    ensures forall i, k :: 0 <= i < k < |ids| ==> ids[i] != ids[k]
    ensures forall cv :: cv in ids <==> cv in Versions(components, scan)
  {
    ids := [];
    if components != [] {
      var c := components[0];
      ids := ListOfVersions(components[1..], scan);
      assert forall x :: x in components <==> x == c || x in components[1..];
      if c.scan == scan && c.cv !in ids { ids := ids + [c.cv]; }
    }
  }

  /** The inner query has an answer. */
  lemma PerCvExists(db: Database, scan: Id) returns (rows: seq<CvRow>)
    ensures IsPerCv(db, scan, rows)
  {
    var ids := ListOfVersions(db.components, scan);
    rows := seq(|ids|, i requires 0 <= i < |ids| =>
      CvRow(ids[i], ListSeverity(db, scan, ids[i]), ListCategory(db, scan, ids[i])));
    forall r | r in rows ensures Paths(db.components, scan, r.cv) > 0 {
      assert r.cv in ids;
      ObservedHasPath(db.components, scan, r.cv);
    }
    forall c | c in db.components && c.scan == scan ensures exists r :: r in rows && r.cv == c.cv {
      assert c.cv in ids;
      var i :| 0 <= i < |ids| && ids[i] == c.cv;
      assert rows[i] in rows;
    }
  }

  lemma CriticalIsShown(db: Database, scan: Id, cv: Id)
    requires cv in Versions(db.components, scan) && DetailSeverity(db, scan, cv) == 5
    ensures Where(db, scan, SeverityIs(CriticalKey)) != {}
  {
    var row := CvRow(cv, 5, DetailCategory(db, scan, cv));
    assert DetailRow(db, scan, cv) == row && SeverityIs(CriticalKey)(row);
    assert cv in Where(db, scan, SeverityIs(CriticalKey));
  }

  lemma ForbiddenIsShown(db: Database, scan: Id, cv: Id)
    requires cv in Versions(db.components, scan) && DetailCategory(db, scan, cv) == 3
    ensures Where(db, scan, CategoryIs(Forbidden)) != {}
  {
    var row := CvRow(cv, DetailSeverity(db, scan, cv), 3);
    assert DetailRow(db, scan, cv) == row && CategoryIs(Forbidden)(row);
    assert cv in Where(db, scan, CategoryIs(Forbidden));
  }

  lemma NoDrawerCritical(db: Database, scan: Id, pick: Id -> Id)
    requires forall cv :: cv in Versions(db.components, scan) ==> DetailSeverity(db, pick(cv), cv) == 0
    ensures DrawersShowing(db, scan, pick, CriticalKey) == {}
  {
  }

  lemma NoDrawerForbidden(db: Database, scan: Id, pick: Id -> Id)
    requires forall cv :: cv in Versions(db.components, scan) ==> DetailCategory(db, pick(cv), cv) == 0
    ensures DrawersLicensed(db, scan, pick, Forbidden) == {}
  {
  }

  lemma MissedCritical(components: seq<ScanComponent>, scan: Id, pick: Id -> Id, cv: Id)
    requires cv in Versions(components, scan) && pick(cv) != scan
    ensures !SeveritiesCountDrawers(components, scan, pick)
  {
    var db := OneCritical(components, scan, cv);
    assert db.components == components;
    forall s, x ensures DetailSeverity(db, s, x) == if s == scan && x == cv then 5 else 0 {
      OnlyFinding(db, db.vulnFindings[0], s, x);
    }
    CriticalIsShown(db, scan, cv);
    NoDrawerCritical(db, scan, pick);
    var rows := PerCvExists(db, scan);
    OverviewCountsDetailPages(db, scan, rows, CriticalKey, Forbidden);
  }

  lemma MissedForbidden(components: seq<ScanComponent>, scan: Id, pick: Id -> Id, cv: Id)
    requires cv in Versions(components, scan) && pick(cv) != scan
    ensures !CategoriesCountDrawers(components, scan, pick)
  {
    var db := OneForbidden(components, scan, cv);
    assert db.components == components;
    forall s, x ensures DetailCategory(db, s, x) == if s == scan && x == cv then 3 else 0 {
      OnlyLicense(db, db.licenseFindings[0], s, x);
    }
    ForbiddenIsShown(db, scan, cv);
    NoDrawerForbidden(db, scan, pick);
    var rows := PerCvExists(db, scan);
    OverviewCountsDetailPages(db, scan, rows, CriticalKey, Forbidden);
  }

  ghost predicate AllOn(components: seq<ScanComponent>, scan: Id, pick: Id -> Id) {
    forall cv :: cv in Versions(components, scan) ==> pick(cv) == scan
  }

  lemma SamePicks(db: Database, scan: Id, pick: Id -> Id, severity: SeverityKey, category: Category)
    requires AllOn(db.components, scan, pick)
    ensures DrawersShowing(db, scan, pick, severity) == Where(db, scan, SeverityIs(severity))
    ensures DrawersLicensed(db, scan, pick, category) == Where(db, scan, CategoryIs(category))
  {
  }

  lemma CountsOwnDrawers(db: Database, scan: Id, pick: Id -> Id, rows: seq<CvRow>,
                         severity: SeverityKey, category: Category)
    requires AllOn(db.components, scan, pick) && IsPerCv(db, scan, rows)
    ensures CountSeverity(rows, severity) == |DrawersShowing(db, scan, pick, severity)|
    ensures CountCategory(rows, category) == |DrawersLicensed(db, scan, pick, category)|
  {
    OverviewCountsDetailPages(db, scan, rows, severity, category);
    SamePicks(db, scan, pick, severity, category);
  }

  /** For fixed components and picks, the overview's buckets of either kind count what the drawers
      show, for all finding tables, if and only if every version's drawer is on the scan. */
  lemma CountsDrawersIffAllOn(components: seq<ScanComponent>, scan: Id, pick: Id -> Id)
    ensures SeveritiesCountDrawers(components, scan, pick) <==> AllOn(components, scan, pick)
    ensures CategoriesCountDrawers(components, scan, pick) <==> AllOn(components, scan, pick)
  {
    if !AllOn(components, scan, pick) {
      var cv :| cv in Versions(components, scan) && pick(cv) != scan;
      MissedCritical(components, scan, pick, cv);
      MissedForbidden(components, scan, pick, cv);
    } else {
      forall db: Database, rows, key | db.components == components && IsPerCv(db, scan, rows)
        ensures CountSeverity(rows, key) == |DrawersShowing(db, scan, pick, key)|
      {
        CountsOwnDrawers(db, scan, pick, rows, key, Forbidden);
      }
      forall db: Database, rows, key | db.components == components && IsPerCv(db, scan, rows)
        ensures CountCategory(rows, key) == |DrawersLicensed(db, scan, pick, key)|
      {
        CountsOwnDrawers(db, scan, pick, rows, CriticalKey, key);
      }
    }
  }

  /** `pick` is what the drawers of the scan's versions may use. */
  ghost predicate ArePicks(w: World, scan: Id, pick: Id -> Id) {
    forall cv :: cv in Versions(w.db.components, scan) ==> IsPick(w, cv, pick(cv))
  }

  lemma SomePick(w: World, cv: Id, scan: Id) returns (pick: Id)
    requires Current(w, cv, scan)
    ensures IsPick(w, cv, pick)
  {
    var current := set x | x in w.scans && Current(w, cv, x);
    assert scan in current;
    pick := Newest(w, current);
  }

  /** One version's pick can be extended to all versions of the scan. */
  lemma PicksWith(w: World, scan: Id, cv: Id, own: Id) returns (pick: Id -> Id)
    requires forall x :: x in Versions(w.db.components, scan) ==> Current(w, x, scan)
    requires IsPick(w, cv, own)
    ensures ArePicks(w, scan, pick) && pick(cv) == own
  {
    forall x | x in Versions(w.db.components, scan) ensures exists top :: IsPick(w, x, top) {
      var top := SomePick(w, x, scan);
    }
    pick := (x: Id) =>
      if x == cv then own
      else if exists top: Id :: IsPick(w, x, top) then (var top: Id :| IsPick(w, x, top); top) else scan;
  }

  lemma AllOnIff(w: World, scan: Id)
    requires scan in w.scans
    requires forall cv :: cv in Versions(w.db.components, scan) ==> Current(w, cv, scan)
    ensures (forall pick :: ArePicks(w, scan, pick) ==> AllOn(w.db.components, scan, pick)) <==>
      forall cv :: cv in Versions(w.db.components, scan) ==> StrictlyNewest(w, cv, scan)
  {
    forall cv | cv in Versions(w.db.components, scan)
      ensures (forall pick :: IsPick(w, cv, pick) ==> pick == scan) <==> StrictlyNewest(w, cv, scan)
    {
      PickIsListIff(w, cv, scan);
    }
    if cv :| cv in Versions(w.db.components, scan) && !StrictlyNewest(w, cv, scan) {
      var own :| IsPick(w, cv, own) && own != scan;
      var pick := PicksWith(w, scan, cv, own);
      assert !AllOn(w.db.components, scan, pick);
    }
  }

  /** The overview of a project counts what the drawers show, for all finding tables and however
      ties are broken, if and only if the project's latest scan is strictly the newest for every
      version in it. */
  lemma OverviewCountsDrawersIff(w: World, p: Id)
    requires LatestIsOwn(w) && p in w.projects && w.projects[p].latest.Some?
    ensures
      var components, scan := w.db.components, w.projects[p].latest.value;
      var newest := forall cv :: cv in Versions(components, scan) ==> StrictlyNewest(w, cv, scan);
      && ((forall pick :: ArePicks(w, scan, pick) ==> SeveritiesCountDrawers(components, scan, pick)) <==> newest)
      && ((forall pick :: ArePicks(w, scan, pick) ==> CategoriesCountDrawers(components, scan, pick)) <==> newest)
  {
    var components, scan := w.db.components, w.projects[p].latest.value;
    forall cv | cv in Versions(components, scan) ensures Current(w, cv, scan) { VersionsAreObserved(w.db, scan, cv); }
    AllOnIff(w, scan);
    forall pick
      ensures SeveritiesCountDrawers(components, scan, pick) <==> AllOn(components, scan, pick)
      ensures CategoriesCountDrawers(components, scan, pick) <==> AllOn(components, scan, pick)
    {
      CountsDrawersIffAllOn(components, scan, pick);
    }
  }
}
