/** The overview's bucket counts and risk score, and the licence name that the list and the
    drawer display. */
module ScanOverview {
  import opened Options
  import opened ScanJoin

  /** The keys of `severity_distribution`; `license_distribution` is keyed by category. */
  datatype SeverityKey = CriticalKey | HighKey | MediumKey | LowKey | InfoKey | NoneKey

  function SeverityFromRank(rank: nat): SeverityKey {
    match rank
    case 1 => InfoKey
    case 2 => LowKey
    case 3 => MediumKey
    case 4 => HighKey
    case 5 => CriticalKey
    case _ => NoneKey
  }

  function CategoryFromRank(rank: nat): Category {
    match rank
    case 1 => Allowed
    case 2 => Conditional
    case 3 => Forbidden
    case _ => UnknownCategory
  }

  // ----- What the reported names mean -----

  ghost predicate FoundSeverity(db: Database, scan: Id, cv: Id, s: Severity) {
    exists f :: f in VulnsOf(db, scan, cv) && f.subject in db.vulns && db.vulns[f.subject].severity == s
  }

  ghost predicate FoundCategory(db: Database, scan: Id, cv: Id, c: Category) {
    exists f :: f in LicensesOf(db, scan, cv) && f.subject in db.licenses && db.licenses[f.subject].category == c
  }

  ghost predicate FoundRank(rank: Ranking, fs: seq<Finding>, r: nat) { exists f :: f in fs && rank(f) == Some(r) }

  /** The maximum is a rank that was found, or 0, and nothing found ranks higher. */
  lemma TopRank(rank: Ranking, fs: seq<Finding>)
    ensures forall r: nat :: FoundRank(rank, fs, r) ==> r <= MaxRank(KnownRanks(rank, fs))
    ensures MaxRank(KnownRanks(rank, fs)) != 0 ==> FoundRank(rank, fs, MaxRank(KnownRanks(rank, fs)))
  {
    forall r: nat ensures r in KnownRanks(rank, fs) <==> FoundRank(rank, fs, r) { KnownRanksMember(rank, fs, r); }
  }

  lemma SeverityFound(db: Database, scan: Id, cv: Id, s: Severity)
    ensures FoundSeverity(db, scan, cv, s) ==> DetailSeverity(db, scan, cv) >= SeverityRank(s)
    ensures DetailSeverity(db, scan, cv) != 0 ==>
      exists s' :: FoundSeverity(db, scan, cv, s') && DetailSeverity(db, scan, cv) == SeverityRank(s')
  {
    var fs, top := VulnsOf(db, scan, cv), DetailSeverity(db, scan, cv);
    TopRank(SeverityOf(db), fs);
    if FoundSeverity(db, scan, cv, s) {
      var f :| f in fs && f.subject in db.vulns && db.vulns[f.subject].severity == s;
      assert SeverityOf(db)(f) == Some(SeverityRank(s));
      assert FoundRank(SeverityOf(db), fs, SeverityRank(s));
    }
    if top != 0 {
      var f :| f in fs && SeverityOf(db)(f) == Some(top);
      assert FoundSeverity(db, scan, cv, db.vulns[f.subject].severity);
    }
  }

  lemma CategoryFound(db: Database, scan: Id, cv: Id, c: Category)
    ensures FoundCategory(db, scan, cv, c) ==> DetailCategory(db, scan, cv) >= CategoryRank(c)
    ensures DetailCategory(db, scan, cv) != 0 ==>
      exists c' :: FoundCategory(db, scan, cv, c') && DetailCategory(db, scan, cv) == CategoryRank(c')
  {
    var fs, top := LicensesOf(db, scan, cv), DetailCategory(db, scan, cv);
    TopRank(CategoryOf(db), fs);
    if FoundCategory(db, scan, cv, c) {
      var f :| f in fs && f.subject in db.licenses && db.licenses[f.subject].category == c;
      assert CategoryOf(db)(f) == Some(CategoryRank(c));
      assert FoundRank(CategoryOf(db), fs, CategoryRank(c));
    }
    if top != 0 {
      var f :| f in fs && CategoryOf(db)(f) == Some(top);
      assert FoundCategory(db, scan, cv, db.licenses[f.subject].category);
    }
  }

  /** What a top rank says about the severities that were found. */
  lemma SeverityOfTop(found: set<Severity>, top: nat)
    requires forall s :: s in found ==> SeverityRank(s) <= top
    requires top != 0 ==> exists s :: s in found && SeverityRank(s) == top
    ensures SeverityFromRank(top) ==
      if Critical in found then CriticalKey else if High in found then HighKey else if Medium in found then MediumKey
      else if Low in found then LowKey else if Info in found || UnknownSeverity in found then InfoKey else NoneKey
  {
    assert Critical in found ==> SeverityRank(Critical) <= top;
    assert High in found ==> SeverityRank(High) <= top;
    assert Medium in found ==> SeverityRank(Medium) <= top;
    assert Low in found ==> SeverityRank(Low) <= top;
    assert Info in found ==> SeverityRank(Info) <= top;
    assert UnknownSeverity in found ==> SeverityRank(UnknownSeverity) <= top;
  }

  ghost function SeveritiesFound(db: Database, scan: Id, cv: Id): set<Severity> {
    set s: Severity | FoundSeverity(db, scan, cv, s)
  }

  /** `severity_max` is the worst severity found: critical when there is a critical finding, high
      when there is a high but no critical one, and so on; unknown counts as info. */
  lemma SeverityMaxMeans(db: Database, scan: Id, cv: Id)
    ensures
      var key := SeverityFromRank(DetailSeverity(db, scan, cv));
      var critical, high := FoundSeverity(db, scan, cv, Critical), FoundSeverity(db, scan, cv, High);
      var medium, low := FoundSeverity(db, scan, cv, Medium), FoundSeverity(db, scan, cv, Low);
      var info := FoundSeverity(db, scan, cv, Info) || FoundSeverity(db, scan, cv, UnknownSeverity);
      key == if critical then CriticalKey else if high then HighKey else if medium then MediumKey
             else if low then LowKey else if info then InfoKey else NoneKey
  {
    var top, found := DetailSeverity(db, scan, cv), SeveritiesFound(db, scan, cv);
    forall s | s in found ensures SeverityRank(s) <= top { SeverityFound(db, scan, cv, s); }
    if top != 0 {
      SeverityFound(db, scan, cv, Info);
      var s :| FoundSeverity(db, scan, cv, s) && top == SeverityRank(s);
      assert s in found;
    }
    SeverityOfTop(found, top);
  }

  /** `license_category` is the most restrictive category found, unknown when there is none. */
  lemma LicenseCategoryMeans(db: Database, scan: Id, cv: Id)
    ensures
      CategoryFromRank(DetailCategory(db, scan, cv)) ==
      if FoundCategory(db, scan, cv, Forbidden) then Forbidden
      else if FoundCategory(db, scan, cv, Conditional) then Conditional
      else if FoundCategory(db, scan, cv, Allowed) then Allowed else UnknownCategory
  {
    CategoryFound(db, scan, cv, Forbidden);
    CategoryFound(db, scan, cv, Conditional);
    CategoryFound(db, scan, cv, Allowed);
  }

  // ----- The two GROUP BY levels -----

  /** One row of the inner query: a component version with its worst ranks. */
  datatype CvRow = CvRow(cv: Id, severity: nat, category: nat)
  /** One row of the outer query: how many component versions share a pair of ranks. */
  datatype AggRow = AggRow(severity: nat, category: nat, n: nat)

  function CountPair(rows: seq<CvRow>, severity: nat, category: nat): nat {
    if rows == [] then 0
    else (if rows[0].severity == severity && rows[0].category == category then 1 else 0) +
         CountPair(rows[1..], severity, category)
  }

  /** `rows` is an answer to the inner query, in any order. */
  ghost predicate IsPerCv(db: Database, scan: Id, rows: seq<CvRow>) {
    && (forall i, k :: 0 <= i < k < |rows| ==> rows[i].cv != rows[k].cv)
    && (forall r :: r in rows ==>
          Paths(db.components, scan, r.cv) > 0 &&
          r.severity == ListSeverity(db, scan, r.cv) && r.category == ListCategory(db, scan, r.cv))
    && (forall c :: c in db.components && c.scan == scan ==> exists r :: r in rows && r.cv == c.cv)
  }

  /** `agg` is an answer to the outer query over `rows`, in any order. */
  ghost predicate IsGrouping(rows: seq<CvRow>, agg: seq<AggRow>) {
    && (forall i, k | 0 <= i < k < |agg| :: agg[i].severity != agg[k].severity || agg[i].category != agg[k].category)
    && (forall i | 0 <= i < |agg| :: agg[i].n == CountPair(rows, agg[i].severity, agg[i].category))
    && (forall r | r in rows ::
          exists i :: 0 <= i < |agg| && agg[i].severity == r.severity && agg[i].category == r.category)
  }

  function CountSeverity(rows: seq<CvRow>, key: SeverityKey): nat {
    if rows == [] then 0
    else (if SeverityFromRank(rows[0].severity) == key then 1 else 0) + CountSeverity(rows[1..], key)
  }

  function CountCategory(rows: seq<CvRow>, key: Category): nat {
    if rows == [] then 0
    else (if CategoryFromRank(rows[0].category) == key then 1 else 0) + CountCategory(rows[1..], key)
  }

  function SumSeverity(agg: seq<AggRow>, key: SeverityKey): nat {
    if agg == [] then 0
    else (if SeverityFromRank(agg[0].severity) == key then agg[0].n else 0) + SumSeverity(agg[1..], key)
  }

  function SumCategory(agg: seq<AggRow>, key: Category): nat {
    if agg == [] then 0
    else (if CategoryFromRank(agg[0].category) == key then agg[0].n else 0) + SumCategory(agg[1..], key)
  }

  function SumAll(agg: seq<AggRow>): nat { if agg == [] then 0 else agg[0].n + SumAll(agg[1..]) }

  function WithoutPair(rows: seq<CvRow>, severity: nat, category: nat): seq<CvRow> {
    if rows == [] then []
    else (if rows[0].severity == severity && rows[0].category == category then [] else [rows[0]]) +
         WithoutPair(rows[1..], severity, category)
  }

  lemma {:induction false} WithoutPairCounts(rows: seq<CvRow>, s: nat, c: nat)
    ensures |rows| == CountPair(rows, s, c) + |WithoutPair(rows, s, c)|
    ensures forall s', c' :: CountPair(WithoutPair(rows, s, c), s', c') ==
              if s' == s && c' == c then 0 else CountPair(rows, s', c')
    ensures forall key :: CountSeverity(rows, key) ==
              (if SeverityFromRank(s) == key then CountPair(rows, s, c) else 0) +
              CountSeverity(WithoutPair(rows, s, c), key)
    ensures forall key :: CountCategory(rows, key) ==
              (if CategoryFromRank(c) == key then CountPair(rows, s, c) else 0) +
              CountCategory(WithoutPair(rows, s, c), key)
    ensures forall r :: r in WithoutPair(rows, s, c) <==> r in rows && !(r.severity == s && r.category == c)
  {
    if rows != [] {
      WithoutPairCounts(rows[1..], s, c);
      var rest := WithoutPair(rows, s, c);
      if !(rows[0].severity == s && rows[0].category == c) {
        assert rest[0] == rows[0] && rest[1..] == WithoutPair(rows[1..], s, c);
      } else {
        assert rest == WithoutPair(rows[1..], s, c);
      }
    }
  }

  /** Summing the grouped rows counts the ungrouped ones. */
  lemma {:induction false} GroupingConserves(rows: seq<CvRow>, agg: seq<AggRow>)
    requires IsGrouping(rows, agg)
    ensures SumAll(agg) == |rows|
    ensures forall key :: SumSeverity(agg, key) == CountSeverity(rows, key)
    ensures forall key :: SumCategory(agg, key) == CountCategory(rows, key)
    decreases |agg|
  {
    assert rows == [] || rows[0] in rows;
    if agg != [] {
      var rest := WithoutPair(rows, agg[0].severity, agg[0].category);
      WithoutPairCounts(rows, agg[0].severity, agg[0].category);
      var others := agg[1..];
      forall r | r in rest
        ensures exists i :: 0 <= i < |others| && others[i].severity == r.severity && others[i].category == r.category
      {
        var i :| 0 <= i < |agg| && agg[i].severity == r.severity && agg[i].category == r.category;
        assert others[i - 1] == agg[i];
      }
      GroupingConserves(rest, others);
    }
  }

  lemma {:induction false} BucketsPartition(rows: seq<CvRow>)
    ensures CountSeverity(rows, CriticalKey) + CountSeverity(rows, HighKey) + CountSeverity(rows, MediumKey) +
            CountSeverity(rows, LowKey) + CountSeverity(rows, InfoKey) + CountSeverity(rows, NoneKey) == |rows|
    ensures CountCategory(rows, Forbidden) + CountCategory(rows, Conditional) +
            CountCategory(rows, Allowed) + CountCategory(rows, UnknownCategory) == |rows|
  {
    if rows != [] { BucketsPartition(rows[1..]); }
  }

  lemma {:induction false} SumSnoc(agg: seq<AggRow>, row: AggRow)
    ensures SumAll(agg + [row]) == SumAll(agg) + row.n
    ensures forall key :: SumSeverity(agg + [row], key) ==
              SumSeverity(agg, key) + if SeverityFromRank(row.severity) == key then row.n else 0
    ensures forall key :: SumCategory(agg + [row], key) ==
              SumCategory(agg, key) + if CategoryFromRank(row.category) == key then row.n else 0
  {
    var all := agg + [row];
    if agg == [] {
      assert all[1..] == [];
    } else {
      assert all[1..] == agg[1..] + [row];
      SumSnoc(agg[1..], row);
    }
  }

  ghost predicate Tallied(agg: seq<AggRow>, severities: map<SeverityKey, nat>, categories: map<Category, nat>,
                          total: nat)
  {
    && (forall k :: k in severities && severities[k] == SumSeverity(agg, k))
    && (forall k :: k in categories && categories[k] == SumCategory(agg, k))
    && total == SumAll(agg)
  }

  /** The distribution loop: each bucket holds the number of component versions whose worst
      finding falls into it, and the buckets of either kind add up to the total. */
  method Distributions(agg: seq<AggRow>, ghost rows: seq<CvRow>)
    returns (severities: map<SeverityKey, nat>, categories: map<Category, nat>, total: nat)
    requires IsGrouping(rows, agg)
    ensures forall k :: k in severities && severities[k] == CountSeverity(rows, k)
    ensures forall k :: k in categories && categories[k] == CountCategory(rows, k)
    ensures total == |rows|
  {
    severities := map[CriticalKey := 0, HighKey := 0, MediumKey := 0, LowKey := 0, InfoKey := 0, NoneKey := 0];
    categories := map[Forbidden := 0, Conditional := 0, Allowed := 0, UnknownCategory := 0];
    total := 0;
    forall k: SeverityKey ensures k in severities && severities[k] == 0 {
      if {
        case k.CriticalKey? => case k.HighKey? => case k.MediumKey? =>
        case k.LowKey? => case k.InfoKey? => case k.NoneKey? =>
      }
    }
    forall k: Category ensures k in categories && categories[k] == 0 {
      if { case k.Forbidden? => case k.Conditional? => case k.Allowed? => case k.UnknownCategory? => }
    }
    for i := 0 to |agg|
      invariant Tallied(agg[..i], severities, categories, total)
    {
      var row := agg[i];
      assert agg[..i + 1] == agg[..i] + [row];
      SumSnoc(agg[..i], row);
      var s, c := SeverityFromRank(row.severity), CategoryFromRank(row.category);
      severities := severities[s := severities[s] + row.n];
      categories := categories[c := categories[c] + row.n];
      total := total + row.n;
    }
    assert agg[..|agg|] == agg;
    GroupingConserves(rows, agg);
  }

  lemma {:induction false} ObservedHasPath(rows: seq<ScanComponent>, scan: Id, cv: Id)
    ensures Paths(rows, scan, cv) > 0 <==> exists c :: c in rows && c.scan == scan && c.cv == cv
  {
    if rows != [] {
      ObservedHasPath(rows[1..], scan, cv);
      assert forall c :: c in rows <==> c == rows[0] || c in rows[1..];
    }
  }

  function CountWhere(rows: seq<CvRow>, p: CvRow -> bool): nat {
    if rows == [] then 0 else (if p(rows[0]) then 1 else 0) + CountWhere(rows[1..], p)
  }

  function CvsWhere(rows: seq<CvRow>, p: CvRow -> bool): set<Id> {
    if rows == [] then {} else (if p(rows[0]) then {rows[0].cv} else {}) + CvsWhere(rows[1..], p)
  }

  function SeverityIs(key: SeverityKey): CvRow -> bool { (r: CvRow) => SeverityFromRank(r.severity) == key }

  function CategoryIs(key: Category): CvRow -> bool { (r: CvRow) => CategoryFromRank(r.category) == key }

  function Any(): CvRow -> bool { (r: CvRow) => true }

  lemma {:induction false} CountsAsWhere(rows: seq<CvRow>, severity: SeverityKey, category: Category)
    ensures CountSeverity(rows, severity) == CountWhere(rows, SeverityIs(severity))
    ensures CountCategory(rows, category) == CountWhere(rows, CategoryIs(category))
    ensures |rows| == CountWhere(rows, Any())
  {
    if rows != [] { CountsAsWhere(rows[1..], severity, category); }
  }

  lemma {:induction false} CvsWhereMember(rows: seq<CvRow>, p: CvRow -> bool, cv: Id)
    ensures cv in CvsWhere(rows, p) <==> exists i :: 0 <= i < |rows| && rows[i].cv == cv && p(rows[i])
  {
    if rows != [] {
      CvsWhereMember(rows[1..], p, cv);
      if cv in CvsWhere(rows[1..], p) {
        var i :| 0 <= i < |rows[1..]| && rows[1..][i].cv == cv && p(rows[1..][i]);
        assert rows[i + 1] == rows[1..][i];
      }
      if i :| 0 <= i < |rows| && rows[i].cv == cv && p(rows[i]) {
        if i > 0 { assert rows[1..][i - 1] == rows[i]; }
      }
    }
  }

  lemma {:induction false} CountIsCardinality(rows: seq<CvRow>, p: CvRow -> bool)
    requires forall i, k :: 0 <= i < k < |rows| ==> rows[i].cv != rows[k].cv
    ensures CountWhere(rows, p) == |CvsWhere(rows, p)|
  {
    if rows != [] {
      CountIsCardinality(rows[1..], p);
      CvsWhereMember(rows[1..], p, rows[0].cv);
      assert rows[0].cv !in CvsWhere(rows[1..], p);
    }
  }

  /** A component version of the scan, with the ranks of its own detail page. */
  ghost predicate Observed(db: Database, scan: Id, cv: Id) {
    exists c :: c in db.components && c.scan == scan && c.cv == cv
  }

  function DetailRow(db: Database, scan: Id, cv: Id): CvRow {
    CvRow(cv, DetailSeverity(db, scan, cv), DetailCategory(db, scan, cv))
  }

  lemma PerCvRowsAreDetailPages(db: Database, scan: Id, rows: seq<CvRow>, p: CvRow -> bool, cv: Id)
    requires IsPerCv(db, scan, rows)
    ensures cv in CvsWhere(rows, p) <==> Observed(db, scan, cv) && p(DetailRow(db, scan, cv))
  {
    CvsWhereMember(rows, p, cv);
    ObservedHasPath(db.components, scan, cv);
    if Paths(db.components, scan, cv) > 0 { ListAgreesWithDetail(db, scan, cv); }
    forall i | 0 <= i < |rows| && rows[i].cv == cv ensures rows[i] == DetailRow(db, scan, cv) {
      assert rows[i] in rows;
    }
    if Observed(db, scan, cv) {
      var r :| r in rows && r.cv == cv;
    }
  }

  ghost function Versions(components: seq<ScanComponent>, scan: Id): set<Id> {
    set c | c in components && c.scan == scan :: c.cv
  }

  lemma VersionsAreObserved(db: Database, scan: Id, cv: Id)
    ensures cv in Versions(db.components, scan) <==> Observed(db, scan, cv)
  {
  }

  ghost function Where(db: Database, scan: Id, p: CvRow -> bool): set<Id> {
    set cv | cv in Versions(db.components, scan) && p(DetailRow(db, scan, cv))
  }

  lemma CountsDetailPages(db: Database, scan: Id, rows: seq<CvRow>, p: CvRow -> bool)
    requires IsPerCv(db, scan, rows)
    ensures CountWhere(rows, p) == |Where(db, scan, p)|
  {
    CountIsCardinality(rows, p);
    forall cv ensures cv in CvsWhere(rows, p) <==> cv in Where(db, scan, p) {
      PerCvRowsAreDetailPages(db, scan, rows, p, cv);
      VersionsAreObserved(db, scan, cv);
    }
    assert CvsWhere(rows, p) == Where(db, scan, p);
  }

  /** The overview's buckets count exactly the distinct component versions for which the detail
      queries, run on the same scan, give that severity or that category. */
  lemma OverviewCountsDetailPages(db: Database, scan: Id, rows: seq<CvRow>, severity: SeverityKey, category: Category)
    requires IsPerCv(db, scan, rows)
    ensures CountSeverity(rows, severity) == |Where(db, scan, SeverityIs(severity))|
    ensures CountCategory(rows, category) == |Where(db, scan, CategoryIs(category))|
  {
    CountsAsWhere(rows, severity, category);
    CountsDetailPages(db, scan, rows, SeverityIs(severity));
    CountsDetailPages(db, scan, rows, CategoryIs(category));
  }

  lemma AllRowsAreVersions(db: Database, scan: Id, rows: seq<CvRow>)
    requires IsPerCv(db, scan, rows)
    ensures CvsWhere(rows, Any()) == Versions(db.components, scan)
  {
    forall cv ensures cv in CvsWhere(rows, Any()) <==> cv in Versions(db.components, scan) {
      PerCvRowsAreDetailPages(db, scan, rows, Any(), cv);
      VersionsAreObserved(db, scan, cv);
    }
  }

  /** The total is the number of distinct component versions in the scan. */
  lemma TotalIsVersions(db: Database, scan: Id, rows: seq<CvRow>)
    requires IsPerCv(db, scan, rows)
    ensures |rows| == |Versions(db.components, scan)|
  {
    CountsAsWhere(rows, NoneKey, UnknownCategory);
    CountIsCardinality(rows, Any());
    AllRowsAreVersions(db, scan, rows);
  }

  /** So is the sum over either kind of bucket. */
  lemma BucketsSumToVersions(db: Database, scan: Id, rows: seq<CvRow>)
    requires IsPerCv(db, scan, rows)
    ensures CountSeverity(rows, CriticalKey) + CountSeverity(rows, HighKey) + CountSeverity(rows, MediumKey) +
            CountSeverity(rows, LowKey) + CountSeverity(rows, InfoKey) + CountSeverity(rows, NoneKey)
            == |Versions(db.components, scan)|
    ensures CountCategory(rows, Forbidden) + CountCategory(rows, Conditional) +
            CountCategory(rows, Allowed) + CountCategory(rows, UnknownCategory) == |Versions(db.components, scan)|
  {
    BucketsPartition(rows);
    TotalIsVersions(db, scan, rows);
  }

  // ----- Risk score -----

  const SEVERITY_WEIGHTS: seq<(SeverityKey, nat)> :=
    [(CriticalKey, 15), (HighKey, 5), (MediumKey, 1), (LowKey, 0), (InfoKey, 0), (NoneKey, 0)]
  const LICENSE_WEIGHTS: seq<(Category, nat)> :=
    [(Forbidden, 30), (Conditional, 5), (Allowed, 0), (UnknownCategory, 0)]
  const RISK_SCORE_CAP := 100.0

  function Bucket<K(==)>(counts: map<K, nat>, key: K): nat { if key in counts then counts[key] else 0 }

  /** The published formula. */
  function RiskScore(severities: map<SeverityKey, nat>, categories: map<Category, nat>): real {
    var weighted :=
      15 * Bucket(severities, CriticalKey) + 5 * Bucket(severities, HighKey) + Bucket(severities, MediumKey)
      + 30 * Bucket(categories, Forbidden) + 5 * Bucket(categories, Conditional);
    if weighted as real > RISK_SCORE_CAP then RISK_SCORE_CAP else weighted as real
  }

  function Weighted<K(==)>(counts: map<K, nat>, weights: seq<(K, nat)>): nat {
    if weights == [] then 0 else Bucket(counts, weights[0].0) * weights[0].1 + Weighted(counts, weights[1..])
  }

  lemma WeightedAt<K>(counts: map<K, nat>, weights: seq<(K, nat)>, i: nat)
    requires i < |weights|
    ensures Weighted(counts, weights[i..]) ==
      Bucket(counts, weights[i].0) * weights[i].1 + Weighted(counts, weights[i + 1..])
  {
    assert weights[i..][1..] == weights[i + 1..];
  }

  method ComputeRiskScore(severities: map<SeverityKey, nat>, categories: map<Category, nat>) returns (score: real)
    ensures score == RiskScore(severities, categories)
  {
    score := 0.0;
    for i := 0 to |SEVERITY_WEIGHTS|
      invariant score + Weighted(severities, SEVERITY_WEIGHTS[i..]) as real ==
                Weighted(severities, SEVERITY_WEIGHTS) as real
    {
      WeightedAt(severities, SEVERITY_WEIGHTS, i);
      score := score + (Bucket(severities, SEVERITY_WEIGHTS[i].0) * SEVERITY_WEIGHTS[i].1) as real;
    }
    ghost var half := score;
    for i := 0 to |LICENSE_WEIGHTS|
      invariant score + Weighted(categories, LICENSE_WEIGHTS[i..]) as real ==
                half + Weighted(categories, LICENSE_WEIGHTS) as real
    {
      WeightedAt(categories, LICENSE_WEIGHTS, i);
      score := score + (Bucket(categories, LICENSE_WEIGHTS[i].0) * LICENSE_WEIGHTS[i].1) as real;
    }
    SeverityWeightsMeanTheFormula(severities);
    LicenseWeightsMeanTheFormula(categories);
    score := if score < RISK_SCORE_CAP then score else RISK_SCORE_CAP;
  }

  lemma SeverityWeightsMeanTheFormula(counts: map<SeverityKey, nat>)
    ensures Weighted(counts, SEVERITY_WEIGHTS) ==
      15 * Bucket(counts, CriticalKey) + 5 * Bucket(counts, HighKey) + Bucket(counts, MediumKey)
  {
    var w := SEVERITY_WEIGHTS;
    assert w[0..] == w && w[6..] == [];
    WeightedAt(counts, w, 0);
    WeightedAt(counts, w, 1);
    WeightedAt(counts, w, 2);
    WeightedAt(counts, w, 3);
    WeightedAt(counts, w, 4);
    WeightedAt(counts, w, 5);
  }

  lemma LicenseWeightsMeanTheFormula(counts: map<Category, nat>)
    ensures Weighted(counts, LICENSE_WEIGHTS) == 30 * Bucket(counts, Forbidden) + 5 * Bucket(counts, Conditional)
  {
    var w := LICENSE_WEIGHTS;
    assert w[0..] == w && w[4..] == [];
    WeightedAt(counts, w, 0);
    WeightedAt(counts, w, 1);
    WeightedAt(counts, w, 2);
    WeightedAt(counts, w, 3);
  }

  /** The score lies between 0 and 100 and never falls when buckets grow. */
  lemma RiskScoreBounds(s: map<SeverityKey, nat>, c: map<Category, nat>,
                        s': map<SeverityKey, nat>, c': map<Category, nat>)
    ensures 0.0 <= RiskScore(s, c) <= 100.0
    ensures (forall k :: Bucket(s, k) <= Bucket(s', k)) && (forall k :: Bucket(c, k) <= Bucket(c', k)) ==>
      RiskScore(s, c) <= RiskScore(s', c')
  {
    if (forall k :: Bucket(s, k) <= Bucket(s', k)) && (forall k :: Bucket(c, k) <= Bucket(c', k)) {
      assert Bucket(s, CriticalKey) <= Bucket(s', CriticalKey) && Bucket(s, HighKey) <= Bucket(s', HighKey);
      assert Bucket(s, MediumKey) <= Bucket(s', MediumKey);
      assert Bucket(c, Forbidden) <= Bucket(c', Forbidden) && Bucket(c, Conditional) <= Bucket(c', Conditional);
    }
  }

  function SeverityWeight(key: SeverityKey): real {
    match key
    case CriticalKey => 15.0
    case HighKey => 5.0
    case MediumKey => 1.0
    case _ => 0.0
  }

  function CategoryWeight(key: Category): real {
    match key
    case Forbidden => 30.0
    case Conditional => 5.0
    case _ => 0.0
  }

  function Capped(x: real): real { if x > 100.0 then 100.0 else x }

  /** The score starts at 0, and one component more in a bucket adds that bucket's weight, up to
      100. That determines the score of all bucket counts. */
  lemma RiskScoreSteps(s: map<SeverityKey, nat>, c: map<Category, nat>, severity: SeverityKey, category: Category)
    ensures RiskScore(map[], map[]) == 0.0
    ensures RiskScore(s[severity := Bucket(s, severity) + 1], c) == Capped(RiskScore(s, c) + SeverityWeight(severity))
    ensures RiskScore(s, c[category := Bucket(c, category) + 1]) == Capped(RiskScore(s, c) + CategoryWeight(category))
  {
  }

  // ----- The licence on display -----

  datatype Pick = Pick(cv: Id, display: string, rank: nat)

  /** `rows[i]` is the first row of the highest rank among those of `cv`. */
  ghost predicate IsFirstBest(rows: seq<Pick>, cv: Id, i: nat) {
    && i < |rows| && rows[i].cv == cv
    && (forall k | 0 <= k < |rows| && rows[k].cv == cv :: rows[k].rank <= rows[i].rank)
    && (forall k | 0 <= k < i && rows[k].cv == cv :: rows[k].rank < rows[i].rank)
  }

  /** The drawer's loop. */
  method PickLicense(rows: seq<Pick>, cv: Id) returns (best: Option<(nat, string)>)
    requires forall r :: r in rows ==> r.cv == cv
    ensures best.None? <==> rows == []
    ensures best.Some? ==> exists i: nat :: IsFirstBest(rows, cv, i) && best.value == (rows[i].rank, rows[i].display)
  {
    best := None;
    ghost var at: nat := 0;
    for n := 0 to |rows|
      invariant best.None? <==> n == 0
      invariant best.Some? ==> IsFirstBest(rows[..n], cv, at) && best.value == (rows[at].rank, rows[at].display)
    {
      if best.None? || rows[n].rank > best.value.0 {
        best := Some((rows[n].rank, rows[n].display));
        at := n;
      }
    }
    assert rows[..|rows|] == rows;
  }

  /** `best` and `at` describe the first `n` rows. */
  ghost predicate BestSoFar(rows: seq<Pick>, n: nat, best: map<Id, (nat, string)>, at: map<Id, nat>)
    requires n <= |rows|
  {
    && best.Keys == at.Keys
    && (forall k | 0 <= k < n :: rows[k].cv in best)
    && (forall cv | cv in best ::
          IsFirstBest(rows[..n], cv, at[cv]) && best[cv] == (rows[at[cv]].rank, rows[at[cv]].display))
  }

  lemma BestExtends(rows: seq<Pick>, n: nat, cv: Id, at: nat)
    requires n < |rows| && IsFirstBest(rows[..n], cv, at)
    ensures rows[n].cv != cv || rows[n].rank <= rows[at].rank ==> IsFirstBest(rows[..n + 1], cv, at)
    ensures rows[n].cv == cv && rows[n].rank > rows[at].rank ==> IsFirstBest(rows[..n + 1], cv, n)
  {
    assert forall k :: 0 <= k < n ==> rows[..n + 1][k] == rows[..n][k];
  }

  lemma NewIsBest(rows: seq<Pick>, n: nat)
    requires n < |rows| && forall k :: 0 <= k < n ==> rows[k].cv != rows[n].cv
    ensures IsFirstBest(rows[..n + 1], rows[n].cv, n)
  {
  }

  /** The step of the loop, for a row that becomes its component version's best. */
  lemma BestReplaced(rows: seq<Pick>, n: nat, best: map<Id, (nat, string)>, at: map<Id, nat>)
    requires n < |rows| && BestSoFar(rows, n, best, at)
    requires rows[n].cv in best ==> rows[n].rank > best[rows[n].cv].0
    ensures BestSoFar(rows, n + 1, best[rows[n].cv := (rows[n].rank, rows[n].display)], at[rows[n].cv := n])
  {
    var row := rows[n];
    var best', at' := best[row.cv := (row.rank, row.display)], at[row.cv := n];
    forall cv | cv in best' ensures IsFirstBest(rows[..n + 1], cv, at'[cv]) {
      if cv in best { BestExtends(rows, n, cv, at[cv]); } else { NewIsBest(rows, n); }
    }
  }

  /** And for a row that does not. */
  lemma BestKept(rows: seq<Pick>, n: nat, best: map<Id, (nat, string)>, at: map<Id, nat>)
    requires n < |rows| && BestSoFar(rows, n, best, at)
    requires rows[n].cv in best && rows[n].rank <= best[rows[n].cv].0
    ensures BestSoFar(rows, n + 1, best, at)
  {
    forall cv | cv in best ensures IsFirstBest(rows[..n + 1], cv, at[cv]) { BestExtends(rows, n, cv, at[cv]); }
  }

  /** `best` holds, for exactly the component versions that occur, the first row of highest rank. */
  ghost predicate IsBest(rows: seq<Pick>, best: map<Id, (nat, string)>) {
    && (forall cv :: cv in best <==> exists i :: 0 <= i < |rows| && rows[i].cv == cv)
    && (forall cv :: cv in best ==>
          exists i: nat :: IsFirstBest(rows, cv, i) && best[cv] == (rows[i].rank, rows[i].display))
  }

  /** The list's loop, over the rows of all component versions on the page. */
  method PickLicenses(rows: seq<Pick>) returns (best: map<Id, (nat, string)>)
    ensures IsBest(rows, best)
  {
    best := map[];
    ghost var at: map<Id, nat> := map[];
    for n := 0 to |rows|
      invariant BestSoFar(rows, n, best, at)
    {
      var row := rows[n];
      if row.cv !in best || row.rank > best[row.cv].0 {
        BestReplaced(rows, n, best, at);
        best := best[row.cv := (row.rank, row.display)];
        at := at[row.cv := n];
      } else {
        BestKept(rows, n, best, at);
      }
    }
    assert rows[..|rows|] == rows;
  }

  function Display(l: License): string {
    if l.spdxId.Some? && l.spdxId.value != "" then l.spdxId.value else l.name
  }

  /** What the display query returns for the findings of one component version. */
  function Picks(db: Database, fs: seq<Finding>): seq<Pick> {
    if fs == [] then []
    else
      (if fs[0].subject in db.licenses
       then [Pick(fs[0].cv, Display(db.licenses[fs[0].subject]), CategoryRank(db.licenses[fs[0].subject].category))]
       else []) + Picks(db, fs[1..])
  }

  function PicksOf(db: Database, scan: Id, cv: Id): seq<Pick> {
    Picks(db, LicensesOf(db, scan, cv))
  }

  lemma {:induction false} PickRanks(db: Database, fs: seq<Finding>)
    ensures
      var picks := Picks(db, fs);
      KnownRanks(CategoryOf(db), fs) == seq(|picks|, i requires 0 <= i < |picks| => picks[i].rank)
  {
    if fs != [] { PickRanks(db, fs[1..]); }
  }

  lemma {:induction false} PickCvs(db: Database, fs: seq<Finding>, cv: Id)
    requires forall f :: f in fs ==> f.cv == cv
    ensures forall p :: p in Picks(db, fs) ==> p.cv == cv
  {
    if fs != [] { PickCvs(db, fs[1..], cv); }
  }

  /** `rows` is an answer to the display query for a page of component versions, in any order.
      The drawer asks for a page of one. */
  ghost predicate IsAnswer(db: Database, scan: Id, page: set<Id>, rows: seq<Pick>) {
    forall p: Pick :: multiset(rows)[p] == if p.cv in page then multiset(PicksOf(db, scan, p.cv))[p] else 0
  }

  lemma AnswerMembers(db: Database, scan: Id, page: set<Id>, rows: seq<Pick>, p: Pick)
    requires IsAnswer(db, scan, page, rows)
    ensures p in rows <==> p.cv in page && p in PicksOf(db, scan, p.cv)
  {
    assert p in rows <==> multiset(rows)[p] > 0;
    assert p in PicksOf(db, scan, p.cv) <==> multiset(PicksOf(db, scan, p.cv))[p] > 0;
  }

  /** The picks of a version never rank above its category, and one reaches it unless it is 0. */
  lemma TopPick(db: Database, scan: Id, cv: Id)
    ensures forall p :: p in PicksOf(db, scan, cv) ==> p.cv == cv && p.rank <= DetailCategory(db, scan, cv)
    ensures DetailCategory(db, scan, cv) != 0 ==>
      exists p :: p in PicksOf(db, scan, cv) && p.rank == DetailCategory(db, scan, cv)
  {
    var fs := LicensesOf(db, scan, cv);
    var picks, ranks := Picks(db, fs), KnownRanks(CategoryOf(db), fs);
    PickRanks(db, fs);
    PickCvs(db, fs, cv);
    forall k | 0 <= k < |picks| ensures picks[k].rank <= MaxRank(ranks) {
      assert ranks[k] == picks[k].rank && ranks[k] in ranks;
    }
    if MaxRank(ranks) != 0 {
      var k :| 0 <= k < |ranks| && ranks[k] == MaxRank(ranks);
      assert picks[k] in picks;
    }
  }

  /** Whatever order the database returns the rows of the page in, the licence displayed for each
      of its versions has the rank of the category that the list and the drawer report. */
  lemma DisplayHasReportedCategory(db: Database, scan: Id, page: set<Id>, rows: seq<Pick>, cv: Id, i: nat)
    requires IsAnswer(db, scan, page, rows) && cv in page && IsFirstBest(rows, cv, i)
    ensures rows[i].rank == DetailCategory(db, scan, cv)
    ensures Paths(db.components, scan, cv) > 0 ==> rows[i].rank == ListCategory(db, scan, cv)
  {
    TopPick(db, scan, cv);
    AnswerMembers(db, scan, page, rows, rows[i]);
    if DetailCategory(db, scan, cv) != 0 {
      var p :| p in PicksOf(db, scan, cv) && p.rank == DetailCategory(db, scan, cv);
      AnswerMembers(db, scan, page, rows, p);
      var k :| 0 <= k < |rows| && rows[k] == p;
    }
    if Paths(db.components, scan, cv) > 0 { ListAgreesWithDetail(db, scan, cv); }
  }

  /** So what the list's loop returns names a licence for exactly the versions that have one, of
      the rank reported beside it. */
  lemma ListDisplaysReportedCategory(db: Database, scan: Id, page: set<Id>, rows: seq<Pick>,
                                     best: map<Id, (nat, string)>)
    requires IsAnswer(db, scan, page, rows) && IsBest(rows, best)
    ensures forall cv :: cv in best <==> cv in page && PicksOf(db, scan, cv) != []
    ensures forall cv :: cv in best && Paths(db.components, scan, cv) > 0 ==> best[cv].0 == ListCategory(db, scan, cv)
  {
    forall cv ensures cv in best <==> cv in page && PicksOf(db, scan, cv) != [] {
      TopPick(db, scan, cv);
      if cv in best {
        var i :| 0 <= i < |rows| && rows[i].cv == cv;
        AnswerMembers(db, scan, page, rows, rows[i]);
      }
      if cv in page && PicksOf(db, scan, cv) != [] {
        var p := PicksOf(db, scan, cv)[0];
        assert p in PicksOf(db, scan, cv);
        AnswerMembers(db, scan, page, rows, p);
        var i :| 0 <= i < |rows| && rows[i] == p;
      }
    }
    forall cv | cv in best && Paths(db.components, scan, cv) > 0 ensures best[cv].0 == ListCategory(db, scan, cv) {
      var i: nat :| IsFirstBest(rows, cv, i) && best[cv] == (rows[i].rank, rows[i].display);
      DisplayHasReportedCategory(db, scan, page, rows, cv, i);
    }
  }

  /** The pick is of this finding's licence, which is shown by its SPDX id, or by its name when it
      has none. */
  predicate Names(db: Database, f: Finding, p: Pick) {
    && f.subject in db.licenses && p.cv == f.cv
    && var l := db.licenses[f.subject];
    && p.display == (if l.spdxId == None || l.spdxId == Some("") then l.name else l.spdxId.value)
    && CategoryRank(l.category) == p.rank
  }

  lemma {:induction false} PicksName(db: Database, fs: seq<Finding>, p: Pick)
    ensures p in Picks(db, fs) <==> exists f :: f in fs && Names(db, f, p)
  {
    if fs != [] {
      var f, rest := fs[0], Picks(db, fs[1..]);
      PicksName(db, fs[1..], p);
      assert p in Picks(db, fs) <==> Names(db, f, p) || p in rest;
      assert forall f :: f in fs <==> f == fs[0] || f in fs[1..];
    }
  }

  /** What is displayed for a version is the name of one of its own licences of the reported category. */
  lemma DisplayNamesALicence(db: Database, scan: Id, page: set<Id>, rows: seq<Pick>, best: map<Id, (nat, string)>,
                             cv: Id)
    requires IsAnswer(db, scan, page, rows) && IsBest(rows, best) && cv in best
    ensures
      var shown := Pick(cv, best[cv].1, DetailCategory(db, scan, cv));
      exists f :: f in LicensesOf(db, scan, cv) && Names(db, f, shown)
  {
    ListDisplaysReportedCategory(db, scan, page, rows, best);
    var i: nat :| IsFirstBest(rows, cv, i) && best[cv] == (rows[i].rank, rows[i].display);
    DisplayHasReportedCategory(db, scan, page, rows, cv, i);
    AnswerMembers(db, scan, page, rows, rows[i]);
    PicksName(db, LicensesOf(db, scan, cv), rows[i]);
  }

  // ----- The order of the rows -----

  ghost predicate OrderIndependent(db: Database, scan: Id, page: set<Id>, cv: Id) {
    forall a: seq<Pick>, b: seq<Pick>, i: nat, k: nat |
      && IsAnswer(db, scan, page, a) && IsAnswer(db, scan, page, b)
      && IsFirstBest(a, cv, i) && IsFirstBest(b, cv, k) ::
      a[i].display == b[k].display
  }

  ghost predicate IsTop(picks: seq<Pick>, p: Pick) { p in picks && forall r :: r in picks ==> r.rank <= p.rank }

  ghost predicate OneTopName(picks: seq<Pick>) {
    forall p, q | IsTop(picks, p) && IsTop(picks, q) :: p.display == q.display
  }

  /** Every page has an answer. */
  lemma {:induction false} AnswerExists(db: Database, scan: Id, page: set<Id>) returns (rows: seq<Pick>)
    ensures IsAnswer(db, scan, page, rows)
    decreases page
  {
    if page == {} {
      rows := [];
    } else {
      var x :| x in page;
      var rest := AnswerExists(db, scan, page - {x});
      var own := PicksOf(db, scan, x);
      rows := own + rest;
      TopPick(db, scan, x);
      forall p: Pick
        ensures multiset(rows)[p] == if p.cv in page then multiset(PicksOf(db, scan, p.cv))[p] else 0
      {
        assert multiset(rows)[p] == multiset(own)[p] + multiset(rest)[p];
        if p.cv != x { assert p !in own && p !in multiset(own); }
      }
    }
  }

  lemma MovedToFront(picks: seq<Pick>, i: nat) returns (rows: seq<Pick>)
    requires i < |picks|
    ensures multiset(rows) == multiset(picks) && |rows| > 0 && rows[0] == picks[i]
  {
    rows := [picks[i]] + (picks[..i] + picks[i + 1..]);
    assert picks == picks[..i] + ([picks[i]] + picks[i + 1..]);
  }

  /** Every licence of a version's highest rank comes first in some answer. */
  lemma CanComeFirst(db: Database, scan: Id, page: set<Id>, cv: Id, p: Pick) returns (rows: seq<Pick>)
    requires cv in page && IsTop(PicksOf(db, scan, cv), p)
    ensures IsAnswer(db, scan, page, rows) && IsFirstBest(rows, cv, 0) && rows[0] == p
  {
    var some := AnswerExists(db, scan, page);
    TopPick(db, scan, cv);
    AnswerMembers(db, scan, page, some, p);
    var i :| 0 <= i < |some| && some[i] == p;
    rows := MovedToFront(some, i);
    assert IsAnswer(db, scan, page, rows);
    forall k | 0 <= k < |rows| && rows[k].cv == cv ensures rows[k].rank <= p.rank {
      AnswerMembers(db, scan, page, rows, rows[k]);
    }
  }

  lemma FirstBestIsTop(db: Database, scan: Id, page: set<Id>, cv: Id, rows: seq<Pick>, i: nat)
    requires IsAnswer(db, scan, page, rows) && cv in page && IsFirstBest(rows, cv, i)
    ensures IsTop(PicksOf(db, scan, cv), rows[i])
  {
    AnswerMembers(db, scan, page, rows, rows[i]);
    TopPick(db, scan, cv);
    forall r | r in PicksOf(db, scan, cv) ensures r.rank <= rows[i].rank {
      AnswerMembers(db, scan, page, rows, r);
      var k :| 0 <= k < |rows| && rows[k] == r;
    }
  }

  /** The query has no ORDER BY: the name displayed for a version of the page is determined exactly
      when all its licences of the worst category found share one name. */
  lemma DisplayIsDeterminedIff(db: Database, scan: Id, page: set<Id>, cv: Id)
    requires cv in page
    ensures OrderIndependent(db, scan, page, cv) <==> OneTopName(PicksOf(db, scan, cv))
  {
    var picks := PicksOf(db, scan, cv);
    forall p, q | OrderIndependent(db, scan, page, cv) && IsTop(picks, p) && IsTop(picks, q)
      ensures p.display == q.display
    {
      var a := CanComeFirst(db, scan, page, cv, p);
      var b := CanComeFirst(db, scan, page, cv, q);
    }
    forall a: seq<Pick>, b: seq<Pick>, i: nat, k: nat |
      && IsAnswer(db, scan, page, a) && IsAnswer(db, scan, page, b)
      && IsFirstBest(a, cv, i) && IsFirstBest(b, cv, k)
      ensures IsTop(picks, a[i]) && IsTop(picks, b[k])
    {
      FirstBestIsTop(db, scan, page, cv, a, i);
      FirstBestIsTop(db, scan, page, cv, b, k);
    }
  }

  /** One version under two allowed licences. */
  const TWO_LICENSES := Database(
    [ScanComponent(0, 0, None)], [], map[], [Finding(0, 0, 0, 0), Finding(1, 0, 0, 1)],
    map[0 := License(Some("MIT"), "", Allowed), 1 := License(Some("ISC"), "", Allowed)])

  lemma TwoPicks()
    ensures PicksOf(TWO_LICENSES, 0, 0) == [Pick(0, "MIT", 1), Pick(0, "ISC", 1)]
  {
    var db := TWO_LICENSES;
    var f, g := db.licenseFindings[0], db.licenseFindings[1];
    assert [f, g][1..] == [g] && [g][1..] == [];
    assert FindingsOf([g], 0, 0) == [g];
    assert FindingsOf([f, g], 0, 0) == [f, g];
    assert Picks(db, [g]) == [Pick(0, "ISC", 1)];
    assert Picks(db, [f, g]) == [Pick(0, "MIT", 1)] + Picks(db, [g]);
  }

  /** Either name may be displayed for it. */
  lemma DisplayDependsOnOrder()
    ensures !OrderIndependent(TWO_LICENSES, 0, {0}, 0)
  {
    var picks, p, q := PicksOf(TWO_LICENSES, 0, 0), Pick(0, "MIT", 1), Pick(0, "ISC", 1);
    TwoPicks();
    assert picks[0] == p && picks[1] == q && IsTop(picks, p) && IsTop(picks, q);
    assert p.display[0] != q.display[0];
    assert !OneTopName(picks);
    DisplayIsDeterminedIff(TWO_LICENSES, 0, {0}, 0);
  }
}
