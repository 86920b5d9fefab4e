/** The list and overview endpoints read severity, licence category and finding count from one
    fan-out join; the detail endpoint reads them from one query per table. */
module ScanJoin {
  import opened Options

  type Id = nat

  datatype Severity = Critical | High | Medium | Low | Info | UnknownSeverity
  datatype Category = Forbidden | Conditional | Allowed | UnknownCategory

  datatype ScanComponent = ScanComponent(scan: Id, cv: Id, path: Option<string>)
  /** A row of either findings table; `subject` is the vulnerability or the licence. */
  datatype Finding = Finding(id: Id, scan: Id, cv: Id, subject: Id)
  datatype Vulnerability = Vulnerability(externalId: string, severity: Severity)
  datatype License = License(spdxId: Option<string>, name: string, category: Category)

  datatype Database = Database(
    components: seq<ScanComponent>,
    vulnFindings: seq<Finding>, vulns: map<Id, Vulnerability>,
    licenseFindings: seq<Finding>, licenses: map<Id, License>)

  function SeverityRank(s: Severity): nat {
    match s
    case Critical => 5
    case High => 4
    case Medium => 3
    case Low => 2
    case Info => 1
    case UnknownSeverity => 1
  }

  function CategoryRank(c: Category): nat {
    match c
    case Forbidden => 3
    case Conditional => 2
    case Allowed => 1
    case UnknownCategory => 0
  }

  // ----- Rows of one component version in one scan -----

  function FindingsOf(rows: seq<Finding>, scan: Id, cv: Id): (r: seq<Finding>)
    ensures forall f :: multiset(r)[f] == if f.scan == scan && f.cv == cv then multiset(rows)[f] else 0
    ensures forall f :: f in r <==> f in rows && f.scan == scan && f.cv == cv
  {
    if rows == [] then []
    else
      assert rows == [rows[0]] + rows[1..];
      (if rows[0].scan == scan && rows[0].cv == cv then [rows[0]] else []) + FindingsOf(rows[1..], scan, cv)
  }

  function VulnsOf(db: Database, scan: Id, cv: Id): seq<Finding> { FindingsOf(db.vulnFindings, scan, cv) }

  function LicensesOf(db: Database, scan: Id, cv: Id): seq<Finding> { FindingsOf(db.licenseFindings, scan, cv) }

  /** Dependency paths at which the component version was observed. */
  function Paths(rows: seq<ScanComponent>, scan: Id, cv: Id): nat {
    if rows == [] then 0
    else (if rows[0].scan == scan && rows[0].cv == cv then 1 else 0) + Paths(rows[1..], scan, cv)
  }

  // ----- The outer joins -----

  /** One joined row; a missing right-hand side is NULL. */
  datatype Joined = Joined(cv: Id, finding: Option<Finding>, license: Option<Finding>)

  /** The rank of a finding, if its catalogue row exists. */
  type Ranking = Finding -> Option<nat>

  function SeverityOf(db: Database): Ranking {
    (f: Finding) => if f.subject in db.vulns then Some(SeverityRank(db.vulns[f.subject].severity)) else None
  }

  function CategoryOf(db: Database): Ranking {
    (f: Finding) => if f.subject in db.licenses then Some(CategoryRank(db.licenses[f.subject].category)) else None
  }

  /** The CASE expression over a joined row: NULL ranks 0. */
  function JoinedRank(rank: Ranking, f: Option<Finding>): nat {
    if f.Some? && rank(f.value).Some? then rank(f.value).value else 0
  }

  /** What a left outer join leaves of the right-hand matches. */
  function OrNull<T>(xs: seq<T>): seq<Option<T>> {
    if xs == [] then [None] else seq(|xs|, i requires 0 <= i < |xs| => Some(xs[i]))
  }

  function WithLicenses(cv: Id, v: Option<Finding>, ls: seq<Option<Finding>>): seq<Joined> {
    seq(|ls|, i requires 0 <= i < |ls| => Joined(cv, v, ls[i]))
  }

  function Cross(cv: Id, vs: seq<Option<Finding>>, ls: seq<Option<Finding>>): seq<Joined> {
    if vs == [] then [] else WithLicenses(cv, vs[0], ls) + Cross(cv, vs[1..], ls)
  }

  /** The joined rows of one scan-component row. */
  function Block(db: Database, scan: Id, cv: Id): seq<Joined> {
    Cross(cv, OrNull(VulnsOf(db, scan, cv)), OrNull(LicensesOf(db, scan, cv)))
  }

  function JoinWith(block: Id -> seq<Joined>, scan: Id, components: seq<ScanComponent>): seq<Joined> {
    if components == [] then []
    else (if components[0].scan == scan then block(components[0].cv) else []) + JoinWith(block, scan, components[1..])
  }

  function BlockOf(db: Database, scan: Id): Id -> seq<Joined> { (cv: Id) => Block(db, scan, cv) }

  function JoinAll(db: Database, scan: Id, components: seq<ScanComponent>): seq<Joined> {
    JoinWith(BlockOf(db, scan), scan, components)
  }

  /** The group that GROUP BY makes for `cv`. */
  function GroupOf(rows: seq<Joined>, cv: Id): seq<Joined> {
    if rows == [] then [] else (if rows[0].cv == cv then [rows[0]] else []) + GroupOf(rows[1..], cv)
  }

  /** COALESCE(MAX(rank), 0). */
  function MaxRank(ranks: seq<nat>): (m: nat)
    ensures forall r :: r in ranks ==> r <= m
    ensures m != 0 ==> m in ranks
  {
    if ranks == [] then 0
    else
      var rest := MaxRank(ranks[1..]);
      assert forall r :: r in ranks <==> r == ranks[0] || r in ranks[1..];
      if ranks[0] >= rest then ranks[0] else rest
  }

  function FindingColumn(rows: seq<Joined>): seq<Option<Finding>> {
    seq(|rows|, i requires 0 <= i < |rows| => rows[i].finding)
  }

  function LicenseColumn(rows: seq<Joined>): seq<Option<Finding>> {
    seq(|rows|, i requires 0 <= i < |rows| => rows[i].license)
  }

  function ColumnRanks(rank: Ranking, column: seq<Option<Finding>>): seq<nat> {
    seq(|column|, i requires 0 <= i < |column| => JoinedRank(rank, column[i]))
  }

  /** COUNT(vulnerability_findings.id): NULLs are not counted. */
  function CountFindings(rows: seq<Joined>): nat {
    if rows == [] then 0 else (if rows[0].finding.Some? then 1 else 0) + CountFindings(rows[1..])
  }

  function Group(db: Database, scan: Id, cv: Id): seq<Joined> { GroupOf(JoinAll(db, scan, db.components), cv) }

  /** What the list and overview endpoints report for `cv`. */
  function ListSeverity(db: Database, scan: Id, cv: Id): nat {
    MaxRank(ColumnRanks(SeverityOf(db), FindingColumn(Group(db, scan, cv))))
  }

  function ListCategory(db: Database, scan: Id, cv: Id): nat {
    MaxRank(ColumnRanks(CategoryOf(db), LicenseColumn(Group(db, scan, cv))))
  }

  function ListVulnCount(db: Database, scan: Id, cv: Id): nat {
    CountFindings(Group(db, scan, cv))
  }

  // ----- The detail endpoint -----

  /** Inner joins: findings without a catalogue row drop out. */
  function KnownRanks(rank: Ranking, fs: seq<Finding>): seq<nat> {
    if fs == [] then []
    else (if rank(fs[0]).Some? then [rank(fs[0]).value] else []) + KnownRanks(rank, fs[1..])
  }

  function DetailSeverity(db: Database, scan: Id, cv: Id): nat {
    MaxRank(KnownRanks(SeverityOf(db), VulnsOf(db, scan, cv)))
  }

  function DetailCategory(db: Database, scan: Id, cv: Id): nat {
    MaxRank(KnownRanks(CategoryOf(db), LicensesOf(db, scan, cv)))
  }

  // ----- The join form equals the simple form -----

  function Repeat<T>(xs: seq<T>, n: nat): seq<T> {
    if n == 0 then [] else xs + Repeat(xs, n - 1)
  }

  lemma {:induction false} CrossHasCv(cv: Id, vs: seq<Option<Finding>>, ls: seq<Option<Finding>>)
    ensures forall r :: r in Cross(cv, vs, ls) ==> r.cv == cv
  {
    if vs != [] { CrossHasCv(cv, vs[1..], ls); }
  }

  lemma {:induction false} GroupOfConcat(a: seq<Joined>, b: seq<Joined>, cv: Id)
    ensures GroupOf(a + b, cv) == GroupOf(a, cv) + GroupOf(b, cv)
  {
    if a == [] {
      assert a + b == b;
    } else {
      var own := if a[0].cv == cv then [a[0]] else [];
      assert (a + b)[0] == a[0] && (a + b)[1..] == a[1..] + b;
      GroupOfConcat(a[1..], b, cv);
      assert own + (GroupOf(a[1..], cv) + GroupOf(b, cv)) == (own + GroupOf(a[1..], cv)) + GroupOf(b, cv);
    }
  }

  lemma {:induction false} GroupOfUniform(rows: seq<Joined>, own: Id, cv: Id)
    requires forall r :: r in rows ==> r.cv == own
    ensures GroupOf(rows, cv) == if own == cv then rows else []
  {
    if rows != [] { GroupOfUniform(rows[1..], own, cv); }
  }

  /** What one scan-component row adds to a group. */
  lemma GroupOfBlock(block: seq<Joined>, own: Id, rest: seq<Joined>, cv: Id)
    requires forall r :: r in block ==> r.cv == own
    ensures GroupOf(block + rest, cv) == if own == cv then block + GroupOf(rest, cv) else GroupOf(rest, cv)
  {
    GroupOfUniform(block, own, cv);
    GroupOfConcat(block, rest, cv);
    assert [] + GroupOf(rest, cv) == GroupOf(rest, cv);
  }

  lemma {:induction false} GroupRepeats(block: Id -> seq<Joined>, scan: Id, components: seq<ScanComponent>, cv: Id)
    requires forall own, r :: r in block(own) ==> r.cv == own
    ensures GroupOf(JoinWith(block, scan, components), cv) == Repeat(block(cv), Paths(components, scan, cv))
  {
    if components != [] {
      var c, rest := components[0], JoinWith(block, scan, components[1..]);
      GroupRepeats(block, scan, components[1..], cv);
      if c.scan == scan {
        GroupOfBlock(block(c.cv), c.cv, rest, cv);
      } else {
        assert [] + rest == rest;
      }
    }
  }

  /** A group is the block of its component version, once per dependency path. */
  lemma GroupIsRepeatedBlock(db: Database, scan: Id, components: seq<ScanComponent>, cv: Id)
    ensures GroupOf(JoinAll(db, scan, components), cv) == Repeat(Block(db, scan, cv), Paths(components, scan, cv))
  {
    var block := BlockOf(db, scan);
    forall own, r | r in block(own) ensures r.cv == own {
      CrossHasCv(own, OrNull(VulnsOf(db, scan, own)), OrNull(LicensesOf(db, scan, own)));
    }
    GroupRepeats(block, scan, components, cv);
  }

  /** The maximum only depends on which non-zero ranks occur. */
  lemma MaxRankOfSameRanks(a: seq<nat>, b: seq<nat>)
    requires forall r :: r != 0 ==> (r in a <==> r in b)
    ensures MaxRank(a) == MaxRank(b)
  {
  }

  lemma {:induction false} RepeatMembers<T>(xs: seq<T>, n: nat)
    requires n > 0
    ensures forall x :: x in Repeat(xs, n) <==> x in xs
  {
    if n > 1 { RepeatMembers(xs, n - 1); }
  }

  lemma {:induction false} CrossMembers(cv: Id, vs: seq<Option<Finding>>, ls: seq<Option<Finding>>)
    ensures forall v, l :: Joined(cv, v, l) in Cross(cv, vs, ls) <==> v in vs && l in ls
  {
    if vs != [] {
      CrossMembers(cv, vs[1..], ls);
      var first := WithLicenses(cv, vs[0], ls);
      assert Cross(cv, vs, ls) == first + Cross(cv, vs[1..], ls);
      forall v, l ensures Joined(cv, v, l) in first <==> v == vs[0] && l in ls {
        if l in ls {
          var i :| 0 <= i < |ls| && ls[i] == l;
          assert first[i] == Joined(cv, vs[0], l);
        }
      }
      assert forall v :: v in vs <==> v == vs[0] || v in vs[1..];
    }
  }

  lemma OrNullMembers<T>(xs: seq<T>)
    ensures |OrNull(xs)| == if xs == [] then 1 else |xs|
    ensures forall x :: Some(x) in OrNull(xs) <==> x in xs
    ensures None in OrNull(xs) <==> xs == []
  {
    forall x | x in xs ensures Some(x) in OrNull(xs) {
      var i :| 0 <= i < |xs| && xs[i] == x;
      assert OrNull(xs)[i] == Some(x);
    }
  }

  lemma {:induction false} KnownRanksMember(rank: Ranking, fs: seq<Finding>, r: nat)
    ensures r in KnownRanks(rank, fs) <==> exists f :: f in fs && rank(f) == Some(r)
  {
    if fs != [] {
      KnownRanksMember(rank, fs[1..], r);
      assert fs[0] in fs && forall f :: f in fs <==> f == fs[0] || f in fs[1..];
      assert rank(fs[0]) == Some(r) <==> r in KnownRanks(rank, fs[..1]);
    }
  }

  /** `rows` holds exactly the pairs of `vs` and `ls` for `cv`. */
  ghost predicate IsCross(rows: seq<Joined>, cv: Id, vs: seq<Option<Finding>>, ls: seq<Option<Finding>>) {
    && (forall v, l :: Joined(cv, v, l) in rows <==> v in vs && l in ls)
    && (forall r :: r in rows ==> r.cv == cv)
  }

  lemma GroupIsCross(db: Database, scan: Id, cv: Id)
    requires Paths(db.components, scan, cv) > 0
    ensures IsCross(Group(db, scan, cv), cv, OrNull(VulnsOf(db, scan, cv)), OrNull(LicensesOf(db, scan, cv)))
  {
    var vs, ls := OrNull(VulnsOf(db, scan, cv)), OrNull(LicensesOf(db, scan, cv));
    GroupIsRepeatedBlock(db, scan, db.components, cv);
    RepeatMembers(Block(db, scan, cv), Paths(db.components, scan, cv));
    CrossMembers(cv, vs, ls);
    CrossHasCv(cv, vs, ls);
  }

  lemma FindingColumnMembers(rows: seq<Joined>, cv: Id, vs: seq<Option<Finding>>, ls: seq<Option<Finding>>)
    requires IsCross(rows, cv, vs, ls) && ls != []
    ensures forall v :: v in FindingColumn(rows) <==> v in vs
  {
    forall v | v in vs ensures v in FindingColumn(rows) {
      var i :| 0 <= i < |rows| && rows[i] == Joined(cv, v, ls[0]);
      assert FindingColumn(rows)[i] == v;
    }
    forall i | 0 <= i < |rows| ensures FindingColumn(rows)[i] in vs {
      assert rows[i] in rows && rows[i] == Joined(cv, rows[i].finding, rows[i].license);
    }
  }

  lemma LicenseColumnMembers(rows: seq<Joined>, cv: Id, vs: seq<Option<Finding>>, ls: seq<Option<Finding>>)
    requires IsCross(rows, cv, vs, ls) && vs != []
    ensures forall l :: l in LicenseColumn(rows) <==> l in ls
  {
    forall l | l in ls ensures l in LicenseColumn(rows) {
      var i :| 0 <= i < |rows| && rows[i] == Joined(cv, vs[0], l);
      assert LicenseColumn(rows)[i] == l;
    }
    forall i | 0 <= i < |rows| ensures LicenseColumn(rows)[i] in ls {
      assert rows[i] in rows && rows[i] == Joined(cv, rows[i].finding, rows[i].license);
    }
  }

  /** The maximum over an outer-joined column is the maximum over the findings themselves. */
  lemma SameMax(rank: Ranking, fs: seq<Finding>, column: seq<Option<Finding>>)
    requires forall o :: o in column <==> o in OrNull(fs)
    ensures MaxRank(ColumnRanks(rank, column)) == MaxRank(KnownRanks(rank, fs))
  {
    var ranks := ColumnRanks(rank, column);
    OrNullMembers(fs);
    forall r: nat | r != 0 ensures r in ranks <==> r in KnownRanks(rank, fs) {
      KnownRanksMember(rank, fs, r);
      if r in ranks {
        var i :| 0 <= i < |ranks| && ranks[i] == r;
        assert column[i] in column && column[i] == Some(column[i].value);
      }
      if f :| f in fs && rank(f) == Some(r) {
        assert Some(f) in column;
        var i :| 0 <= i < |column| && column[i] == Some(f);
        assert ranks[i] == r;
      }
    }
    MaxRankOfSameRanks(ranks, KnownRanks(rank, fs));
  }

  /** Within one scan, the three-way join and the two separate queries give the same worst
      severity and licence category for every component version of that scan. */
  lemma ListAgreesWithDetail(db: Database, scan: Id, cv: Id)
    requires Paths(db.components, scan, cv) > 0
    ensures ListSeverity(db, scan, cv) == DetailSeverity(db, scan, cv)
    ensures ListCategory(db, scan, cv) == DetailCategory(db, scan, cv)
  {
    var vs, ls := OrNull(VulnsOf(db, scan, cv)), OrNull(LicensesOf(db, scan, cv));
    GroupIsCross(db, scan, cv);
    FindingColumnMembers(Group(db, scan, cv), cv, vs, ls);
    LicenseColumnMembers(Group(db, scan, cv), cv, vs, ls);
    SameMax(SeverityOf(db), VulnsOf(db, scan, cv), FindingColumn(Group(db, scan, cv)));
    SameMax(CategoryOf(db), LicensesOf(db, scan, cv), LicenseColumn(Group(db, scan, cv)));
  }

  // ----- The finding count -----

  lemma {:induction false} CountConcat(a: seq<Joined>, b: seq<Joined>)
    ensures CountFindings(a + b) == CountFindings(a) + CountFindings(b)
  {
    if a == [] {
      assert a + b == b;
    } else {
      assert (a + b)[1..] == a[1..] + b;
      CountConcat(a[1..], b);
    }
  }

  lemma {:induction false} CountRepeat(xs: seq<Joined>, n: nat)
    ensures CountFindings(Repeat(xs, n)) == n * CountFindings(xs)
  {
    if n > 0 {
      CountConcat(xs, Repeat(xs, n - 1));
      CountRepeat(xs, n - 1);
      assert n * CountFindings(xs) == (n - 1) * CountFindings(xs) + CountFindings(xs);
    }
  }

  lemma {:induction false} CountUniform(rows: seq<Joined>, some: bool)
    requires forall r :: r in rows ==> r.finding.Some? == some
    ensures CountFindings(rows) == if some then |rows| else 0
  {
    if rows != [] { CountUniform(rows[1..], some); }
  }

  lemma {:induction false} CountCross(cv: Id, vs: seq<Option<Finding>>, ls: seq<Option<Finding>>)
    requires forall v :: v in vs ==> v.Some?
    ensures CountFindings(Cross(cv, vs, ls)) == |vs| * |ls|
  {
    if vs != [] {
      CountConcat(WithLicenses(cv, vs[0], ls), Cross(cv, vs[1..], ls));
      CountUniform(WithLicenses(cv, vs[0], ls), true);
      CountCross(cv, vs[1..], ls);
      assert |vs| * |ls| == |vs[1..]| * |ls| + |ls|;
    }
  }

  function AtLeastOne(n: nat): nat { if n == 0 then 1 else n }

  /** The list's `vulnerability_count` is inflated by paths and licence findings. */
  lemma VulnCountIsProduct(db: Database, scan: Id, cv: Id)
    ensures ListVulnCount(db, scan, cv) ==
      Paths(db.components, scan, cv) *
      (|VulnsOf(db, scan, cv)| * AtLeastOne(|LicensesOf(db, scan, cv)|))
  {
    var fs, lfs := VulnsOf(db, scan, cv), LicensesOf(db, scan, cv);
    GroupIsRepeatedBlock(db, scan, db.components, cv);
    CountRepeat(Block(db, scan, cv), Paths(db.components, scan, cv));
    if fs == [] {
      CrossMembers(cv, OrNull(fs), OrNull(lfs));
      CrossHasCv(cv, OrNull(fs), OrNull(lfs));
      forall r | r in Block(db, scan, cv) ensures r.finding.None? { assert r == Joined(cv, r.finding, r.license); }
      CountUniform(Block(db, scan, cv), false);
    } else {
      CountCross(cv, OrNull(fs), OrNull(lfs));
    }
  }

  // ----- The drawer's vulnerability list -----

  /** The unique constraints on findings and on external ids, and the foreign key. */
  ghost predicate VulnTablesConsistent(db: Database) {
    && (forall f :: f in db.vulnFindings ==> f.subject in db.vulns)
    && (forall i, k | 0 <= i < k < |db.vulnFindings| ::
          var f, g := db.vulnFindings[i], db.vulnFindings[k];
          f.scan != g.scan || f.cv != g.cv || f.subject != g.subject)
    && (forall a, b | a in db.vulns && b in db.vulns && db.vulns[a].externalId == db.vulns[b].externalId :: a == b)
  }

  function ExternalIds(db: Database, fs: seq<Finding>): seq<string>
    requires forall f :: f in fs ==> f.subject in db.vulns
  {
    seq(|fs|, i requires 0 <= i < |fs| => db.vulns[fs[i].subject].externalId)
  }

  /** Keeps the first row of every external id, in order. */
  method DeduplicateCves(rows: seq<string>) returns (kept: seq<string>)
    ensures forall i, k :: 0 <= i < k < |kept| ==> kept[i] != kept[k]
    ensures forall x :: x in kept <==> x in rows
    ensures (forall i, k :: 0 <= i < k < |rows| ==> rows[i] != rows[k]) ==> kept == rows
    ensures rows != [] ==> kept != [] && kept[0] == rows[0]
  {
    kept := [];
    var seen: set<string> := {};
    for n := 0 to |rows|
      invariant forall x :: x in seen <==> x in rows[..n]
      invariant forall x :: x in seen <==> x in kept
      invariant forall i, k :: 0 <= i < k < |kept| ==> kept[i] != kept[k]
      invariant (forall i, k :: 0 <= i < k < |rows| ==> rows[i] != rows[k]) ==> kept == rows[..n]
      invariant if n == 0 then kept == [] else kept != [] && kept[0] == rows[0]
    {
      if rows[n] in seen {
        continue;
      }
      seen := seen + {rows[n]};
      kept := kept + [rows[n]];
    }
    assert rows[..|rows|] == rows;
  }

  lemma {:induction false} VulnsOfDistinct(rows: seq<Finding>, scan: Id, cv: Id)
    requires forall i, k :: 0 <= i < k < |rows| ==>
      rows[i].scan != rows[k].scan || rows[i].cv != rows[k].cv || rows[i].subject != rows[k].subject
    ensures forall i, k :: 0 <= i < k < |FindingsOf(rows, scan, cv)| ==>
      FindingsOf(rows, scan, cv)[i].subject != FindingsOf(rows, scan, cv)[k].subject
  {
    if rows != [] {
      var rest := FindingsOf(rows[1..], scan, cv);
      VulnsOfDistinct(rows[1..], scan, cv);
      forall k | 0 <= k < |rest| && rows[0].scan == scan && rows[0].cv == cv
        ensures rest[k].subject != rows[0].subject
      {
        assert rest[k] in rows[1..];
      }
    }
  }

  lemma ProductAgreesIff(p: nat, n: nat, l: nat)
    ensures p * (n * l) == n <==> n == 0 || p * l == 1
  {
    assert p * (n * l) == n * (p * l);
    if n > 0 && p * l > 1 {
      assert n * (p * l) >= n * 2;
    }
  }

  function Entries(db: Database, scan: Id, cv: Id): seq<string>
    requires forall f :: f in db.vulnFindings ==> f.subject in db.vulns
  {
    ExternalIds(db, VulnsOf(db, scan, cv))
  }

  lemma EntriesDistinct(db: Database, scan: Id, cv: Id)
    requires VulnTablesConsistent(db)
    ensures forall i, k :: 0 <= i < k < |Entries(db, scan, cv)| ==> Entries(db, scan, cv)[i] != Entries(db, scan, cv)[k]
  {
    VulnsOfDistinct(db.vulnFindings, scan, cv);
    var fs := VulnsOf(db, scan, cv);
    forall i, k | 0 <= i < k < |fs| ensures ExternalIds(db, fs)[i] != ExternalIds(db, fs)[k] {
      assert fs[i] in fs && fs[k] in fs && fs[i].subject != fs[k].subject;
    }
  }

  /** Within one scan, the list count equals the number of entries the drawer's query gives for
      the same component version exactly when there is nothing to count or nothing to multiply
      by; the entries are distinct, so removing duplicates changes nothing. */
  lemma VulnCountAgreesIff(db: Database, scan: Id, cv: Id)
    requires VulnTablesConsistent(db)
    ensures forall i, k :: 0 <= i < k < |Entries(db, scan, cv)| ==> Entries(db, scan, cv)[i] != Entries(db, scan, cv)[k]
    ensures ListVulnCount(db, scan, cv) == |Entries(db, scan, cv)| <==>
      Entries(db, scan, cv) == [] || Paths(db.components, scan, cv) * AtLeastOne(|LicensesOf(db, scan, cv)|) == 1
  {
    EntriesDistinct(db, scan, cv);
    VulnCountIsProduct(db, scan, cv);
    ProductAgreesIff(Paths(db.components, scan, cv), |VulnsOf(db, scan, cv)|, AtLeastOne(|LicensesOf(db, scan, cv)|));
  }

  /** One finding of a version under two licences. */
  const TWO_ROWS := Database(
    [ScanComponent(0, 0, None)], [Finding(0, 0, 0, 0)], map[0 := Vulnerability("CVE-1", High)],
    [Finding(0, 0, 0, 0), Finding(1, 0, 0, 1)],
    map[0 := License(Some("MIT"), "", Allowed), 1 := License(Some("ISC"), "", Allowed)])

  /** The list counts it twice. */
  lemma VulnCountInflated()
    ensures VulnTablesConsistent(TWO_ROWS) && ListVulnCount(TWO_ROWS, 0, 0) == 2 && |Entries(TWO_ROWS, 0, 0)| == 1
  {
    var db := TWO_ROWS;
    assert db.licenseFindings[1..] == [Finding(1, 0, 0, 1)] && db.licenseFindings[1..][1..] == [];
    assert |LicensesOf(db, 0, 0)| == 2;
    assert db.vulnFindings[1..] == [] && |VulnsOf(db, 0, 0)| == 1;
    assert db.components[1..] == [] && Paths(db.components, 0, 0) == 1;
    VulnCountIsProduct(db, 0, 0);
  }
}
