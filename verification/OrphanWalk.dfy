/** Listing Dependency-Track projects whose version is a UUID of no local scan: a walk over
    pages of 100 that stops as soon as it has seen enough. */
module OrphanWalk {
  import opened Options

  type ScanId = nat

  const PAGE_SIZE: nat := 100

  /** A catalogue entry; a field that is absent or not a string is None. */
  datatype Project = NotADict | Project(uuid: Option<string>, name: Option<string>, version: Option<string>)

  datatype Orphan = Orphan(uuid: string, name: Option<string>, version: string)

  /** Local state the walk reads: how versions parse as UUIDs, and which scans exist. */
  datatype Local = Local(parse: string -> Option<ScanId>, scans: set<ScanId>)

  function Candidate(env: Local, p: Project): Option<ScanId> {
    if p.Project? && p.version.Some? && p.uuid.Some? then env.parse(p.version.value) else None
  }

  function Item(env: Local, p: Project): Orphan
    requires Candidate(env, p).Some?
  {
    Orphan(p.uuid.value, p.name, p.version.value)
  }

  // ----- Classifying one page -----

  /** A dict in insertion order: setting a present key keeps its place. */
  type Dict = seq<(ScanId, Project)>

  function DictSet(d: Dict, k: ScanId, v: Project): Dict {
    if d == [] then [(k, v)]
    else if d[0].0 == k then [(k, v)] + d[1..]
    else [d[0]] + DictSet(d[1..], k, v)
  }

  function ByScan(env: Local, page: seq<Project>): Dict {
    if page == [] then []
    else
      var before := ByScan(env, page[..|page| - 1]);
      var p := page[|page| - 1];
      match Candidate(env, p)
      case None => before
      case Some(u) => DictSet(before, u, p)
  }

  function Emit(env: Local, d: Dict): seq<Orphan>
    requires forall e :: e in d ==> Candidate(env, e.1).Some?
  {
    if d == [] then []
    else
      var last := d[|d| - 1];
      Emit(env, d[..|d| - 1]) + (if last.0 in env.scans then [] else [Item(env, last.1)])
  }

  /** Entry `i` is the last of the page for its scan id. */
  ghost predicate LastFor(env: Local, page: seq<Project>, i: nat, u: ScanId) {
    && i < |page| && Candidate(env, page[i]) == Some(u)
    && (forall k | i < k < |page| :: Candidate(env, page[k]) != Some(u))
  }

  ghost predicate Describes(env: Local, page: seq<Project>, d: Dict) {
    && (forall a, b | 0 <= a < b < |d| :: d[a].0 != d[b].0)
    && (forall e | e in d :: exists i: nat :: LastFor(env, page, i, e.0) && page[i] == e.1)
    && (forall i: nat, u: ScanId | LastFor(env, page, i, u) :: (u, page[i]) in d)
  }

  lemma {:induction false} DictSetEntries(d: Dict, k: ScanId, v: Project)
    requires forall a, b :: 0 <= a < b < |d| ==> d[a].0 != d[b].0
    ensures forall a, b :: 0 <= a < b < |DictSet(d, k, v)| ==> DictSet(d, k, v)[a].0 != DictSet(d, k, v)[b].0
    ensures forall e :: e in DictSet(d, k, v) <==> e == (k, v) || (e in d && e.0 != k)
  {
    if d != [] {
      assert forall e :: e in d <==> e == d[0] || e in d[1..];
      assert forall e :: e in d[1..] ==> e.0 != d[0].0;
      if d[0].0 != k {
        DictSetEntries(d[1..], k, v);
        var rest := DictSet(d[1..], k, v);
        assert forall b :: 0 <= b < |rest| ==> rest[b] in rest;
      }
    }
  }

  lemma {:induction false} ByScanDescribes(env: Local, page: seq<Project>)
    ensures Describes(env, page, ByScan(env, page))
  {
    if page != [] {
      var n := |page| - 1;
      var init, p := page[..n], page[n];
      var before := ByScan(env, init);
      ByScanDescribes(env, init);
      forall i: nat, u: ScanId ensures LastFor(env, page, i, u) <==>
        (i == n && Candidate(env, p) == Some(u)) || (i < n && LastFor(env, init, i, u) && Candidate(env, p) != Some(u))
      {
        if i < n && LastFor(env, init, i, u) && Candidate(env, p) != Some(u) {
          forall k | i < k < |page| ensures Candidate(env, page[k]) != Some(u) {
            if k < n { assert init[k] == page[k]; }
          }
        }
        if i < n && LastFor(env, page, i, u) {
          assert forall k :: i < k < n ==> init[k] == page[k];
        }
      }
      if Candidate(env, p).Some? { DictSetEntries(before, Candidate(env, p).value, p); }
    }
  }

  /** Entry `i` is the first of the page for its scan id. */
  ghost predicate FirstFor(env: Local, page: seq<Project>, i: nat, u: ScanId) {
    && i < |page| && Candidate(env, page[i]) == Some(u)
    && (forall k | 0 <= k < i :: Candidate(env, page[k]) != Some(u))
  }

  lemma {:induction false} DictSetKeys(d: Dict, k: ScanId, v: Project)
    ensures |d| <= |DictSet(d, k, v)| <= |d| + 1
    ensures forall a :: 0 <= a < |d| ==> DictSet(d, k, v)[a].0 == d[a].0
    ensures |DictSet(d, k, v)| == |d| + 1 ==> DictSet(d, k, v)[|d|].0 == k && forall a :: 0 <= a < |d| ==> d[a].0 != k
  {
    if d != [] && d[0].0 != k { DictSetKeys(d[1..], k, v); }
  }

  lemma {:induction false} LastExists(env: Local, page: seq<Project>, i: nat, u: ScanId) returns (last: nat)
    requires i < |page| && Candidate(env, page[i]) == Some(u)
    ensures i <= last && LastFor(env, page, last, u)
    decreases |page| - i
  {
    if k :| i < k < |page| && Candidate(env, page[k]) == Some(u) {
      last := LastExists(env, page, k, u);
    } else {
      last := i;
    }
  }

  /** A key of the dict has an entry in the page. */
  lemma KeyIsCandidate(env: Local, page: seq<Project>, a: nat) returns (i: nat)
    requires a < |ByScan(env, page)|
    ensures i < |page| && Candidate(env, page[i]) == Some(ByScan(env, page)[a].0)
  {
    ByScanDescribes(env, page);
    var e := ByScan(env, page)[a];
    assert e in ByScan(env, page);
    i :| LastFor(env, page, i, e.0) && page[i] == e.1;
  }

  /** And the other way round. */
  lemma CandidateIsKey(env: Local, page: seq<Project>, i: nat, u: ScanId) returns (a: nat)
    requires i < |page| && Candidate(env, page[i]) == Some(u)
    ensures a < |ByScan(env, page)| && ByScan(env, page)[a].0 == u
  {
    ByScanDescribes(env, page);
    var d := ByScan(env, page);
    var last := LastExists(env, page, i, u);
    assert (u, page[last]) in d;
    a :| a < |d| && d[a] == (u, page[last]);
  }

  /** The dict lists the scan ids in the order of their first entries, whichever entry is kept. */
  lemma {:induction false} ByScanInFirstOrder(env: Local, page: seq<Project>, a: nat, b: nat, i: nat, k: nat)
    requires a < b < |ByScan(env, page)|
    requires FirstFor(env, page, i, ByScan(env, page)[a].0) && FirstFor(env, page, k, ByScan(env, page)[b].0)
    ensures i < k
    decreases |page|
  {
    var n, d := |page| - 1, ByScan(env, page);
    var init, before := page[..n], ByScan(env, page[..n]);
    if Candidate(env, page[n]).Some? {
      var u := Candidate(env, page[n]).value;
      DictSetKeys(before, u, page[n]);
      if b == |before| {
        if k < n {
          assert init[k] == page[k];
          var c := CandidateIsKey(env, init, k, u);
          assert false;
        }
        assert d[a].0 == before[a].0 != u;
      }
    }
    if b < |before| {
      FirstInside(env, page, i, before[a].0, a);
      FirstInside(env, page, k, before[b].0, b);
      ByScanInFirstOrder(env, init, a, b, i, k);
    }
  }

  lemma FirstInside(env: Local, page: seq<Project>, i: nat, u: ScanId, a: nat)
    requires page != [] && FirstFor(env, page, i, u)
    requires a < |ByScan(env, page[..|page| - 1])| && ByScan(env, page[..|page| - 1])[a].0 == u
    ensures FirstFor(env, page[..|page| - 1], i, u)
  {
    var init := page[..|page| - 1];
    var j := KeyIsCandidate(env, init, a);
    assert page[j] == init[j];
  }

  lemma DictHoldsCandidates(env: Local, page: seq<Project>)
    ensures forall e :: e in ByScan(env, page) ==> Candidate(env, e.1) == Some(e.0)
  {
    ByScanDescribes(env, page);
  }

  function Classify(env: Local, page: seq<Project>): seq<Orphan> {
    DictHoldsCandidates(env, page);
    Emit(env, ByScan(env, page))
  }

  lemma {:induction false} EmitMembers(env: Local, d: Dict)
    requires forall e :: e in d ==> Candidate(env, e.1).Some?
    ensures forall o :: o in Emit(env, d) <==> exists e :: e in d && e.0 !in env.scans && Item(env, e.1) == o
  {
    if d != [] {
      var n := |d| - 1;
      EmitMembers(env, d[..n]);
      assert d == d[..n] + [d[n]];
    }
  }

  /** The entry is the orphan's: its columns, and a version that parses as `u`. */
  predicate Shows(env: Local, p: Project, o: Orphan, u: ScanId) {
    p == Project(Some(o.uuid), o.name, Some(o.version)) && env.parse(o.version) == Some(u)
  }

  predicate Claims(env: Local, p: Project, u: ScanId) {
    p.Project? && p.uuid.Some? && p.version.Some? && env.parse(p.version.value) == Some(u)
  }

  ghost predicate Reported(env: Local, page: seq<Project>, i: nat, o: Orphan, u: ScanId) {
    && i < |page| && Shows(env, page[i], o, u) && u !in env.scans
    && forall k | i < k < |page| :: !Claims(env, page[k], u)
  }

  lemma LastForShows(env: Local, page: seq<Project>, i: nat, u: ScanId, o: Orphan)
    ensures (LastFor(env, page, i, u) && u !in env.scans && Item(env, page[i]) == o) <==> Reported(env, page, i, o, u)
  {
    assert forall k :: 0 <= k < |page| ==> (Candidate(env, page[k]) == Some(u) <==> Claims(env, page[k], u));
  }

  /** A page reports exactly the entries whose version is the UUID of no local scan and that no
      later entry of the same page shares, under their own uuid, name and version. */
  lemma ClassifyReports(env: Local, page: seq<Project>, o: Orphan)
    ensures o in Classify(env, page) <==> exists i: nat, u: ScanId :: Reported(env, page, i, o, u)
  {
    DictHoldsCandidates(env, page);
    ByScanDescribes(env, page);
    var d := ByScan(env, page);
    EmitMembers(env, d);
    if o in Classify(env, page) {
      var e :| e in d && e.0 !in env.scans && Item(env, e.1) == o;
      var i: nat :| LastFor(env, page, i, e.0) && page[i] == e.1;
      LastForShows(env, page, i, e.0, o);
    }
    if i: nat, u: ScanId :| Reported(env, page, i, o, u) {
      LastForShows(env, page, i, u, o);
      assert (u, page[i]) in d;
    }
  }

  /** Emitting keeps the order of the dict. */
  lemma {:induction false} EmitKeepsOrder(env: Local, d: Dict, i: nat, k: nat) returns (a: nat, b: nat)
    requires forall e :: e in d ==> Candidate(env, e.1).Some?
    requires i < k < |Emit(env, d)|
    ensures a < b < |d| && Emit(env, d)[i] == Item(env, d[a].1) && Emit(env, d)[k] == Item(env, d[b].1)
    decreases |d|
  {
    var n := |d| - 1;
    var before := Emit(env, d[..n]);
    if k < |before| {
      a, b := EmitKeepsOrder(env, d[..n], i, k);
    } else {
      a := EmitFrom(env, d[..n], i);
      b := n;
    }
  }

  lemma {:induction false} EmitFrom(env: Local, d: Dict, i: nat) returns (a: nat)
    requires forall e :: e in d ==> Candidate(env, e.1).Some?
    requires i < |Emit(env, d)|
    ensures a < |d| && Emit(env, d)[i] == Item(env, d[a].1)
    decreases |d|
  {
    var n := |d| - 1;
    if i < |Emit(env, d[..n])| { a := EmitFrom(env, d[..n], i); } else { a := n; }
  }

  /** What a page reports stands in the order in which its scan ids first occur, each once. */
  lemma ReportedInOrder(env: Local, page: seq<Project>, i: nat, k: nat) returns (u: ScanId, v: ScanId)
    requires i < k < |Classify(env, page)|
    ensures env.parse(Classify(env, page)[i].version) == Some(u) && env.parse(Classify(env, page)[k].version) == Some(v)
    ensures u != v && forall x: nat, y: nat :: FirstFor(env, page, x, u) && FirstFor(env, page, y, v) ==> x < y
  {
    DictHoldsCandidates(env, page);
    ByScanDescribes(env, page);
    var d := ByScan(env, page);
    var a, b := EmitKeepsOrder(env, d, i, k);
    assert d[a] in d && d[b] in d;
    u, v := d[a].0, d[b].0;
    forall x: nat, y: nat | FirstFor(env, page, x, u) && FirstFor(env, page, y, v) ensures x < y {
      ByScanInFirstOrder(env, page, a, b, x, y);
    }
  }

  method GroupByScan(env: Local, page: seq<Project>) returns (d: Dict)
    ensures d == ByScan(env, page)
  {
    d := [];
    for i := 0 to |page|
      invariant d == ByScan(env, page[..i])
    {
      assert page[..i + 1][..i] == page[..i];
      var u := Candidate(env, page[i]);
      if u.None? {
        continue;
      }
      d := DictSet(d, u.value, page[i]);
    }
    assert page[..|page|] == page;
  }

  /** Appends the page's orphans to `sink`. */
  method ClassifyPage(env: Local, page: seq<Project>, sink: seq<Orphan>) returns (r: seq<Orphan>)
    ensures r == sink + Classify(env, page)
  {
    var d := GroupByScan(env, page);
    DictHoldsCandidates(env, page);
    r := sink;
    for i := 0 to |d|
      invariant r == sink + Emit(env, d[..i])
    {
      assert d[..i + 1][..i] == d[..i];
      if d[i].0 in env.scans {
        continue;
      }
      r := r + [Item(env, d[i].1)];
    }
    assert d[..|d|] == d;
  }

  // ----- The walk -----

  function Page(catalogue: seq<Project>, number: nat): seq<Project>
    requires number >= 1
  {
    var start := PAGE_SIZE * (number - 1);
    if start >= |catalogue| then []
    else if start + PAGE_SIZE <= |catalogue| then catalogue[start..start + PAGE_SIZE]
    else catalogue[start..]
  }

  function PagesFrom(catalogue: seq<Project>, number: nat): seq<Project>
    requires number >= 1
    decreases |catalogue| - PAGE_SIZE * (number - 1)
  {
    if PAGE_SIZE * (number - 1) >= |catalogue| then []
    else Page(catalogue, number) + PagesFrom(catalogue, number + 1)
  }

  /** The pages, of a hundred each but the last, make up the catalogue. */
  lemma {:induction false} PagesCoverCatalogue(catalogue: seq<Project>, number: nat)
    requires number >= 1
    ensures |Page(catalogue, number)| <= 100
    ensures PagesFrom(catalogue, number) ==
      if 100 * (number - 1) >= |catalogue| then [] else catalogue[100 * (number - 1)..]
    decreases |catalogue| - PAGE_SIZE * (number - 1)
  {
    if PAGE_SIZE * (number - 1) < |catalogue| {
      PagesCoverCatalogue(catalogue, number + 1);
    }
  }

  /** All orphans on page `number` and after. */
  function OrphansFrom(env: Local, catalogue: seq<Project>, number: nat): seq<Orphan>
    requires number >= 1
    decreases |catalogue| - PAGE_SIZE * (number - 1)
  {
    if PAGE_SIZE * (number - 1) >= |catalogue| then []
    else Classify(env, Page(catalogue, number)) + OrphansFrom(env, catalogue, number + 1)
  }

  function AllOrphans(env: Local, catalogue: seq<Project>): seq<Orphan> { OrphansFrom(env, catalogue, 1) }

  /** A Python slice: bounds past the end are clamped. */
  function Slice<T>(xs: seq<T>, from: nat, to: nat): seq<T> {
    if from >= |xs| || to <= from then [] else if to >= |xs| then xs[from..] else xs[from..to]
  }

  lemma SliceOfLongEnoughPrefix<T>(full: seq<T>, prefix: seq<T>, from: nat, to: nat)
    requires prefix <= full && (to < |prefix| || prefix == full)
    ensures Slice(prefix, from, to) == Slice(full, from, to)
  {
  }

  /** One round of the walk: an empty page ends the catalogue, and so does a short one. */
  lemma WalkStep(env: Local, catalogue: seq<Project>, number: nat, before: seq<Orphan>)
    requires number >= 1
    ensures
      var page := Page(catalogue, number);
      && (page == [] ==> OrphansFrom(env, catalogue, number) == [])
      && (page != [] ==> PAGE_SIZE * (number - 1) < |catalogue|)
      && (page != [] ==> before + OrphansFrom(env, catalogue, number) ==
                         (before + Classify(env, page)) + OrphansFrom(env, catalogue, number + 1))
      && (|page| < PAGE_SIZE ==> OrphansFrom(env, catalogue, number + 1) == [])
  {
  }

  /** The loop of `list_orphans`. */
  method Walk(env: Local, catalogue: seq<Project>, maxWalk: nat) returns (all: seq<Orphan>)
    ensures all <= AllOrphans(env, catalogue)
    ensures |all| < maxWalk ==> all == AllOrphans(env, catalogue)
  {
    all := [];
    var number := 1;
    while |all| < maxWalk
      invariant number >= 1
      invariant AllOrphans(env, catalogue) == all + OrphansFrom(env, catalogue, number)
      decreases |catalogue| - PAGE_SIZE * (number - 1)
    {
      var page := Page(catalogue, number);
      WalkStep(env, catalogue, number, all);
      if page == [] {
        return;
      }
      all := ClassifyPage(env, page, all);
      if |page| < PAGE_SIZE {
        return;
      }
      number := number + 1;
    }
  }

  method ListOrphans(env: Local, catalogue: seq<Project>, limit: nat, offset: nat)
    returns (items: seq<Orphan>, total: nat, hasMore: bool)
    ensures
      var all := AllOrphans(env, catalogue);
      && items == Slice(all, offset, offset + limit)
      && |items| == (if |all| <= offset then 0 else if |all| - offset <= limit then |all| - offset else limit)
      && (forall i :: 0 <= i < |items| ==> items[i] == all[offset + i])
    ensures hasMore <==> |AllOrphans(env, catalogue)| > offset + limit
    ensures total == |AllOrphans(env, catalogue)| || (hasMore && 100 <= total < |AllOrphans(env, catalogue)|)
  {
    var all := Walk(env, catalogue, if offset + limit + 1 > PAGE_SIZE then offset + limit + 1 else PAGE_SIZE);
    total := |all|;
    hasMore := total > offset + limit;
    items := Slice(all, offset, offset + limit);
    SliceOfLongEnoughPrefix(AllOrphans(env, catalogue), all, offset, offset + limit);
  }
}
