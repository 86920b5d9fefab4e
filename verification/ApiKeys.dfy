/** API keys: the bearer format, the table that issuing and revoking build, who may see and
    revoke a key, and which key a bearer string authenticates. */
module ApiKeys {
  import opened Options
  import opened Actors

  type KeyId = nat
  type ProjectId = nat
  type Instant = int

  const PREFIX_HEX_LEN: nat := 8
  const PREFIX_RETRIES: nat := 5

  // ----- The bearer string -----

  /** `split("_", 1)`: the parts around the first underscore. */
  function Cut(s: string): (r: Option<(string, string)>)
    ensures r.Some? ==> r.value.0 + "_" + r.value.1 == s && '_' !in r.value.0
    ensures r.None? <==> '_' !in s
  {
    if s == "" then None
    else if s[0] == '_' then Some(("", s[1..]))
    else
      match Cut(s[1..])
      case None => None
      case Some((a, b)) =>
        assert [s[0]] + a + "_" + b == [s[0]] + (a + "_" + b);
        Some(([s[0]] + a, b))
  }

  predicate LowerHex(c: char) { '0' <= c <= '9' || 'a' <= c <= 'f' }

  predicate HexDigit(c: char) { LowerHex(c) || 'A' <= c <= 'F' }

  predicate Blank(c: char) { c == ' ' || '\t' <= c <= '\r' || '\U{1C}' <= c <= '\U{1F}' }

  function DropBlanks(s: string): (r: string)
    ensures |r| <= |s|
  {
    if s != "" && Blank(s[0]) then DropBlanks(s[1..]) else s
  }

  function DropTrailingBlanks(s: string): string {
    if s != "" && Blank(s[|s| - 1]) then DropTrailingBlanks(s[..|s| - 1]) else s
  }

  function DropSign(s: string): string {
    if s != "" && (s[0] == '+' || s[0] == '-') then s[1..] else s
  }

  function DropBasePrefix(s: string): string {
    if |s| >= 2 && s[0] == '0' && (s[1] == 'x' || s[1] == 'X') then s[2..] else s
  }

  predicate AllHex(s: string) { forall i :: 0 <= i < |s| ==> HexDigit(s[i]) }

  /** Whether `int(s, 16)` succeeds: blanks around, one sign and a 0x prefix are accepted. */
  predicate ParsesAsHex(s: string) {
    var digits := DropBasePrefix(DropSign(DropTrailingBlanks(DropBlanks(s))));
    digits != "" && AllHex(digits)
  }

  function ParseBearer(plaintext: string): Option<(string, string)> {
    match Cut(plaintext)
    case None => None
    case Some((head, rest)) =>
      if head != "tos" then None
      else
        match Cut(rest)
        case None => None
        case Some((hex, secret)) =>
          if |hex| != PREFIX_HEX_LEN || !ParsesAsHex(hex) || secret == "" then None
          else Some((head + "_" + hex, secret))
  }

  /** What `_generate_prefix` can return. */
  predicate GeneratedPrefix(p: string) {
    |p| == 12 && p[..4] == "tos_" && forall i :: 4 <= i < 12 ==> LowerHex(p[i])
  }

  function FormatPlaintext(prefix: string, secret: string): string { prefix + "_" + secret }

  lemma {:induction false} CutAt(a: string, b: string)
    requires '_' !in a
    ensures Cut(a + "_" + b) == Some((a, b))
  {
    var s := a + "_" + b;
    if a == "" {
      assert s[0] == '_' && s[1..] == b;
    } else {
      assert s[1..] == a[1..] + "_" + b;
      CutAt(a[1..], b);
      assert a == [a[0]] + a[1..];
    }
  }

  lemma LowerHexParses(h: string)
    requires |h| == PREFIX_HEX_LEN && forall i :: 0 <= i < |h| ==> LowerHex(h[i])
    ensures ParsesAsHex(h)
  {
    assert LowerHex(h[0]) && LowerHex(h[1]) && LowerHex(h[|h| - 1]);
    assert DropBlanks(h) == h && DropTrailingBlanks(h) == h && DropBasePrefix(DropSign(h)) == h;
  }

  /** Parsing undoes formatting, whatever underscores the secret holds. */
  lemma ParseUndoesFormat(prefix: string, secret: string)
    requires GeneratedPrefix(prefix) && secret != ""
    ensures ParseBearer(FormatPlaintext(prefix, secret)) == Some((prefix, secret))
  {
    var hex := prefix[4..];
    assert prefix == prefix[..4] + hex;
    assert prefix == "tos" + "_" + hex;
    assert FormatPlaintext(prefix, secret) == "tos" + "_" + (hex + "_" + secret);
    assert forall i :: 0 <= i < |hex| ==> LowerHex(hex[i]);
    CutAt("tos", hex + "_" + secret);
    CutAt(hex, secret);
    LowerHexParses(hex);
  }

  /** Whatever parses was formatted from a 12-character prefix and a non-empty secret. */
  lemma FormatUndoesParse(x: string)
    requires ParseBearer(x).Some?
    ensures
      var (p, s) := ParseBearer(x).value;
      |p| == 12 && s != "" && FormatPlaintext(p, s) == x
  {
    var (head, rest) := Cut(x).value;
    var (hex, secret) := Cut(rest).value;
    assert head + "_" + (hex + "_" + secret) == head + "_" + hex + "_" + secret;
  }

  // ----- Exactly what parses -----

  predicate AllBlank(s: string) { forall i :: 0 <= i < |s| ==> Blank(s[i]) }

  /** A number in base 16 as `int` reads it: blanks, a sign, a base prefix, digits, blanks. */
  ghost predicate Numeral(s: string, left: string, sign: string, base: string, digits: string, right: string) {
    && s == left + sign + base + digits + right && AllBlank(left) && AllBlank(right)
    && (sign == "" || sign == "+" || sign == "-") && (base == "" || base == "0x" || base == "0X")
    && digits != ""
    && forall i :: 0 <= i < |digits| ==>
         '0' <= digits[i] <= '9' || 'a' <= digits[i] <= 'f' || 'A' <= digits[i] <= 'F'
  }

  ghost predicate IsNumeral(s: string) {
    exists left, sign, base, digits, right :: Numeral(s, left, sign, base, digits, right)
  }

  lemma {:induction false} DroppedBlanks(s: string) returns (left: string)
    ensures s == left + DropBlanks(s) && AllBlank(left)
  {
    left := "";
    if s != "" && Blank(s[0]) {
      var rest := DroppedBlanks(s[1..]);
      left := [s[0]] + rest;
      assert s == [s[0]] + s[1..];
    }
  }

  lemma {:induction false} DroppedTrailing(s: string) returns (right: string)
    ensures s == DropTrailingBlanks(s) + right && AllBlank(right)
  {
    right := "";
    if s != "" && Blank(s[|s| - 1]) {
      var rest := DroppedTrailing(s[..|s| - 1]);
      right := rest + [s[|s| - 1]];
      assert s == s[..|s| - 1] + [s[|s| - 1]];
    }
  }

  lemma {:induction false} DropLeft(left: string, s: string)
    requires AllBlank(left) && s != "" && !Blank(s[0])
    ensures DropBlanks(left + s) == s
  {
    if left == "" {
      assert left + s == s;
    } else {
      assert (left + s)[1..] == left[1..] + s;
      DropLeft(left[1..], s);
    }
  }

  lemma {:induction false} DropRight(s: string, right: string)
    requires AllBlank(right) && s != "" && !Blank(s[|s| - 1])
    ensures DropTrailingBlanks(s + right) == s
  {
    if right == "" {
      assert s + right == s;
    } else {
      var n := |right| - 1;
      assert (s + right)[..|s + right| - 1] == s + right[..n];
      DropRight(s, right[..n]);
    }
  }

  lemma SignSplits(core: string) returns (sign: string)
    ensures core == sign + DropSign(core) && (sign == "" || sign == "+" || sign == "-")
  {
    sign := if DropSign(core) == core then "" else core[..1];
    if sign == "" {
      assert core == "" + core;
    } else {
      assert core == core[..1] + core[1..];
    }
  }

  lemma BaseSplits(unsigned: string) returns (base: string)
    ensures unsigned == base + DropBasePrefix(unsigned) && (base == "" || base == "0x" || base == "0X")
  {
    base := if DropBasePrefix(unsigned) == unsigned then "" else unsigned[..2];
    if base == "" {
      assert unsigned == "" + unsigned;
    } else {
      assert unsigned == unsigned[..2] + unsigned[2..];
      assert unsigned[..2] == [unsigned[0], unsigned[1]];
    }
  }

  lemma Regrouped(left: string, sign: string, base: string, digits: string, right: string)
    ensures left + sign + base + digits + right == left + ((sign + (base + digits)) + right)
  {
    assert sign + (base + digits) == sign + base + digits;
    var core := sign + base + digits;
    assert left + (core + right) == left + core + right;
    assert left + core == left + sign + base + digits;
  }

  lemma ParsedIsNumeral(s: string)
    requires ParsesAsHex(s)
    ensures IsNumeral(s)
  {
    var left := DroppedBlanks(s);
    var inner := DropBlanks(s);
    var right := DroppedTrailing(inner);
    var core := DropTrailingBlanks(inner);
    var sign := SignSplits(core);
    var base := BaseSplits(DropSign(core));
    var digits := DropBasePrefix(DropSign(core));
    Regrouped(left, sign, base, digits, right);
    assert s == left + sign + base + digits + right;
    assert forall i :: 0 <= i < |digits| ==> HexDigit(digits[i]);
    assert Numeral(s, left, sign, base, digits, right);
  }

  lemma SignDrops(sign: string, unsigned: string)
    requires sign == "" || sign == "+" || sign == "-"
    requires unsigned != "" && HexDigit(unsigned[0])
    ensures DropSign(sign + unsigned) == unsigned
  {
    if sign == "" {
      assert sign + unsigned == unsigned;
    } else {
      assert (sign + unsigned)[1..] == unsigned;
    }
  }

  lemma BaseDrops(base: string, digits: string)
    requires base == "" || base == "0x" || base == "0X"
    requires digits != "" && AllHex(digits)
    ensures DropBasePrefix(base + digits) == digits && HexDigit((base + digits)[0])
  {
    if base == "" {
      assert base + digits == digits;
    } else {
      assert (base + digits)[2..] == digits;
    }
  }

  lemma NoBlankEnds(sign: string, unsigned: string)
    requires sign == "" || sign == "+" || sign == "-"
    requires unsigned != "" && HexDigit(unsigned[0]) && HexDigit(unsigned[|unsigned| - 1])
    ensures !Blank((sign + unsigned)[0]) && !Blank((sign + unsigned)[|sign + unsigned| - 1])
  {
  }

  lemma Surrounded(left: string, core: string, right: string)
    requires AllBlank(left) && AllBlank(right) && core != "" && !Blank(core[0]) && !Blank(core[|core| - 1])
    ensures DropTrailingBlanks(DropBlanks(left + (core + right))) == core
  {
    DropLeft(left, core + right);
    DropRight(core, right);
  }

  lemma CoreParses(s: string, sign: string, unsigned: string)
    requires DropTrailingBlanks(DropBlanks(s)) == sign + unsigned && DropSign(sign + unsigned) == unsigned
    requires DropBasePrefix(unsigned) != "" && AllHex(DropBasePrefix(unsigned))
    ensures ParsesAsHex(s)
  {
  }

  lemma CoreOf(sign: string, base: string, digits: string) returns (unsigned: string, core: string)
    requires (sign == "" || sign == "+" || sign == "-") && (base == "" || base == "0x" || base == "0X")
    requires digits != "" && AllHex(digits)
    ensures unsigned == base + digits && core == sign + unsigned
    ensures core != "" && !Blank(core[0]) && !Blank(core[|core| - 1])
    ensures DropSign(core) == unsigned && DropBasePrefix(unsigned) == digits
  {
    unsigned := base + digits;
    core := sign + unsigned;
    BaseDrops(base, digits);
    assert unsigned[|unsigned| - 1] == digits[|digits| - 1];
    SignDrops(sign, unsigned);
    NoBlankEnds(sign, unsigned);
  }

  lemma NumeralParses(s: string, left: string, sign: string, base: string, digits: string, right: string)
    requires Numeral(s, left, sign, base, digits, right)
    ensures ParsesAsHex(s)
  {
    assert s == left + sign + base + digits + right;
    Regrouped(left, sign, base, digits, right);
    var unsigned, core := CoreOf(sign, base, digits);
    Surrounded(left, core, right);
    CoreParses(s, sign, unsigned);
  }

  lemma NumeralIff(s: string)
    ensures ParsesAsHex(s) <==> IsNumeral(s)
  {
    if ParsesAsHex(s) { ParsedIsNumeral(s); }
    if left, sign, base, digits, right :| Numeral(s, left, sign, base, digits, right) {
      NumeralParses(s, left, sign, base, digits, right);
    }
  }

  function Bearer(hex: string, secret: string): string { "tos" + "_" + (hex + "_" + secret) }

  lemma BearerRegrouped(hex: string, secret: string)
    ensures Bearer(hex, secret) == "tos" + "_" + hex + "_" + secret
  {
  }

  lemma PrefixForm(prefix: string)
    requires |prefix| == 12 && prefix[..4] == "tos_"
    ensures prefix == "tos" + "_" + prefix[4..]
  {
    assert prefix == prefix[..4] + prefix[4..];
  }

  lemma SplitsIff(hex: string, secret: string)
    requires '_' !in hex
    ensures ParseBearer(Bearer(hex, secret)) ==
      if |hex| == 8 && IsNumeral(hex) && secret != "" then Some(("tos" + "_" + hex, secret)) else None
  {
    CutAt("tos", hex + "_" + secret);
    CutAt(hex, secret);
    NumeralIff(hex);
  }

  lemma ParsedSplits(x: string) returns (hex: string, secret: string)
    requires ParseBearer(x).Some?
    ensures '_' !in hex && |hex| == 8 && x == Bearer(hex, secret) && ParseBearer(x).value == ("tos" + "_" + hex, secret)
  {
    var rest := Cut(x).value.1;
    hex, secret := Cut(rest).value.0, Cut(rest).value.1;
  }

  lemma HexPart(hex: string)
    ensures ("tos" + "_" + hex)[4..] == hex && ("tos" + "_" + hex)[..4] == "tos_" && |"tos" + "_" + hex| == 4 + |hex|
  {
  }

  ghost predicate IsBearer(x: string, prefix: string, secret: string) {
    && x == prefix + "_" + secret && |prefix| == 12 && prefix[..4] == "tos_" && secret != ""
    && '_' !in prefix[4..] && IsNumeral(prefix[4..])
  }

  lemma ParsedIsBearer(x: string, prefix: string, secret: string)
    requires ParseBearer(x) == Some((prefix, secret))
    ensures IsBearer(x, prefix, secret)
  {
    var hex, rest := ParsedSplits(x);
    HexPart(hex);
    BearerRegrouped(hex, secret);
    SplitsIff(hex, secret);
  }

  lemma BearerParses(x: string, prefix: string, secret: string)
    requires IsBearer(x, prefix, secret)
    ensures ParseBearer(x) == Some((prefix, secret))
  {
    var hex := prefix[4..];
    PrefixForm(prefix);
    BearerRegrouped(hex, secret);
    SplitsIff(hex, secret);
  }

  /** The parser accepts exactly "tos", eight characters that are a number in base 16 and hold no
      underscore, and a secret, joined by underscores, and returns the first two and the third. */
  lemma ParsesIff(x: string, prefix: string, secret: string)
    ensures ParseBearer(x) == Some((prefix, secret)) <==> IsBearer(x, prefix, secret)
  {
    if ParseBearer(x) == Some((prefix, secret)) { ParsedIsBearer(x, prefix, secret); }
    if IsBearer(x, prefix, secret) { BearerParses(x, prefix, secret); }
  }

  /** The parser's own comment asks for lowercase hex; `int` in base 16 lets more through: here a
      sign, a base prefix and capitals. */
  lemma AcceptsMoreThanLowerHex(secret: string)
    requires secret != ""
    ensures ParseBearer(Bearer("+0xAAAAA", secret)) == Some(("tos" + "_" + "+0xAAAAA", secret))
    ensures !GeneratedPrefix("tos" + "_" + "+0xAAAAA")
  {
    assert Numeral("+0xAAAAA", "", "+", "0x", "AAAAA", "");
    SplitsIff("+0xAAAAA", secret);
    HexPart("+0xAAAAA");
    assert ("tos" + "_" + "+0xAAAAA")[4..][0] == '+';
  }

  // ----- The table -----

  datatype Scope = Org | Team | Project | Unknown

  /** bcrypt is abstracted as injective: `secured` is the plaintext that was hashed. */
  datatype ApiKey = ApiKey(
    prefix: string, secured: string, scope: Scope, team: Option<TeamId>, project: Option<ProjectId>,
    creator: Option<UserId>, revokedAt: Option<Instant>, revokedBy: Option<UserId>)

  type Table = map<KeyId, ApiKey>

  /** `draws` are the prefix and secret of each attempt, `newId` the generated row id. */
  datatype Request = Request(
    actor: CurrentUser, scope: Scope, team: Option<TeamId>, project: Option<ProjectId>,
    draws: seq<(string, string)>, newId: KeyId)

  datatype Reply =
    | ScopeMismatch | NotFound | Denied | IssueFailed
    | Issued(id: KeyId, plaintext: string)
    | Revoked

  predicate ScopeCoherent(r: Request) {
    match r.scope
    case Org => r.team.None? && r.project.None?
    case Team => r.team.Some? && r.project.None?
    case Project => r.project.Some?
    case Unknown => false
  }

  predicate CanIssueAtScope(actor: CurrentUser, scope: Scope, team: Option<TeamId>, projectTeam: Option<TeamId>) {
    actor.IsSuperAdmin() ||
    match scope
    case Org => false
    case Team => team.Some? && team.value in actor.teamRoles && actor.teamRoles[team.value] == TeamAdmin
    case Project => projectTeam.Some? && projectTeam.value in actor.teamIds
    case Unknown => false
  }

  predicate PrefixTaken(rows: Table, prefix: string) { exists i :: i in rows && rows[i].prefix == prefix }

  /** The first of at most five draws whose prefix is free. */
  function FirstFree(rows: Table, draws: seq<(string, string)>): (d: Option<(string, string)>)
    ensures d.Some? ==> d.value in draws && !PrefixTaken(rows, d.value.0)
    ensures d.None? ==> forall e :: e in draws ==> PrefixTaken(rows, e.0)
  {
    if draws == [] then None
    else if !PrefixTaken(rows, draws[0].0) then Some(draws[0])
    else FirstFree(rows, draws[1..])
  }

  function NewRow(r: Request, team: Option<TeamId>, draw: (string, string)): ApiKey {
    ApiKey(draw.0, FormatPlaintext(draw.0, draw.1), r.scope, team, r.project, Some(r.actor.id), None, None)
  }

  function Issue(rows: Table, projects: map<ProjectId, TeamId>, r: Request): (Table, Reply)
    requires |r.draws| == PREFIX_RETRIES
  {
    if !ScopeCoherent(r) then (rows, ScopeMismatch)
    else if r.scope == Project && r.project.value !in projects then (rows, NotFound)
    else
      var projectTeam := if r.scope == Project then Some(projects[r.project.value]) else None;
      if !CanIssueAtScope(r.actor, r.scope, r.team, projectTeam) then (rows, Denied)
      else
        match FirstFree(rows, r.draws)
        case None => (rows, IssueFailed)
        case Some(draw) =>
          var team := if r.scope == Project then projectTeam else r.team;
          (rows[r.newId := NewRow(r, team, draw)], Issued(r.newId, FormatPlaintext(draw.0, draw.1)))
  }

  predicate CanViewKey(actor: CurrentUser, key: ApiKey) {
    || actor.IsSuperAdmin()
    || key.creator == Some(actor.id)
    || (key.scope == Team && key.team.Some? && key.team.value in actor.teamIds)
    || (key.scope == Project && key.project.Some? && key.team.Some? && key.team.value in actor.teamIds)
  }

  predicate CanRevokeKey(actor: CurrentUser, key: ApiKey) {
    || actor.IsSuperAdmin()
    || key.creator == Some(actor.id)
    || (key.team.Some? && key.team.value in actor.teamRoles && actor.teamRoles[key.team.value] == TeamAdmin)
  }

  function Revoke(rows: Table, actor: CurrentUser, id: KeyId, now: Instant): (Table, Reply) {
    if id !in rows || !CanViewKey(actor, rows[id]) then (rows, NotFound)
    else if !CanRevokeKey(actor, rows[id]) then (rows, Denied)
    else if rows[id].revokedAt.Some? then (rows, Revoked)
    else (rows[id := rows[id].(revokedAt := Some(now), revokedBy := Some(actor.id))], Revoked)
  }

  predicate LivePrefix(rows: Table, i: KeyId, prefix: string) {
    i in rows && rows[i].prefix == prefix && rows[i].revokedAt.None?
  }

  /** The live row with the bearer's prefix, if its hash verifies. */
  ghost function Authenticate(rows: Table, plaintext: string): Option<KeyId> {
    match ParseBearer(plaintext)
    case None => None
    case Some((prefix, _)) =>
      if !exists i :: LivePrefix(rows, i, prefix) then None
      else
        var i :| LivePrefix(rows, i, prefix);
        if rows[i].secured == plaintext then Some(i) else None
  }

  class ApiKeyTable {
    var rows: Table
    const projects: map<ProjectId, TeamId>

    constructor (projects: map<ProjectId, TeamId>)
      ensures rows == map[] && this.projects == projects
    {
      this.projects := projects;
      rows := map[];
    }

    /** Retries up to five times while the drawn prefix is taken. */
    method IssueApiKey(r: Request) returns (reply: Reply)
      requires |r.draws| == PREFIX_RETRIES && r.newId !in rows
      modifies this
      ensures (rows, reply) == Issue(old(rows), projects, r)
    {
      if !ScopeCoherent(r) {
        return ScopeMismatch;
      }
      var projectTeam: Option<TeamId> := None;
      if r.scope == Project {
        if r.project.value !in projects {
          return NotFound;
        }
        projectTeam := Some(projects[r.project.value]);
      }
      if !CanIssueAtScope(r.actor, r.scope, r.team, projectTeam) {
        return Denied;
      }
      var team := if r.scope == Project then projectTeam else r.team;
      for attempt := 0 to PREFIX_RETRIES
        invariant rows == old(rows)
        invariant FirstFree(rows, r.draws[attempt..]) == FirstFree(rows, r.draws)
      {
        var draw := r.draws[attempt];
        assert r.draws[attempt..][1..] == r.draws[attempt + 1..];
        if PrefixTaken(rows, draw.0) {
          continue;
        }
        rows := rows[r.newId := NewRow(r, team, draw)];
        return Issued(r.newId, FormatPlaintext(draw.0, draw.1));
      }
      return IssueFailed;
    }

    method RevokeApiKey(actor: CurrentUser, id: KeyId, now: Instant) returns (reply: Reply)
      modifies this
      ensures (rows, reply) == Revoke(old(rows), actor, id, now)
    {
      if id !in rows || !CanViewKey(actor, rows[id]) {
        return NotFound;
      }
      if !CanRevokeKey(actor, rows[id]) {
        return Denied;
      }
      if rows[id].revokedAt.Some? {
        return Revoked;
      }
      rows := rows[id := rows[id].(revokedAt := Some(now), revokedBy := Some(actor.id))];
      return Revoked;
    }
  }

  // ----- Every table that calls can build -----

  datatype Op =
    | IssueOp(r: Request)
    | RevokeOp(actor: CurrentUser, id: KeyId, now: Instant)

  ghost predicate Enabled(rows: Table, op: Op) {
    match op
    case IssueOp(r) =>
      && |r.draws| == PREFIX_RETRIES && r.newId !in rows
      && (forall d :: d in r.draws ==> GeneratedPrefix(d.0) && d.1 != "")
    case RevokeOp(_, _, _) => true
  }

  function Step(rows: Table, projects: map<ProjectId, TeamId>, op: Op): Table
    requires op.IssueOp? ==> |op.r.draws| == PREFIX_RETRIES
  {
    match op
    case IssueOp(r) => Issue(rows, projects, r).0
    case RevokeOp(actor, id, now) => Revoke(rows, actor, id, now).0
  }

  ghost predicate IsRun(rows: Table, projects: map<ProjectId, TeamId>, ops: seq<Op>)
    decreases ops
  {
    ops == [] || (Enabled(rows, ops[0]) && IsRun(Step(rows, projects, ops[0]), projects, ops[1..]))
  }

  ghost function RunFrom(rows: Table, projects: map<ProjectId, TeamId>, ops: seq<Op>): Table
    requires IsRun(rows, projects, ops)
    decreases ops
  {
    if ops == [] then rows else RunFrom(Step(rows, projects, ops[0]), projects, ops[1..])
  }

  /** The database's scope constraint, plus the team that issuing copies onto project keys. */
  ghost predicate RowInv(key: ApiKey) {
    && (match key.scope
        case Org => key.team.None? && key.project.None?
        case Team => key.team.Some? && key.project.None?
        case Project => key.team.Some? && key.project.Some?
        case Unknown => false)
    && GeneratedPrefix(key.prefix)
    && (exists secret :: secret != "" && key.secured == FormatPlaintext(key.prefix, secret))
  }

  ghost predicate Inv(rows: Table) {
    && (forall i :: i in rows ==> RowInv(rows[i]))
    && (forall i, k :: i in rows && k in rows && rows[i].prefix == rows[k].prefix ==> i == k)
  }

  lemma StepKeepsInv(rows: Table, projects: map<ProjectId, TeamId>, op: Op)
    requires Inv(rows) && Enabled(rows, op)
    ensures Inv(Step(rows, projects, op))
  {
    if op.IssueOp? && Issue(rows, projects, op.r).1.Issued? {
      var draw := FirstFree(rows, op.r.draws).value;
      var row := Step(rows, projects, op)[op.r.newId];
      assert row.secured == FormatPlaintext(row.prefix, draw.1);
    }
  }

  lemma {:induction false} RunKeepsInv(rows: Table, projects: map<ProjectId, TeamId>, ops: seq<Op>)
    requires Inv(rows) && IsRun(rows, projects, ops)
    ensures Inv(RunFrom(rows, projects, ops))
    decreases ops
  {
    if ops != [] {
      StepKeepsInv(rows, projects, ops[0]);
      RunKeepsInv(Step(rows, projects, ops[0]), projects, ops[1..]);
    }
  }

  /** The WHERE clause of the list query; NULL columns select nothing. */
  predicate SqlVisible(actor: CurrentUser, key: ApiKey) {
    || actor.IsSuperAdmin()
    || (key.creator.Some? && key.creator.value == actor.id)
    || (actor.teamIds != [] && key.team.Some? && key.team.value in actor.teamIds)
  }

  datatype Filters = Filters(
    scope: Option<Scope>, team: Option<TeamId>, project: Option<ProjectId>, includeRevoked: bool)

  predicate Selects(f: Filters, key: ApiKey) {
    && (f.scope.Some? ==> key.scope == f.scope.value)
    && (f.team.Some? ==> key.team == f.team)
    && (f.project.Some? ==> key.project == f.project)
    && (f.includeRevoked || key.revokedAt.None?)
  }

  function ListApiKeys(rows: Table, actor: CurrentUser, f: Filters): set<KeyId> {
    set i | i in rows && SqlVisible(actor, rows[i]) && Selects(f, rows[i])
  }

  /** In every reachable table the list query shows exactly the keys that the per-key check lets
      the actor see, and whoever may revoke a key may see it. */
  lemma ListShowsWhatMayBeViewed(projects: map<ProjectId, TeamId>, ops: seq<Op>, actor: CurrentUser, f: Filters)
    requires IsRun(map[], projects, ops) && actor.FromMemberships()
    ensures
      var rows := RunFrom(map[], projects, ops);
      && ListApiKeys(rows, actor, f) == (set i | i in rows && CanViewKey(actor, rows[i]) && Selects(f, rows[i]))
      && (forall i :: i in rows && CanRevokeKey(actor, rows[i]) ==> CanViewKey(actor, rows[i]))
  {
    RunKeepsInv(map[], projects, ops);
    var rows := RunFrom(map[], projects, ops);
    forall i | i in rows
      ensures SqlVisible(actor, rows[i]) <==> CanViewKey(actor, rows[i])
      ensures CanRevokeKey(actor, rows[i]) ==> CanViewKey(actor, rows[i])
    {
      assert RowInv(rows[i]);
    }
  }

  lemma {:induction false} KeysPersist(rows: Table, projects: map<ProjectId, TeamId>, ops: seq<Op>, id: KeyId)
    requires IsRun(rows, projects, ops) && id in rows
    ensures
      var after := RunFrom(rows, projects, ops);
      && id in after
      && (rows[id].revokedAt.Some? ==> after[id] == rows[id])
      && after[id] == rows[id].(revokedAt := after[id].revokedAt, revokedBy := after[id].revokedBy)
    decreases ops
  {
    if ops != [] { KeysPersist(Step(rows, projects, ops[0]), projects, ops[1..], id); }
  }

  // ----- Who may issue, see and revoke -----

  predicate Super(actor: CurrentUser) { actor.superuser || actor.role == SuperAdmin }

  /** An organisation key takes a super-admin; a team key an admin of that team; a project key a
      member of the team that owns the project. */
  predicate MayIssue(actor: CurrentUser, projects: map<ProjectId, TeamId>, r: Request) {
    || Super(actor)
    || (&& r.scope == Team && r.team.Some?
        && r.team.value in actor.teamRoles && actor.teamRoles[r.team.value] == TeamAdmin)
    || (&& r.scope == Project && r.project.Some?
        && r.project.value in projects && projects[r.project.value] in actor.teamIds)
  }

  predicate WellScoped(r: Request) {
    || (r.scope == Org && r.team.None? && r.project.None?)
    || (r.scope == Team && r.team.Some? && r.project.None?)
    || (r.scope == Project && r.project.Some?)
  }

  /** A key is issued if and only if its scope fits its ids, the project exists, the actor may issue
      at that scope, and one of the draws is free; the first of these that fails names the refusal,
      and a refusal changes nothing. */
  lemma IssueRepliesIff(rows: Table, projects: map<ProjectId, TeamId>, r: Request)
    requires |r.draws| == 5
    ensures
      var (rows', reply) := Issue(rows, projects, r);
      var missing := r.scope == Project && r.project.Some? && r.project.value !in projects;
      var free := exists d :: d in r.draws && forall i :: i in rows ==> rows[i].prefix != d.0;
      && (reply == ScopeMismatch <==> !WellScoped(r))
      && (reply == NotFound <==> WellScoped(r) && missing)
      && (reply == Denied <==> WellScoped(r) && !missing && !MayIssue(r.actor, projects, r))
      && (reply == IssueFailed <==> WellScoped(r) && !missing && MayIssue(r.actor, projects, r) && !free)
      && (reply.Issued? <==> WellScoped(r) && !missing && MayIssue(r.actor, projects, r) && free)
      && (!reply.Issued? ==> rows' == rows)
  {
    var d := FirstFree(rows, r.draws);
    if d.Some? { assert d.value in r.draws && forall i :: i in rows ==> rows[i].prefix != d.value.0; }
  }

  /** What is stored and handed out. */
  lemma IssuedRow(rows: Table, projects: map<ProjectId, TeamId>, r: Request)
    requires |r.draws| == PREFIX_RETRIES && Issue(rows, projects, r).1.Issued?
    ensures
      var (rows', reply) := Issue(rows, projects, r);
      && reply.id == r.newId && r.newId in rows'
      && (exists d :: d in r.draws && reply.plaintext == d.0 + "_" + d.1 && rows'[r.newId].prefix == d.0)
      && rows'[r.newId] ==
           ApiKey(rows'[r.newId].prefix, reply.plaintext, r.scope,
                  if r.scope == Project then Some(projects[r.project.value]) else r.team, r.project,
                  Some(r.actor.id), None, None)
      && (forall i :: i in rows && i != r.newId ==> i in rows' && rows'[i] == rows[i])
      && rows'.Keys == rows.Keys + {r.newId}
  {
  }

  predicate MayView(actor: CurrentUser, key: ApiKey) {
    Super(actor) || key.creator == Some(actor.id) || (key.team.Some? && key.team.value in actor.teamIds)
  }

  predicate MayRevoke(actor: CurrentUser, key: ApiKey) {
    || Super(actor) || key.creator == Some(actor.id)
    || (key.team.Some? && key.team.value in actor.teamRoles && actor.teamRoles[key.team.value] == TeamAdmin)
  }

  lemma VisibleIff(key: ApiKey, actor: CurrentUser)
    requires RowInv(key)
    ensures CanViewKey(actor, key) <==> MayView(actor, key)
    ensures CanRevokeKey(actor, key) <==> MayRevoke(actor, key)
  {
  }

  /** Revoking answers not found for a key the actor may not see, denied for one the actor may see
      but not revoke, and otherwise leaves the key revoked: by this actor at this time if it was
      live, unchanged if not. No other key changes. */
  lemma RevokeRepliesIff(rows: Table, actor: CurrentUser, id: KeyId, now: Instant)
    requires Inv(rows)
    ensures
      var (rows', reply) := Revoke(rows, actor, id, now);
      && (reply == NotFound <==> (id in rows ==> !MayView(actor, rows[id])))
      && (reply == Denied <==> id in rows && MayView(actor, rows[id]) && !MayRevoke(actor, rows[id]))
      && (reply == Revoked <==> id in rows && MayView(actor, rows[id]) && MayRevoke(actor, rows[id]))
      && rows'.Keys == rows.Keys
      && (forall i :: i in rows && (i != id || reply != Revoked) ==> rows'[i] == rows[i])
      && (reply == Revoked ==>
            rows'[id] == if rows[id].revokedAt.Some? then rows[id]
                         else rows[id].(revokedAt := Some(now), revokedBy := Some(actor.id)))
  {
    if id in rows { VisibleIff(rows[id], actor); }
  }

  /** The list shows a key exactly if the actor may see it and every filter that is set fits. */
  lemma ListedIff(rows: Table, actor: CurrentUser, f: Filters, i: KeyId)
    requires Inv(rows)
    ensures i in ListApiKeys(rows, actor, f) <==>
      && i in rows && MayView(actor, rows[i])
      && (f.scope.None? || rows[i].scope == f.scope.value)
      && (f.team.None? || rows[i].team == Some(f.team.value))
      && (f.project.None? || rows[i].project == Some(f.project.value))
      && (rows[i].revokedAt.None? || f.includeRevoked)
  {
  }

  /** Only super-admins issue keys beyond their own teams, and whoever issues a key may view and
      revoke it. */
  lemma IssuersStayInTheirTeams(rows: Table, projects: map<ProjectId, TeamId>, r: Request)
    requires Enabled(rows, IssueOp(r)) && Issue(rows, projects, r).1.Issued? && r.actor.FromMemberships()
    ensures
      var key := Issue(rows, projects, r).0[r.newId];
      && (r.actor.IsSuperAdmin() || (key.team.Some? && key.team.value in r.actor.teamIds))
      && CanViewKey(r.actor, key) && CanRevokeKey(r.actor, key)
      && (key.scope == Project ==> key.project.value in projects && key.team == Some(projects[key.project.value]))
      && key.revokedAt.None? && !PrefixTaken(rows, key.prefix)
      && (forall i :: i in rows ==> Issue(rows, projects, r).0[i] == rows[i])
  {
  }

  /** The plaintext that issuing hands out authenticates as its own key in every later state
      until that key is revoked, and never afterwards. */
  lemma IssuedKeyAuthenticatesUntilRevoked(rows: Table, projects: map<ProjectId, TeamId>, r: Request, ops: seq<Op>)
    requires Inv(rows) && Enabled(rows, IssueOp(r)) && Issue(rows, projects, r).1.Issued?
    requires IsRun(Issue(rows, projects, r).0, projects, ops)
    ensures
      var after := RunFrom(Issue(rows, projects, r).0, projects, ops);
      && r.newId in after
      && Authenticate(after, Issue(rows, projects, r).1.plaintext) ==
         (if after[r.newId].revokedAt.None? then Some(r.newId) else None)
  {
    var first, plaintext := Issue(rows, projects, r).0, Issue(rows, projects, r).1.plaintext;
    StepKeepsInv(rows, projects, IssueOp(r));
    RunKeepsInv(first, projects, ops);
    KeysPersist(first, projects, ops, r.newId);
    var draw := FirstFree(rows, r.draws).value;
    ParseUndoesFormat(draw.0, draw.1);
    var after := RunFrom(first, projects, ops);
    assert after[r.newId].revokedAt.None? ==> LivePrefix(after, r.newId, draw.0);
  }

  /** Revoking revokes: after an answer of Revoked the key's plaintext authenticates in no later
      state of any run. */
  lemma RevokedKeyNeverAuthenticates(rows: Table, projects: map<ProjectId, TeamId>, actor: CurrentUser, id: KeyId,
                                     now: Instant, ops: seq<Op>)
    requires Inv(rows) && Revoke(rows, actor, id, now).1 == Revoked
    requires IsRun(Revoke(rows, actor, id, now).0, projects, ops)
    ensures Authenticate(RunFrom(Revoke(rows, actor, id, now).0, projects, ops), rows[id].secured).None?
  {
    var first := Revoke(rows, actor, id, now).0;
    RevokeRepliesIff(rows, actor, id, now);
    StepKeepsInv(rows, projects, RevokeOp(actor, id, now));
    RunKeepsInv(first, projects, ops);
    KeysPersist(first, projects, ops, id);
    NotWhileRevoked(RunFrom(first, projects, ops), id);
  }

  lemma NotWhileRevoked(rows: Table, id: KeyId)
    requires Inv(rows) && id in rows && rows[id].revokedAt.Some?
    ensures Authenticate(rows, rows[id].secured).None?
  {
    assert RowInv(rows[id]);
    var secret :| secret != "" && rows[id].secured == FormatPlaintext(rows[id].prefix, secret);
    ParseUndoesFormat(rows[id].prefix, secret);
    forall i ensures !LivePrefix(rows, i, rows[id].prefix) {
      if i in rows && rows[i].prefix == rows[id].prefix { assert i == id; }
    }
  }

  /** Only plaintexts that were handed out authenticate; the parser's laxness never matters. */
  lemma OnlyIssuedPlaintextsAuthenticate(projects: map<ProjectId, TeamId>, ops: seq<Op>, plaintext: string)
    requires IsRun(map[], projects, ops) && Authenticate(RunFrom(map[], projects, ops), plaintext).Some?
    ensures
      var rows := RunFrom(map[], projects, ops);
      var id := Authenticate(rows, plaintext).value;
      && id in rows && rows[id].revokedAt.None? && rows[id].secured == plaintext
      && GeneratedPrefix(ParseBearer(plaintext).value.0)
      && (forall k :: k in rows && rows[k].secured == plaintext ==> k == id)
  {
    RunKeepsInv(map[], projects, ops);
    var rows := RunFrom(map[], projects, ops);
    var id := Authenticate(rows, plaintext).value;
    forall k | k in rows && rows[k].secured == plaintext ensures k == id {
      assert RowInv(rows[k]);
      var secret :| secret != "" && rows[k].secured == FormatPlaintext(rows[k].prefix, secret);
      ParseUndoesFormat(rows[k].prefix, secret);
    }
  }
}
