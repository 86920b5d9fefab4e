/** Recursive masking of values under sensitive keys. */
module PiiMask {
  import opened Text

  /** A Python value tree. A dict entry carries `str(key)`, so two entries may share a key;
      `Other` is any value outside JSON, with its `str`. */
  datatype Json =
    | Null
    | Bool(b: bool)
    | Num(n: real)
    | Str(s: string)
    | Dict(entries: seq<Entry>)
    | List(items: seq<Json>)
    | Tuple(elements: seq<Json>)
    | Other(shown: string)
  datatype Entry = Entry(key: string, value: Json)

  const MAX_DEPTH: nat := 32
  const REDACTED := Str("***")

  const SENSITIVE_TOKENS: seq<string> := [
    "password", "passwd", "secret", "private_key", "privatekey", "api_key", "apikey", "access_token",
    "refresh_token", "id_token", "bearer", "authorization", "auth_token", "session_id", "session_token",
    "session", "cookie", "jwt", "token", "client_secret", "email"]

  /** `lower` is Unicode lower-casing; nothing below depends on what it does. */
  predicate IsSensitiveKey(lower: string -> string, key: string) {
    var lowered := lower(key);
    exists k, i: nat | 0 <= k < |SENSITIVE_TOKENS| && i <= |lowered| :: OccursAt(lowered, SENSITIVE_TOKENS[k], i)
  }

  /** Assignment to a dict: a key that is present keeps its place. */
  function Put(d: seq<Entry>, k: string, v: Json): seq<Entry> {
    if d == [] then [Entry(k, v)]
    else if d[0].key == k then [Entry(k, v)] + d[1..]
    else [d[0]] + Put(d[1..], k, v)
  }

  function Mask(lower: string -> string, v: Json, depth: nat): Json
    decreases v
  {
    if depth > MAX_DEPTH then REDACTED
    else
      match v
      case Dict(es) => Dict(MaskEntries(lower, es, depth))
      case List(xs) => List(MaskItems(lower, xs, depth))
      case Tuple(xs) => List(MaskItems(lower, xs, depth))
      case Other(shown) => Str(shown)
      case _ => v
  }

  function MaskValue(lower: string -> string, e: Entry, depth: nat): Json
    decreases e
  {
    if IsSensitiveKey(lower, e.key) then REDACTED else Mask(lower, e.value, depth + 1)
  }

  function MaskEntries(lower: string -> string, es: seq<Entry>, depth: nat): seq<Entry>
    decreases es
  {
    if es == [] then []
    else
      var last := es[|es| - 1];
      Put(MaskEntries(lower, es[..|es| - 1], depth), last.key, MaskValue(lower, last, depth))
  }

  function MaskItems(lower: string -> string, xs: seq<Json>, depth: nat): (r: seq<Json>)
    ensures |r| == |xs|
    ensures forall i :: 0 <= i < |xs| ==> r[i] == Mask(lower, xs[i], depth + 1)
    decreases xs
  {
    if xs == [] then [] else MaskItems(lower, xs[..|xs| - 1], depth) + [Mask(lower, xs[|xs| - 1], depth + 1)]
  }

  method MaskPii(lower: string -> string, v: Json, depth: nat) returns (r: Json)
    ensures r == Mask(lower, v, depth)
    decreases v
  {
    if depth > MAX_DEPTH {
      return REDACTED;
    }
    match v
    case Dict(es) =>
      var out: seq<Entry> := [];
      for i := 0 to |es|
        invariant out == MaskEntries(lower, es[..i], depth)
      {
        assert es[..i + 1][..i] == es[..i];
        if IsSensitiveKey(lower, es[i].key) {
          out := Put(out, es[i].key, REDACTED);
        } else {
          var masked := MaskPii(lower, es[i].value, depth + 1);
          out := Put(out, es[i].key, masked);
        }
      }
      assert es[..|es|] == es;
      return Dict(out);
    case List(xs) =>
      var items := MaskEach(lower, xs, depth);
      return List(items);
    case Tuple(xs) =>
      var items := MaskEach(lower, xs, depth);
      return List(items);
    case Other(shown) =>
      return Str(shown);
    case _ =>
      return v;
  }

  method MaskEach(lower: string -> string, xs: seq<Json>, depth: nat) returns (items: seq<Json>)
    ensures items == MaskItems(lower, xs, depth)
    decreases xs
  {
    items := [];
    for i := 0 to |xs|
      invariant |items| == i
      invariant forall k :: 0 <= k < i ==> items[k] == Mask(lower, xs[k], depth + 1)
    {
      var masked := MaskPii(lower, xs[i], depth + 1);
      items := items + [masked];
    }
  }

  // ----- What masked trees look like -----

  ghost predicate DistinctKeys(es: seq<Entry>) { forall i, k :: 0 <= i < k < |es| ==> es[i].key != es[k].key }

  /** No value under a sensitive key survives at any level, nothing lies deeper than the cap,
      keys are distinct, and only JSON shapes are left. */
  ghost predicate Canonical(lower: string -> string, v: Json, depth: nat)
    decreases v
  {
    if depth > MAX_DEPTH then v == REDACTED
    else
      match v
      case Dict(es) =>
        DistinctKeys(es) && forall e | e in es ::
          if IsSensitiveKey(lower, e.key) then e.value == REDACTED else Canonical(lower, e.value, depth + 1)
      case List(xs) => forall x | x in xs :: Canonical(lower, x, depth + 1)
      case Tuple(_) => false
      case Other(_) => false
      case _ => true
  }

  lemma {:induction false} PutMembers(d: seq<Entry>, k: string, v: Json)
    requires DistinctKeys(d)
    ensures forall e :: e in Put(d, k, v) <==> e == Entry(k, v) || (e in d && e.key != k)
  {
    if d != [] {
      var tail := d[1..];
      assert d == [d[0]] + tail;
      assert forall e :: e in tail ==> e.key != d[0].key;
      if d[0].key != k { PutMembers(tail, k, v); }
    }
  }

  lemma {:induction false} PutKeepsDistinct(d: seq<Entry>, k: string, v: Json)
    requires DistinctKeys(d)
    ensures DistinctKeys(Put(d, k, v))
  {
    if d != [] {
      var tail := d[1..];
      if d[0].key != k {
        PutKeepsDistinct(tail, k, v);
        PutMembers(tail, k, v);
        var rest := Put(tail, k, v);
        forall b | 0 <= b < |rest| ensures rest[b].key != d[0].key { assert rest[b] in rest; }
      }
    }
  }

  lemma {:induction false} PutAppends(d: seq<Entry>, k: string, v: Json)
    requires forall i :: 0 <= i < |d| ==> d[i].key != k
    ensures Put(d, k, v) == d + [Entry(k, v)]
  {
    if d != [] { PutAppends(d[1..], k, v); }
  }

  lemma {:induction false} MaskIsCanonical(lower: string -> string, v: Json, depth: nat)
    ensures Canonical(lower, Mask(lower, v, depth), depth)
    decreases v
  {
    if depth <= MAX_DEPTH {
      match v
      case Dict(es) => MaskEntriesCanonical(lower, es, depth);
      case List(xs) => forall i | 0 <= i < |xs| ensures Canonical(lower, Mask(lower, xs[i], depth + 1), depth + 1) {
        MaskIsCanonical(lower, xs[i], depth + 1);
      }
      case Tuple(xs) => forall i | 0 <= i < |xs| ensures Canonical(lower, Mask(lower, xs[i], depth + 1), depth + 1) {
        MaskIsCanonical(lower, xs[i], depth + 1);
      }
      case _ =>
    }
  }

  lemma {:induction false} MaskEntriesCanonical(lower: string -> string, es: seq<Entry>, depth: nat)
    requires depth <= MAX_DEPTH
    ensures Canonical(lower, Dict(MaskEntries(lower, es, depth)), depth)
    decreases es
  {
    if es != [] {
      var n := |es| - 1;
      MaskEntriesCanonical(lower, es[..n], depth);
      PutMembers(MaskEntries(lower, es[..n], depth), es[n].key, MaskValue(lower, es[n], depth));
      PutKeepsDistinct(MaskEntries(lower, es[..n], depth), es[n].key, MaskValue(lower, es[n], depth));
      MaskIsCanonical(lower, es[n].value, depth + 1);
    }
  }

  function MaskPointwise(lower: string -> string, es: seq<Entry>, depth: nat): seq<Entry> {
    seq(|es|, i requires 0 <= i < |es| => Entry(es[i].key, MaskValue(lower, es[i], depth)))
  }

  lemma {:induction false} DistinctMaskPointwise(lower: string -> string, es: seq<Entry>, depth: nat)
    requires DistinctKeys(es)
    ensures MaskEntries(lower, es, depth) == MaskPointwise(lower, es, depth)
    decreases es
  {
    if es != [] {
      var n := |es| - 1;
      DistinctMaskPointwise(lower, es[..n], depth);
      PutAppends(MaskPointwise(lower, es[..n], depth), es[n].key, MaskValue(lower, es[n], depth));
    }
  }

  /** Masking leaves a tree alone exactly when it is canonical. */
  lemma {:induction false} FixedIffCanonical(lower: string -> string, v: Json, depth: nat)
    ensures Mask(lower, v, depth) == v <==> Canonical(lower, v, depth)
    decreases v
  {
    if Mask(lower, v, depth) == v {
      MaskIsCanonical(lower, v, depth);
    }
    if Canonical(lower, v, depth) && depth <= MAX_DEPTH {
      match v
      case Dict(es) =>
        DistinctMaskPointwise(lower, es, depth);
        forall i | 0 <= i < |es| ensures MaskValue(lower, es[i], depth) == es[i].value {
          assert es[i] in es;
          FixedIffCanonical(lower, es[i].value, depth + 1);
        }
        assert MaskEntries(lower, es, depth) == es;
      case List(xs) =>
        forall i | 0 <= i < |xs| ensures Mask(lower, xs[i], depth + 1) == xs[i] {
          assert xs[i] in xs;
          FixedIffCanonical(lower, xs[i], depth + 1);
        }
        assert MaskItems(lower, xs, depth) == xs;
      case _ =>
    }
  }

  lemma MaskIsIdempotent(lower: string -> string, v: Json, depth: nat)
    ensures Mask(lower, Mask(lower, v, depth), depth) == Mask(lower, v, depth)
  {
    MaskIsCanonical(lower, v, depth);
    FixedIffCanonical(lower, Mask(lower, v, depth), depth);
  }

  // ----- Which keys are sensitive, and what happens to the others -----

  lemma ContainsThrough(x: string, s: string, t: string, at: nat)
    requires Contains(x, s) && OccursAt(s, t, at)
    ensures Contains(x, t)
  {
    var i: nat :| OccursAt(x, s, i);
    var found := x[i + at..i + at + |t|];
    forall k | 0 <= k < |t| ensures found[k] == t[k] {
      assert found[k] == x[i..i + |s|][at + k];
      assert t[k] == s[at..at + |t|][k];
    }
    assert found == t;
    assert OccursAt(x, t, i + at);
  }

  /** Of the listed tokens, these fourteen decide: every other one contains one of them. */
  ghost predicate NamesASecret(s: string) {
    || Contains(s, "password") || Contains(s, "passwd") || Contains(s, "secret") || Contains(s, "private_key")
    || Contains(s, "privatekey") || Contains(s, "api_key") || Contains(s, "apikey") || Contains(s, "bearer")
    || Contains(s, "authorization") || Contains(s, "session") || Contains(s, "cookie") || Contains(s, "jwt")
    || Contains(s, "token") || Contains(s, "email")
  }

  lemma SensitiveAsContains(lower: string -> string, key: string)
    ensures IsSensitiveKey(lower, key) <==>
      exists k :: 0 <= k < |SENSITIVE_TOKENS| && Contains(lower(key), SENSITIVE_TOKENS[k])
  {
    var s := lower(key);
    if k, i: nat :| 0 <= k < |SENSITIVE_TOKENS| && i <= |s| && OccursAt(s, SENSITIVE_TOKENS[k], i) {
      assert Contains(s, SENSITIVE_TOKENS[k]);
    }
    if k :| 0 <= k < |SENSITIVE_TOKENS| && Contains(s, SENSITIVE_TOKENS[k]) {
      var i: nat :| OccursAt(s, SENSITIVE_TOKENS[k], i);
    }
  }

  lemma TokenNamesASecret(s: string, k: nat)
    requires k < |SENSITIVE_TOKENS| && Contains(s, SENSITIVE_TOKENS[k])
    ensures NamesASecret(s)
  {
    var t := SENSITIVE_TOKENS[k];
    if t == "access_token" {
      ContainsThrough(s, t, "token", 7);
    } else if t == "refresh_token" {
      ContainsThrough(s, t, "token", 8);
    } else if t == "id_token" {
      ContainsThrough(s, t, "token", 3);
    } else if t == "auth_token" {
      ContainsThrough(s, t, "token", 5);
    } else if t == "session_id" || t == "session_token" {
      ContainsThrough(s, t, "session", 0);
    } else if t == "client_secret" {
      ContainsThrough(s, t, "secret", 7);
    }
  }

  lemma SecretIsListed(s: string) returns (k: nat)
    requires NamesASecret(s)
    ensures k < |SENSITIVE_TOKENS| && Contains(s, SENSITIVE_TOKENS[k])
  {
    k := if Contains(s, "password") then 0 else if Contains(s, "passwd") then 1 else if Contains(s, "secret") then 2
         else if Contains(s, "private_key") then 3 else if Contains(s, "privatekey") then 4
         else if Contains(s, "api_key") then 5 else if Contains(s, "apikey") then 6
         else if Contains(s, "bearer") then 10 else if Contains(s, "authorization") then 11
         else if Contains(s, "session") then 15 else if Contains(s, "cookie") then 16
         else if Contains(s, "jwt") then 17 else if Contains(s, "token") then 18 else 20;
  }

  /** A key is sensitive if and only if, lower-cased, it contains one of the fourteen words. */
  lemma SensitiveIff(lower: string -> string, key: string)
    ensures IsSensitiveKey(lower, key) <==> NamesASecret(lower(key))
  {
    SensitiveAsContains(lower, key);
    if k :| 0 <= k < |SENSITIVE_TOKENS| && Contains(lower(key), SENSITIVE_TOKENS[k]) {
      TokenNamesASecret(lower(key), k);
    }
    if NamesASecret(lower(key)) { var k := SecretIsListed(lower(key)); }
  }

  /** Entry `i` is the last one with its key. */
  ghost predicate LastWithKey(es: seq<Entry>, i: nat) {
    i < |es| && forall k :: i < k < |es| ==> es[k].key != es[i].key
  }

  lemma LastWithKeyStep(es: seq<Entry>, i: nat)
    requires i < |es|
    ensures var n := |es| - 1;
      LastWithKey(es, i) <==> i == n || (LastWithKey(es[..n], i) && es[i].key != es[n].key)
  {
    var n := |es| - 1;
    if i < n && LastWithKey(es[..n], i) && es[i].key != es[n].key {
      forall k | i < k < |es| ensures es[k].key != es[i].key {
        if k < n { assert es[..n][k] == es[k]; }
      }
    }
  }

  ghost predicate MaskedLast(lower: string -> string, es: seq<Entry>, depth: nat, e: Entry) {
    exists i: nat :: LastWithKey(es, i) && e == Entry(es[i].key, MaskValue(lower, es[i], depth))
  }

  lemma MaskedLastStep(lower: string -> string, es: seq<Entry>, depth: nat, e: Entry)
    requires es != []
    ensures
      var init, last := es[..|es| - 1], es[|es| - 1];
      MaskedLast(lower, es, depth, e) <==>
        e == Entry(last.key, MaskValue(lower, last, depth)) || (MaskedLast(lower, init, depth, e) && e.key != last.key)
  {
    var n := |es| - 1;
    var init := es[..n];
    LastWithKeyStep(es, n);
    if i: nat :| LastWithKey(es, i) && e == Entry(es[i].key, MaskValue(lower, es[i], depth)) {
      LastWithKeyStep(es, i);
      assert i < n ==> init[i] == es[i];
    }
    if i: nat :| LastWithKey(init, i) && e == Entry(init[i].key, MaskValue(lower, init[i], depth)) {
      LastWithKeyStep(es, i);
      assert init[i] == es[i];
    }
  }

  lemma {:induction false} EntriesAreMaskedLast(lower: string -> string, es: seq<Entry>, depth: nat)
    ensures DistinctKeys(MaskEntries(lower, es, depth))
    ensures forall e :: e in MaskEntries(lower, es, depth) <==> MaskedLast(lower, es, depth, e)
    decreases es
  {
    if es != [] {
      var init, last := es[..|es| - 1], es[|es| - 1];
      var before := MaskEntries(lower, init, depth);
      EntriesAreMaskedLast(lower, init, depth);
      PutMembers(before, last.key, MaskValue(lower, last, depth));
      PutKeepsDistinct(before, last.key, MaskValue(lower, last, depth));
      forall e ensures e in MaskEntries(lower, es, depth) <==> MaskedLast(lower, es, depth, e) {
        MaskedLastStep(lower, es, depth, e);
      }
    }
  }

  /** A masked dict keeps exactly the keys, each with the value of its last entry: the marker for a
      secret, and the value masked one level down otherwise. */
  lemma MaskedEntries(lower: string -> string, es: seq<Entry>, depth: nat, e: Entry)
    ensures DistinctKeys(MaskEntries(lower, es, depth))
    ensures e in MaskEntries(lower, es, depth) <==>
      exists i: nat :: LastWithKey(es, i) && e.key == es[i].key &&
        e.value == if NamesASecret(lower(e.key)) then Str("***") else Mask(lower, es[i].value, depth + 1)
  {
    EntriesAreMaskedLast(lower, es, depth);
    SensitiveIff(lower, e.key);
  }

  /** What masking does to each kind of value; below the cap everything is the marker. */
  lemma MaskMeans(lower: string -> string, v: Json, depth: nat)
    ensures depth > 32 ==> Mask(lower, v, depth) == Str("***")
    ensures depth <= 32 ==>
      match v
      case Dict(es) => Mask(lower, v, depth) == Dict(MaskEntries(lower, es, depth))
      case List(xs) =>
        Mask(lower, v, depth) == List(seq(|xs|, i requires 0 <= i < |xs| => Mask(lower, xs[i], depth + 1)))
      case Tuple(xs) =>
        Mask(lower, v, depth) == List(seq(|xs|, i requires 0 <= i < |xs| => Mask(lower, xs[i], depth + 1)))
      case Other(shown) => Mask(lower, v, depth) == Str(shown)
      case _ => Mask(lower, v, depth) == v
  {
    if depth <= 32 {
      match v
      case List(xs) =>
        assert MaskItems(lower, xs, depth) == seq(|xs|, i requires 0 <= i < |xs| => Mask(lower, xs[i], depth + 1));
      case Tuple(xs) =>
        assert MaskItems(lower, xs, depth) == seq(|xs|, i requires 0 <= i < |xs| => Mask(lower, xs[i], depth + 1));
      case _ =>
    }
  }

  // ----- Nesting, and trees without secrets -----

  /** How many levels lie below the root. */
  function Nesting(v: Json): nat
    decreases v
  {
    match v
    case Dict(es) => Deepest(seq(|es|, i requires 0 <= i < |es| => 1 + Nesting(es[i].value)))
    case List(xs) => Deepest(seq(|xs|, i requires 0 <= i < |xs| => 1 + Nesting(xs[i])))
    case Tuple(xs) => Deepest(seq(|xs|, i requires 0 <= i < |xs| => 1 + Nesting(xs[i])))
    case _ => 0
  }

  function Deepest(ns: seq<nat>): (m: nat)
    ensures forall i :: 0 <= i < |ns| ==> ns[i] <= m
    ensures m > 0 ==> exists i :: 0 <= i < |ns| && ns[i] == m
  {
    if ns == [] then 0
    else
      var init, last := Deepest(ns[..|ns| - 1]), ns[|ns| - 1];
      if last > init then last else init
  }

  lemma {:induction false} CanonicalIsShallow(lower: string -> string, v: Json, depth: nat)
    requires Canonical(lower, v, depth)
    ensures Nesting(v) <= if depth > MAX_DEPTH then 0 else MAX_DEPTH + 1 - depth
    decreases v
  {
    if depth <= MAX_DEPTH {
      match v
      case Dict(es) =>
        forall i | 0 <= i < |es| ensures Nesting(es[i].value) <= MAX_DEPTH - depth {
          assert es[i] in es;
          if !IsSensitiveKey(lower, es[i].key) { CanonicalIsShallow(lower, es[i].value, depth + 1); }
        }
      case List(xs) =>
        forall i | 0 <= i < |xs| ensures Nesting(xs[i]) <= MAX_DEPTH - depth {
          assert xs[i] in xs;
          CanonicalIsShallow(lower, xs[i], depth + 1);
        }
      case _ =>
    }
  }

  lemma MaskedNestingIsBounded(lower: string -> string, v: Json)
    ensures Nesting(Mask(lower, v, 0)) <= 33
  {
    MaskIsCanonical(lower, v, 0);
    CanonicalIsShallow(lower, Mask(lower, v, 0), 0);
  }

  /** Nothing to hide: no sensitive key, and keys that stay distinct as strings. */
  ghost predicate Harmless(lower: string -> string, v: Json)
    decreases v
  {
    match v
    case Dict(es) =>
      DistinctKeys(es) && forall e | e in es :: !IsSensitiveKey(lower, e.key) && Harmless(lower, e.value)
    case List(xs) => forall x | x in xs :: Harmless(lower, x)
    case Tuple(xs) => forall x | x in xs :: Harmless(lower, x)
    case _ => true
  }

  /** The same tree with lists for tuples and strings for foreign values. */
  function AsJson(v: Json): Json
    decreases v
  {
    match v
    case Dict(es) => Dict(seq(|es|, i requires 0 <= i < |es| => Entry(es[i].key, AsJson(es[i].value))))
    case List(xs) => List(seq(|xs|, i requires 0 <= i < |xs| => AsJson(xs[i])))
    case Tuple(xs) => List(seq(|xs|, i requires 0 <= i < |xs| => AsJson(xs[i])))
    case Other(shown) => Str(shown)
    case _ => v
  }

  predicate IsChild(v: Json, child: Json) {
    match v
    case Dict(es) => exists i :: 0 <= i < |es| && es[i].value == child
    case List(xs) => child in xs
    case Tuple(xs) => child in xs
    case _ => false
  }

  lemma BelowParent(v: Json, child: Json)
    requires IsChild(v, child)
    ensures Nesting(child) < Nesting(v)
  {
    match v
    case Dict(es) =>
      var i :| 0 <= i < |es| && es[i].value == child;
      var ns := seq(|es|, i requires 0 <= i < |es| => 1 + Nesting(es[i].value));
      assert ns[i] == 1 + Nesting(child);
    case List(xs) =>
      var i :| 0 <= i < |xs| && xs[i] == child;
      var ns := seq(|xs|, i requires 0 <= i < |xs| => 1 + Nesting(xs[i]));
      assert ns[i] == 1 + Nesting(child);
    case Tuple(xs) =>
      var i :| 0 <= i < |xs| && xs[i] == child;
      var ns := seq(|xs|, i requires 0 <= i < |xs| => 1 + Nesting(xs[i]));
      assert ns[i] == 1 + Nesting(child);
  }

  /** A tree without sensitive keys that lies within the cap comes back unchanged, up to lists
      for tuples. */
  lemma {:induction false} HarmlessTreesAreKept(lower: string -> string, v: Json, depth: nat)
    requires Harmless(lower, v) && depth + Nesting(v) <= MAX_DEPTH
    ensures Mask(lower, v, depth) == AsJson(v)
    decreases v, 1
  {
    match v
    case Dict(es) =>
      DistinctMaskPointwise(lower, es, depth);
      forall i | 0 <= i < |es| ensures MaskValue(lower, es[i], depth) == AsJson(es[i].value) {
        assert es[i] in es;
        HarmlessChildIsKept(lower, v, es[i].value, depth);
      }
      assert MaskPointwise(lower, es, depth) == AsJson(v).entries;
    case List(xs) => HarmlessItemsAreKept(lower, v, xs, depth);
    case Tuple(xs) => HarmlessItemsAreKept(lower, v, xs, depth);
    case _ =>
  }

  lemma {:induction false} HarmlessItemsAreKept(lower: string -> string, v: Json, xs: seq<Json>, depth: nat)
    requires v == List(xs) || v == Tuple(xs)
    requires Harmless(lower, v) && depth + Nesting(v) <= MAX_DEPTH
    ensures MaskItems(lower, xs, depth) == AsJson(v).items
    decreases v, 0
  {
    forall i | 0 <= i < |xs| ensures Mask(lower, xs[i], depth + 1) == AsJson(xs[i]) {
      assert xs[i] in xs;
      HarmlessChildIsKept(lower, v, xs[i], depth);
    }
  }

  lemma {:induction false} HarmlessChildIsKept(lower: string -> string, v: Json, child: Json, depth: nat)
    requires IsChild(v, child) && child < v && Harmless(lower, child) && depth + Nesting(v) <= MAX_DEPTH
    ensures Mask(lower, child, depth + 1) == AsJson(child)
    decreases child, 2
  {
    BelowParent(v, child);
    HarmlessTreesAreKept(lower, child, depth + 1);
  }
}
