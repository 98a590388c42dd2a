/**
 * Dependencies of a package.json: collecting them (`get_local_package_json_version_reqs` in
 * cli/args/package_json.rs) and resolving bare specifiers with them (`resolve_package_json_dep`
 * in cli/resolver.rs).
 */
module PackageJsonDeps {
  import opened Wrappers

  datatype DepError = BadVersion(text: string) | Unsupported(scheme: string)
  type Req = string

  /** Entries in insertion order; keys are distinct, as in the source's ordered map. */
  datatype Dep = Dep(key: string, req: Result<Req, DepError>)

  predicate DistinctKeys(deps: seq<Dep>) {
    forall i, j :: 0 <= i < j < |deps| ==> deps[i].key != deps[j].key
  }

  // ---- Resolving ----

  datatype Resolved = NoDep | Npm(url: string) | BadReq(error: DepError) | BadUrl

  /** `specifier` is the key itself or a path below it. */
  predicate Matches(key: string, specifier: string) {
    key <= specifier && (|key| == |specifier| || specifier[|key|] == '/')
  }

  function Target(dep: Dep, specifier: string, parses: string -> bool): Resolved
    requires Matches(dep.key, specifier)
  {
    match dep.req
    case Failure(error) => BadReq(error)
    case Success(req) =>
      var url := "npm:" + req + specifier[|dep.key|..];
      if parses(url) then Npm(url) else BadUrl
  }

  /** The entry of the first matching key. */
  function ResolveDep(specifier: string, deps: seq<Dep>, parses: string -> bool): Resolved {
    if deps == [] then NoDep
    else if Matches(deps[0].key, specifier) then Target(deps[0], specifier, parses)
    else ResolveDep(specifier, deps[1..], parses)
  }

  /** `resolve_package_json_dep` as the source runs it. */
  method Resolve(specifier: string, deps: seq<Dep>, parses: string -> bool) returns (r: Resolved)
    ensures r == ResolveDep(specifier, deps, parses)
  {
    for i := 0 to |deps|
      invariant ResolveDep(specifier, deps, parses) == ResolveDep(specifier, deps[i..], parses)
    {
      assert deps[i..][1..] == deps[i + 1..];
      if Matches(deps[i].key, specifier) {
        return Target(deps[i], specifier, parses);
      }
    }
    r := NoDep;
  }

  // ---- When the order of the entries does not matter ----

  predicate NoSlash(s: string) {
    forall i :: 0 <= i < |s| ==> s[i] != '/'
  }

  predicate Unscoped(key: string) {
    key != "" && key[0] != '@' && NoSlash(key)
  }

  /** `@scope/name`, with the slash at `k`. */
  predicate ScopedAt(key: string, k: int) {
    1 < k < |key| - 1 && key[0] == '@' && key[k] == '/' && NoSlash(key[..k]) && NoSlash(key[k + 1..])
  }

  predicate NpmName(key: string) {
    Unscoped(key) || exists k :: 0 <= k < |key| && ScopedAt(key, k)
  }

  /** No key is a whole-segment prefix of another. */
  predicate Unnested(deps: seq<Dep>) {
    forall i, j :: 0 <= i < |deps| && 0 <= j < |deps| && i != j ==> !Matches(deps[i].key, deps[j].key)
  }

  lemma NpmNamesDoNotNest(a: string, b: string)
    requires NpmName(a) && NpmName(b) && Matches(a, b)
    ensures a == b
  {
  }

  /** Two keys that match one specifier are nested in each other. */
  lemma MatchingKeysNest(a: string, b: string, specifier: string)
    requires Matches(a, specifier) && Matches(b, specifier)
    ensures Matches(a, b) || Matches(b, a)
  {
  }

  predicate BothMatch(deps: seq<Dep>, i: nat, j: nat, specifier: string)
    requires i < |deps| && j < |deps|
  {
    Matches(deps[i].key, specifier) && Matches(deps[j].key, specifier)
  }

  /** No specifier has two matching entries, exactly when the keys are unnested. */
  lemma AtMostOneMatchExactly(deps: seq<Dep>)
    ensures Unnested(deps) <==>
              forall specifier, i: nat, j: nat :: i < |deps| && j < |deps| && i != j ==>
                !BothMatch(deps, i, j, specifier)
  {
    if Unnested(deps) {
      forall specifier, i: nat, j: nat | i < |deps| && j < |deps| && i != j
        ensures !BothMatch(deps, i, j, specifier)
      {
        if BothMatch(deps, i, j, specifier) {
          MatchingKeysNest(deps[i].key, deps[j].key, specifier);
        }
      }
    } else {
      var i: nat, j: nat :| i < |deps| && j < |deps| && i != j && Matches(deps[i].key, deps[j].key);
      assert Matches(deps[j].key, deps[j].key);
      assert BothMatch(deps, i, j, deps[j].key);
    }
  }

  /** Keys that are npm names are unnested, so at most one matches any specifier. */
  lemma NpmKeysAreUnnested(deps: seq<Dep>)
    requires DistinctKeys(deps) && forall i :: 0 <= i < |deps| ==> NpmName(deps[i].key)
    ensures Unnested(deps)
  {
    forall i, j | 0 <= i < |deps| && 0 <= j < |deps| && i != j
      ensures !Matches(deps[i].key, deps[j].key)
    {
      if Matches(deps[i].key, deps[j].key) {
        NpmNamesDoNotNest(deps[i].key, deps[j].key);
      }
    }
  }

  /** The answer is that of some matching entry, the first one. */
  lemma {:induction false} ResolveIsFirstMatch(specifier: string, deps: seq<Dep>, parses: string -> bool)
    returns (k: nat)
    ensures k <= |deps| && forall i :: 0 <= i < k ==> !Matches(deps[i].key, specifier)
    ensures k == |deps| ==> ResolveDep(specifier, deps, parses) == NoDep
    ensures k < |deps| ==>
              Matches(deps[k].key, specifier) &&
              ResolveDep(specifier, deps, parses) == Target(deps[k], specifier, parses)
  {
    if deps == [] || Matches(deps[0].key, specifier) {
      k := 0;
    } else {
      var rest := deps[1..];
      k := ResolveIsFirstMatch(specifier, rest, parses);
      assert forall i :: 0 <= i < |rest| ==> rest[i] == deps[i + 1];
      k := k + 1;
    }
  }

  /** The same entries in another order. */
  ghost predicate Reordered(a: seq<Dep>, b: seq<Dep>) {
    DistinctKeys(b) && forall d :: d in a <==> d in b
  }

  /** Every specifier has the same answer in every order of the entries. */
  ghost predicate OrderFree(deps: seq<Dep>, parses: string -> bool) {
    forall b, specifier :: Reordered(deps, b) ==>
      ResolveDep(specifier, b, parses) == ResolveDep(specifier, deps, parses)
  }

  /** What the longer of two nested keys adds to the shorter. */
  function Between(a: Dep, b: Dep): string
    requires Matches(a.key, b.key)
  {
    b.key[|a.key|..]
  }

  predicate NoneParses(r: Req, q: Req, tail: string, parses: string -> bool) {
    (tail == "" || tail[0] == '/') ==> !parses("npm:" + r + tail) && !parses("npm:" + q + tail)
  }

  /**
   * Two entries with nested keys give the same answers: they carry the same error, or the longer
   * key's requirement is the shorter one's with the path between the keys, or neither makes a URL.
   */
  ghost predicate Interchangeable(a: Dep, b: Dep, parses: string -> bool)
    requires Matches(a.key, b.key)
  {
    match (a.req, b.req)
    case (Failure(e), Failure(f)) => e == f
    case (Success(r), Success(q)) =>
      q == r + Between(a, b) || forall tail :: NoneParses(r + Between(a, b), q, tail, parses)
    case _ => false
  }

  lemma MatchesBoth(a: string, b: string, specifier: string)
    requires Matches(a, b) && Matches(b, specifier)
    ensures Matches(a, specifier)
    ensures specifier == b + specifier[|b|..] && specifier[|a|..] == b[|a|..] + specifier[|b|..]
  {
    assert specifier[..|b|] == b;
  }

  predicate AgreeAt(a: Dep, b: Dep, specifier: string, parses: string -> bool) {
    Matches(a.key, specifier) && Matches(b.key, specifier) ==>
      Target(a, specifier, parses) == Target(b, specifier, parses)
  }

  lemma InterchangeableAgree(a: Dep, b: Dep, specifier: string, parses: string -> bool)
    requires Matches(a.key, b.key) && Interchangeable(a, b, parses)
    ensures AgreeAt(a, b, specifier, parses)
  {
    if Matches(b.key, specifier) && a.req.Success? && b.req.Success? {
      MatchesBoth(a.key, b.key, specifier);
      var mid, tail := Between(a, b), specifier[|b.key|..];
      assert "npm:" + a.req.value + (mid + tail) == "npm:" + (a.req.value + mid) + tail;
      if b.req.value != a.req.value + mid {
        assert NoneParses(a.req.value + mid, b.req.value, tail, parses);
      }
    }
  }

  lemma UrlsDiffer(r: Req, mid: string, q: Req, tail: string)
    requires q != r + mid
    ensures "npm:" + r + (mid + tail) == "npm:" + (r + mid) + tail != "npm:" + q + tail
  {
    var a, b := "npm:" + (r + mid) + tail, "npm:" + q + tail;
    assert "npm:" + r + (mid + tail) == a;
    assert a[4..|a| - |tail|] == r + mid && b[4..|b| - |tail|] == q;
  }

  /** Entries that are not interchangeable disagree at some specifier that both match. */
  lemma OthersDisagree(a: Dep, b: Dep, parses: string -> bool) returns (specifier: string)
    requires Matches(a.key, b.key) && !Interchangeable(a, b, parses)
    ensures Matches(a.key, specifier) && Matches(b.key, specifier) && !AgreeAt(a, b, specifier, parses)
  {
    if a.req.Success? && b.req.Success? {
      var mid := Between(a, b);
      var tail :| !NoneParses(a.req.value + mid, b.req.value, tail, parses);
      specifier := b.key + tail;
      MatchesBoth(a.key, b.key, specifier);
      assert specifier[|b.key|..] == tail;
      UrlsDiffer(a.req.value, mid, b.req.value, tail);
    } else {
      specifier := b.key;
    }
  }

  /** Entry `i` moved to the front. */
  function Front(deps: seq<Dep>, i: nat): seq<Dep>
    requires i < |deps|
  {
    [deps[i]] + deps[..i] + deps[i + 1..]
  }

  /** The place from which entry `k` came when entry `i` was moved to the front. */
  function Came(i: nat, k: nat): nat {
    if k == 0 then i else if k <= i then k - 1 else k
  }

  lemma FrontHolds(deps: seq<Dep>, i: nat)
    requires i < |deps|
    ensures forall d :: d in deps <==> d in Front(deps, i)
  {
    assert deps == deps[..i] + [deps[i]] + deps[i + 1..];
  }

  lemma FrontIsReordered(deps: seq<Dep>, i: nat)
    requires i < |deps| && DistinctKeys(deps)
    ensures Reordered(deps, Front(deps, i))
  {
    FrontHolds(deps, i);
    forall j, k | 0 <= j < k < |deps| ensures Front(deps, i)[j].key != Front(deps, i)[k].key {
      assert Front(deps, i)[j] == deps[Came(i, j)] && Front(deps, i)[k] == deps[Came(i, k)];
    }
  }

  predicate NestedAt(deps: seq<Dep>, i: nat, j: nat) {
    i < |deps| && j < |deps| && i != j && Matches(deps[i].key, deps[j].key)
  }

  lemma MatchingEntriesAgree(deps: seq<Dep>, i: nat, j: nat, specifier: string, parses: string -> bool)
    requires i <= |deps| && j < |deps| && Matches(deps[j].key, specifier)
    requires i < |deps| ==> Matches(deps[i].key, specifier)
    requires forall i: nat, j: nat :: NestedAt(deps, i, j) ==> Interchangeable(deps[i], deps[j], parses)
    ensures i < |deps| ==> Target(deps[i], specifier, parses) == Target(deps[j], specifier, parses)
  {
    if i < |deps| && i != j {
      MatchingKeysNest(deps[i].key, deps[j].key, specifier);
      if NestedAt(deps, i, j) {
        InterchangeableAgree(deps[i], deps[j], specifier, parses);
      } else {
        assert NestedAt(deps, j, i);
        InterchangeableAgree(deps[j], deps[i], specifier, parses);
      }
    }
  }

  lemma ReorderedAnswersAlike(deps: seq<Dep>, b: seq<Dep>, specifier: string, parses: string -> bool)
    requires DistinctKeys(deps) && Reordered(deps, b)
    requires forall i: nat, j: nat :: NestedAt(deps, i, j) ==> Interchangeable(deps[i], deps[j], parses)
    ensures ResolveDep(specifier, b, parses) == ResolveDep(specifier, deps, parses)
  {
    var k := ResolveIsFirstMatch(specifier, deps, parses);
    var m := ResolveIsFirstMatch(specifier, b, parses);
    if k < |deps| {
      assert deps[k] in b;
    }
    if m < |b| {
      assert b[m] in deps;
      var j: nat :| j < |deps| && deps[j] == b[m];
      MatchingEntriesAgree(deps, k, j, specifier, parses);
    }
  }

  /** Nested entries that are not interchangeable answer some specifier differently, by which comes first. */
  lemma NestedKeysMakeOrderMatter(deps: seq<Dep>, i: nat, j: nat, parses: string -> bool) returns (specifier: string)
    requires NestedAt(deps, i, j) && !Interchangeable(deps[i], deps[j], parses)
    ensures ResolveDep(specifier, Front(deps, i), parses) != ResolveDep(specifier, Front(deps, j), parses)
  {
    specifier := OthersDisagree(deps[i], deps[j], parses);
    assert Front(deps, i)[0] == deps[i] && Front(deps, j)[0] == deps[j];
  }

  /** Exactly when the order of the entries does not matter: when nested ones are interchangeable. */
  lemma OrderFreeExactly(deps: seq<Dep>, parses: string -> bool)
    requires DistinctKeys(deps)
    ensures OrderFree(deps, parses) <==>
              forall i: nat, j: nat :: NestedAt(deps, i, j) ==> Interchangeable(deps[i], deps[j], parses)
  {
    if forall i: nat, j: nat :: NestedAt(deps, i, j) ==> Interchangeable(deps[i], deps[j], parses) {
      forall b, specifier | Reordered(deps, b)
        ensures ResolveDep(specifier, b, parses) == ResolveDep(specifier, deps, parses)
      {
        ReorderedAnswersAlike(deps, b, specifier, parses);
      }
    } else {
      var i: nat, j: nat :| NestedAt(deps, i, j) && !Interchangeable(deps[i], deps[j], parses);
      var specifier := NestedKeysMakeOrderMatter(deps, i, j, parses);
      FrontIsReordered(deps, i);
      FrontIsReordered(deps, j);
    }
  }

  /** With unnested keys the order never matters; npm names are of that kind. */
  lemma OrderDoesNotMatter(deps: seq<Dep>, parses: string -> bool)
    requires DistinctKeys(deps) && Unnested(deps)
    ensures OrderFree(deps, parses)
  {
    OrderFreeExactly(deps, parses);
  }

  /** A nested pair that is swapped: `a` at `a@1`, and `a/b` at `c@2`. */
  lemma NestedExample(parses: string -> bool)
    requires parses("npm:a@1/b") && parses("npm:c@2")
    ensures var a, b := Dep("a", Success("a@1")), Dep("a/b", Success("c@2"));
            && ResolveDep("a/b", [a, b], parses) == Npm("npm:a@1/b")
            && ResolveDep("a/b", [b, a], parses) == Npm("npm:c@2")
  {
    assert "npm:" + "a@1" + "a/b"[1..] == "npm:a@1/b";
    assert "npm:" + "c@2" + "a/b"[3..] == "npm:c@2";
  }

  // ---- Collecting ----

  datatype Entry = Entry(key: string, value: string)

  predicate HasScheme(value: string) {
    "workspace:" <= value || "file:" <= value || "git:" <= value || "http:" <= value || "https:" <= value
  }

  function BeforeColon(s: string): string {
    if s == "" || s[0] == ':' then "" else [s[0]] + BeforeColon(s[1..])
  }

  /** `parse_entry`; `parseReq` is the version parser. */
  function ParseEntry(e: Entry, parseReq: (string, string) -> Result<Req, DepError>): Dep {
    Dep(e.key, if HasScheme(e.value) then Failure(Unsupported(BeforeColon(e.value))) else parseReq(e.key, e.value))
  }

  predicate HasKey(deps: seq<Dep>, key: string) {
    exists i :: 0 <= i < |deps| && deps[i].key == key
  }

  /** Adds the entries whose keys are not there yet. */
  function InsertAll(entries: seq<Entry>, deps: seq<Dep>, parseReq: (string, string) -> Result<Req, DepError>): seq<Dep>
    decreases |entries|
  {
    if entries == [] then deps
    else
      var more := if HasKey(deps, entries[0].key) then deps else deps + [ParseEntry(entries[0], parseReq)];
      InsertAll(entries[1..], more, parseReq)
  }

  class Collector {
    var result: seq<Dep>

    constructor ()
      ensures result == []
    {
      result := [];
    }

    /** `insert_deps`. */
    method InsertDeps(deps: Option<seq<Entry>>, parseReq: (string, string) -> Result<Req, DepError>)
      modifies this
      ensures result == if deps.None? then old(result) else InsertAll(deps.value, old(result), parseReq)
    {
      if deps.None? {
        return;
      }
      for i := 0 to |deps.value|
        invariant InsertAll(deps.value, old(result), parseReq) == InsertAll(deps.value[i..], result, parseReq)
      {
        assert deps.value[i..][1..] == deps.value[i + 1..];
        if !HasKey(result, deps.value[i].key) {
          result := result + [ParseEntry(deps.value[i], parseReq)];
        }
      }
    }
  }

  function Listed(deps: Option<seq<Entry>>): seq<Entry> {
    if deps.Some? then deps.value else []
  }

  function Collected(deps: Option<seq<Entry>>, devDeps: Option<seq<Entry>>, parseReq: (string, string) -> Result<Req, DepError>): seq<Dep> {
    InsertAll(Listed(devDeps), InsertAll(Listed(deps), [], parseReq), parseReq)
  }

  /** `get_local_package_json_version_reqs`: dependencies first, then devDependencies. */
  method Collect(deps: Option<seq<Entry>>, devDeps: Option<seq<Entry>>, parseReq: (string, string) -> Result<Req, DepError>)
    returns (result: seq<Dep>)
    ensures result == Collected(deps, devDeps, parseReq)
  {
    var c := new Collector();
    c.InsertDeps(deps, parseReq);
    c.InsertDeps(devDeps, parseReq);
    result := c.result;
  }

  predicate EntriesDistinct(entries: seq<Entry>) {
    forall i, j :: 0 <= i < j < |entries| ==> entries[i].key != entries[j].key
  }

  predicate EntryKey(entries: seq<Entry>, key: string) {
    exists i :: 0 <= i < |entries| && entries[i].key == key
  }

  lemma MoreKeys(deps: seq<Dep>, e: Dep, key: string)
    ensures HasKey(deps + [e], key) <==> HasKey(deps, key) || key == e.key
  {
    var more := deps + [e];
    if HasKey(deps, key) {
      var i :| 0 <= i < |deps| && deps[i].key == key;
      assert more[i].key == key;
    }
    assert more[|deps|] == e;
  }

  /** After an insertion the list holds the old entries and the new ones whose keys were missing, and no others. */
  lemma {:induction false} InsertAllHolds(
    entries: seq<Entry>, deps: seq<Dep>, parseReq: (string, string) -> Result<Req, DepError>, d: Dep)
    requires EntriesDistinct(entries) && DistinctKeys(deps)
    ensures var r := InsertAll(entries, deps, parseReq);
            && DistinctKeys(r)
            && (d in r <==>
                  || d in deps
                  || (!HasKey(deps, d.key) && exists i :: 0 <= i < |entries| && ParseEntry(entries[i], parseReq) == d))
    decreases |entries|
  {
    if entries != [] {
      var e := ParseEntry(entries[0], parseReq);
      var more := if HasKey(deps, e.key) then deps else deps + [e];
      var rest := entries[1..];
      assert forall i :: 0 <= i < |rest| ==> rest[i] == entries[i + 1];
      InsertAllHolds(rest, more, parseReq, d);
      MoreKeys(deps, e, d.key);
      if d == e && !HasKey(deps, d.key) {
        assert ParseEntry(entries[0], parseReq) == d && more[|deps|] == d;
      }
      if i :| 0 <= i < |entries| && ParseEntry(entries[i], parseReq) == d && i > 0 {
        assert ParseEntry(rest[i - 1], parseReq) == d;
      }
      if i :| 0 <= i < |rest| && ParseEntry(rest[i], parseReq) == d {
        assert ParseEntry(entries[i + 1], parseReq) == d;
      }
    }
  }

  lemma KeysOfInserted(entries: seq<Entry>, parseReq: (string, string) -> Result<Req, DepError>, key: string)
    requires EntriesDistinct(entries)
    ensures HasKey(InsertAll(entries, [], parseReq), key) <==> EntryKey(entries, key)
  {
    var r := InsertAll(entries, [], parseReq);
    if HasKey(r, key) {
      var i :| 0 <= i < |r| && r[i].key == key;
      InsertAllHolds(entries, [], parseReq, r[i]);
      var j :| 0 <= j < |entries| && ParseEntry(entries[j], parseReq) == r[i];
    }
    if EntryKey(entries, key) {
      var j :| 0 <= j < |entries| && entries[j].key == key;
      InsertAllHolds(entries, [], parseReq, ParseEntry(entries[j], parseReq));
      assert ParseEntry(entries[j], parseReq) in r;
      var i :| 0 <= i < |r| && r[i] == ParseEntry(entries[j], parseReq);
    }
  }

  /** What is collected: every dependency, and the devDependencies whose key is not a dependency. */
  lemma DependenciesShadowDev(
    deps: Option<seq<Entry>>, devDeps: Option<seq<Entry>>, parseReq: (string, string) -> Result<Req, DepError>, d: Dep)
    requires EntriesDistinct(Listed(deps)) && EntriesDistinct(Listed(devDeps))
    ensures var r := Collected(deps, devDeps, parseReq);
            && DistinctKeys(r)
            && (d in r <==>
                  || (exists i :: 0 <= i < |Listed(deps)| && ParseEntry(Listed(deps)[i], parseReq) == d)
                  || (!EntryKey(Listed(deps), d.key) &&
                      exists i :: 0 <= i < |Listed(devDeps)| && ParseEntry(Listed(devDeps)[i], parseReq) == d))
  {
    var first := InsertAll(Listed(deps), [], parseReq);
    InsertAllHolds(Listed(deps), [], parseReq, d);
    InsertAllHolds(Listed(devDeps), first, parseReq, d);
    assert HasKey(first, d.key) <==> EntryKey(Listed(deps), d.key) by {
      KeysOfInserted(Listed(deps), parseReq, d.key);
    }
  }
}
