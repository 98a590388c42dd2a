/**
 * Resolving `jsr:` requirements (cli/jsr.rs): `JsrCacheResolver`, which reads the HTTP cache, and
 * `JsrFetchResolver`, which asks the registry. Both keep memo tables over a search for a version.
 *
 * Semver versions are totally ordered and stand for their rank. What the cache holds, what the
 * registry answers and which versions a requirement matches are fixed functions of a `World`.
 */
module Jsr {
  import opened Wrappers

  type Version = int

  /** A requirement by name and constraint; `isTag` when the constraint is a dist tag. */
  datatype Req = Req(name: string, constraint: string, isTag: bool)
  datatype Nv = Nv(name: string, version: Version)

  datatype Release = Release(version: Version, yanked: bool)

  /** The releases of a package in no particular order, each version once. */
  datatype PackageInfo = PackageInfo(releases: seq<Release>)
  datatype VersionInfo = VersionInfo(exports: map<string, string>)

  datatype World = World(
    packageInfo: string -> Option<PackageInfo>,
    versionInfo: Nv -> Option<VersionInfo>,
    matches: (Req, Version) -> bool)

  // ---- Sorting ----

  predicate Descending(s: seq<Release>) {
    forall i, j :: 0 <= i < j < |s| ==> s[i].version >= s[j].version
  }

  function InsertRelease(r: Release, s: seq<Release>): (t: seq<Release>)
    requires Descending(s)
    ensures Descending(t) && (forall x :: x in t <==> x == r || x in s)
  {
    if s == [] || r.version >= s[0].version then [r] + s
    else
      var rest := InsertRelease(r, s[1..]);
      assert forall x :: x in s <==> x == s[0] || x in s[1..];
      assert forall k :: 0 <= k < |rest| ==> rest[k] in rest;
      [s[0]] + rest
  }

  /** The releases, newest first. */
  function NewestFirst(s: seq<Release>): (t: seq<Release>)
    ensures Descending(t) && (forall x :: x in t <==> x in s)
  {
    if s == [] then []
    else
      assert forall x :: x in s <==> x == s[0] || x in s[1..];
      InsertRelease(s[0], NewestFirst(s[1..]))
  }

  function FirstWhere(s: seq<Release>, p: Release -> bool): Option<Release> {
    if s == [] then None
    else if p(s[0]) then Some(s[0])
    else FirstWhere(s[1..], p)
  }

  /** In a list with the newest first, the first acceptable release is the newest acceptable one. */
  lemma {:induction false} FirstWhereIsNewest(s: seq<Release>, p: Release -> bool)
    requires Descending(s)
    ensures var r := FirstWhere(s, p);
            if r.None? then forall x :: x in s ==> !p(x)
            else r.value in s && p(r.value) && forall x :: x in s && p(x) ==> x.version <= r.value.version
  {
    if s != [] && !p(s[0]) {
      assert forall x :: x in s <==> x == s[0] || x in s[1..];
      FirstWhereIsNewest(s[1..], p);
    }
  }

  // ---- The searches, without memo tables ----

  predicate Cached(w: World, name: string, r: Release) {
    w.versionInfo(Nv(name, r.version)).Some?
  }

  /** The release is acceptable to the cache resolver. */
  predicate CacheAccepts(w: World, req: Req, r: Release) {
    !req.isTag && w.matches(req, r.version) && Cached(w, req.name, r)
  }

  /** The release is acceptable to the fetch resolver. */
  predicate FetchAccepts(w: World, req: Req, r: Release) {
    !r.yanked && !req.isTag && w.matches(req, r.version)
  }

  function Search(w: World, req: Req, accepts: Release -> bool): Option<Nv> {
    match w.packageInfo(req.name)
    case None => None
    case Some(info) =>
      match FirstWhere(NewestFirst(info.releases), accepts)
      case None => None
      case Some(r) => Some(Nv(req.name, r.version))
  }

  function CacheSearch(w: World, req: Req): Option<Nv> {
    Search(w, req, r => CacheAccepts(w, req, r))
  }

  function FetchSearch(w: World, req: Req): Option<Nv> {
    Search(w, req, r => FetchAccepts(w, req, r))
  }

  /** A lockfile entry wins over the search. */
  function CacheAnswer(w: World, locked: map<Req, Nv>, req: Req): Option<Nv> {
    if req in locked then Some(locked[req]) else CacheSearch(w, req)
  }

  // ---- The resolvers ----

  class CacheResolver {
    const world: World
    const locked: map<Req, Nv>
    var nvByReq: map<Req, Option<Nv>>
    var infoByNv: map<Nv, Option<VersionInfo>>
    var infoByName: map<string, Option<PackageInfo>>

    /** Every memo table agrees with the search it stands for. */
    predicate Valid()
      reads this
    {
      && (forall req :: req in nvByReq ==> nvByReq[req] == CacheAnswer(world, locked, req))
      && (forall req :: req in locked ==> req in nvByReq)
      && (forall nv :: nv in infoByNv ==> infoByNv[nv] == world.versionInfo(nv))
      && (forall name :: name in infoByName ==> infoByName[name] == world.packageInfo(name))
    }

    constructor (world: World, locked: map<Req, Nv>)
      ensures Valid() && this.world == world && this.locked == locked
    {
      this.world := world;
      this.locked := locked;
      nvByReq := map req | req in locked :: Some(locked[req]);
      infoByNv := map[];
      infoByName := map[];
    }

    method GetPackageInfo(name: string) returns (info: Option<PackageInfo>)
      requires Valid()
      modifies this`infoByName
      ensures Valid() && info == world.packageInfo(name)
      ensures infoByName == old(infoByName)[name := info]
    {
      if name in infoByName {
        info := infoByName[name];
        assert infoByName == infoByName[name := info];
      } else {
        info := world.packageInfo(name);
        infoByName := infoByName[name := info];
      }
    }

    method GetVersionInfo(nv: Nv) returns (info: Option<VersionInfo>)
      requires Valid()
      modifies this`infoByNv
      ensures Valid() && info == world.versionInfo(nv)
      ensures infoByNv == old(infoByNv)[nv := info]
    {
      if nv in infoByNv {
        info := infoByNv[nv];
        assert infoByNv == infoByNv[nv := info];
      } else {
        info := world.versionInfo(nv);
        infoByNv := infoByNv[nv := info];
      }
    }

    /** The search of `req_to_nv`, going through the other two memo tables. */
    method FindVersion(req: Req) returns (nv: Option<Nv>)
      requires Valid()
      modifies this`infoByName, this`infoByNv
      ensures Valid() && nv == CacheSearch(world, req)
    {
      var info := GetPackageInfo(req.name);
      if info.None? {
        return None;
      }
      var releases := NewestFirst(info.value.releases);
      ghost var accepts := r => CacheAccepts(world, req, r);
      var k := 0;
      while k < |releases|
        invariant 0 <= k <= |releases| && Valid()
        invariant FirstWhere(releases, accepts) == FirstWhere(releases[k..], accepts)
      {
        var r := releases[k];
        if !req.isTag && world.matches(req, r.version) {
          var version := GetVersionInfo(Nv(req.name, r.version));
          if version.Some? {
            return Some(Nv(req.name, r.version));
          }
        }
        assert releases[k..][1..] == releases[k + 1..];
        k := k + 1;
      }
      nv := None;
    }

    method ReqToNv(req: Req) returns (nv: Option<Nv>)
      requires Valid()
      modifies this
      ensures Valid() && nv == CacheAnswer(world, locked, req)
      ensures nvByReq == old(nvByReq)[req := nv]
    {
      if req in nvByReq {
        nv := nvByReq[req];
        assert nvByReq == nvByReq[req := nv];
      } else {
        nv := FindVersion(req);
        nvByReq := nvByReq[req := nv];
      }
    }
  }

  class FetchResolver {
    const world: World
    var nvByReq: map<Req, Option<Nv>>
    var infoByName: map<string, Option<PackageInfo>>

    predicate Valid()
      reads this
    {
      && (forall req :: req in nvByReq ==> nvByReq[req] == FetchSearch(world, req))
      && (forall name :: name in infoByName ==> infoByName[name] == world.packageInfo(name))
    }

    constructor (world: World)
      ensures Valid() && this.world == world
    {
      this.world := world;
      nvByReq := map[];
      infoByName := map[];
    }

    method GetPackageInfo(name: string) returns (info: Option<PackageInfo>)
      requires Valid()
      modifies this`infoByName
      ensures Valid() && info == world.packageInfo(name)
      ensures infoByName == old(infoByName)[name := info]
    {
      if name in infoByName {
        info := infoByName[name];
        assert infoByName == infoByName[name := info];
      } else {
        info := world.packageInfo(name);
        infoByName := infoByName[name := info];
      }
    }

    method ReqToNv(req: Req) returns (nv: Option<Nv>)
      requires Valid()
      modifies this
      ensures Valid() && nv == FetchSearch(world, req)
      ensures nvByReq == old(nvByReq)[req := nv]
    {
      if req in nvByReq {
        nv := nvByReq[req];
        assert nvByReq == nvByReq[req := nv];
        return;
      }
      var info := GetPackageInfo(req.name);
      if info.None? {
        nv := None;
      } else {
        var releases := NewestFirst(info.value.releases);
        var found := FirstWhere(releases, r => FetchAccepts(world, req, r));
        nv := if found.Some? then Some(Nv(req.name, found.value.version)) else None;
      }
      nvByReq := nvByReq[req := nv];
    }
  }

  // ---- What the searches find ----

  /** `v` is the newest acceptable version of the package, or there is none. */
  ghost predicate IsNewest(w: World, req: Req, accepts: Release -> bool, answer: Option<Nv>) {
    var info := w.packageInfo(req.name);
    match answer
    case None => info.Some? ==> forall r :: r in info.value.releases ==> !accepts(r)
    case Some(nv) =>
      && nv.name == req.name && info.Some?
      && (exists r :: r in info.value.releases && accepts(r) && r.version == nv.version)
      && (forall r :: r in info.value.releases && accepts(r) ==> r.version <= nv.version)
  }

  lemma SearchFindsNewest(w: World, req: Req, accepts: Release -> bool)
    ensures IsNewest(w, req, accepts, Search(w, req, accepts))
  {
    var info := w.packageInfo(req.name);
    if info.Some? {
      var found := FirstWhere(NewestFirst(info.value.releases), accepts);
      FirstWhereIsNewest(NewestFirst(info.value.releases), accepts);
      if found.Some? {
        assert found.value in info.value.releases && accepts(found.value);
      }
    }
  }

  /** The answer for an unlocked requirement is the newest version that matches and is cached. */
  lemma CacheAnswerIsNewestCached(w: World, locked: map<Req, Nv>, req: Req)
    requires req !in locked
    ensures IsNewest(w, req, r => CacheAccepts(w, req, r), CacheAnswer(w, locked, req))
    ensures req.isTag ==> CacheAnswer(w, locked, req) == None
  {
    SearchFindsNewest(w, req, r => CacheAccepts(w, req, r));
  }

  predicate Releases(w: World, req: Req, r: Release) {
    w.packageInfo(req.name).Some? && r in w.packageInfo(req.name).value.releases
  }

  predicate OneEach(w: World, name: string) {
    w.packageInfo(name).Some? ==>
      var rs := w.packageInfo(name).value.releases;
      forall i, j :: 0 <= i < j < |rs| ==> rs[i].version != rs[j].version
  }

  /** Two releases of one version are the same release. */
  lemma SameVersionSameRelease(w: World, req: Req, a: Release, b: Release)
    requires OneEach(w, req.name) && Releases(w, req, a) && Releases(w, req, b) && a.version == b.version
    ensures a == b
  {
  }

  /** The release that a search settles on is acceptable, and nothing acceptable is newer. */
  lemma FoundRelease(w: World, req: Req, accepts: Release -> bool, v: Release)
    requires OneEach(w, req.name) && Releases(w, req, v)
    requires Search(w, req, accepts) == Some(Nv(req.name, v.version))
    ensures accepts(v)
    ensures forall r :: Releases(w, req, r) && accepts(r) ==> r.version <= v.version
  {
    SearchFindsNewest(w, req, accepts);
    var v' :| v' in w.packageInfo(req.name).value.releases && accepts(v') && v'.version == v.version;
    SameVersionSameRelease(w, req, v, v');
  }

  /**
   * How the two resolvers compare on one package info, yanked releases and all: `v` is the cache
   * resolver's release and `f` the fetch resolver's.
   */
  lemma CacheAgainstFetch(w: World, req: Req, v: Release, f: Release)
    requires OneEach(w, req.name) && Releases(w, req, v) && Releases(w, req, f)
    requires CacheSearch(w, req) == Some(Nv(req.name, v.version))
    requires FetchSearch(w, req) == Some(Nv(req.name, f.version))
    ensures !v.yanked ==> v.version <= f.version
    ensures Cached(w, req.name, f) ==> f.version <= v.version
    ensures v.version == f.version <==> !v.yanked && Cached(w, req.name, f)
  {
    FoundRelease(w, req, r => CacheAccepts(w, req, r), v);
    FoundRelease(w, req, r => FetchAccepts(w, req, r), f);
    if v.version == f.version {
      SameVersionSameRelease(w, req, v, f);
    }
  }

  /** A release that one of the resolvers might answer: it matches, and is cached or not yanked. */
  predicate Candidate(w: World, req: Req, r: Release) {
    Releases(w, req, r) && (CacheAccepts(w, req, r) || FetchAccepts(w, req, r))
  }

  ghost predicate NewestCandidate(w: World, req: Req, r: Release) {
    Candidate(w, req, r) && forall x :: Candidate(w, req, x) ==> x.version <= r.version
  }

  /** The newest candidate, if there is one, is both cached and not yanked. */
  ghost predicate Settled(w: World, req: Req) {
    forall r :: NewestCandidate(w, req, r) ==> Cached(w, req.name, r) && !r.yanked
  }

  /** The release behind an answer. */
  lemma Answered(w: World, req: Req, accepts: Release -> bool) returns (r: Release)
    requires Search(w, req, accepts).Some?
    ensures Releases(w, req, r) && accepts(r) && Search(w, req, accepts) == Some(Nv(req.name, r.version))
    ensures forall x :: Releases(w, req, x) && accepts(x) ==> x.version <= r.version
  {
    SearchFindsNewest(w, req, accepts);
    var nv := Search(w, req, accepts).value;
    r :| r in w.packageInfo(req.name).value.releases && accepts(r) && r.version == nv.version;
  }

  /** The newest candidate is the answer of every resolver that accepts it. */
  lemma NewestIsAnswered(w: World, req: Req, accepts: Release -> bool, r: Release)
    requires NewestCandidate(w, req, r) && accepts(r)
    requires forall x :: Releases(w, req, x) && accepts(x) ==> Candidate(w, req, x)
    ensures Search(w, req, accepts) == Some(Nv(req.name, r.version))
  {
    SearchFindsNewest(w, req, accepts);
  }

  /** When the answers are equal, the newest candidate is acceptable to both. */
  lemma AgreementSettles(w: World, req: Req, r: Release)
    requires OneEach(w, req.name) && CacheSearch(w, req) == FetchSearch(w, req) && NewestCandidate(w, req, r)
    ensures CacheAccepts(w, req, r) && FetchAccepts(w, req, r)
  {
    if CacheAccepts(w, req, r) {
      NewestIsAnswered(w, req, x => CacheAccepts(w, req, x), r);
    } else {
      NewestIsAnswered(w, req, x => FetchAccepts(w, req, x), r);
    }
    FoundRelease(w, req, x => CacheAccepts(w, req, x), r);
    FoundRelease(w, req, x => FetchAccepts(w, req, x), r);
  }

  /** Some candidate is the newest, if there is one at all. */
  lemma NoCandidateNoAnswer(w: World, req: Req)
    requires forall r :: !NewestCandidate(w, req, r)
    ensures CacheSearch(w, req) == FetchSearch(w, req) == None
  {
    var cache, fetch := CacheSearch(w, req), FetchSearch(w, req);
    SearchFindsNewest(w, req, x => CacheAccepts(w, req, x));
    SearchFindsNewest(w, req, x => FetchAccepts(w, req, x));
    if cache.Some? && (fetch.Some? ==> fetch.value.version <= cache.value.version) {
      var v := Answered(w, req, x => CacheAccepts(w, req, x));
      assert NewestCandidate(w, req, v);
    } else if fetch.Some? {
      var f := Answered(w, req, x => FetchAccepts(w, req, x));
      assert NewestCandidate(w, req, f);
    }
  }

  /** When the newest candidate is acceptable to both, the answers are equal. */
  lemma SettledAgrees(w: World, req: Req)
    requires Settled(w, req)
    ensures CacheSearch(w, req) == FetchSearch(w, req)
  {
    if r :| NewestCandidate(w, req, r) {
      NewestIsAnswered(w, req, x => CacheAccepts(w, req, x), r);
      NewestIsAnswered(w, req, x => FetchAccepts(w, req, x), r);
    } else {
      NoCandidateNoAnswer(w, req);
    }
  }

  /**
   * Exactly when the two resolvers agree on a requirement that is not locked, answers of nothing
   * included: when the newest release that either could answer is both cached and not yanked.
   */
  lemma ResolversAgreeExactly(w: World, locked: map<Req, Nv>, req: Req)
    requires OneEach(w, req.name) && req !in locked
    ensures CacheAnswer(w, locked, req) == FetchSearch(w, req) <==> Settled(w, req)
  {
    if Settled(w, req) {
      SettledAgrees(w, req);
    } else if CacheSearch(w, req) == FetchSearch(w, req) {
      var r :| NewestCandidate(w, req, r) && !(Cached(w, req.name, r) && !r.yanked);
      AgreementSettles(w, req, r);
    }
  }

  /** A version that only the cache resolver finds has been yanked. */
  lemma OnlyCacheFindsYanked(w: World, req: Req, v: Release)
    requires OneEach(w, req.name) && Releases(w, req, v)
    requires CacheSearch(w, req) == Some(Nv(req.name, v.version)) && FetchSearch(w, req) == None
    ensures v.yanked
  {
    FoundRelease(w, req, r => CacheAccepts(w, req, r), v);
    SearchFindsNewest(w, req, r => FetchAccepts(w, req, r));
    assert !FetchAccepts(w, req, v);
  }

  predicate NoneYanked(w: World, req: Req) {
    w.packageInfo(req.name).Some? ==>
      forall r :: r in w.packageInfo(req.name).value.releases && w.matches(req, r.version) ==> !r.yanked
  }

  /**
   * With no matching version yanked, whatever the cache resolver answers the fetch resolver
   * answers with the same or a newer version, the same exactly when that one is cached.
   */
  lemma FetchIsAtLeastCache(w: World, req: Req)
    requires OneEach(w, req.name) && NoneYanked(w, req)
    requires CacheSearch(w, req).Some?
    ensures var v := CacheSearch(w, req).value;
            var f := FetchSearch(w, req);
            f.Some? && v.version <= f.value.version && (v == f.value <==> w.versionInfo(f.value).Some?)
  {
    SearchFindsNewest(w, req, r => CacheAccepts(w, req, r));
    SearchFindsNewest(w, req, r => FetchAccepts(w, req, r));
    var info := w.packageInfo(req.name).value;
    var v := CacheSearch(w, req).value;
    var rv :| rv in info.releases && CacheAccepts(w, req, rv) && rv.version == v.version;
    assert FetchAccepts(w, req, rv);
    var f := FetchSearch(w, req).value;
    var rf :| rf in info.releases && FetchAccepts(w, req, rf) && rf.version == f.version;
    CacheAgainstFetch(w, req, rv, rf);
  }

  /** Two releases, the newer one yanked, both cached. */
  const YANKED := World(
    name => Some(PackageInfo([Release(1, false), Release(2, true)])),
    nv => Some(VersionInfo(map[])),
    (req, version) => true)

  /** There the cache resolver answers the yanked version and the fetch resolver the older one. */
  lemma YankedVersionDiffers(name: string)
    ensures var req := Req(name, "*", false);
            && CacheSearch(YANKED, req) == Some(Nv(name, 2))
            && FetchSearch(YANKED, req) == Some(Nv(name, 1))
  {
    var req := Req(name, "*", false);
    var releases := [Release(1, false), Release(2, true)];
    assert releases[0] in releases && releases[1] in releases;
    SearchFindsNewest(YANKED, req, r => CacheAccepts(YANKED, req, r));
    SearchFindsNewest(YANKED, req, r => FetchAccepts(YANKED, req, r));
    assert CacheAccepts(YANKED, req, releases[1]) && FetchAccepts(YANKED, req, releases[0]);
  }
}
