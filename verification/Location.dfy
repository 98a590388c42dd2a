/**
 * How a `Location` header is resolved on the network path (`resolve_url_from_location` in
 * cli/http_util.rs, after section 4.2 of RFC 3986) and on the cached path (`resolve_import`,
 * which `fetch_cached` calls), and what their difference does to stored redirects.
 */
module Location {
  import opened Wrappers
  import opened FileFetcher
  import opened FetchReplay
  import CacheSemantics

  datatype Parse = Parsed(url: Url) | Relative | Invalid

  /** The URL library: parsing without a base, joining to a base, and two accessors. */
  datatype UrlLib = UrlLib(
    parse: string -> Parse,
    join: (Url, string) -> Option<Url>,
    scheme: Url -> string,
    path: Url -> string)

  predicate StartsWith(s: string, p: string) {
    p <= s
  }

  function ParsedUrl(p: Parse): Option<Url> {
    if p.Parsed? then Some(p.url) else None
  }

  /** The path up to, and without, its last slash; the whole path when it has none. */
  function Directory(path: string): string {
    if '/' !in path then path
    else if path[|path| - 1] == '/' then path[..|path| - 1]
    else Directory(path[..|path| - 1])
  }

  /** The path that the source builds for a location without a leading slash. */
  function Beside(lib: UrlLib, base: Url, loc: string): string {
    Directory(lib.path(base)) + "/" + loc
  }

  /** `resolve_url_from_location`; `None` where the source panics. */
  function ResolveLocation(lib: UrlLib, base: Url, loc: string): Option<Url> {
    if StartsWith(loc, "http://") || StartsWith(loc, "https://") then ParsedUrl(lib.parse(loc))
    else if StartsWith(loc, "//") then ParsedUrl(lib.parse(lib.scheme(base) + ":" + loc))
    else if StartsWith(loc, "/") then lib.join(base, loc)
    else lib.join(base, Beside(lib, base, loc))
  }

  predicate Dotted(loc: string) {
    StartsWith(loc, "./") || StartsWith(loc, "../")
  }

  predicate HasImportPrefix(loc: string) {
    StartsWith(loc, "/") || Dotted(loc)
  }

  /** `resolve_import`: absolute URLs, or relative ones that carry an import prefix. */
  function ResolveImport(lib: UrlLib, base: Url, loc: string): Option<Url> {
    match lib.parse(loc)
    case Parsed(url) => Some(url)
    case Invalid => None
    case Relative => if HasImportPrefix(loc) then lib.join(base, loc) else None
  }

  predicate Absolute(loc: string) {
    StartsWith(loc, "http://") || StartsWith(loc, "https://")
  }

  /** A location that names no scheme by `http(s)://` and has no import prefix, such as `b.js`. */
  predicate Bare(loc: string) {
    !HasImportPrefix(loc) && !Absolute(loc)
  }

  /** The URLs that `fetch_remote` is asked for. */
  predicate Web(lib: UrlLib, url: Url) {
    lib.scheme(url) == "http" || lib.scheme(url) == "https"
  }

  /** A path that begins with an empty segment, such as `//a/b`. */
  predicate Doubled(lib: UrlLib, url: Url) {
    StartsWith(lib.path(url), "//")
  }

  /**
   * What the URL standard says of http(s) bases, as far as the two resolvers need it. A dotted
   * reference means the same beside the base's directory, unless that text begins with two slashes.
   */
  ghost predicate Lawful(lib: UrlLib) {
    && (forall loc :: HasImportPrefix(loc) ==> lib.parse(loc) == Relative)
    && (forall loc :: Absolute(loc) && lib.parse(loc).Parsed? ==> Web(lib, lib.parse(loc).url))
    && (forall base :: Web(lib, base) ==> StartsWith(lib.path(base), "/"))
    && (forall base, loc :: Web(lib, base) && StartsWith(loc, "/") && lib.join(base, loc).Some? ==>
          Web(lib, lib.join(base, loc).value))
    && (forall base, loc :: Web(lib, base) && StartsWith(loc, "//") ==>
          lib.join(base, loc) == ParsedUrl(lib.parse(lib.scheme(base) + ":" + loc)))
    && (forall base, loc :: Web(lib, base) && !Doubled(lib, base) && Dotted(loc) ==>
          lib.join(base, loc) == lib.join(base, Beside(lib, base, loc)))
  }

  /**
   * When a stored location is read as it was followed. Absolute and rooted locations always are.
   * A dotted one is, except that a base path with two leading slashes makes the network path take
   * its first segment for a host, and then it is only by coincidence. So it is for a bare one,
   * which the cached path reads only if it names a scheme.
   */
  predicate ReadsBack(lib: UrlLib, base: Url, loc: string) {
    if Dotted(loc) then
      Doubled(lib, base) ==>
        lib.join(base, loc) == ParsedUrl(lib.parse(lib.scheme(base) + ":" + Beside(lib, base, loc)))
    else if Bare(loc) then
      lib.parse(loc).Parsed? && lib.join(base, Beside(lib, base, loc)) == Some(lib.parse(loc).url)
    else true
  }

  lemma {:induction false} DirectoryKeepsStart(path: string)
    requires StartsWith(path, "/")
    ensures StartsWith(Directory(path) + "/", "/")
    ensures StartsWith(Directory(path) + "/", "//") <==> StartsWith(path, "//")
  {
    if path[|path| - 1] != '/' {
      assert path[..|path| - 1][0] == '/';
      DirectoryKeepsStart(path[..|path| - 1]);
    } else if |path| > 1 {
      assert Directory(path) + "/" == path;
    }
  }

  lemma BesideStarts(lib: UrlLib, base: Url, loc: string)
    requires Lawful(lib) && Web(lib, base)
    ensures StartsWith(Beside(lib, base, loc), "/")
    ensures Doubled(lib, base) ==> StartsWith(Beside(lib, base, loc), "//")
  {
    DirectoryKeepsStart(lib.path(base));
    assert Beside(lib, base, loc) == (Directory(lib.path(base)) + "/") + loc;
  }

  /** Exactly when the two resolvers agree on a location that the network path could follow. */
  lemma ResolversAgreeExactly(lib: UrlLib, base: Url, loc: string, next: Url)
    requires Lawful(lib) && Web(lib, base) && ResolveLocation(lib, base, loc) == Some(next)
    ensures ResolveImport(lib, base, loc) == Some(next) <==> ReadsBack(lib, base, loc)
    ensures Bare(loc) && lib.parse(loc) == Relative ==> ResolveImport(lib, base, loc) == None
  {
    BesideStarts(lib, base, loc);
    if HasImportPrefix(loc) {
      assert loc[0] == '/' || loc[0] == '.';
    }
  }

  /** Redirects lead from http(s) URLs to http(s) URLs. */
  lemma FollowedIsWeb(lib: UrlLib, base: Url, loc: string, next: Url)
    requires Lawful(lib) && Web(lib, base) && ResolveLocation(lib, base, loc) == Some(next)
    ensures Web(lib, next)
  {
    BesideStarts(lib, base, loc);
    if StartsWith(loc, "//") && !Absolute(loc) {
      var text := lib.scheme(base) + ":" + loc;
      assert text[..|lib.scheme(base)| + 3] == lib.scheme(base) + "://";
      assert Absolute(text);
    }
  }

  /** The environment resolves locations as the source does, through one URL library. */
  ghost predicate Resolves(env: Env, lib: UrlLib) {
    && Lawful(lib)
    && forall base, loc ::
         env.resolveLocation(base, loc) == ResolveLocation(lib, base, loc) &&
         env.resolveImport(base, loc) == ResolveImport(lib, base, loc)
  }

  predicate WasResolved(env: Env, h: Hop) {
    h.entry.headers.location.Some? &&
    env.resolveLocation(h.url, h.entry.headers.location.value) == Some(h.next)
  }

  lemma FirstHopWasResolved(
    env: Env, cache: HttpCache, url: Url, checksum: Option<string>, setting: CacheSetting, limit: int, n: nat)
    requires FetchRemote(env, cache, url, checksum, setting, limit, n).hops != []
    ensures WasResolved(env, FetchRemote(env, cache, url, checksum, setting, limit, n).hops[0])
  {
  }

  /** Every followed redirect was resolved from the header stored for it. */
  lemma {:induction false} HopsWereResolved(
    env: Env, cache: HttpCache, url: Url, checksum: Option<string>, setting: CacheSetting, limit: int, n: nat,
    i: nat)
    requires i < |FetchRemote(env, cache, url, checksum, setting, limit, n).hops|
    ensures WasResolved(env, FetchRemote(env, cache, url, checksum, setting, limit, n).hops[i])
    decreases if limit < 0 then 0 else limit + 1
  {
    if i == 0 {
      FirstHopWasResolved(env, cache, url, checksum, setting, limit, n);
    } else {
      var h, m, rest := FirstHop(env, cache, url, checksum, setting, limit, n);
      HopsWereResolved(env, cache[url := h.entry], h.next, checksum, setting, limit - 1, m, i - 1);
      assert ([h] + rest.hops)[i] == rest.hops[i - 1];
    }
  }

  lemma {:induction false} HopsAreWeb(
    env: Env, lib: UrlLib, cache: HttpCache, url: Url, checksum: Option<string>, setting: CacheSetting,
    limit: int, n: nat, i: nat)
    requires Resolves(env, lib) && Web(lib, url)
    requires i < |FetchRemote(env, cache, url, checksum, setting, limit, n).hops|
    ensures Web(lib, FetchRemote(env, cache, url, checksum, setting, limit, n).hops[i].url)
    decreases if limit < 0 then 0 else limit + 1
  {
    var h, m, rest := FirstHop(env, cache, url, checksum, setting, limit, n);
    if i > 0 {
      HopsWereResolved(env, cache, url, checksum, setting, limit, n, 0);
      FollowedIsWeb(lib, url, h.entry.headers.location.value, h.next);
      HopsAreWeb(env, lib, cache[url := h.entry], h.next, checksum, setting, limit - 1, m, i - 1);
    }
  }

  predicate HopReadsBack(lib: UrlLib, h: Hop) {
    h.entry.headers.location.Some? && ReadsBack(lib, h.url, h.entry.headers.location.value)
  }

  /** A stored redirect is read back as it was followed exactly under that condition on its header. */
  lemma HopAgreesExactly(
    env: Env, lib: UrlLib, cache: HttpCache, url: Url, checksum: Option<string>, setting: CacheSetting,
    limit: int, n: nat, i: nat)
    requires Resolves(env, lib) && Web(lib, url)
    requires i < |FetchRemote(env, cache, url, checksum, setting, limit, n).hops|
    ensures var h := FetchRemote(env, cache, url, checksum, setting, limit, n).hops[i];
            Agrees(env, h) <==> HopReadsBack(lib, h)
  {
    HopsWereResolved(env, cache, url, checksum, setting, limit, n, i);
    HopsAreWeb(env, lib, cache, url, checksum, setting, limit, n, i);
    var h := FetchRemote(env, cache, url, checksum, setting, limit, n).hops[i];
    ResolversAgreeExactly(lib, h.url, h.entry.headers.location.value, h.next);
  }

  // ---- The visits that a replay makes ----

  /** The visit `i`, then the last visit of the URL after it, and so on to the end of the chain. */
  function VisitsFrom(asked: seq<Url>, i: nat): (visits: seq<nat>)
    requires i < |asked|
    ensures visits != [] && visits[0] == i
    decreases |asked| - i
  {
    if i == |asked| - 1 then [i] else [i] + VisitsFrom(asked, LastIndex(asked, asked[i + 1]))
  }

  /** The visits that remain of a chain once its loops are cut out. */
  function Visits(asked: seq<Url>): seq<nat>
    requires asked != []
  {
    VisitsFrom(asked, LastIndex(asked, asked[0]))
  }

  predicate LastVisit(asked: seq<Url>, i: nat) {
    i < |asked| && LastIndex(asked, asked[i]) == i
  }

  /** The `k`-th of some visits is a last one, and the next visit is of the URL that came after it. */
  predicate VisitOk(asked: seq<Url>, visits: seq<nat>, k: nat)
    requires k < |visits|
  {
    && LastVisit(asked, visits[k])
    && (k + 1 == |visits| ==> visits[k] == |asked| - 1)
    && (k + 1 < |visits| ==> visits[k] + 1 <= visits[k + 1] < |asked| && asked[visits[k + 1]] == asked[visits[k] + 1])
  }

  predicate AllVisitsOk(asked: seq<Url>, visits: seq<nat>) {
    forall k: nat :: k < |visits| ==> VisitOk(asked, visits, k)
  }

  lemma FirstVisitOk(asked: seq<Url>, i: nat)
    requires LastVisit(asked, i)
    ensures VisitOk(asked, VisitsFrom(asked, i), 0)
  {
    if i < |asked| - 1 {
      var j := LastIndex(asked, asked[i + 1]);
      assert VisitsFrom(asked, i)[1] == VisitsFrom(asked, j)[0] == j;
    }
  }

  lemma LaterVisitOk(asked: seq<Url>, i: nat, rest: seq<nat>, k: nat)
    requires 0 < k <= |rest| && VisitOk(asked, rest, k - 1)
    ensures VisitOk(asked, [i] + rest, k)
  {
    var visits := [i] + rest;
    assert visits[k] == rest[k - 1];
    assert k < |rest| ==> visits[k + 1] == rest[k];
  }

  lemma {:induction false} VisitsAreOk(asked: seq<Url>, i: nat, k: nat)
    requires LastVisit(asked, i) && k < |VisitsFrom(asked, i)|
    ensures VisitOk(asked, VisitsFrom(asked, i), k)
    decreases |asked| - i
  {
    if k > 0 {
      var j := LastIndex(asked, asked[i + 1]);
      VisitsAreOk(asked, j, k - 1);
      LaterVisitOk(asked, i, VisitsFrom(asked, j), k);
    } else {
      FirstVisitOk(asked, i);
    }
  }

  lemma {:induction false} VisitsRise(asked: seq<Url>, visits: seq<nat>, p: nat)
    requires AllVisitsOk(asked, visits) && p < |visits|
    ensures p <= visits[p] < |asked|
    decreases p
  {
    assert VisitOk(asked, visits, p);
    if p > 0 {
      assert VisitOk(asked, visits, p - 1);
      VisitsRise(asked, visits, p - 1);
    }
  }

  lemma EntryOfLastVisit(cache: HttpCache, url: Url, run: Run, i: nat)
    requires Shaped(cache, url, run) && i < |run.hops| < |run.asked| && LastVisit(run.asked, i)
    ensures run.hops[i].url == run.asked[i] && run.hops[i].next == run.asked[i + 1]
    ensures run.hops[i].url in run.cache && run.cache[run.hops[i].url] == run.hops[i].entry
  {
    var u := run.hops[i].url;
    assert forall j: nat :: j < |run.hops| ==> run.asked[j] == run.hops[j].url;
    assert run.asked[|run.hops|] == End(url, run.hops);
    LastStoreStays(cache, run.hops, i, u);
    assert SameAt(u, run.cache, Store(cache, run.hops));
    assert Link(url, run.hops, i);
  }

  predicate HaveLocations(hops: seq<Hop>) {
    forall k :: 0 <= k < |hops| ==> hops[k].entry.headers.location.Some?
  }

  /** A finished download: its chain, and the answer stored at its end. */
  ghost predicate Downloaded(env: Env, cache: HttpCache, url: Url, run: Run, checksum: Option<string>, file: File) {
    && Shaped(cache, url, run)
    && |run.asked| == |run.hops| + 1
    && FetchCached(env, run.cache, End(url, run.hops), checksum, 0) == Success(Some(file))
    && HaveLocations(run.hops)
  }

  /** What `fetch_cached` makes of the redirect stored by `h`. */
  function Continue(env: Env, cache: HttpCache, h: Hop, checksum: Option<string>, limit: int)
    : Result<Option<File>, FetchError>
    requires h.entry.headers.location.Some?
  {
    match env.resolveImport(h.url, h.entry.headers.location.value)
    case None => Failure(BadLocation)
    case Some(next) => FetchCached(env, cache, next, checksum, limit - 1)
  }

  lemma LastVisitStep(
    env: Env, cache: HttpCache, url: Url, run: Run, checksum: Option<string>, file: File, limit: nat, i: nat)
    requires Downloaded(env, cache, url, run, checksum, file) && i < |run.hops| && LastVisit(run.asked, i)
    ensures FetchCached(env, run.cache, run.asked[i], checksum, limit) ==
              Continue(env, run.cache, run.hops[i], checksum, limit)
    ensures Agrees(env, run.hops[i]) ==>
              FetchCached(env, run.cache, run.asked[i], checksum, limit) ==
                FetchCached(env, run.cache, run.asked[i + 1], checksum, limit - 1)
  {
    EntryOfLastVisit(cache, url, run, i);
  }

  lemma EndOfReplay(
    env: Env, cache: HttpCache, url: Url, run: Run, checksum: Option<string>, file: File, limit: nat)
    requires Downloaded(env, cache, url, run, checksum, file)
    ensures FetchCached(env, run.cache, run.asked[|run.hops|], checksum, limit) == Success(Some(file))
  {
    assert run.asked[|run.hops|] == End(url, run.hops);
    LargerLimitSameAnswer(env, run.cache, End(url, run.hops), checksum, 0, limit);
  }

  /** The redirects made at the first `p` visits read back as they were followed. */
  predicate AgreeUpTo(env: Env, hops: seq<Hop>, visits: seq<nat>, p: nat) {
    p < |visits| && forall k :: 0 <= k < p ==> visits[k] < |hops| && Agrees(env, hops[visits[k]])
  }

  lemma VisitStep(
    env: Env, cache: HttpCache, url: Url, run: Run, checksum: Option<string>, file: File, limit: nat, i: nat, j: nat)
    requires Downloaded(env, cache, url, run, checksum, file) && LastVisit(run.asked, i)
    requires i < |run.hops| && j < |run.asked| && run.asked[j] == run.asked[i + 1] && Agrees(env, run.hops[i])
    ensures FetchCached(env, run.cache, run.asked[i], checksum, limit) ==
              FetchCached(env, run.cache, run.asked[j], checksum, limit - 1)
  {
    LastVisitStep(env, cache, url, run, checksum, file, limit, i);
  }

  lemma ReachesNext(
    env: Env, cache: HttpCache, url: Url, run: Run, checksum: Option<string>, file: File, limit: nat,
    visits: seq<nat>, k: nat)
    requires Downloaded(env, cache, url, run, checksum, file) && AllVisitsOk(run.asked, visits)
    requires k + 1 < |visits| && visits[k] < |run.hops| && Agrees(env, run.hops[visits[k]])
    ensures visits[k + 1] < |run.asked|
    ensures FetchCached(env, run.cache, run.asked[visits[k]], checksum, limit) ==
              FetchCached(env, run.cache, run.asked[visits[k + 1]], checksum, limit - 1)
  {
    assert VisitOk(run.asked, visits, k);
    VisitStep(env, cache, url, run, checksum, file, limit, visits[k], visits[k + 1]);
  }

  /** Replay makes the visits one by one, as long as the redirects agree. */
  lemma {:induction false} ReplayReaches(
    env: Env, cache: HttpCache, url: Url, run: Run, checksum: Option<string>, file: File, limit: int,
    visits: seq<nat>, p: nat)
    requires Downloaded(env, cache, url, run, checksum, file) && AgreeUpTo(env, run.hops, visits, p)
    requires limit >= |run.hops| && AllVisitsOk(run.asked, visits)
    ensures visits[0] < |run.asked| && visits[p] < |run.asked|
    ensures FetchCached(env, run.cache, run.asked[visits[0]], checksum, limit) ==
              FetchCached(env, run.cache, run.asked[visits[p]], checksum, limit - p)
    decreases p
  {
    VisitsRise(run.asked, visits, 0);
    VisitsRise(run.asked, visits, p);
    if p > 0 {
      ReplayReaches(env, cache, url, run, checksum, file, limit, visits, p - 1);
      ReachesNext(env, cache, url, run, checksum, file, limit - p + 1, visits, p - 1);
    }
  }

  /** `fetch_cached` only ever returns an entry stored without a `location` header. */
  lemma {:induction false} CachedFilesHaveNoLocation(
    env: Env, cache: HttpCache, url: Url, checksum: Option<string>, limit: int)
    ensures var r := FetchCached(env, cache, url, checksum, limit);
            r.Success? && r.value.Some? ==> r.value.value.headers.location.None?
    decreases if limit < 0 then 0 else limit + 1
  {
    var next := NextCached(env, cache, url);
    if limit >= 0 && next.Some? {
      CachedFilesHaveNoLocation(env, cache, next.value, checksum, limit - 1);
    }
  }

  lemma IsDownloaded(
    env: Env, cache: HttpCache, url: Url, checksum: Option<string>, setting: CacheSetting, limit: int, n: nat)
    requires var run := FetchRemote(env, cache, url, checksum, setting, limit, n);
             run.result.Success? && run.source == FromNetwork && run.result.value.headers.location.None?
    ensures var run := FetchRemote(env, cache, url, checksum, setting, limit, n);
            Downloaded(env, cache, url, run, checksum, run.result.value) && |run.hops| <= limit
  {
    var run := FetchRemote(env, cache, url, checksum, setting, limit, n);
    RunIsShaped(env, cache, url, checksum, setting, limit, n);
    RequestBound(env, cache, url, checksum, setting, limit, n);
    DownloadIsStored(env, cache, url, checksum, setting, limit, n);
    forall i: nat | i < |run.hops| ensures run.hops[i].entry.headers.location.Some? {
      HopsWereResolved(env, cache, url, checksum, setting, limit, n, i);
    }
  }

  lemma HopsAgreeExactly(
    env: Env, lib: UrlLib, cache: HttpCache, url: Url, checksum: Option<string>, setting: CacheSetting,
    limit: int, n: nat)
    requires Resolves(env, lib) && Web(lib, url)
    ensures var hops := FetchRemote(env, cache, url, checksum, setting, limit, n).hops;
            && HaveLocations(hops)
            && forall i: nat :: i < |hops| ==> (Agrees(env, hops[i]) <==> HopReadsBack(lib, hops[i]))
  {
    var hops := FetchRemote(env, cache, url, checksum, setting, limit, n).hops;
    forall i: nat | i < |hops|
      ensures hops[i].entry.headers.location.Some? && (Agrees(env, hops[i]) <==> HopReadsBack(lib, hops[i]))
    {
      HopsWereResolved(env, cache, url, checksum, setting, limit, n, i);
      HopAgreesExactly(env, lib, cache, url, checksum, setting, limit, n, i);
    }
  }

  /** The redirect made at each visit but the last reads back. */
  predicate AllReadBack(lib: UrlLib, hops: seq<Hop>, visits: seq<nat>) {
    forall k :: 0 <= k < |visits| - 1 ==> visits[k] < |hops| && HopReadsBack(lib, hops[visits[k]])
  }

  /** The first visit from `k` on whose redirect does not read back, or the last visit. */
  function FirstMisread(lib: UrlLib, hops: seq<Hop>, visits: seq<nat>, k: nat): (p: nat)
    requires k < |visits|
    ensures k <= p < |visits|
    ensures forall i :: k <= i < p ==> visits[i] < |hops| && HopReadsBack(lib, hops[visits[i]])
    ensures p < |visits| - 1 ==> !(visits[p] < |hops| && HopReadsBack(lib, hops[visits[p]]))
    decreases |visits| - k
  {
    if k < |visits| - 1 && visits[k] < |hops| && HopReadsBack(lib, hops[visits[k]])
    then FirstMisread(lib, hops, visits, k + 1) else k
  }

  /** What a replay answers that is misled at visit `p`, or makes the last visit. */
  function Outcome(env: Env, run: Run, visits: seq<nat>, p: nat, checksum: Option<string>, limit: int, file: File)
    : Result<Option<File>, FetchError>
    requires HaveLocations(run.hops) && p < |visits|
  {
    if p < |visits| - 1 && visits[p] < |run.hops|
    then Continue(env, run.cache, run.hops[visits[p]], checksum, limit - p)
    else Success(Some(file))
  }

  lemma ReplayStopsAt(
    env: Env, cache: HttpCache, url: Url, run: Run, checksum: Option<string>, file: File, limit: int,
    visits: seq<nat>, p: nat)
    requires Downloaded(env, cache, url, run, checksum, file) && |run.hops| <= limit
    requires AllVisitsOk(run.asked, visits) && AgreeUpTo(env, run.hops, visits, p)
    ensures visits[0] < |run.asked| && (p < |visits| - 1 ==> visits[p] < |run.hops|)
    ensures FetchCached(env, run.cache, run.asked[visits[0]], checksum, limit) ==
              Outcome(env, run, visits, p, checksum, limit, file)
  {
    assert VisitOk(run.asked, visits, p);
    VisitsRise(run.asked, visits, p);
    ReplayReaches(env, cache, url, run, checksum, file, limit, visits, p);
    if p < |visits| - 1 {
      LastVisitStep(env, cache, url, run, checksum, file, limit - p, visits[p]);
    } else {
      EndOfReplay(env, cache, url, run, checksum, file, limit - p);
    }
  }

  lemma VisitsFromUrl(cache: HttpCache, url: Url, run: Run)
    requires Shaped(cache, url, run) && run.asked != []
    ensures var visits := Visits(run.asked);
            AllVisitsOk(run.asked, visits) && visits[0] < |run.asked| && run.asked[visits[0]] == url
  {
    assert run.asked[0] == At(url, run.hops, 0) == url;
    var visits := Visits(run.asked);
    forall k: nat | k < |visits| ensures VisitOk(run.asked, visits, k) {
      VisitsAreOk(run.asked, LastIndex(run.asked, url), k);
    }
  }

  /** The first misread redirect is the first that disagrees. */
  lemma MisreadDisagrees(env: Env, lib: UrlLib, hops: seq<Hop>, visits: seq<nat>)
    requires visits != []
    requires forall i: nat :: i < |hops| ==> (Agrees(env, hops[i]) <==> HopReadsBack(lib, hops[i]))
    ensures var p := FirstMisread(lib, hops, visits, 0);
            && AgreeUpTo(env, hops, visits, p)
            && (p < |visits| - 1 && visits[p] < |hops| ==> !Agrees(env, hops[visits[p]]))
            && (AllReadBack(lib, hops, visits) <==> p == |visits| - 1)
  {
  }

  lemma ReplayOfDownload(
    env: Env, lib: UrlLib, cache: HttpCache, url: Url, run: Run, checksum: Option<string>, file: File, limit: int)
    requires Downloaded(env, cache, url, run, checksum, file) && |run.hops| <= limit
    requires forall i: nat :: i < |run.hops| ==> (Agrees(env, run.hops[i]) <==> HopReadsBack(lib, run.hops[i]))
    ensures var visits := Visits(run.asked);
            var p := FirstMisread(lib, run.hops, visits, 0);
            && (p < |visits| - 1 ==> visits[p] < |run.hops|)
            && FetchCached(env, run.cache, url, checksum, limit) ==
                 Outcome(env, run, visits, p, checksum, limit, file)
  {
    var visits := Visits(run.asked);
    VisitsFromUrl(cache, url, run);
    MisreadDisagrees(env, lib, run.hops, visits);
    ReplayStopsAt(
      env, cache, url, run, checksum, file, limit, visits, FirstMisread(lib, run.hops, visits, 0));
  }

  /**
   * What the cache answers after any download whose final answer has no `location` header: the
   * downloaded file if every redirect left once loops are cut out reads back, and otherwise
   * whatever the first that does not leads to.
   */
  lemma ReplayOutcome(
    env: Env, lib: UrlLib, cache: HttpCache, url: Url, checksum: Option<string>, setting: CacheSetting,
    limit: int, n: nat)
    requires Resolves(env, lib) && Web(lib, url)
    requires var run := FetchRemote(env, cache, url, checksum, setting, limit, n);
             run.result.Success? && run.source == FromNetwork && run.result.value.headers.location.None?
    ensures var run := FetchRemote(env, cache, url, checksum, setting, limit, n);
            && run.asked != [] && HaveLocations(run.hops)
            && var visits := Visits(run.asked);
               var p := FirstMisread(lib, run.hops, visits, 0);
               && (p < |visits| - 1 ==> visits[p] < |run.hops|)
               && FetchCached(env, run.cache, url, checksum, limit) ==
                    Outcome(env, run, visits, p, checksum, limit, run.result.value)
  {
    var run := FetchRemote(env, cache, url, checksum, setting, limit, n);
    IsDownloaded(env, cache, url, checksum, setting, limit, n);
    HopsAgreeExactly(env, lib, cache, url, checksum, setting, limit, n);
    ReplayOfDownload(env, lib, cache, url, run, checksum, run.result.value, limit);
  }

  /** A redirect that is misread as a URL the cache knows nothing of, if it is misread at all. */
  predicate StraysOff(env: Env, cache: HttpCache, h: Hop) {
    h.entry.headers.location.Some? ==>
      var read := env.resolveImport(h.url, h.entry.headers.location.value);
      read.Some? && read.value != h.next ==> read.value !in cache
  }

  predicate AllStrayOff(env: Env, run: Run, visits: seq<nat>) {
    forall k :: 0 <= k < |visits| && visits[k] < |run.hops| ==> StraysOff(env, run.cache, run.hops[visits[k]])
  }

  /** A replay that misreads a redirect and strays off does not find a file. */
  lemma StrayingFindsNothing(
    env: Env, run: Run, visits: seq<nat>, p: nat, checksum: Option<string>, limit: int, file: File)
    requires HaveLocations(run.hops) && AllStrayOff(env, run, visits)
    requires p < |visits| - 1 && visits[p] < |run.hops| && !Agrees(env, run.hops[visits[p]])
    ensures Outcome(env, run, visits, p, checksum, limit, file) != Success(Some(file))
  {
    assert StraysOff(env, run.cache, run.hops[visits[p]]);
  }

  lemma ArrivesExactly(env: Env, lib: UrlLib, run: Run, checksum: Option<string>, limit: int, file: File)
    requires HaveLocations(run.hops) && run.asked != [] && AllStrayOff(env, run, Visits(run.asked))
    requires forall i: nat :: i < |run.hops| ==> (Agrees(env, run.hops[i]) <==> HopReadsBack(lib, run.hops[i]))
    requires var visits := Visits(run.asked);
             var p := FirstMisread(lib, run.hops, visits, 0); p < |visits| - 1 ==> visits[p] < |run.hops|
    ensures var visits := Visits(run.asked);
            var p := FirstMisread(lib, run.hops, visits, 0);
            Outcome(env, run, visits, p, checksum, limit, file) == Success(Some(file)) <==>
              AllReadBack(lib, run.hops, visits)
  {
    var visits := Visits(run.asked);
    var p := FirstMisread(lib, run.hops, visits, 0);
    MisreadDisagrees(env, lib, run.hops, visits);
    if p < |visits| - 1 {
      StrayingFindsNothing(env, run, visits, p, checksum, limit, file);
    }
  }

  /**
   * When exactly a download can be replayed, loops and all: if and only if every redirect left once
   * loops are cut out reads back, and the final answer carried no `location` header of its own.
   * A misread redirect must not happen to name a cached URL, from which anything may follow.
   */
  lemma ReplayExactly(
    env: Env, lib: UrlLib, cache: HttpCache, url: Url, checksum: Option<string>, setting: CacheSetting,
    limit: int, n: nat)
    requires Resolves(env, lib) && Web(lib, url)
    requires var run := FetchRemote(env, cache, url, checksum, setting, limit, n);
             && run.result.Success? && run.source == FromNetwork
             && (run.asked != [] ==> AllStrayOff(env, run, Visits(run.asked)))
    ensures var run := FetchRemote(env, cache, url, checksum, setting, limit, n);
            && run.asked != []
            && (FetchCached(env, run.cache, url, checksum, limit) == Success(Some(run.result.value)) <==>
                  run.result.value.headers.location.None? && AllReadBack(lib, run.hops, Visits(run.asked)))
  {
    var run := FetchRemote(env, cache, url, checksum, setting, limit, n);
    RunIsShaped(env, cache, url, checksum, setting, limit, n);
    if run.result.value.headers.location.Some? {
      CachedFilesHaveNoLocation(env, run.cache, url, checksum, limit);
    } else {
      ReplayOutcome(env, lib, cache, url, checksum, setting, limit, n);
      HopsAgreeExactly(env, lib, cache, url, checksum, setting, limit, n);
      ArrivesExactly(env, lib, run, checksum, limit, run.result.value);
    }
  }

  /**
   * Every bare location without a scheme gives a download that cannot be replayed: a server that
   * redirects with it and then answers.
   */
  lemma BareRedirectFails(lib: UrlLib, url: Url, loc: string, next: Url) returns (env: Env)
    requires Bare(loc) && lib.parse(loc) == Relative
    requires ResolveLocation(lib, url, loc) == Some(next) && next != url
    ensures var run := FetchRemote(env, map[], url, None, Use, 10, 0);
            && run.result.Success?
            && FetchCached(env, run.cache, url, None, 10) == Failure(BadLocation)
  {
    var moved := Response(302, Headers(Some(loc), None, map[]), []);
    var found := Response(200, Headers(None, None, map[]), []);
    env := Env(
      (n, u, etag) => if n == 0 then moved else found,
      n => 0,
      (base, l) => ResolveLocation(lib, base, l),
      (base, l) => ResolveImport(lib, base, l),
      u => true,
      (sum, bytes) => true,
      headers => CacheSemantics.Stored(CacheSemantics.CacheControl(false, None, None, None), false, 0, None, None, None));
    var entry := Entry(moved.headers, Some([]), 0);
    var rest := FetchRemote(env, map[url := entry], next, None, Use, 9, 1);
    assert FetchOnce(env, next, found) == FetchOnceResult.Code([], found.headers);
    assert rest.result == Success(File(next, found.headers, []));
    assert rest.cache == map[url := entry][next := Entry(found.headers, Some([]), 0)];
    assert FetchOnce(env, url, moved) == Redirect(next, moved.headers);
  }
}
