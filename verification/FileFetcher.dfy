/**
 * The remote half of `FileFetcher` (cli/file_fetcher.rs): following redirects, the retry and
 * etag loop, the HTTP cache it writes, and the cache-only replay `fetch_cached`.
 *
 * The network is an arbitrary function of the request number, so a server may answer every
 * visit differently. URL resolution, permissions, checksums and header parsing come from
 * libraries and are parameters. Errors of the disk behind the cache are not modelled.
 */
module FileFetcher {
  import opened Wrappers
  import CacheSemantics
  import ReloadList

  datatype Url = Url(text: string)

  /** The two headers that steer the fetcher, and all the others. */
  datatype Headers = Headers(location: Option<string>, etag: Option<string>, others: map<string, string>)
  type Bytes = seq<bv8>

  /** The body is stored apart from the headers and can go missing on its own. */
  datatype Entry = Entry(headers: Headers, body: Option<Bytes>, downloaded: int)
  type HttpCache = map<Url, Entry>

  datatype File = File(specifier: Url, headers: Headers, source: Bytes)

  datatype CacheSetting = Only | ReloadAll | ReloadSome(list: seq<string>) | RespectHeaders | Use

  datatype FetchError =
    | TooManyRedirects | PermissionDenied | NotCached | ChecksumMismatch
    | BadLocation | MissingLocation | ClientError | ConnectionLost
    | ImportFailed | Unrecoverable

  /** What one network request comes back with. */
  datatype Reply =
    | Response(status: nat, headers: Headers, body: Bytes)
    | ConnectError
    | Broken

  datatype Env = Env(
    server: (nat, Url, Option<string>) -> Reply,
    clock: nat -> int,
    resolveLocation: (Url, string) -> Option<Url>,
    resolveImport: (Url, string) -> Option<Url>,
    allowed: Url -> bool,
    checksumMatches: (string, Bytes) -> bool,
    semantics: Headers -> CacheSemantics.Stored)

  datatype FetchOnceResult =
    | Code(bytes: Bytes, headers: Headers)
    | NotModified
    | Redirect(next: Url, headers: Headers)
    | RequestError
    | ServerError
    | Fatal(error: FetchError)

  /** `fetch_once`: classifies one reply; the order of the tests matters for status 304. */
  function FetchOnce(env: Env, url: Url, reply: Reply): (r: FetchOnceResult)
    ensures r.Redirect? ==>
              r.headers.location.Some? &&
              env.resolveLocation(url, r.headers.location.value) == Some(r.next)
  {
    match reply
    case ConnectError => RequestError
    case Broken => Fatal(ConnectionLost)
    case Response(status, headers, body) =>
      if status == 304 then NotModified
      else if 300 <= status < 400 then
        if headers.location.None? then Fatal(MissingLocation)
        else
          match env.resolveLocation(url, headers.location.value)
          case None => Fatal(BadLocation)
          case Some(next) => Redirect(next, headers)
      else if 500 <= status < 600 then ServerError
      else if 400 <= status < 500 then Fatal(ClientError)
      else Code(body, headers)
  }

  predicate ChecksumOk(env: Env, checksum: Option<string>, bytes: Bytes) {
    checksum.Some? ==> env.checksumMatches(checksum.value, bytes)
  }

  /** `fetch_cached`: replays stored redirects; any stored `location` header is one. */
  function FetchCached(env: Env, cache: HttpCache, url: Url, checksum: Option<string>, limit: int)
    : Result<Option<File>, FetchError>
    decreases if limit < 0 then 0 else limit + 1
  {
    if limit < 0 then Failure(TooManyRedirects)
    else if url !in cache then Success(None)
    else
      var entry := cache[url];
      if entry.headers.location.Some? then
        match env.resolveImport(url, entry.headers.location.value)
        case None => Failure(BadLocation)
        case Some(next) => FetchCached(env, cache, next, checksum, limit - 1)
      else
        match entry.body
        case None => Success(None)
        case Some(bytes) =>
          if ChecksumOk(env, checksum, bytes)
          then Success(Some(File(url, entry.headers, bytes)))
          else Failure(ChecksumMismatch)
  }

  /** `should_use_cache`, read at the moment of request `n`. */
  predicate ShouldUseCache(env: Env, cache: HttpCache, url: Url, setting: CacheSetting, n: nat) {
    match setting
    case ReloadAll => false
    case Use => true
    case Only => true
    case RespectHeaders =>
      url in cache &&
      CacheSemantics.ShouldUse(env.semantics(cache[url].headers), cache[url].downloaded, env.clock(n))
    case ReloadSome(list) => !ReloadList.Refuses(list, url.text)
  }

  function StoredEtag(cache: HttpCache, url: Url): Option<string> {
    if url in cache then cache[url].headers.etag else None
  }

  /** How the request loop for one URL ends, and the number of requests made so far. */
  datatype Outcome =
    | Follow(next: Url, headers: Headers)
    | Body(bytes: Bytes, headers: Headers)
    | Revalidated(file: File)
    | Stop(error: FetchError)
  datatype Level = Level(outcome: Outcome, requests: nat)

  /** The request loop: one retry after a failure, one drop of an etag whose body is gone. */
  function Attempts(env: Env, cache: HttpCache, url: Url, checksum: Option<string>,
                    etag: Option<string>, retried: bool, n: nat): (r: Level)
    ensures n < r.requests <= n + 1 + (if etag.Some? then 1 else 0) + (if retried then 0 else 1)
    ensures r.outcome.Follow? ==>
              r.outcome.headers.location.Some? &&
              env.resolveLocation(url, r.outcome.headers.location.value) == Some(r.outcome.next)
    ensures r.outcome.Revalidated? ==>
              FetchCached(env, cache, url, checksum, 10) == Success(Some(r.outcome.file))
    decreases (if etag.Some? then 1 else 0) + (if retried then 0 else 1)
  {
    match FetchOnce(env, url, env.server(n, url, etag))
    case Fatal(error) => Level(Stop(error), n + 1)
    case NotModified =>
      (match FetchCached(env, cache, url, checksum, 10)
       case Failure(error) => Level(Stop(error), n + 1)
       case Success(Some(file)) => Level(Revalidated(file), n + 1)
       case Success(None) =>
         if etag.Some? then Attempts(env, cache, url, checksum, None, retried, n + 1)
         else Level(Stop(Unrecoverable), n + 1))
    case Redirect(next, headers) => Level(Follow(next, headers), n + 1)
    case Code(bytes, headers) => Level(Body(bytes, headers), n + 1)
    case RequestError =>
      if retried then Level(Stop(ImportFailed), n + 1)
      else Attempts(env, cache, url, checksum, etag, true, n + 1)
    case ServerError =>
      if retried then Level(Stop(ImportFailed), n + 1)
      else Attempts(env, cache, url, checksum, etag, true, n + 1)
  }

  /** Where a run got its file from. */
  datatype Source = FromCache | FromNetwork | FromRevalidation | Nowhere

  /** One redirect: the entry stored for it, and where the network path went on. */
  datatype Hop = Hop(url: Url, entry: Entry, next: Url)

  /**
   * A whole fetch: its answer, the cache it leaves, the request count, the URLs that the
   * network was asked for, one per recursion level, and the redirects that were followed.
   */
  datatype Run = Run(
    result: Result<File, FetchError>,
    cache: HttpCache,
    requests: nat,
    asked: seq<Url>,
    hops: seq<Hop>,
    source: Source)

  /** The part of `fetch_remote` before the network; `Success(None)` means the network is asked. */
  function Lookup(env: Env, cache: HttpCache, url: Url, checksum: Option<string>,
                  setting: CacheSetting, limit: int, n: nat): Result<Option<File>, FetchError>
  {
    if limit < 0 then Failure(TooManyRedirects)
    else if !env.allowed(url) then Failure(PermissionDenied)
    else
      var cached :=
        if ShouldUseCache(env, cache, url, setting, n)
        then FetchCached(env, cache, url, checksum, limit) else Success(None);
      if cached == Success(None) && setting == Only then Failure(NotCached) else cached
  }

  /** `fetch_remote`. */
  function FetchRemote(env: Env, cache: HttpCache, url: Url, checksum: Option<string>,
                       setting: CacheSetting, limit: int, n: nat): (r: Run)
    decreases if limit < 0 then 0 else limit + 1
  {
    match Lookup(env, cache, url, checksum, setting, limit, n)
    case Failure(error) => Run(Failure(error), cache, n, [], [], Nowhere)
    case Success(Some(file)) => Run(Success(file), cache, n, [], [], FromCache)
    case Success(None) =>
      var level := Attempts(env, cache, url, checksum, StoredEtag(cache, url), false, n);
      var m := level.requests;
      match level.outcome
      case Stop(error) => Run(Failure(error), cache, m, [url], [], Nowhere)
      case Revalidated(file) => Run(Success(file), cache, m, [url], [], FromRevalidation)
      case Body(bytes, headers) =>
        var stored := cache[url := Entry(headers, Some(bytes), env.clock(m))];
        if ChecksumOk(env, checksum, bytes)
        then Run(Success(File(url, headers, bytes)), stored, m, [url], [], FromNetwork)
        else Run(Failure(ChecksumMismatch), stored, m, [url], [], Nowhere)
      case Follow(next, headers) =>
        var entry := Entry(headers, Some([]), env.clock(m));
        var rest := FetchRemote(env, cache[url := entry], next, checksum, setting, limit - 1, m);
        rest.(asked := [url] + rest.asked, hops := [Hop(url, entry, next)] + rest.hops)
  }

  /** The fetcher as the source runs it: a loop over attempts that updates one shared cache. */
  class Fetcher {
    const env: Env
    var cache: HttpCache
    var requests: nat

    constructor (env: Env, cache: HttpCache)
      ensures this.env == env && this.cache == cache && requests == 0
    {
      this.env := env;
      this.cache := cache;
      requests := 0;
    }

    /** The request loop for one URL, over the two variables it updates. */
    method Ask(url: Url, checksum: Option<string>) returns (outcome: Outcome)
      modifies this`requests
      ensures var level := Attempts(env, cache, url, checksum, StoredEtag(cache, url), false, old(requests));
              outcome == level.outcome && requests == level.requests
    {
      var etag, retried := StoredEtag(cache, url), false;
      ghost var level := Attempts(env, cache, url, checksum, etag, retried, requests);
      while true
        invariant level == Attempts(env, cache, url, checksum, etag, retried, requests)
        decreases (if etag.Some? then 1 else 0) + (if retried then 0 else 1)
      {
        var reply := env.server(requests, url, etag);
        requests := requests + 1;
        match FetchOnce(env, url, reply) {
          case Fatal(error) => return Stop(error);
          case NotModified =>
            match FetchCached(env, cache, url, checksum, 10) {
              case Failure(error) => return Stop(error);
              case Success(Some(file)) => return Revalidated(file);
              case Success(None) =>
                if etag.None? {
                  return Stop(Unrecoverable);
                }
                etag := None;
            }
          case Redirect(next, headers) => return Follow(next, headers);
          case Code(bytes, headers) => return Body(bytes, headers);
          case RequestError =>
            if retried {
              return Stop(ImportFailed);
            }
            retried := true;
          case ServerError =>
            if retried {
              return Stop(ImportFailed);
            }
            retried := true;
        }
      }
    }

    method Fetch(url: Url, checksum: Option<string>, setting: CacheSetting, limit: int)
      returns (result: Result<File, FetchError>)
      modifies this
      ensures var run := FetchRemote(env, old(cache), url, checksum, setting, limit, old(requests));
              result == run.result && cache == run.cache && requests == run.requests
      decreases if limit < 0 then 0 else limit + 1
    {
      match Lookup(env, cache, url, checksum, setting, limit, requests) {
        case Failure(error) => return Failure(error);
        case Success(Some(file)) => return Success(file);
        case Success(None) =>
      }
      var outcome := Ask(url, checksum);
      match outcome {
        case Stop(error) => return Failure(error);
        case Revalidated(file) => return Success(file);
        case Body(bytes, headers) =>
          cache := cache[url := Entry(headers, Some(bytes), env.clock(requests))];
          if !ChecksumOk(env, checksum, bytes) {
            return Failure(ChecksumMismatch);
          }
          return Success(File(url, headers, bytes));
        case Follow(next, headers) =>
          cache := cache[url := Entry(headers, Some([]), env.clock(requests))];
          result := Fetch(next, checksum, setting, limit - 1);
      }
    }
  }
}
