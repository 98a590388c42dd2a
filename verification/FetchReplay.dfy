/**
 * What the cache that `fetch_remote` leaves behind lets `fetch_cached` read back, for every
 * server, cache setting and redirect chain (cli/file_fetcher.rs).
 */
module FetchReplay {
  import opened Wrappers
  import opened FileFetcher

  /** The URL that the cached path reads after `url`. */
  function NextCached(env: Env, cache: HttpCache, url: Url): Option<Url> {
    if url in cache && cache[url].headers.location.Some?
    then env.resolveImport(url, cache[url].headers.location.value)
    else None
  }

  predicate Agrees(env: Env, h: Hop) {
    h.entry.headers.location.Some? &&
    env.resolveImport(h.url, h.entry.headers.location.value) == Some(h.next)
  }

  /** Every redirect that was followed reads the same when the stored header is resolved again. */
  predicate LocationsAgree(env: Env, run: Run) {
    forall i :: 0 <= i < |run.hops| ==> Agrees(env, run.hops[i])
  }

  /**
   * The two ways a stored chain can be misread: a redirect that the cached path resolves
   * differently, or a final body that carries a `location` header.
   */
  predicate Replayable(env: Env, run: Run) {
    && LocationsAgree(env, run)
    && (run.result.Success? && run.source == FromNetwork ==> run.result.value.headers.location.None?)
  }

  /** A revalidated file was read with its own limit of ten, on top of the hops already made. */
  function Slack(run: Run): nat {
    if run.source == FromRevalidation then 10 else 0
  }

  // ---- `fetch_cached` alone ----

  /** An answer that `fetch_cached` finds within one limit it finds within every larger one. */
  lemma {:induction false} LargerLimitSameAnswer(
    env: Env, cache: HttpCache, url: Url, checksum: Option<string>, limit: int, larger: int)
    requires limit <= larger
    requires FetchCached(env, cache, url, checksum, limit) != Failure(TooManyRedirects)
    ensures FetchCached(env, cache, url, checksum, larger) == FetchCached(env, cache, url, checksum, limit)
    decreases if limit < 0 then 0 else limit + 1
  {
    if limit >= 0 && url in cache && cache[url].headers.location.Some? {
      match env.resolveImport(url, cache[url].headers.location.value)
      case None =>
      case Some(next) => LargerLimitSameAnswer(env, cache, next, checksum, limit - 1, larger - 1);
    }
  }

  lemma CachedHop(env: Env, cache: HttpCache, h: Hop, checksum: Option<string>, limit: int)
    requires limit >= 0 && h.url in cache && cache[h.url] == h.entry && Agrees(env, h)
    ensures FetchCached(env, cache, h.url, checksum, limit) ==
              FetchCached(env, cache, h.next, checksum, limit - 1)
  {
  }

  // ---- The shape of a run ----

  /** The cache after storing a sequence of redirects. */
  function Store(cache: HttpCache, hops: seq<Hop>): HttpCache
    decreases hops
  {
    if hops == [] then cache else Store(cache[hops[0].url := hops[0].entry], hops[1..])
  }

  function Urls(hops: seq<Hop>): (urls: seq<Url>)
    ensures |urls| == |hops| && forall i :: 0 <= i < |hops| ==> urls[i] == hops[i].url
  {
    seq(|hops|, i requires 0 <= i < |hops| => hops[i].url)
  }

  /** The URL at which a run stopped following redirects. */
  function End(url: Url, hops: seq<Hop>): Url {
    if hops == [] then url else hops[|hops| - 1].next
  }

  function At(url: Url, hops: seq<Hop>, i: nat): Url {
    if i < |hops| then hops[i].url else End(url, hops)
  }

  predicate Link(url: Url, hops: seq<Hop>, i: nat)
    requires i < |hops|
  {
    hops[i].next == At(url, hops, i + 1)
  }

  predicate Chain(url: Url, hops: seq<Hop>) {
    && At(url, hops, 0) == url
    && forall i: nat :: i < |hops| ==> Link(url, hops, i)
  }

  /** The network was asked for the URLs of the chain, and perhaps for its end. */
  predicate AskedAlong(url: Url, run: Run) {
    && |run.hops| <= |run.asked| <= |run.hops| + 1
    && forall i: nat :: i < |run.asked| ==> run.asked[i] == At(url, run.hops, i)
  }

  predicate SameAt(u: Url, a: HttpCache, b: HttpCache) {
    (u in a <==> u in b) && (u in a ==> a[u] == b[u])
  }

  /** The cache holds the redirects of the chain; only an asked end may have been written again. */
  ghost predicate StoredAlong(cache: HttpCache, url: Url, run: Run) {
    forall u :: u != End(url, run.hops) || |run.asked| == |run.hops| ==>
      SameAt(u, run.cache, Store(cache, run.hops))
  }

  /** A run is its chain of stored redirects, then at most one more write, at its end. */
  ghost predicate Shaped(cache: HttpCache, url: Url, run: Run) {
    && Chain(url, run.hops)
    && AskedAlong(url, run)
    && StoredAlong(cache, url, run)
    && (run.source == FromNetwork ==> |run.asked| > |run.hops| && End(url, run.hops) in run.cache)
  }

  /** The first redirect of a run, and the run that continues from it. */
  lemma FirstHop(
    env: Env, cache: HttpCache, url: Url, checksum: Option<string>, setting: CacheSetting, limit: int, n: nat)
    returns (h: Hop, m: nat, rest: Run)
    requires FetchRemote(env, cache, url, checksum, setting, limit, n).hops != []
    ensures limit >= 0 && n < m <= n + 3 && setting != Only && h.url == url
    ensures Lookup(env, cache, url, checksum, setting, limit, n) == Success(None)
    ensures rest == FetchRemote(env, cache[url := h.entry], h.next, checksum, setting, limit - 1, m)
    ensures FetchRemote(env, cache, url, checksum, setting, limit, n) ==
              rest.(asked := [url] + rest.asked, hops := [h] + rest.hops)
  {
    var level := Attempts(env, cache, url, checksum, StoredEtag(cache, url), false, n);
    m := level.requests;
    h := Hop(url, Entry(level.outcome.headers, Some([]), env.clock(m)), level.outcome.next);
    rest := FetchRemote(env, cache[url := h.entry], h.next, checksum, setting, limit - 1, m);
  }

  lemma PrependKeepsChain(url: Url, h: Hop, rest: seq<Hop>)
    requires h.url == url && Chain(h.next, rest)
    ensures Chain(url, [h] + rest) && End(url, [h] + rest) == End(h.next, rest)
  {
    var hops := [h] + rest;
    forall i: nat | i < |hops| ensures Link(url, hops, i) {
      if i > 0 {
        assert Link(h.next, rest, i - 1);
      } else {
        assert At(h.next, rest, 0) == h.next;
      }
    }
  }

  lemma PrependKeepsAsked(url: Url, h: Hop, rest: Run, run: Run)
    requires h.url == url && AskedAlong(h.next, rest)
    requires run == rest.(asked := [url] + rest.asked, hops := [h] + rest.hops)
    ensures AskedAlong(url, run)
  {
  }

  lemma PrependKeepsStored(cache: HttpCache, url: Url, h: Hop, rest: Run, run: Run)
    requires h.url == url && StoredAlong(cache[url := h.entry], h.next, rest)
    requires run == rest.(asked := [url] + rest.asked, hops := [h] + rest.hops)
    ensures StoredAlong(cache, url, run)
  {
  }

  lemma PrependKeepsShape(cache: HttpCache, url: Url, h: Hop, rest: Run, run: Run)
    requires h.url == url && Shaped(cache[url := h.entry], h.next, rest)
    requires run == rest.(asked := [url] + rest.asked, hops := [h] + rest.hops)
    ensures Shaped(cache, url, run)
  {
    PrependKeepsChain(url, h, rest.hops);
    PrependKeepsAsked(url, h, rest, run);
    PrependKeepsStored(cache, url, h, rest, run);
  }

  /** Every fetch has that shape. */
  lemma {:induction false} RunIsShaped(
    env: Env, cache: HttpCache, url: Url, checksum: Option<string>, setting: CacheSetting, limit: int, n: nat)
    ensures Shaped(cache, url, FetchRemote(env, cache, url, checksum, setting, limit, n))
    decreases if limit < 0 then 0 else limit + 1
  {
    var run := FetchRemote(env, cache, url, checksum, setting, limit, n);
    if run.hops != [] {
      var h, m, rest := FirstHop(env, cache, url, checksum, setting, limit, n);
      RunIsShaped(env, cache[url := h.entry], h.next, checksum, setting, limit - 1, m);
      PrependKeepsShape(cache, url, h, rest, run);
    }
  }

  /** The end of a run answers from the cache with what the run returned, within what is left of the limit. */
  predicate EndAnswers(env: Env, url: Url, run: Run, checksum: Option<string>, limit: int)
    requires run.result.Success?
  {
    && |run.hops| <= limit
    && FetchCached(env, run.cache, End(url, run.hops), checksum, limit - |run.hops| + Slack(run)) ==
         Success(Some(run.result.value))
  }

  /** An answer that needed no redirect and no download was in the cache. */
  lemma AnsweredFromCache(
    env: Env, cache: HttpCache, url: Url, checksum: Option<string>, setting: CacheSetting, limit: int, n: nat)
    requires var run := FetchRemote(env, cache, url, checksum, setting, limit, n);
             run.hops == [] && run.result.Success? && run.source != FromNetwork
    ensures var run := FetchRemote(env, cache, url, checksum, setting, limit, n);
            && limit >= 0 && run.cache == cache
            && (run.source == FromCache || run.source == FromRevalidation)
            && FetchCached(env, cache, url, checksum, if run.source == FromCache then limit else 10) ==
                 Success(Some(run.result.value))
  {
  }

  lemma {:induction false} DownloadIsStored(
    env: Env, cache: HttpCache, url: Url, checksum: Option<string>, setting: CacheSetting, limit: int, n: nat)
    requires var run := FetchRemote(env, cache, url, checksum, setting, limit, n);
             run.source == FromNetwork && run.result.Success?
    ensures var run := FetchRemote(env, cache, url, checksum, setting, limit, n);
            var end := End(url, run.hops);
            var file := run.result.value;
            && end in run.cache && run.cache[end].headers == file.headers && run.cache[end].body == Some(file.source)
            && file.specifier == end && ChecksumOk(env, checksum, file.source)
    decreases if limit < 0 then 0 else limit + 1
  {
    if FetchRemote(env, cache, url, checksum, setting, limit, n).hops != [] {
      var h, m, rest := FirstHop(env, cache, url, checksum, setting, limit, n);
      DownloadIsStored(env, cache[url := h.entry], h.next, checksum, setting, limit - 1, m);
    }
  }

  lemma EndWithoutHops(
    env: Env, cache: HttpCache, url: Url, checksum: Option<string>, setting: CacheSetting, limit: int, n: nat)
    requires var run := FetchRemote(env, cache, url, checksum, setting, limit, n);
             run.hops == [] && run.result.Success? && Replayable(env, run)
    ensures EndAnswers(
              env, url, FetchRemote(env, cache, url, checksum, setting, limit, n), checksum, limit)
  {
    var run := FetchRemote(env, cache, url, checksum, setting, limit, n);
    if run.source == FromNetwork {
      DownloadIsStored(env, cache, url, checksum, setting, limit, n);
    } else {
      AnsweredFromCache(env, cache, url, checksum, setting, limit, n);
      if run.source == FromRevalidation {
        LargerLimitSameAnswer(env, cache, url, checksum, 10, limit + 10);
      }
    }
  }

  lemma PrependKeepsEnd(
    env: Env, url: Url, h: Hop, rest: Run, run: Run, checksum: Option<string>, limit: int)
    requires run == rest.(asked := [url] + rest.asked, hops := [h] + rest.hops)
    requires rest.result.Success? && EndAnswers(env, h.next, rest, checksum, limit - 1)
    ensures EndAnswers(env, url, run, checksum, limit)
  {
  }

  lemma RestIsReplayable(env: Env, h: Hop, rest: Run, run: Run)
    requires run.hops == [h] + rest.hops && run.result == rest.result && run.source == rest.source
    ensures Replayable(env, run) ==> Replayable(env, rest)
  {
    assert forall i :: 0 <= i < |rest.hops| ==> rest.hops[i] == run.hops[i + 1];
  }

  lemma {:induction false} EndOfRunAnswers(
    env: Env, cache: HttpCache, url: Url, checksum: Option<string>, setting: CacheSetting, limit: int, n: nat)
    requires var run := FetchRemote(env, cache, url, checksum, setting, limit, n);
             run.result.Success? && Replayable(env, run)
    ensures EndAnswers(
              env, url, FetchRemote(env, cache, url, checksum, setting, limit, n), checksum, limit)
    decreases if limit < 0 then 0 else limit + 1
  {
    var run := FetchRemote(env, cache, url, checksum, setting, limit, n);
    if run.hops != [] {
      var h, m, rest := FirstHop(env, cache, url, checksum, setting, limit, n);
      RestIsReplayable(env, h, rest, run);
      EndOfRunAnswers(env, cache[url := h.entry], h.next, checksum, setting, limit - 1, m);
      PrependKeepsEnd(env, url, h, rest, run, checksum, limit);
    } else {
      EndWithoutHops(env, cache, url, checksum, setting, limit, n);
    }
  }

  /** Of several redirects stored for one URL the last one stays; other URLs keep their entry. */
  lemma {:induction false} LastStoreStays(cache: HttpCache, hops: seq<Hop>, i: nat, u: Url)
    ensures i < |hops| && (forall j :: i < j < |hops| ==> hops[j].url != hops[i].url) ==>
              hops[i].url in Store(cache, hops) && Store(cache, hops)[hops[i].url] == hops[i].entry
    ensures (forall j :: 0 <= j < |hops| ==> hops[j].url != u) ==> SameAt(u, Store(cache, hops), cache)
    decreases hops
  {
    if hops != [] {
      var stored, rest := cache[hops[0].url := hops[0].entry], hops[1..];
      assert forall j :: 0 <= j < |rest| ==> rest[j] == hops[j + 1];
      if i == 0 {
        LastStoreStays(stored, rest, 0, hops[0].url);
        LastStoreStays(stored, rest, 0, u);
      } else {
        LastStoreStays(stored, rest, i - 1, u);
      }
    }
  }

  // ---- Replay ----

  /** Replaying from any point of a run returns what replaying from its end returns. */
  lemma {:induction false} ReplayFrom(
    env: Env, cache: HttpCache, url: Url, run: Run, checksum: Option<string>, base: int, file: File, i: nat)
    requires Shaped(cache, url, run) && LocationsAgree(env, run) && i <= |run.hops| && base >= 0
    requires FetchCached(env, run.cache, End(url, run.hops), checksum, base) == Success(Some(file))
    ensures FetchCached(env, run.cache, At(url, run.hops, i), checksum, base + |run.hops| - i) ==
              Success(Some(file))
    decreases |run.hops| - i
  {
    var k := |run.hops|;
    if i < k {
      var u := run.hops[i].url;
      if j :| i < j < k && run.hops[j].url == u {
        ReplayFrom(env, cache, url, run, checksum, base, file, j);
        LargerLimitSameAnswer(env, run.cache, u, checksum, base + k - j, base + k - i);
      } else if u == End(url, run.hops) {
        LargerLimitSameAnswer(env, run.cache, u, checksum, base, base + k - i);
      } else {
        LastStoreStays(cache, run.hops, i, u);
        assert SameAt(u, run.cache, Store(cache, run.hops));
        assert Link(url, run.hops, i);
        ReplayFrom(env, cache, url, run, checksum, base, file, i + 1);
        CachedHop(env, run.cache, run.hops[i], checksum, base + k - i);
      }
    }
  }

  lemma StartAnswers(env: Env, cache: HttpCache, url: Url, run: Run, checksum: Option<string>, limit: int)
    requires Shaped(cache, url, run) && LocationsAgree(env, run)
    requires run.result.Success? && EndAnswers(env, url, run, checksum, limit)
    ensures FetchCached(env, run.cache, url, checksum, limit + Slack(run)) == Success(Some(run.result.value))
  {
    ReplayFrom(env, cache, url, run, checksum, limit - |run.hops| + Slack(run), run.result.value, 0);
  }

  /**
   * Whatever the server and the setting, a fetch that succeeds leaves a cache from which
   * `fetch_cached` returns the same file: within the same redirect limit, or ten more when the
   * file came from a revalidation.
   */
  lemma ReplayReturnsTheSameFile(
    env: Env, cache: HttpCache, url: Url, checksum: Option<string>, setting: CacheSetting, limit: int, n: nat)
    requires var run := FetchRemote(env, cache, url, checksum, setting, limit, n);
             run.result.Success? && Replayable(env, run)
    ensures var run := FetchRemote(env, cache, url, checksum, setting, limit, n);
            FetchCached(env, run.cache, url, checksum, limit + Slack(run)) == Success(Some(run.result.value))
  {
    var run := FetchRemote(env, cache, url, checksum, setting, limit, n);
    RunIsShaped(env, cache, url, checksum, setting, limit, n);
    EndOfRunAnswers(env, cache, url, checksum, setting, limit, n);
    StartAnswers(env, cache, url, run, checksum, limit);
  }

  // ---- Loops are erased ----

  /** The URLs that `fetch_cached` reads. */
  function CachedWalk(env: Env, cache: HttpCache, url: Url, limit: int): seq<Url>
    decreases if limit < 0 then 0 else limit + 1
  {
    if limit < 0 then []
    else
      match NextCached(env, cache, url)
      case None => [url]
      case Some(next) => [url] + CachedWalk(env, cache, next, limit - 1)
  }

  /** The index of the last visit of `url`, or -1. */
  function LastIndex(s: seq<Url>, url: Url): (i: int)
    ensures -1 <= i < |s| && (i >= 0 <==> url in s) && (i >= 0 ==> s[i] == url)
    ensures forall j :: i < j < |s| ==> s[j] != url
  {
    if s == [] then -1
    else if s[|s| - 1] == url then |s| - 1
    else
      assert s == s[..|s| - 1] + [s[|s| - 1]];
      LastIndex(s[..|s| - 1], url)
  }

  /** A walk that moves to ever later last visits. */
  predicate Advances(asked: seq<Url>, walk: seq<Url>) {
    && (forall k :: 0 <= k < |walk| ==> LastIndex(asked, walk[k]) >= 0)
    && (forall j, k :: 0 <= j < k < |walk| ==> LastIndex(asked, walk[j]) < LastIndex(asked, walk[k]))
  }

  /** After a download, the cache leads from the last visit of each URL to the visit after it. */
  lemma LastVisitLeadsOn(env: Env, cache: HttpCache, url: Url, run: Run, from: Url)
    requires Shaped(cache, url, run) && LocationsAgree(env, run) && run.source == FromNetwork
    requires from in run.asked && from != End(url, run.hops)
    ensures var i := LastIndex(run.asked, from);
            i + 1 < |run.asked| && NextCached(env, run.cache, from) == Some(run.asked[i + 1])
  {
    var i := LastIndex(run.asked, from);
    assert run.asked[|run.hops|] == End(url, run.hops);
    assert forall j :: 0 <= j < |run.hops| ==> run.hops[j].url == run.asked[j];
    LastStoreStays(cache, run.hops, i, from);
    assert SameAt(from, run.cache, Store(cache, run.hops));
    assert Agrees(env, run.hops[i]);
    assert Link(url, run.hops, i);
  }

  /** Every stored redirect among the requested URLs leads to a later last visit. */
  predicate LeadsForward(env: Env, cache: HttpCache, asked: seq<Url>) {
    forall u :: u in asked ==>
      var next := NextCached(env, cache, u);
      next.Some? ==> LastIndex(asked, u) < LastIndex(asked, next.value)
  }

  lemma PrependAdvances(asked: seq<Url>, from: Url, rest: seq<Url>)
    requires Advances(asked, rest) && from in asked
    requires rest != [] ==> LastIndex(asked, from) < LastIndex(asked, rest[0])
    ensures Advances(asked, [from] + rest)
  {
    var walk := [from] + rest;
    forall k | 0 < k < |walk| ensures LastIndex(asked, from) < LastIndex(asked, walk[k]) {
      assert walk[k] == rest[k - 1];
      assert k > 1 ==> LastIndex(asked, rest[0]) < LastIndex(asked, rest[k - 1]);
    }
  }

  lemma {:induction false} WalkAdvances(env: Env, cache: HttpCache, asked: seq<Url>, from: Url, limit: int)
    requires LeadsForward(env, cache, asked) && from in asked
    ensures Advances(asked, CachedWalk(env, cache, from, limit))
    decreases if limit < 0 then 0 else limit + 1
  {
    var next := NextCached(env, cache, from);
    if limit >= 0 && next.Some? {
      WalkAdvances(env, cache, asked, next.value, limit - 1);
      PrependAdvances(asked, from, CachedWalk(env, cache, next.value, limit - 1));
    }
  }

  /**
   * After a download, the replay moves strictly forward along the chain of requested URLs, from
   * last visit to last visit, so it reads no URL twice even when the chain contained loops.
   */
  lemma LoopsAreErased(
    env: Env, cache: HttpCache, url: Url, checksum: Option<string>, setting: CacheSetting, limit: int, n: nat)
    requires var run := FetchRemote(env, cache, url, checksum, setting, limit, n);
             run.result.Success? && run.source == FromNetwork && Replayable(env, run)
    ensures var run := FetchRemote(env, cache, url, checksum, setting, limit, n);
            var walk := CachedWalk(env, run.cache, url, limit);
            Advances(run.asked, walk) &&
            forall j, k :: 0 <= j < k < |walk| ==> walk[j] != walk[k]
  {
    var run := FetchRemote(env, cache, url, checksum, setting, limit, n);
    RunIsShaped(env, cache, url, checksum, setting, limit, n);
    DownloadIsStored(env, cache, url, checksum, setting, limit, n);
    forall u | u in run.asked && NextCached(env, run.cache, u).Some?
      ensures LastIndex(run.asked, u) < LastIndex(run.asked, NextCached(env, run.cache, u).value)
    {
      LastVisitLeadsOn(env, cache, url, run, u);
    }
    assert run.asked[0] == At(url, run.hops, 0);
    WalkAdvances(env, run.cache, run.asked, url, limit);
  }

  // ---- `CacheSetting::Use` ----

  predicate Distinct(s: seq<Url>) {
    forall i, j :: 0 <= i < j < |s| ==> s[i] != s[j]
  }

  /** A stored redirect loop never ends, whatever the limit. */
  lemma {:induction false} LoopExhaustsLimit(
    env: Env, cache: HttpCache, loop: set<Url>, url: Url, checksum: Option<string>, limit: int)
    requires url in loop
    requires forall u :: u in loop ==>
               var next := NextCached(env, cache, u); next.Some? && next.value in loop
    ensures FetchCached(env, cache, url, checksum, limit) == Failure(TooManyRedirects)
    decreases if limit < 0 then 0 else limit + 1
  {
    if limit >= 0 {
      LoopExhaustsLimit(env, cache, loop, NextCached(env, cache, url).value, checksum, limit - 1);
    }
  }

  /** Under `Use`: each URL was asked only because the cache, as it then was, lacked it. */
  predicate Missing(env: Env, cache: HttpCache, run: Run, checksum: Option<string>, limit: int, i: nat)
    requires i < |run.asked|
  {
    i <= |run.hops| &&
    FetchCached(env, Store(cache, run.hops[..i]), run.asked[i], checksum, limit - i) == Success(None)
  }

  lemma FirstAskedIsMissing(env: Env, cache: HttpCache, url: Url, checksum: Option<string>, limit: int, n: nat)
    requires FetchRemote(env, cache, url, checksum, Use, limit, n).asked != []
    ensures Missing(env, cache, FetchRemote(env, cache, url, checksum, Use, limit, n), checksum, limit, 0)
  {
    var run := FetchRemote(env, cache, url, checksum, Use, limit, n);
    assert Lookup(env, cache, url, checksum, Use, limit, n) == Success(None);
    assert run.asked[0] == url && run.hops[..0] == [];
  }

  lemma PrependKeepsMissing(
    env: Env, cache: HttpCache, url: Url, h: Hop, rest: Run, run: Run, checksum: Option<string>, limit: int, i: nat)
    requires h.url == url && run == rest.(asked := [url] + rest.asked, hops := [h] + rest.hops)
    requires 0 < i <= |rest.asked| && Missing(env, cache[url := h.entry], rest, checksum, limit - 1, i - 1)
    ensures Missing(env, cache, run, checksum, limit, i)
  {
    assert run.hops[..i] == [h] + rest.hops[..i - 1];
    assert run.hops[..i][1..] == rest.hops[..i - 1];
  }

  lemma {:induction false} AskedOnlyWhenMissing(
    env: Env, cache: HttpCache, url: Url, checksum: Option<string>, limit: int, n: nat, i: nat)
    requires i < |FetchRemote(env, cache, url, checksum, Use, limit, n).asked|
    ensures Missing(env, cache, FetchRemote(env, cache, url, checksum, Use, limit, n), checksum, limit, i)
    decreases if limit < 0 then 0 else limit + 1
  {
    var run := FetchRemote(env, cache, url, checksum, Use, limit, n);
    if i == 0 {
      FirstAskedIsMissing(env, cache, url, checksum, limit, n);
    } else {
      RunIsShaped(env, cache, url, checksum, Use, limit, n);
      var h, m, rest := FirstHop(env, cache, url, checksum, Use, limit, n);
      AskedOnlyWhenMissing(env, cache[url := h.entry], h.next, checksum, limit - 1, m, i - 1);
      PrependKeepsMissing(env, cache, url, h, rest, run, checksum, limit, i);
    }
  }

  /** Coming back to a URL of a loop-free chain closes a stored loop. */
  lemma ReturningFails(
    env: Env, cache: HttpCache, url: Url, hops: seq<Hop>, i: nat, checksum: Option<string>, limit: int)
    requires Chain(url, hops) && Distinct(Urls(hops)) && i < |hops| && hops[i].url == End(url, hops)
    requires forall k :: 0 <= k < |hops| ==> Agrees(env, hops[k])
    ensures FetchCached(env, Store(cache, hops), hops[i].url, checksum, limit) == Failure(TooManyRedirects)
  {
    var stored := Store(cache, hops);
    var loop := set k: nat | i <= k < |hops| :: hops[k].url;
    forall u | u in loop
      ensures NextCached(env, stored, u).Some? && NextCached(env, stored, u).value in loop
    {
      var k: nat :| i <= k < |hops| && hops[k].url == u;
      assert forall j :: k < j < |hops| ==> Urls(hops)[j] != Urls(hops)[k];
      LastStoreStays(cache, hops, k, u);
      assert Agrees(env, hops[k]) && Link(url, hops, k);
      assert (if k + 1 < |hops| then hops[k + 1].url else hops[i].url) in loop;
    }
    LoopExhaustsLimit(env, stored, loop, hops[i].url, checksum, limit);
  }

  lemma PrefixIsChain(url: Url, hops: seq<Hop>, k: nat)
    requires Chain(url, hops) && k <= |hops|
    ensures Chain(url, hops[..k]) && End(url, hops[..k]) == At(url, hops, k)
  {
    var path := hops[..k];
    if k > 0 {
      assert Link(url, hops, k - 1);
    }
    forall i: nat | i < |path| ensures Link(url, path, i) {
      assert Link(url, hops, i);
    }
  }

  lemma NoReturn(
    env: Env, cache: HttpCache, url: Url, run: Run, checksum: Option<string>, limit: int, i: nat, k: nat)
    requires Shaped(cache, url, run) && LocationsAgree(env, run) && i < k < |run.asked|
    requires Distinct(run.asked[..k]) && run.asked[i] == run.asked[k]
    ensures !Missing(env, cache, run, checksum, limit, k)
  {
    var path := run.hops[..k];
    assert Urls(path) == run.asked[..k];
    PrefixIsChain(url, run.hops, k);
    assert run.asked[k] == At(url, run.hops, k);
    assert path[i].url == run.asked[i];
    ReturningFails(env, cache, url, path, i, checksum, limit - k);
  }

  lemma {:induction false} AskedDistinctUpTo(
    env: Env, cache: HttpCache, url: Url, run: Run, checksum: Option<string>, limit: int, k: nat)
    requires Shaped(cache, url, run) && LocationsAgree(env, run) && k <= |run.asked|
    requires forall i: nat :: i < |run.asked| ==> Missing(env, cache, run, checksum, limit, i)
    ensures Distinct(run.asked[..k])
  {
    if k > 0 {
      AskedDistinctUpTo(env, cache, url, run, checksum, limit, k - 1);
      forall i: nat | i < k - 1 ensures run.asked[i] != run.asked[k - 1] {
        if run.asked[i] == run.asked[k - 1] {
          assert Missing(env, cache, run, checksum, limit, k - 1);
          NoReturn(env, cache, url, run, checksum, limit, i, k - 1);
        }
      }
    }
  }

  /** A revalidation under `Use` would find in the cache what was just found missing. */
  lemma RevalidatedWasAsked(env: Env, cache: HttpCache, url: Url, checksum: Option<string>, limit: int, n: nat)
    requires var run := FetchRemote(env, cache, url, checksum, Use, limit, n);
             run.hops == [] && run.source == FromRevalidation
    ensures FetchCached(env, cache, url, checksum, limit) == Success(None)
    ensures FetchCached(env, cache, url, checksum, 10).Success? &&
            FetchCached(env, cache, url, checksum, 10).value.Some?
  {
    assert Lookup(env, cache, url, checksum, Use, limit, n) == Success(None);
  }

  /** Two limits that both suffice give one answer. */
  lemma AnswersAgree(env: Env, cache: HttpCache, url: Url, checksum: Option<string>, a: int, b: int)
    requires FetchCached(env, cache, url, checksum, a) != Failure(TooManyRedirects)
    requires FetchCached(env, cache, url, checksum, b) != Failure(TooManyRedirects)
    ensures FetchCached(env, cache, url, checksum, a) == FetchCached(env, cache, url, checksum, b)
  {
    if a <= b {
      LargerLimitSameAnswer(env, cache, url, checksum, a, b);
    } else {
      LargerLimitSameAnswer(env, cache, url, checksum, b, a);
    }
  }

  lemma {:induction false} UseNeverRevalidates(
    env: Env, cache: HttpCache, url: Url, checksum: Option<string>, limit: int, n: nat)
    ensures FetchRemote(env, cache, url, checksum, Use, limit, n).source != FromRevalidation
    decreases if limit < 0 then 0 else limit + 1
  {
    var run := FetchRemote(env, cache, url, checksum, Use, limit, n);
    if run.hops != [] {
      var h, m, _ := FirstHop(env, cache, url, checksum, Use, limit, n);
      UseNeverRevalidates(env, cache[url := h.entry], h.next, checksum, limit - 1, m);
    } else if run.source == FromRevalidation {
      RevalidatedWasAsked(env, cache, url, checksum, limit, n);
      AnswersAgree(env, cache, url, checksum, 10, limit);
    }
  }

  /** Under `Use` a successful fetch asks for no URL twice and never rests on a revalidation. */
  lemma UseAsksEachUrlOnce(
    env: Env, cache: HttpCache, url: Url, checksum: Option<string>, limit: int, n: nat)
    requires var run := FetchRemote(env, cache, url, checksum, Use, limit, n);
             run.result.Success? && LocationsAgree(env, run)
    ensures var run := FetchRemote(env, cache, url, checksum, Use, limit, n);
            Distinct(run.asked) && run.source != FromRevalidation
  {
    var run := FetchRemote(env, cache, url, checksum, Use, limit, n);
    RunIsShaped(env, cache, url, checksum, Use, limit, n);
    UseNeverRevalidates(env, cache, url, checksum, limit, n);
    forall i: nat | i < |run.asked|
      ensures Missing(env, cache, run, checksum, limit, i)
    {
      AskedOnlyWhenMissing(env, cache, url, checksum, limit, n, i);
    }
    AskedDistinctUpTo(env, cache, url, run, checksum, limit, |run.asked|);
    assert run.asked[..|run.asked|] == run.asked;
  }

  /**
   * Repeating a successful fetch with the same limit, under `Use` or `--cached-only`, makes no
   * request, changes nothing and returns an equal file.
   */
  lemma RepeatNeedsNoNetwork(
    env: Env, cache: HttpCache, url: Url, checksum: Option<string>, setting: CacheSetting, limit: int,
    n: nat, again: CacheSetting, m: nat)
    requires again == Use || again == Only
    requires var run := FetchRemote(env, cache, url, checksum, setting, limit, n);
             run.result.Success? && run.source != FromRevalidation && Replayable(env, run)
    ensures var run := FetchRemote(env, cache, url, checksum, setting, limit, n);
            FetchRemote(env, run.cache, url, checksum, again, limit, m) ==
              Run(run.result, run.cache, m, [], [], FromCache)
  {
    ReplayReturnsTheSameFile(env, cache, url, checksum, setting, limit, n);
  }

  /** The whole promise of `Use`: each URL asked once, then never again. */
  lemma UseRepeatNeedsNoNetwork(
    env: Env, cache: HttpCache, url: Url, checksum: Option<string>, limit: int, n: nat, m: nat)
    requires var run := FetchRemote(env, cache, url, checksum, Use, limit, n);
             run.result.Success? && Replayable(env, run)
    ensures var run := FetchRemote(env, cache, url, checksum, Use, limit, n);
            Distinct(run.asked) &&
            FetchRemote(env, run.cache, url, checksum, Use, limit, m) ==
              Run(run.result, run.cache, m, [], [], FromCache)
  {
    UseAsksEachUrlOnce(env, cache, url, checksum, limit, n);
    RepeatNeedsNoNetwork(env, cache, url, checksum, Use, limit, n, Use, m);
  }

  // ---- The number of requests ----

  /** At most three requests per redirect level, and none at all under `--cached-only`. */
  lemma {:induction false} RequestBound(
    env: Env, cache: HttpCache, url: Url, checksum: Option<string>, setting: CacheSetting, limit: int, n: nat)
    ensures var run := FetchRemote(env, cache, url, checksum, setting, limit, n);
            && n + |run.asked| <= run.requests <= n + 3 * |run.asked|
            && |run.asked| <= (if limit < 0 then 0 else limit + 1)
            && (setting == Only ==> run.asked == [] && run.cache == cache)
    decreases if limit < 0 then 0 else limit + 1
  {
    if FetchRemote(env, cache, url, checksum, setting, limit, n).hops != [] {
      var h, m, _ := FirstHop(env, cache, url, checksum, setting, limit, n);
      RequestBound(env, cache[url := h.entry], h.next, checksum, setting, limit - 1, m);
    }
  }
}
