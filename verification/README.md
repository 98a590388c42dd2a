# Verified model of Deno's fetching, loading and resolving core

This project models the parts of Deno where most of the state and branching sits, and proves what
they promise for every input, every server, every file system and every interleaving:

- **Remote fetching** (`CacheSemantics`, `ReloadList`, `FileFetcher`, `FetchReplay`, `Location`, `SimpleUrls`):
  following redirects, the retry and etag loop, the HTTP cache, reading the cache back, freshness
  and reload lists. The network is an arbitrary function of the request number, so a server may
  answer every visit of a URL differently.
- **Concurrency** (`WebWorker`, `TaskQueue`, `ModuleGraph`): the termination protocol of web
  workers, the permit queue, and the shared module graph on top of that queue. Each atomic
  operation or critical section is one step, and a run is an arbitrary sequence of events.
- **Resolving** (`SloppyImports`, `MediaTypes`, `PackageJsonDeps`, `Jsr`): sloppy import probing,
  dependencies of a package.json, and the two JSR resolvers.
- **Printing and parsing** (`FmtErrors`, `PermissionFlags`, `FlagsNet`): error chains with circular
  markers, and permission options.
- **Life cycle** (`WatcherExecutor`): load and unload events under cancellation.

Code that computes is functions; code that updates variables or fields is methods with loops and
classes, each proved equal to a specification function about which the lemmas speak. Loops over
several like blocks of the source (the fifteen permission lists) run over a table in its order.

`dafny verify dfyconfig.toml` checks the whole project.

## Where the code does not do what one might expect

Each of these is a lemma, with the exact condition under which the expectation holds.

- **Some redirects cannot be replayed from the cache.** A bare relative `Location` such as `b.js` is
  followed by the network path, but the cached path resolves it as an import specifier and fails
  (`SimpleUrls.BareRedirectIsLost`). A dotted one such as `./x` at `http://h//a/b`, whose path begins with
  two slashes, leads the network to the host `a` while the cached path stays on `h`
  (`SimpleUrls.DoubledSlashIsMisread`); `DoubledSlashExactly` says when such a location still reads back.
  `Location.ReadsBack` is the exact condition on a header (`ResolversAgreeExactly`). `ReplayOutcome` says
  what the cache answers after any download whose final answer has no `location` header. `ReplayExactly` says
  that a download is replayed exactly when every redirect left after cutting out loops reads back and the
  final answer has no such header, provided that no misread redirect happens to name a cached URL.
- **A reload entry made from a directory URL does not reload that URL itself.** An entry made from `e/`
  reloads everything below it but not `e/` (`ReloadList.DirectoryUrlEscapesItsOwnEntry`). Only one trailing
  slash is stripped, so an entry made from `e//` reloads neither `e//` nor anything below it
  (`TwoSlashesReloadNothingBelow`). `EntryCovers` is the rule for every entry.
- **`post_event` on a closed channel sets `has_terminated` without stopping the isolate**, and
  nothing later stops it (`WebWorker.DroppedReceiverLetsStoreWin`, `StoreFirstNeverStops`). A finished
  run that terminated has stopped the isolate exactly when no such step came first
  (`QuiescentAfterRequest`); while the parent keeps its receiver none can
  (`ReceiverKeptStopsExactlyOnce`).
- **A permit can be lost for ever** when a future is dropped between its `is_ready` test and its
  mark while another thread picks it (`TaskQueue.OverlapCanLosePermit`, `LostForever`). A run loses the
  permit exactly when one of its events is one of two racing steps (`LostExactlyByRacingDrop`); without
  overlapping calls none is (`OneAtATimeNeverStalls`).
- **The cache resolver for JSR does not look at whether a version is yanked**, so it may answer one
  that the fetch resolver skips (`Jsr.YankedVersionDiffers`). On a requirement that is not locked the two
  agree, answers of nothing included, exactly when the newest matching release that is cached or not yanked
  is both (`ResolversAgreeExactly`).
- **Nested package.json keys can make the answer depend on their order** (`PackageJsonDeps.NestedExample`).
  The order never matters exactly when nested entries carry the same error, or requirements that differ by
  just the path between the keys, or none that makes a URL (`OrderFreeExactly`); npm names never nest.
- **`--allow-all` next to a denial prints as `--allow-all` alone**
  (`PermissionFlags.AllowAllLosesDenials`); in all other cases parsed flags print to equivalent
  arguments (`PrintsEquivalentArgs`).
- **A watched module whose event loop or `beforeunload` handler fails gets no `unload` event**
  (`WatcherExecutor.UnloadExactlyOnce`).

## What is taken from libraries

- URL parsing and joining are a `UrlLib` whose laws for http(s) bases are in `Location.Lawful`: a
  scheme-relative text joins as it parses with the base's scheme, and a dotted text joins as it does beside
  the base's directory, unless the base's path begins with two slashes. `SimpleUrls` is a small library that
  meets them. `resolve_import` is modelled as the import resolution of the HTML standard that `deno_core`
  follows.
- Media types follow the extensions of the `deno_media_type` library; `SloppyImports` needs of them
  only `Lawful`, which `MediaTypes` proves.
- `graph.build` keeps what the graph holds and records its roots (`ModuleGraph.Builds`).
- Semver versions are totally ordered ranks; which versions a requirement matches is a function.
- `is_same_error` compares the same fields on both sides and is modelled as equality of a key.
- The option parser gives `--name` or `--name=value`, splits values at commas, applies the value
  parsers and refuses an option given twice. Whether a text is a URL authority or an IP address is a
  function; `FlagsNet.Lawful` asks that a default host with a port is an authority.
- Paths are Unix paths, and file URLs correspond to them one to one.

## Model

| member | source | states |
|---|---|---|
| CacheSemantics.ShouldUseIsAgeBelowLimit | cli/http_util.rs:184-219 | the five branches of `should_use` are one comparison: the current age is below one limit that depends only on headers and download time |
| CacheSemantics.FreshnessNeverReturns | cli/http_util.rs:104-219 | a response usable at one time is usable at every earlier time; it is usable exactly until a fixed deadline |
| ReloadList.CutAt | cli/file_fetcher.rs:487-492 | removing a fragment or query leaves the longest prefix without the mark |
| ReloadList.TrimRight | cli/file_fetcher.rs:493-500 | popping a path first ignores trailing separators |
| ReloadList.DropLastComponent | cli/file_fetcher.rs:498-500 | popping cuts right after the last separator |
| ReloadList.Parent | cli/file_fetcher.rs:498-500 | the parent is a strictly shorter prefix, so the climbing loop ends |
| ReloadList.ShouldUseCache | cli/file_fetcher.rs:486-503 | the popping loop refuses the cache exactly when the URL or one of its ancestors is listed |
| ReloadList.AncestorsAreSegmentPrefixes | cli/file_fetcher.rs:493-502 | the paths met by popping are exactly the whole-segment prefixes |
| ReloadList.RefusesExactly | cli/file_fetcher.rs:486-503 | the whole rule for every list and URL, including URLs with trailing separators |
| ReloadList.RefusesSegmentPrefixes | cli/file_fetcher.rs:486-503 | without an empty last segment: refused if and only if the URL without fragment or a whole-segment prefix of it without query is listed |
| ReloadList.ResolveUrls | cli/args/flags.rs:4392-4407 | every entry loses its fragment and one trailing slash, in order; one bad URL aborts |
| ReloadList.EntryCovers | cli/args/flags.rs:4396-4402 | a normalised entry covers itself and, unless it still ends in a slash, everything below it, and no sibling that shares only text |
| ReloadList.DirectoryUrlEscapesItsOwnEntry | cli/args/flags.rs:4396-4402 | the entry of a URL that ends in one slash reloads what is below it but not that URL itself |
| ReloadList.TwoSlashesReloadNothingBelow | cli/args/flags.rs:4396-4402 | the entry of a URL that ends in two slashes keeps one, and reloads nothing below it |
| FileFetcher.FetchOnce | cli/file_fetcher.rs:608-690 | a redirect result carries the header it was resolved from |
| FileFetcher.Attempts | cli/file_fetcher.rs:374-457 | at most three requests per level (one retry, one etag drop); a revalidated file is one the cache returns with limit ten |
| FileFetcher.Fetcher.constructor | cli/file_fetcher.rs:168-188 | starts from a given cache with no request made |
| FileFetcher.Fetcher.Ask | cli/file_fetcher.rs:374-457 | the request loop over `maybe_etag` and `retried` computes `Attempts` and changes only the request count |
| FileFetcher.Fetcher.Fetch | cli/file_fetcher.rs:288-458 | the fetch that writes the shared cache gives the answer, cache and request count of `FetchRemote` |
| FetchReplay.LargerLimitSameAnswer | cli/file_fetcher.rs:202-238 | an answer found within one redirect limit is found within every larger one |
| FetchReplay.RunIsShaped | cli/file_fetcher.rs:288-458 | every fetch is a chain of followed redirects, each asked for and stored, and at most one more write at its end |
| FetchReplay.EndOfRunAnswers | cli/file_fetcher.rs:288-458 | the end of a successful run answers from the cache within what is left of the limit |
| FetchReplay.LastStoreStays | cli/file_fetcher.rs:411-436 | of several redirects stored for one URL the last stays |
| FetchReplay.ReplayFrom | cli/file_fetcher.rs:202-238 | replaying from any point of a chain, loops included, returns what its end returns |
| FetchReplay.ReplayReturnsTheSameFile | cli/file_fetcher.rs:202-458 | for every server and setting, a successful fetch leaves a cache from which `fetch_cached` returns the same file within the same limit |
| FetchReplay.LastVisitLeadsOn | cli/file_fetcher.rs:411-436 | after a download the cache leads from the last visit of a URL to the visit after it |
| FetchReplay.WalkAdvances | cli/file_fetcher.rs:202-238 | a replay moves to ever later last visits |
| FetchReplay.LoopsAreErased | cli/file_fetcher.rs:202-436 | after a download with loops, the replay reads no URL twice and moves strictly forward along the chain |
| FetchReplay.DownloadIsStored | cli/file_fetcher.rs:418-436 | the downloaded body and headers are in the cache under the last URL, and match the checksum |
| FetchReplay.LoopExhaustsLimit | cli/file_fetcher.rs:202-238 | a stored redirect loop ends in the redirect error for every limit |
| FetchReplay.AskedOnlyWhenMissing | cli/file_fetcher.rs:298-328 | under `Use` the network is asked for a URL only when the cache of that moment does not answer it |
| FetchReplay.UseAsksEachUrlOnce | cli/file_fetcher.rs:298-457 | under `Use` a successful fetch asks for no URL twice and rests on no revalidation |
| FetchReplay.UseNeverRevalidates | cli/file_fetcher.rs:298-457 | under `Use` no answer comes from a 304 |
| FetchReplay.RepeatNeedsNoNetwork | cli/file_fetcher.rs:298-328 | repeating a successful fetch under `Use` or `Only` makes no request, changes nothing and returns an equal file |
| FetchReplay.UseRepeatNeedsNoNetwork | cli/file_fetcher.rs:298-457 | under `Use`: each URL asked once, then never again |
| FetchReplay.RequestBound | cli/file_fetcher.rs:288-458 | at most three requests per level and limit plus one levels; none and no cache change under `Only` |
| Location.ResolversAgreeExactly | cli/http_util.rs:27-50 | for every http(s) base and every location the network path can follow, the two resolvers agree if and only if the location is absolute or rooted, or dotted on a path without two leading slashes, or one of two named coincidences holds; a bare schemeless one the cached path refuses |
| Location.FollowedIsWeb | cli/http_util.rs:27-50 | redirects lead from http(s) URLs to http(s) URLs |
| Location.HopsWereResolved | cli/file_fetcher.rs:608-690 | every followed redirect was resolved from the header stored for it |
| Location.HopsAreWeb | cli/file_fetcher.rs:412-426 | so every redirect of a fetch of an http(s) URL starts at one |
| Location.HopAgreesExactly | cli/file_fetcher.rs:214-223 | a stored redirect reads back as it was followed exactly under that condition on its header |
| Location.EntryOfLastVisit | cli/file_fetcher.rs:411-436 | the entry kept for a URL is that of its last visit |
| Location.VisitsAreOk | cli/file_fetcher.rs:411-436 | cutting out loops leaves last visits, each followed by the last visit of the URL that came after it |
| Location.ReplayReaches | cli/file_fetcher.rs:202-238 | replay makes these visits one by one as long as the redirects read back |
| Location.CachedFilesHaveNoLocation | cli/file_fetcher.rs:214-223 | `fetch_cached` returns only entries without a `location` header |
| Location.ReplayOutcome | cli/file_fetcher.rs:202-458 | after any download, with or without loops, the cache answers the downloaded file if every remaining redirect reads back, and otherwise whatever the first that does not leads to |
| Location.ReplayExactly | cli/file_fetcher.rs:202-458 | so a download can be replayed if and only if every remaining redirect reads back and the body has no `location` header |
| Location.BareRedirectFails | cli/file_fetcher.rs:202-458 | every bare schemeless location gives a download that cannot be replayed |
| SimpleUrls.SimpleIsLawful | cli/http_util.rs:25-50 | a URL library with dot segment removal meets the laws asked of one |
| SimpleUrls.DoubledSlashExactly | cli/http_util.rs:42-49 | a dotted location on a path with two leading slashes reads back if and only if the first segment of the text the source builds is the host of the base and the rest of that text climbs out of both leading segments |
| SimpleUrls.DoubledSlashIsMisread | cli/http_util.rs:42-49 | so `./x` leads the network to another host than the cached path, wherever the first segment is not the host |
| SimpleUrls.DoubledSlashCoincides | cli/http_util.rs:42-49 | and `../../x` reads back wherever it is |
| SimpleUrls.BareRedirectIsLost | cli/file_fetcher.rs:202-458 | a redirect to a sibling named without `./` downloads and cannot be replayed |
| SimpleUrls.DoubledSlashExample | cli/http_util.rs:42-49 | such a misread redirect at `http://h//a/b` with `./x` |
| SimpleUrls.BareRedirectExample | cli/file_fetcher.rs:202-458 | such a lost download at `http://h/a.js` with `b.js` |
| WebWorker.RunKeepsInv | runtime/web_worker.rs:160-302 | the protocol invariant holds after every interleaving |
| WebWorker.ExecutionStoppedAtMostOnce | runtime/web_worker.rs:200-302 | the isolate is terminated at most once, only by the thread whose swap set `has_terminated` |
| WebWorker.RequestNeverLost | runtime/web_worker.rs:272-302 | while the signal is set and the worker has not terminated, exactly one thread still owes the termination; never two |
| WebWorker.StepsRunOut | runtime/web_worker.rs:187-302 | every step uses up work, so calls end under any scheduler |
| WebWorker.StoreCameFirstExactly | runtime/web_worker.rs:165-176 | the recorded setter is `post_event` exactly in the runs where one of its steps set the flag while it was not set |
| WebWorker.QuiescentAfterRequest | runtime/web_worker.rs:160-302 | when all threads are done, a request has led to termination, and a terminated worker's isolate was stopped exactly when no step of `post_event` set the flag first |
| WebWorker.PollAfterRequestAnswersYes | runtime/web_worker.rs:187-196 | a poll begun after the request answers yes, and a yes means the worker has terminated |
| WebWorker.ClosedOnlyByTerminate | runtime/web_worker.rs:165-216 | while the parent keeps its receiver, only `terminate` closes the channel |
| WebWorker.ReceiverKeptStopsExactlyOnce | runtime/web_worker.rs:165-302 | then a finished run that terminated stopped the isolate exactly once |
| WebWorker.StoreFirstNeverStops | runtime/web_worker.rs:165-176 | once `post_event` set the flag first, no continuation ever stops the isolate |
| WebWorker.DroppedReceiverLetsStoreWin | runtime/web_worker.rs:165-176 | a run in which that happens |
| TaskQueue.Skipped | cli/util/sync.rs:78-85 | exactly the dropped futures at the front are cleared |
| TaskQueue.ApplyKeepsInv | cli/util/sync.rs:74-161 | every step keeps the queue invariant: one permit token, waiting items in order |
| TaskQueue.Run | cli/util/sync.rs:74-161 | so every interleaving ends in a state that meets it |
| TaskQueue.AtMostOnePermit | cli/util/sync.rs:41-45 | no two permits exist at once |
| TaskQueue.GrantedInOrder | cli/util/sync.rs:41-56 | permits are granted in the order of the calls |
| TaskQueue.NoOvertaking | cli/util/sync.rs:41-56 | nobody holds the permit while an earlier caller still waits |
| TaskQueue.RunningHasOwner | cli/util/sync.rs:74-145 | between calls a running queue has a live owner, or the permit was lost |
| TaskQueue.OneAtATimeNeverStalls | cli/util/sync.rs:74-145 | without overlapping calls no permit is lost and a running queue has a live owner |
| TaskQueue.LostForever | cli/util/sync.rs:74-145 | once a run has lost the permit, it is lost in every continuation and nobody owns one again |
| TaskQueue.LostByRacingStep | cli/util/sync.rs:91-145 | the two racing steps that lose the permit, and no others |
| TaskQueue.LostExactlyByRacingDrop | cli/util/sync.rs:74-145 | a run has lost the permit if and only if one of its events was such a step |
| TaskQueue.OverlapCanLosePermit | cli/util/sync.rs:74-145 | an interleaving of two callers that loses it |
| TaskQueue.Tasks.constructor | cli/util/sync.rs:35-49 | an idle, empty queue |
| TaskQueue.Tasks.TakeFront | cli/util/sync.rs:74-89 | the locked loop removes the dropped front, hands out the next item and records whether one runs |
| ModuleGraph.ApplyKeepsInv | cli/graph_util.rs:764-843 | every step of loads and queue keeps the graph invariant |
| ModuleGraph.Run | cli/module_loader.rs:97-162 | so every interleaving of loads does |
| ModuleGraph.RunFrom | cli/module_loader.rs:97-162 | and every continuation of a state that meets it |
| ModuleGraph.CommitsExtend | cli/graph_util.rs:837-843 | a later commit holds every root and module of an earlier one |
| ModuleGraph.CommitsFormChain | cli/graph_util.rs:772-843 | each commit was cloned from the one just before it, nothing committed is lost, readers see the last commit |
| ModuleGraph.CommitsOnlyGrow | cli/graph_util.rs:829-843 | a run only appends commits |
| ModuleGraph.CommitsAreOfLoads | cli/module_loader.rs:97-139 | the commits are those of the loads that committed, one each, with their roots; a failed, dropped, waiting or working load is behind none |
| ModuleGraph.GivenUpLoadNeverShows | cli/module_loader.rs:97-139 | a load that failed or was dropped, with its permit or while waiting for one, is behind no commit in any continuation |
| ModuleGraph.NewCommitIsOfNewLoad | cli/graph_util.rs:829-843 | every commit a run adds is of a load that had made none before |
| ModuleGraph.OnlyCommitsShow | cli/module_loader.rs:97-139 | while no further load commits, whatever fails or is dropped, readers see the same graph |
| ModuleGraph.OnlyFirstRootsTypeCheck | cli/module_loader.rs:109-162 | a load type checks exactly when all loads committed before it had no roots |
| ModuleGraph.PreparedRootStaysLoadable | cli/module_loader.rs:225-299 | a committed root is answered the same way in every continuation, and found if and only if it is a Js or Json module |
| SloppyImports.FirstFileIsFirst | cli/resolver.rs:1229-1247 | the winning probe is a file with no file before it |
| SloppyImports.StatCache.constructor | cli/resolver.rs:851-857 | an empty cache over a file system |
| SloppyImports.StatCache.StatSync | cli/resolver.rs:859-874 | answers as the file system does and remembers it |
| SloppyImports.StatCache.ResolveCached | cli/resolver.rs:998-1248 | resolving through the stat cache answers as without it, whatever was cached before |
| SloppyImports.IndexTableIsOrdered | cli/resolver.rs:1159-1194 | the index table lists declarations before the files they shadow |
| SloppyImports.MissingTableIsOrdered | cli/resolver.rs:1083-1149 | so do the tables for missing files |
| SloppyImports.ShadowTableIsOrdered | cli/resolver.rs:1053-1077 | and those for existing JavaScript files |
| SloppyImports.TableIsFinal | cli/resolver.rs:1016-1035 | whatever an ordered table finds is not shadowed |
| SloppyImports.ResolvedIsFinal | cli/resolver.rs:998-1248 | in types mode every resolved file is unshadowed |
| SloppyImports.ResolvedIsFile | cli/resolver.rs:1229-1247 | a resolution is a file, or the specifier unchanged |
| SloppyImports.UnshadowedFileStays | cli/resolver.rs:1053-1080 | an unshadowed file resolves to itself |
| SloppyImports.ResolveIsIdempotent | cli/resolver.rs:998-1248 | resolution is idempotent in both modes for every file system and specifier |
| SloppyImports.OrderIsNecessary | cli/resolver.rs:1053-1194 | a table gives final picks in every file system if and only if it is so ordered |
| MediaTypes.MediaOfProbe | cli/resolver.rs:1016-1035 | an appended extension is read as JavaScript only where JavaScript was meant |
| MediaTypes.StandardIsLawful | cli/resolver.rs:1003-1035 | the standard media types meet what probing needs |
| MediaTypes.StandardResolveIsIdempotent | cli/resolver.rs:998-1248 | so resolution with them is idempotent without further assumptions |
| FmtErrors.FindRecursiveCauseLoop | runtime/fmt_errors.rs:167-186 | the loop over the history computes the search of the specification |
| FmtErrors.FindsFirstRepeat | runtime/fmt_errors.rs:167-186 | the search returns the first repeat of a chain, and nothing exactly when all are distinct |
| FmtErrors.PrintOwn | runtime/fmt_errors.rs:222-258 | the part printed for one error alone |
| FmtErrors.PrintFrames | runtime/fmt_errors.rs:256-258 | the frames are appended in order |
| FmtErrors.Print | runtime/fmt_errors.rs:217-279 | the recursive printer produces the specified tokens |
| FmtErrors.PrintAll | runtime/fmt_errors.rs:188-215 | the errors of an aggregate are printed in turn with the running index |
| FmtErrors.PrintError | runtime/fmt_errors.rs:282-290 | an error whose causes are all distinct prints every cause and no marker; otherwise the distinct prefix with one pair of markers of index one |
| FmtErrors.PlainMarks | runtime/fmt_errors.rs:217-279 | without a reference every cause is printed and no marker |
| FmtErrors.MarkedMarks | runtime/fmt_errors.rs:217-279 | with a reference, the errors up to it are printed with both markers in place |
| FmtErrors.MarkersPairUp | runtime/fmt_errors.rs:167-290 | with a repeat exactly the distinct prefix is printed, with one `ref` at the repeated error and one `Circular` at the end, of one index; without one, all causes and no marker |
| FmtErrors.AggregatedErrorAt | runtime/fmt_errors.rs:188-215 | the index of an error of an aggregate is the enclosing one plus the number of errors with a repeat up to it |
| FmtErrors.AggregatedErrorsPairUp | runtime/fmt_errors.rs:188-215 | each error of an aggregate prints all its causes and no marker, or its distinct prefix with one pair of markers of that index |
| FmtErrors.AggregatedIndicesRise | runtime/fmt_errors.rs:188-215 | an error with a repeat has an index above the enclosing one and above those of all before it |
| Jsr.InsertRelease | cli/jsr.rs:70-80 | insertion keeps the order newest first and adds just that release |
| Jsr.NewestFirst | cli/jsr.rs:70-80 | sorting puts the newest first and keeps the releases |
| Jsr.FirstWhereIsNewest | cli/jsr.rs:70-86 | the first acceptable release of a sorted list is the newest acceptable one, and none means there is none |
| Jsr.CacheResolver.constructor | cli/jsr.rs:32-60 | the tables hold only the lockfile's answers |
| Jsr.CacheResolver.GetPackageInfo | cli/jsr.rs:134-146 | the memo table answers as the cache does |
| Jsr.CacheResolver.GetVersionInfo | cli/jsr.rs:148-166 | so does the table of version infos |
| Jsr.CacheResolver.FindVersion | cli/jsr.rs:62-86 | the search through two memo tables is the search without them |
| Jsr.CacheResolver.ReqToNv | cli/jsr.rs:62-91 | in every sequence of calls the answer is that of the unmemoized search, or the lockfile's |
| Jsr.FetchResolver.constructor | cli/jsr.rs:194-201 | empty tables |
| Jsr.FetchResolver.GetPackageInfo | cli/jsr.rs:229-245 | the memo table answers as the registry does |
| Jsr.FetchResolver.ReqToNv | cli/jsr.rs:203-227 | in every sequence of calls the answer is that of the unmemoized search |
| Jsr.SearchFindsNewest | cli/jsr.rs:62-91 | a search answers the newest acceptable version, and nothing exactly when there is none |
| Jsr.CacheAnswerIsNewestCached | cli/jsr.rs:62-91 | an unlocked requirement resolves to the newest version that matches and has cached version info; a tag to nothing |
| Jsr.FoundRelease | cli/jsr.rs:62-91 | the release a search settles on is acceptable and no acceptable one is newer |
| Jsr.ResolversAgreeExactly | cli/jsr.rs:62-227 | on an unlocked requirement the two resolvers agree, answers of nothing included, if and only if the newest matching release that is cached or not yanked, if there is one, is both |
| Jsr.CacheAgainstFetch | cli/jsr.rs:62-227 | where both answer: the fetch resolver's version is at least an unyanked answer of the cache resolver, and at most its answer when cached |
| Jsr.OnlyCacheFindsYanked | cli/jsr.rs:203-227 | a version only the cache resolver finds is yanked |
| Jsr.YankedVersionDiffers | cli/jsr.rs:62-227 | a package on which the cache resolver answers a yanked version and the fetch resolver an older one |
| Jsr.FetchIsAtLeastCache | cli/jsr.rs:62-227 | with nothing yanked, the fetch resolver answers whenever the cache resolver does, with the same or a newer version |
| PackageJsonDeps.Resolve | cli/resolver.rs:747-767 | the loop answers with the first entry whose key is the specifier or a path above it |
| PackageJsonDeps.NpmNamesDoNotNest | cli/resolver.rs:747-767 | of two npm names, scoped or not, neither is a path above the other |
| PackageJsonDeps.MatchingKeysNest | cli/resolver.rs:752-754 | two keys that match one specifier are nested |
| PackageJsonDeps.AtMostOneMatchExactly | cli/resolver.rs:751-755 | no specifier matches two entries if and only if no key is a whole-segment prefix of another |
| PackageJsonDeps.NpmKeysAreUnnested | cli/resolver.rs:747-767 | distinct npm names are never nested, so at most one entry matches |
| PackageJsonDeps.ResolveIsFirstMatch | cli/resolver.rs:747-767 | the answer is that of the first matching entry, and no dependency when there is none |
| PackageJsonDeps.OrderFreeExactly | cli/resolver.rs:747-767 | every specifier has the same answer in every order of the entries if and only if nested entries are interchangeable, a condition on their two requirements and the path between their keys |
| PackageJsonDeps.OrderDoesNotMatter | cli/resolver.rs:747-767 | so with unnested keys the order never matters |
| PackageJsonDeps.NestedKeysMakeOrderMatter | cli/resolver.rs:747-767 | any nested pair that is not interchangeable has a specifier answered differently by which comes first |
| PackageJsonDeps.NestedExample | cli/resolver.rs:747-767 | a pair of entries on which the order matters |
| PackageJsonDeps.Collector.constructor | cli/args/package_json.rs:101-103 | starts with no entries |
| PackageJsonDeps.Collector.InsertDeps | cli/args/package_json.rs:88-99 | adds, in order, the entries whose keys are missing |
| PackageJsonDeps.Collect | cli/args/package_json.rs:59-110 | dependencies, then devDependencies |
| PackageJsonDeps.InsertAllHolds | cli/args/package_json.rs:88-99 | after an insertion the list holds the old entries and the new ones with missing keys, and no others, with distinct keys |
| PackageJsonDeps.DependenciesShadowDev | cli/args/package_json.rs:101-110 | collected are exactly the dependencies and the devDependencies whose key is no dependency |
| WatcherExecutor.Executor.constructor | cli/worker.rs:265-271 | nothing pending |
| WatcherExecutor.Executor.Execute | cli/worker.rs:273-307 | the events dispatched and the pending flag left behind, for every outcome and cancellation |
| WatcherExecutor.Executor.Drop | cli/worker.rs:310-319 | dispatches `unload` if and only if it is pending |
| WatcherExecutor.RunForWatcher | cli/worker.rs:255-323 | a whole run dispatches the events of `Trace` |
| WatcherExecutor.UnloadExactlyOnce | cli/worker.rs:256-323 | `unload` comes at most once, last, after a successful `load`; it comes if and only if the module loaded and the loop did not fail, so also when the run is cancelled in the loop |
| FlagsNet.ParseU16 | cli/args/flags_net.rs:14-26 | a parsed port fits sixteen bits |
| FlagsNet.DecimalValue | cli/args/flags_net.rs:50-53 | a printed port reads back as itself |
| FlagsNet.ExpandOne | cli/args/flags_net.rs:29-56 | an entry is refused exactly when the validator refuses it; a host stands for itself, a bare port for three hosts |
| FlagsNet.Parse | cli/args/flags_net.rs:43-63 | the nested loops compute the expansion, or fail on the first bad entry |
| FlagsNet.ExpandsToHosts | cli/args/flags_net.rs:43-63 | an expansion holds only hosts |
| FlagsNet.ExpandKeepsHosts | cli/args/flags_net.rs:43-63 | expansion changes nothing if and only if there is no bare port, and never loses entries |
| FlagsNet.ExpandIsIdempotent | cli/args/flags_net.rs:40-63 | expanding twice is expanding once |
| PermissionFlags.Store | cli/args/flags.rs:4056-4064 | host lists are stored expanded, others as given |
| PermissionFlags.Flags.constructor | cli/args/flags.rs:438-463 | no permission is set |
| PermissionFlags.Flags.PushLists | cli/args/flags.rs:517-681 | pushes one argument per present list, bare when the list is empty, in the given order |
| PermissionFlags.Flags.ToPermissionArgs | cli/args/flags.rs:509-694 | pushes exactly the specified arguments, in the source's order |
| PermissionFlags.Flags.SetAllowAll | cli/args/flags.rs:828-838 | all seven allow lists become unrestricted and high-resolution time is allowed; denials stay |
| PermissionFlags.Flags.AssignLists | cli/args/flags.rs:4039-4106 | each matched list replaces the old one, host lists expanded |
| PermissionFlags.Flags.PermissionArgsParse | cli/args/flags.rs:4038-4121 | the new flags are the matched ones over the old, `--allow-all` last |
| PermissionFlags.TextsDiffer | cli/args/flags.rs:2742-2935 | no two options have the same name |
| PermissionFlags.LookupFinds | cli/args/flags.rs:2742-2935 | so each printed name is recognised as its option |
| PermissionFlags.SplitUndoesJoin | cli/args/flags.rs:498-504 | splitting a joined non-empty comma-free list gives the list back |
| PermissionFlags.ReadBackExactly | cli/args/flags.rs:498-504 | a list reads back as itself if and only if its entries are comma-free |
| PermissionFlags.ListRestored | cli/args/flags.rs:509-694 | a list survives printing and parsing exactly when its entries are comma-free, valid and, for hosts, expanded |
| PermissionFlags.StoredIsOk | cli/args/flags.rs:4056-4064 | what is stored of an accepted list is such a list |
| PermissionFlags.MatchesAreRead | cli/args/flags.rs:4056-4064 | for any arguments the matched lists were validated, so expanding them never panics |
| PermissionFlags.MatchesPrintedPerms | cli/args/flags.rs:509-694 | all that the option parser makes of printed flags |
| PermissionFlags.AllowAllRestored | cli/args/flags.rs:509-515 | with `allow_all`, flags come back exactly when they are what `allow_all` sets and nothing is denied |
| PermissionFlags.RestoredExactly | cli/args/flags.rs:509-694 | the exact condition under which printing and parsing restore any flags |
| PermissionFlags.PrintsEquivalentArgs | cli/args/flags.rs:506-694 | flags parsed from any arguments print to arguments that parse to the same flags, if and only if `--allow-all` did not come with a denial or certificate list |
| PermissionFlags.AllowAllLosesDenials | cli/args/flags.rs:509-515 | `--allow-all` with any deny list is a case where they do not |

## Left out

- Network, disk and progress I/O: `fetch_once`'s request, blob, data and file URLs, decoding, download logging, and errors of the disk behind the HTTP cache.
- The factor 0.1 of heuristic freshness is an integer division by ten in nanoseconds, not a floating-point product; the `Age` header does not overflow.
- WebWorker.RunKeepsInv: the two atomics, the channel and the isolate are fields of a state value that the steps map to a new state, because several threads share them; message ports, cancel handles, prompt wake-up and the success of `post_event` between the closed check and the send are not modelled.
- TaskQueue.Run: the mutex and the atomic flags are steps over a state value; wakers are left out, so nothing is claimed about when a ready future is polled.
- ModuleGraph.Run: the permit's working copy and the shared graph are parts of a state value; the lockfile, the type checker, progress bars and the freeing of parsed sources are left out.
- ModuleGraph.OnlyFirstRootsTypeCheck: takes the type check mode to be on; `typeChecks` is then the negation of the source's `has_type_checked`.
- SimpleUrls.DoubledSlashExactly: speaks of `http` bases whose host is a plain name; runs of three or more slashes, which the URL standard treats as two before an authority, are outside this small library.
- ReloadList.RefusesExactly: asks that the URL has no `.` segment, which URL parsing removes.
- Location.ReplayExactly: asks that a redirect that is misread names no cached URL, from which the replay could still find its way back; `ReplayOutcome` covers that case.
- SimpleUrls.SimpleIsLawful: this library has no queries, percent encoding or host parsing.
- FetchReplay.ReplayReturnsTheSameFile: allows ten more redirects when the file came from a revalidation, because the source reads the revalidated file with its own limit of ten.
- `get_redirected_response`, which follows redirects for other HTTP clients.
- The text of errors: colours, source line excerpts, frame locations and trimming of "Uncaught"; output is tokens.
- FmtErrors.AggregatedErrorsPairUp: states pairing per chain; the index counter restarts in nested aggregates, so markers of different chains may share an index.
- `jsr_to_registry_url`, `lookup_export_for_path`, `lookup_req_for_nv` and `normalize_export_name`: they only read what the modelled tables hold, or rewrite one string.
- npm and Node resolution, import maps, vendored modules and workspace members.
- Windows paths and environment variable casing.
- Option parsing beyond permission options; other flags of `Flags`.
- Emit and Node analysis caches, the installer, the language server and the runtime itself.
