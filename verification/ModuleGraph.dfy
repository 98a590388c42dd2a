/**
 * The shared module graph under concurrent loads: `ModuleGraphContainer` and its update permit
 * (cli/graph_util.rs), `prepare_module_load` and `load_prepared_module` (cli/module_loader.rs).
 *
 * A load waits for the permit of the task queue, clones the committed graph, builds on the clone,
 * validates it, and commits it or is dropped. Readers never take the permit. `graph.build` keeps
 * what the graph holds and records the roots it was given; that is all the model asks of it.
 */
module ModuleGraph {
  import opened Media
  import opened Wrappers
  import TQ = TaskQueue

  type Specifier = string

  datatype Module =
    | JsModule(mediaType: MediaType, source: string)
    | JsonModule(source: string)
    | External
    | Node
    | Npm

  datatype Graph = Graph(roots: set<Specifier>, modules: map<Specifier, Module>)

  const EMPTY_GRAPH := Graph({}, map[])

  /** `later` holds every root and every module of `earlier`. */
  predicate Extends(earlier: Graph, later: Graph) {
    && earlier.roots <= later.roots
    && forall s :: s in earlier.modules ==> s in later.modules && later.modules[s] == earlier.modules[s]
  }

  /** What `graph.build` may do with the given roots. */
  predicate Builds(before: Graph, roots: set<Specifier>, after: Graph) {
    Extends(before, after) && after.roots == before.roots + roots
  }

  /** `graph_roots_valid`: every root resolved to a module. */
  predicate RootsValid(graph: Graph, roots: set<Specifier>) {
    forall r :: r in roots ==> r in graph.modules
  }

  /** `base` counts the commits at the time of the clone. */
  datatype Stage =
    | Acquiring
    | Cloned(base: nat, graph: Graph, hasTypeChecked: bool)
    | Built(base: nat, graph: Graph, hasTypeChecked: bool)
    | Committed
    | Failed

  datatype Load = Load(roots: set<Specifier>, stage: Stage)

  /** `load` is the load that made the commit. */
  datatype Commit = Commit(load: nat, base: nat, graph: Graph, roots: set<Specifier>, typeChecks: bool)

  /** Load `i` owns item `i` of the queue. `inner` is what readers see. */
  datatype State = State(queue: TQ.Queue, loads: seq<Load>, inner: Graph, commits: seq<Commit>)

  datatype Event =
    | Start(roots: set<Specifier>)
    | Schedule(event: TQ.Event)
    | CloneGraph(load: nat)
    | Build(load: nat, after: Graph)
    | Fail(load: nat)
    | CommitGraph(load: nat)

  const INITIAL := State(TQ.EMPTY, [], EMPTY_GRAPH, [])

  predicate Working(stage: Stage) {
    stage.Cloned? || stage.Built?
  }

  predicate Holds(s: State, i: nat) {
    i < |s.loads| && i < |s.queue.items| && s.queue.items[i].phase == TQ.Holding
  }

  function SetStage(s: State, i: nat, stage: Stage): State
    requires i < |s.loads|
  {
    s.(loads := s.loads[i := s.loads[i].(stage := stage)])
  }

  /** Dropping a permit drops the working graph with it. */
  function Release(s: State, e: TQ.Event): State {
    if e.DropPermit? && e.item < |s.loads| && (Working(s.loads[e.item].stage) || s.loads[e.item].stage.Acquiring?)
    then SetStage(s, e.item, Failed)
    else s
  }

  function Apply(s: State, e: Event): State
    requires TQ.WellFormed(s.queue)
  {
    match e
    case Start(roots) =>
      s.(queue := TQ.Apply(s.queue, TQ.Acquire), loads := s.loads + [Load(roots, Acquiring)])
    case Schedule(event) =>
      if event.Acquire? then s else Release(s, event).(queue := TQ.Apply(s.queue, event))
    case CloneGraph(i) =>
      if Holds(s, i) && s.loads[i].stage.Acquiring?
      then SetStage(s, i, Cloned(|s.commits|, s.inner, s.inner.roots != {}))
      else s
    case Build(i, after) =>
      if Holds(s, i) && s.loads[i].stage.Cloned? && Builds(s.loads[i].stage.graph, s.loads[i].roots, after)
      then SetStage(s, i, Built(s.loads[i].stage.base, after, s.loads[i].stage.hasTypeChecked))
      else s
    case Fail(i) =>
      if i < |s.loads| && Working(s.loads[i].stage) then SetStage(s, i, Failed) else s
    case CommitGraph(i) =>
      if Holds(s, i) && s.loads[i].stage.Built? && RootsValid(s.loads[i].stage.graph, s.loads[i].roots)
      then
        var stage := s.loads[i].stage;
        SetStage(s, i, Committed).(
          inner := stage.graph,
          commits := s.commits + [Commit(i, stage.base, stage.graph, s.loads[i].roots, !stage.hasTypeChecked)])
      else s
  }

  // ---- The invariant ----

  /** A working graph is a clone of the graph that readers see now, or was built from it. */
  predicate WorkOk(s: State, i: nat)
    requires i < |s.loads|
  {
    var stage := s.loads[i].stage;
    Working(stage) ==>
      && Holds(s, i)
      && stage.base == |s.commits|
      && stage.hasTypeChecked == (s.inner.roots != {})
      && (stage.Cloned? ==> stage.graph == s.inner)
      && (stage.Built? ==> Builds(s.inner, s.loads[i].roots, stage.graph))
  }

  function Before(commits: seq<Commit>, k: nat): Graph
    requires k <= |commits|
  {
    if k == 0 then EMPTY_GRAPH else commits[k - 1].graph
  }

  /** The `k`-th commit was made on a clone of the one just before it. */
  predicate CommitOk(commits: seq<Commit>, k: nat)
    requires k < |commits|
  {
    var c := commits[k];
    && c.base == k
    && Builds(Before(commits, k), c.roots, c.graph)
    && RootsValid(c.graph, c.roots)
    && c.typeChecks == (Before(commits, k).roots == {})
  }

  /** The `k`-th commit was made by a load that is done, and by no other commit's load. */
  predicate MadeOk(s: State, k: nat)
    requires k < |s.commits|
  {
    var i := s.commits[k].load;
    && i < |s.loads|
    && s.loads[i].stage.Committed?
    && s.loads[i].roots == s.commits[k].roots
    && forall j :: 0 <= j < k ==> s.commits[j].load != i
  }

  predicate Commits(s: State, i: nat) {
    exists k :: 0 <= k < |s.commits| && s.commits[k].load == i
  }

  predicate Inv(s: State) {
    && TQ.Inv(s.queue) && TQ.WellFormed(s.queue)
    && |s.loads| == |s.queue.items|
    && s.inner == Before(s.commits, |s.commits|)
    && (forall k: nat :: k < |s.commits| ==> CommitOk(s.commits, k))
    && (forall i: nat :: i < |s.loads| ==> WorkOk(s, i))
    && (forall k: nat :: k < |s.commits| ==> MadeOk(s, k))
    && (forall i: nat :: i < |s.loads| && s.loads[i].stage.Committed? ==> Commits(s, i))
  }

  /** Steps that only move loads that are not done leave the record of commits in order. */
  lemma MadeStays(s: State, s': State)
    requires Inv(s) && s'.commits == s.commits && |s.loads| <= |s'.loads|
    requires forall i: nat :: i < |s.loads| ==>
               s'.loads[i].roots == s.loads[i].roots &&
               (s'.loads[i].stage.Committed? <==> s.loads[i].stage.Committed?)
    requires forall i: nat :: |s.loads| <= i < |s'.loads| ==> !s'.loads[i].stage.Committed?
    ensures forall k: nat :: k < |s'.commits| ==> MadeOk(s', k)
    ensures forall i: nat :: i < |s'.loads| && s'.loads[i].stage.Committed? ==> Commits(s', i)
  {
    forall k: nat | k < |s'.commits| ensures MadeOk(s', k) {
      assert MadeOk(s, k);
    }
    forall i: nat | i < |s'.loads| && s'.loads[i].stage.Committed? ensures Commits(s', i) {
      assert Commits(s, i);
    }
  }

  /** A commit adds one load to the record, which was not there before. */
  lemma MadeByCommit(s: State, i: nat)
    requires Inv(s) && Apply(s, CommitGraph(i)) != s
    ensures var s' := Apply(s, CommitGraph(i));
            && (forall k: nat :: k < |s'.commits| ==> MadeOk(s', k))
            && (forall j: nat :: j < |s'.loads| && s'.loads[j].stage.Committed? ==> Commits(s', j))
  {
    var s' := Apply(s, CommitGraph(i));
    forall k: nat | k < |s'.commits| ensures MadeOk(s', k) {
      if k < |s.commits| {
        assert MadeOk(s, k);
      } else {
        forall j | 0 <= j < k ensures s'.commits[j].load != i {
          assert MadeOk(s, j);
        }
      }
    }
    forall j: nat | j < |s'.loads| && s'.loads[j].stage.Committed? ensures Commits(s', j) {
      if j == i {
        assert s'.commits[|s.commits|].load == i;
      } else {
        assert Commits(s, j);
        var k :| 0 <= k < |s.commits| && s.commits[k].load == j;
        assert s'.commits[k].load == j;
      }
    }
  }

  /** A permit ends only by being dropped. */
  lemma HoldingStays(q: TQ.Queue, e: TQ.Event)
    requires TQ.Inv(q) && TQ.WellFormed(q) && !e.Acquire?
    ensures |TQ.Apply(q, e).items| == |q.items|
    ensures forall i: nat :: i < |q.items| && q.items[i].phase == TQ.Holding && e != TQ.DropPermit(i) ==>
              TQ.Apply(q, e).items[i].phase == TQ.Holding
  {
  }

  lemma ScheduleKeepsInv(s: State, e: TQ.Event)
    requires Inv(s) && !e.Acquire?
    ensures Inv(Apply(s, Schedule(e)))
  {
    var s' := Apply(s, Schedule(e));
    TQ.ApplyKeepsInv(s.queue, e);
    HoldingStays(s.queue, e);
    MadeStays(s, s');
    forall i: nat | i < |s'.loads| ensures WorkOk(s', i) {
      assert WorkOk(s, i);
    }
  }

  lemma StartKeepsInv(s: State, roots: set<Specifier>)
    requires Inv(s)
    ensures Inv(Apply(s, Start(roots)))
  {
    var s' := Apply(s, Start(roots));
    TQ.ApplyKeepsInv(s.queue, TQ.Acquire);
    MadeStays(s, s');
    forall i: nat | i < |s'.loads| ensures WorkOk(s', i) {
      if i < |s.loads| {
        assert WorkOk(s, i);
      }
    }
  }

  lemma WorkKeepsInv(s: State, e: Event)
    requires Inv(s) && (e.CloneGraph? || e.Build? || e.Fail?)
    ensures Inv(Apply(s, e))
  {
    var s' := Apply(s, e);
    MadeStays(s, s');
    forall i: nat | i < |s'.loads| ensures WorkOk(s', i) {
      assert WorkOk(s, i);
    }
  }

  lemma CommitKeepsInv(s: State, i: nat)
    requires Inv(s)
    ensures Inv(Apply(s, CommitGraph(i)))
  {
    var s' := Apply(s, CommitGraph(i));
    if s' != s {
      assert WorkOk(s, i);
      MadeByCommit(s, i);
      forall k: nat | k < |s'.commits| ensures CommitOk(s'.commits, k) {
        if k < |s.commits| {
          assert CommitOk(s.commits, k);
        }
      }
      forall j: nat | j < |s'.loads| ensures WorkOk(s', j) {
        assert WorkOk(s, j);
        if j != i && Working(s.loads[j].stage) {
          TQ.AtMostOnePermit(s.queue, i, j);
        }
      }
    }
  }

  lemma ApplyKeepsInv(s: State, e: Event)
    requires Inv(s)
    ensures Inv(Apply(s, e))
  {
    match e
    case Start(roots) => StartKeepsInv(s, roots);
    case Schedule(event) => if !event.Acquire? { ScheduleKeepsInv(s, event); }
    case CommitGraph(i) => CommitKeepsInv(s, i);
    case _ => WorkKeepsInv(s, e);
  }

  function RunFrom(s: State, events: seq<Event>): (s': State)
    requires Inv(s)
    ensures Inv(s')
    decreases |events|
  {
    if events == [] then s
    else
      ApplyKeepsInv(s, events[0]);
      RunFrom(Apply(s, events[0]), events[1..])
  }

  lemma InitialInv()
    ensures Inv(INITIAL)
  {
  }

  /** The state after any interleaving, from the start. */
  function Run(events: seq<Event>): (s: State)
    ensures Inv(s)
  {
    InitialInv();
    RunFrom(INITIAL, events)
  }

  // ---- The promises ----

  lemma {:induction false} CommitsExtend(commits: seq<Commit>, j: nat, k: nat)
    requires j <= k <= |commits|
    requires forall i: nat :: i < |commits| ==> CommitOk(commits, i)
    ensures Extends(Before(commits, j), Before(commits, k))
    decreases k
  {
    if j < k {
      CommitsExtend(commits, j, k - 1);
      assert CommitOk(commits, k - 1);
    }
  }

  /**
   * In every interleaving the commits form a chain: each was built on a clone of the commit just
   * before it, no root or module of an earlier commit is missing from a later one, and readers
   * see the last commit.
   */
  lemma CommitsFormChain(events: seq<Event>, j: nat, k: nat)
    requires j <= k <= |Run(events).commits|
    ensures var s := Run(events);
            && (forall i: nat :: i < |s.commits| ==> s.commits[i].base == i)
            && Extends(Before(s.commits, j), Before(s.commits, k))
            && s.inner == Before(s.commits, |s.commits|)
  {
    var s := Run(events);
    CommitsExtend(s.commits, j, k);
    forall i: nat | i < |s.commits| ensures s.commits[i].base == i {
      assert CommitOk(s.commits, i);
    }
  }

  /** A run only ever appends to the commits of a state it goes through. */
  lemma {:induction false} CommitsOnlyGrow(s: State, events: seq<Event>)
    requires Inv(s)
    ensures s.commits <= RunFrom(s, events).commits
    decreases |events|
  {
    if events != [] {
      ApplyKeepsInv(s, events[0]);
      CommitsOnlyGrow(Apply(s, events[0]), events[1..]);
    }
  }

  /**
   * In every interleaving the commits are those of the loads that committed, one each: a load that
   * failed, was dropped or still waits or works is behind no commit.
   */
  lemma CommitsAreOfLoads(events: seq<Event>, i: nat)
    requires i < |Run(events).loads|
    ensures var s := Run(events);
            && (s.loads[i].stage.Committed? <==> Commits(s, i))
            && (forall j, k :: 0 <= j < k < |s.commits| ==> s.commits[j].load != s.commits[k].load)
            && (forall k :: 0 <= k < |s.commits| && s.commits[k].load == i ==> s.commits[k].roots == s.loads[i].roots)
  {
    var s := Run(events);
    assert forall k: nat :: k < |s.commits| && s.commits[k].load == i ==> MadeOk(s, k);
    forall j, k | 0 <= j < k < |s.commits| ensures s.commits[j].load != s.commits[k].load {
      assert MadeOk(s, k);
    }
  }

  /** A load that failed, or was dropped with its permit, or while it still waited for one. */
  predicate GaveUp(s: State, i: nat) {
    && i < |s.loads| && i < |s.queue.items|
    && (s.loads[i].stage.Failed? ||
        (s.loads[i].stage.Acquiring? && !s.queue.items[i].phase.Waiting? && !s.queue.items[i].phase.Holding?))
  }

  lemma NeverHoldsAgain(q: TQ.Queue, e: TQ.Event, i: nat)
    requires TQ.WellFormed(q) && i < |q.items|
    ensures i < |TQ.Apply(q, e).items|
    ensures !q.items[i].phase.Waiting? && !q.items[i].phase.Holding? ==>
              !TQ.Apply(q, e).items[i].phase.Waiting? && !TQ.Apply(q, e).items[i].phase.Holding?
  {
  }

  lemma GaveUpStep(s: State, e: Event, i: nat)
    requires Inv(s) && GaveUp(s, i)
    ensures GaveUp(Apply(s, e), i)
  {
    if e.Schedule? && !e.event.Acquire? {
      NeverHoldsAgain(s.queue, e.event, i);
    } else if e.Start? {
      NeverHoldsAgain(s.queue, TQ.Acquire, i);
    }
  }

  lemma {:induction false} GaveUpStays(s: State, events: seq<Event>, i: nat)
    requires Inv(s) && GaveUp(s, i)
    ensures GaveUp(RunFrom(s, events), i)
    decreases |events|
  {
    if events != [] {
      ApplyKeepsInv(s, events[0]);
      GaveUpStep(s, events[0], i);
      GaveUpStays(Apply(s, events[0]), events[1..], i);
    }
  }

  /** A load that failed or was dropped is behind no commit, now or in any continuation. */
  lemma GivenUpLoadNeverShows(s: State, events: seq<Event>, i: nat)
    requires Inv(s) && GaveUp(s, i)
    ensures !Commits(RunFrom(s, events), i)
  {
    GaveUpStays(s, events, i);
    var s' := RunFrom(s, events);
    forall k: nat | k < |s'.commits| ensures s'.commits[k].load != i {
      assert MadeOk(s', k);
    }
  }

  /** Every commit that a run adds is of a load that had made none before. */
  lemma NewCommitIsOfNewLoad(s: State, events: seq<Event>, k: nat)
    requires Inv(s) && |s.commits| <= k < |RunFrom(s, events).commits|
    ensures var s' := RunFrom(s, events);
            var i := s'.commits[k].load;
            i < |s'.loads| && s'.loads[i].stage.Committed? && !Commits(s, i)
  {
    var s' := RunFrom(s, events);
    CommitsOnlyGrow(s, events);
    assert MadeOk(s', k);
    assert forall j :: 0 <= j < |s.commits| ==> s'.commits[j] == s.commits[j];
  }

  /** While no further load commits, whatever fails, is dropped or works, readers see the same graph. */
  lemma OnlyCommitsShow(s: State, events: seq<Event>)
    requires Inv(s)
    requires var s' := RunFrom(s, events);
             forall i: nat :: i < |s'.loads| && s'.loads[i].stage.Committed? ==>
               i < |s.loads| && s.loads[i].stage.Committed?
    ensures var s' := RunFrom(s, events); s'.commits == s.commits && s'.inner == s.inner
  {
    CommitsOnlyGrow(s, events);
    if |s.commits| < |RunFrom(s, events).commits| {
      NewCommitIsOfNewLoad(s, events, |s.commits|);
    }
  }

  predicate RootsEmptyBefore(commits: seq<Commit>, k: nat)
    requires k <= |commits|
  {
    forall j :: 0 <= j < k ==> commits[j].roots == {}
  }

  lemma {:induction false} RootsAccumulate(commits: seq<Commit>, k: nat)
    requires k <= |commits| && forall i: nat :: i < |commits| ==> CommitOk(commits, i)
    ensures Before(commits, k).roots == {} <==> RootsEmptyBefore(commits, k)
  {
    if k > 0 {
      RootsAccumulate(commits, k - 1);
      assert CommitOk(commits, k - 1);
      assert RootsEmptyBefore(commits, k) <==> RootsEmptyBefore(commits, k - 1) && commits[k - 1].roots == {};
    }
  }

  /** A load goes on to type check exactly when every load committed before it had no roots. */
  lemma OnlyFirstRootsTypeCheck(events: seq<Event>, k: nat)
    requires k < |Run(events).commits|
    ensures var commits := Run(events).commits;
            commits[k].typeChecks <==> RootsEmptyBefore(commits, k)
  {
    var commits := Run(events).commits;
    assert CommitOk(commits, k);
    RootsAccumulate(commits, k);
  }

  // ---- Loading prepared modules ----

  datatype Loaded =
    | Code(code: string, mediaType: MediaType)
    | EmitFailed
    | UnexpectedMediaType
    | Unprepared

  /** `load_prepared_module`; `emit` is the transpiler. */
  function LoadPrepared(graph: Graph, specifier: Specifier, emit: (Specifier, MediaType, string) -> Option<string>): Loaded {
    if specifier !in graph.modules then Unprepared
    else
      match graph.modules[specifier]
      case JsonModule(source) => Code(source, Json)
      case JsModule(mediaType, source) =>
        (match mediaType
         case JavaScript | Unknown | Cjs | Mjs | Json => Code(source, mediaType)
         case Dts | Dcts | Dmts => Code("", mediaType)
         case TypeScript | Mts | Cts | Jsx | Tsx =>
           (match emit(specifier, mediaType, source)
            case None => EmitFailed
            case Some(text) => Code(text, mediaType))
         case TsBuildInfo | Wasm | SourceMap => UnexpectedMediaType)
      case External => Unprepared
      case Node => Unprepared
      case Npm => Unprepared
  }

  lemma CommitStaysIn(s: State, later: seq<Event>, k: nat)
    requires Inv(s) && k < |s.commits|
    ensures Extends(s.commits[k].graph, RunFrom(s, later).inner)
  {
    var s' := RunFrom(s, later);
    CommitsOnlyGrow(s, later);
    CommitsExtend(s'.commits, k + 1, |s'.commits|);
    assert Before(s'.commits, k + 1) == s.commits[k].graph;
  }

  lemma LoadedAlike(
    earlier: Graph, later: Graph, root: Specifier, emit: (Specifier, MediaType, string) -> Option<string>)
    requires Extends(earlier, later) && root in earlier.modules
    ensures LoadPrepared(later, root, emit) == LoadPrepared(earlier, root, emit)
    ensures LoadPrepared(earlier, root, emit) != Unprepared <==>
              earlier.modules[root].JsModule? || earlier.modules[root].JsonModule?
  {
  }

  /**
   * A root that was committed once is answered the same way for ever after, in every
   * continuation of the run; and it is found if and only if it is a Js or Json module.
   */
  lemma PreparedRootStaysLoadable(
    s: State, later: seq<Event>, k: nat, root: Specifier, emit: (Specifier, MediaType, string) -> Option<string>)
    requires Inv(s) && k < |s.commits| && root in s.commits[k].roots
    ensures var graph := s.commits[k].graph;
            var now := RunFrom(s, later).inner;
            && root in graph.modules
            && LoadPrepared(now, root, emit) == LoadPrepared(graph, root, emit)
            && (LoadPrepared(now, root, emit) != Unprepared <==>
                  graph.modules[root].JsModule? || graph.modules[root].JsonModule?)
  {
    assert CommitOk(s.commits, k);
    CommitStaysIn(s, later, k);
    LoadedAlike(s.commits[k].graph, RunFrom(s, later).inner, root, emit);
  }
}
