/**
 * Module execution under the file watcher (`run_for_watcher` in cli/worker.rs): which life-cycle
 * events are dispatched when the run may fail or be cancelled at either await.
 */
module WatcherExecutor {
  import opened Wrappers

  /** How an awaited step ends; a cancelled future is dropped where it waits. */
  datatype Await = Ok | Err | Cancelled

  /** One turn of the event loop, and what the `beforeunload` event then answers. */
  datatype Turn = Turn(eventLoop: Await, beforeUnload: Option<bool>)

  /**
   * Everything the run does not decide itself. `beforeUnload` is `None` when dispatching fails and
   * tells otherwise whether the default was prevented. Waiting for a turn that never comes ends,
   * if at all, by cancellation.
   */
  datatype Script = Script(main: Await, loadOk: bool, turns: seq<Turn>, unloadOk: bool)

  datatype Dispatch = Load(ok: bool) | BeforeUnload | Unload

  datatype End = Returned(ok: bool) | Dropped

  // ---- The events of a run ----

  datatype LoopEnding = Finished | Failed | Cut

  function LoopEnd(turns: seq<Turn>): LoopEnding {
    if turns == [] then Cut
    else
      match turns[0].eventLoop
      case Cancelled => Cut
      case Err => Failed
      case Ok =>
        match turns[0].beforeUnload
        case None => Failed
        case Some(true) => LoopEnd(turns[1..])
        case Some(false) => Finished
  }

  function LoopLog(turns: seq<Turn>): seq<Dispatch> {
    if turns == [] || !turns[0].eventLoop.Ok? then []
    else if turns[0].beforeUnload == Some(true) then [BeforeUnload] + LoopLog(turns[1..])
    else [BeforeUnload]
  }

  function Executed(script: Script): seq<Dispatch> {
    if !script.main.Ok? then []
    else if !script.loadOk then [Load(false)]
    else
      [Load(true)] + LoopLog(script.turns) +
      (if LoopEnd(script.turns).Finished? then [Unload] else [])
  }

  /** Execution stopped in the event loop, after the load event. */
  predicate Pending(script: Script) {
    script.main.Ok? && script.loadOk && LoopEnd(script.turns).Cut?
  }

  function Trace(script: Script): seq<Dispatch> {
    Executed(script) + (if Pending(script) then [Unload] else [])
  }

  // ---- The executor ----

  class Executor {
    var pendingUnload: bool
    var log: seq<Dispatch>

    constructor ()
      ensures !pendingUnload && log == []
    {
      pendingUnload := false;
      log := [];
    }

    method Execute(script: Script) returns (end: End)
      requires !pendingUnload && log == []
      modifies this
      ensures log == Executed(script)
      ensures pendingUnload == Pending(script)
      ensures end.Dropped? <==> script.main.Cancelled? || (script.main.Ok? && script.loadOk && LoopEnd(script.turns).Cut?)
    {
      if script.main == Cancelled {
        return Dropped;
      }
      if script.main == Err {
        return Returned(false);
      }
      log := log + [Load(script.loadOk)];
      if !script.loadOk {
        return Returned(false);
      }
      pendingUnload := true;

      var k, ok := 0, true;
      while true
        invariant 0 <= k <= |script.turns| && pendingUnload && ok
        invariant LoopEnd(script.turns) == LoopEnd(script.turns[k..])
        invariant [Load(true)] + LoopLog(script.turns) == log + LoopLog(script.turns[k..])
        decreases |script.turns| - k
      {
        if k == |script.turns| || script.turns[k].eventLoop == Cancelled {
          return Dropped;
        }
        var turn := script.turns[k];
        assert script.turns[k..][1..] == script.turns[k + 1..];
        if turn.eventLoop == Err {
          ok := false;
          break;
        }
        log := log + [BeforeUnload];
        if turn.beforeUnload == None {
          ok := false;
          break;
        }
        if turn.beforeUnload == Some(false) {
          break;
        }
        k := k + 1;
      }
      pendingUnload := false;
      if !ok {
        return Returned(false);
      }
      log := log + [Unload];
      end := Returned(script.unloadOk);
    }

    method Drop()
      modifies this
      ensures log == old(log) + (if old(pendingUnload) then [Unload] else [])
    {
      if pendingUnload {
        log := log + [Unload];
      }
    }
  }

  /** A whole run: execute, then drop the executor, wherever execution stopped. */
  method RunForWatcher(script: Script) returns (log: seq<Dispatch>)
    ensures log == Trace(script)
  {
    var executor := new Executor();
    var _ := executor.Execute(script);
    executor.Drop();
    log := executor.log;
  }

  // ---- The promises ----

  lemma {:induction false} LoopLogHasNoUnload(turns: seq<Turn>)
    ensures forall i :: 0 <= i < |LoopLog(turns)| ==> LoopLog(turns)[i] == BeforeUnload
  {
    if turns != [] && turns[0].eventLoop.Ok? && turns[0].beforeUnload == Some(true) {
      LoopLogHasNoUnload(turns[1..]);
    }
  }

  predicate UnloadAt(log: seq<Dispatch>, i: int) {
    0 <= i < |log| && log[i] == Unload
  }

  /**
   * In every run `unload` is the last event and comes at most once, never without a successful
   * `load` as the first event. It comes exactly when the module loaded and the loop did not end
   * in an error, and a run cancelled in the loop is one of those.
   */
  lemma UnloadExactlyOnce(script: Script)
    ensures var log := Trace(script);
            && (forall i :: UnloadAt(log, i) ==> i == |log| - 1 && log[0] == Load(true))
            && ((exists i :: UnloadAt(log, i)) <==>
                  script.main.Ok? && script.loadOk && !LoopEnd(script.turns).Failed?)
  {
    LoopLogHasNoUnload(script.turns);
    var log := Trace(script);
    if script.main.Ok? && script.loadOk && !LoopEnd(script.turns).Failed? {
      assert UnloadAt(log, |log| - 1);
    }
  }
}
