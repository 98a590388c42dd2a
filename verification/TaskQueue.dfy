/**
 * `TaskQueue` (cli/util/sync.rs): permits handed out one at a time in the order of the calls.
 *
 * Each call of `acquire` makes an item. Waiting futures and permits may be dropped at any time.
 * The critical sections under the mutex and the single atomic accesses are the steps; an
 * arbitrary event sequence is an arbitrary interleaving.
 */
module TaskQueue {
  import opened Histories
  import opened Wrappers

  /**
   * Where the owner of an item stands. `Dropping` is about to test `is_ready`, `Marking` is about
   * to raise `is_future_dropped`; `Releasing` and `Raising` are the two halves of `raise_next`.
   */
  datatype Phase =
    | Waiting
    | Holding
    | Dropping
    | Marking
    | Abandoned
    | Releasing
    | Raising(next: nat)
    | Gone

  datatype Item = Item(ready: bool, dropped: bool, phase: Phase)

  /** `granted` records the items that were picked to run next, in order. */
  datatype Queue = Queue(running: bool, items: seq<Item>, waiting: seq<nat>, granted: seq<nat>)

  datatype Event = Acquire | Poll(item: nat) | DropFuture(item: nat) | DropPermit(item: nat) | Advance(item: nat)

  const EMPTY := Queue(false, [], [], [])

  predicate Indexed(items: seq<Item>, ids: seq<nat>) {
    forall k :: 0 <= k < |ids| ==> ids[k] < |items|
  }

  /** The number of dropped futures at the front of the waiting list. */
  function Skipped(items: seq<Item>, waiting: seq<nat>): (d: nat)
    requires Indexed(items, waiting)
    ensures d <= |waiting| && (d < |waiting| ==> !items[waiting[d]].dropped)
    ensures forall k :: 0 <= k < d ==> items[waiting[k]].dropped
  {
    if waiting != [] && items[waiting[0]].dropped then 1 + Skipped(items, waiting[1..]) else 0
  }

  function SetPhase(q: Queue, i: nat, phase: Phase): Queue
    requires i < |q.items|
  {
    q.(items := q.items[i := q.items[i].(phase := phase)])
  }

  /** The locked half of `raise_next`, done by item `i`. */
  function PickNext(q: Queue, i: nat): Queue
    requires i < |q.items| && Indexed(q.items, q.waiting)
  {
    var d := Skipped(q.items, q.waiting);
    if d == |q.waiting| then SetPhase(q.(running := false, waiting := []), i, Gone)
    else
      var next := q.waiting[d];
      SetPhase(
        q.(running := true, waiting := q.waiting[d + 1..], granted := q.granted + [next]), i, Raising(next))
  }

  /** The other half: marks the picked item ready. */
  function RaiseReady(q: Queue, i: nat, next: nat): Queue
    requires i < |q.items| && next < |q.items|
  {
    SetPhase(q.(items := q.items[next := q.items[next].(ready := true)]), i, Gone)
  }

  function Acquired(q: Queue): Queue {
    var i := |q.items|;
    if !q.running
    then q.(running := true, items := q.items + [Item(true, false, Waiting)], granted := q.granted + [i])
    else q.(items := q.items + [Item(false, false, Waiting)], waiting := q.waiting + [i])
  }

  predicate WellFormed(q: Queue) {
    && Indexed(q.items, q.waiting)
    && forall i :: 0 <= i < |q.items| && q.items[i].phase.Raising? ==> q.items[i].phase.next < |q.items|
  }

  function Apply(q: Queue, e: Event): Queue
    requires WellFormed(q)
  {
    match e
    case Acquire => Acquired(q)
    case Poll(i) =>
      if i < |q.items| && q.items[i].phase == Waiting && q.items[i].ready then SetPhase(q, i, Holding) else q
    case DropFuture(i) =>
      if i < |q.items| && q.items[i].phase == Waiting then SetPhase(q, i, Dropping) else q
    case DropPermit(i) =>
      if i < |q.items| && q.items[i].phase == Holding then SetPhase(q, i, Releasing) else q
    case Advance(i) =>
      if i >= |q.items| then q else
        match q.items[i].phase
        case Dropping => SetPhase(q, i, if q.items[i].ready then Releasing else Marking)
        case Marking => q.(items := q.items[i := q.items[i].(dropped := true, phase := Abandoned)])
        case Releasing => PickNext(q, i)
        case Raising(next) => RaiseReady(q, i, next)
        case _ => q
  }

  // ---- Where the permit is ----

  /** Items whose future has not been granted or given up the permit. */
  predicate Pending(p: Phase) {
    p.Waiting? || p.Dropping? || p.Marking? || p.Abandoned?
  }

  function Weight(item: Item): nat {
    if item.phase.Gone? then 0 else if Pending(item.phase) && !item.ready then 0 else 1
  }

  function Tokens(items: seq<Item>): nat {
    if items == [] then 0 else Tokens(items[..|items| - 1]) + Weight(items[|items| - 1])
  }

  lemma {:induction false} TokensUpdate(items: seq<Item>, i: nat, item: Item)
    requires i < |items|
    ensures Tokens(items[i := item]) + Weight(items[i]) == Tokens(items) + Weight(item)
  {
    var last := |items| - 1;
    if i == last {
      assert items[i := item][..last] == items[..last];
    } else {
      TokensUpdate(items[..last], i, item);
      assert items[i := item][..last] == items[..last][i := item];
    }
  }

  lemma TokensAppend(items: seq<Item>, item: Item)
    ensures Tokens(items + [item]) == Tokens(items) + Weight(item)
  {
  }

  lemma {:induction false} TokensAtLeast(items: seq<Item>, i: nat)
    requires i < |items|
    ensures Weight(items[i]) <= Tokens(items)
  {
    if i < |items| - 1 {
      TokensAtLeast(items[..|items| - 1], i);
    }
  }

  /** Two carriers need two tokens. */
  lemma {:induction false} TokensTwo(items: seq<Item>, i: nat, j: nat)
    requires i < j < |items|
    ensures Weight(items[i]) + Weight(items[j]) <= Tokens(items)
  {
    if j == |items| - 1 {
      TokensAtLeast(items[..j], i);
    } else {
      TokensTwo(items[..|items| - 1], i, j);
    }
  }

  lemma {:induction false} TokensZero(items: seq<Item>)
    requires forall i :: 0 <= i < |items| ==> Weight(items[i]) == 0
    ensures Tokens(items) == 0
  {
    if items != [] {
      TokensZero(items[..|items| - 1]);
    }
  }

  // ---- The invariant ----

  predicate Increasing(ids: seq<nat>) {
    forall j, k :: 0 <= j < k < |ids| ==> ids[j] < ids[k]
  }

  /** Both lists go up, and everything granted came before everything that waits. */
  predicate Ordered(granted: seq<nat>, waiting: seq<nat>) {
    && Increasing(granted)
    && Increasing(waiting)
    && forall j, k :: 0 <= j < |granted| && 0 <= k < |waiting| ==> granted[j] < waiting[k]
  }

  predicate WaitingOk(q: Queue, i: nat) {
    i < |q.items| && !q.items[i].ready && Pending(q.items[i].phase)
  }

  predicate ItemOk(q: Queue, i: nat)
    requires i < |q.items|
  {
    var item := q.items[i];
    && (item.phase.Holding? ==> item.ready)
    && (item.dropped ==> item.phase.Abandoned?)
    && (item.ready ==> i in q.granted)
    && (item.phase.Raising? ==> WaitingOk(q, item.phase.next) && item.phase.next in q.granted)
  }

  predicate Inv(q: Queue) {
    && Tokens(q.items) == (if q.running then 1 else 0)
    && (q.waiting != [] ==> q.running)
    && Indexed(q.items, q.granted) && Ordered(q.granted, q.waiting)
    && (forall k :: 0 <= k < |q.waiting| ==> WaitingOk(q, q.waiting[k]))
    && (forall i: nat :: i < |q.items| ==> ItemOk(q, i))
  }

  lemma InvIsWellFormed(q: Queue)
    requires Inv(q)
    ensures WellFormed(q)
  {
    forall k | 0 <= k < |q.waiting| ensures q.waiting[k] < |q.items| {
      assert WaitingOk(q, q.waiting[k]);
    }
    forall i: nat | i < |q.items| && q.items[i].phase.Raising? ensures q.items[i].phase.next < |q.items| {
      assert ItemOk(q, i);
    }
  }

  lemma AcquireKeepsInv(q: Queue)
    requires Inv(q)
    ensures Inv(Acquired(q))
  {
    var i, q' := |q.items|, Acquired(q);
    TokensAppend(q.items, q'.items[i]);
    assert forall k :: 0 <= k < |q.waiting| ==> WaitingOk(q, q.waiting[k]);
    forall j: nat | j < |q'.items| ensures ItemOk(q', j) {
      if j < i {
        assert ItemOk(q, j);
      }
    }
    forall k | 0 <= k < |q'.waiting| ensures WaitingOk(q', q'.waiting[k]) {
      if k < |q.waiting| {
        assert WaitingOk(q, q.waiting[k]);
      }
    }
  }

  /** Changing one item's phase in a way that neither moves the permit nor un-queues it. */
  lemma ReplaceKeepsInv(q: Queue, i: nat, item: Item)
    requires Inv(q) && i < |q.items|
    requires item.ready == q.items[i].ready && Weight(item) == Weight(q.items[i])
    requires Pending(q.items[i].phase) && !item.ready ==> Pending(item.phase)
    requires !item.phase.Raising? && (item.phase.Holding? ==> item.ready)
    requires item.dropped ==> item.phase.Abandoned?
    ensures Inv(q.(items := q.items[i := item]))
  {
    var q' := q.(items := q.items[i := item]);
    TokensUpdate(q.items, i, item);
    forall k | 0 <= k < |q'.waiting| ensures WaitingOk(q', q'.waiting[k]) {
      assert WaitingOk(q, q.waiting[k]);
    }
    forall j: nat | j < |q'.items| ensures ItemOk(q', j) {
      assert ItemOk(q, j);
      assert ItemOk(q, i);
    }
  }

  lemma PickKeepsWaiting(q: Queue, i: nat, k: nat)
    requires Inv(q) && WellFormed(q) && i < |q.items| && q.items[i].phase == Releasing
    requires k < |PickNext(q, i).waiting|
    ensures WaitingOk(PickNext(q, i), PickNext(q, i).waiting[k])
  {
  }

  lemma PickKeepsItem(q: Queue, i: nat, j: nat)
    requires Inv(q) && WellFormed(q) && i < |q.items| && q.items[i].phase == Releasing
    requires j < |PickNext(q, i).items|
    ensures ItemOk(PickNext(q, i), j)
  {
    assert ItemOk(q, j);
    var d := Skipped(q.items, q.waiting);
    if d < |q.waiting| {
      assert WaitingOk(q, q.waiting[d]);
    }
  }

  lemma PickKeepsOrder(q: Queue, i: nat)
    requires Inv(q) && WellFormed(q) && i < |q.items|
    ensures var q' := PickNext(q, i); Indexed(q'.items, q'.granted) && Ordered(q'.granted, q'.waiting)
  {
  }

  lemma PickKeepsInv(q: Queue, i: nat)
    requires Inv(q) && WellFormed(q) && i < |q.items| && q.items[i].phase == Releasing
    ensures Inv(PickNext(q, i))
  {
    var q' := PickNext(q, i);
    TokensUpdate(q.items, i, q'.items[i]);
    TokensAtLeast(q.items, i);
    PickKeepsOrder(q, i);
    forall k | 0 <= k < |q'.waiting| ensures WaitingOk(q', q'.waiting[k]) {
      PickKeepsWaiting(q, i, k);
    }
    forall j: nat | j < |q'.items| ensures ItemOk(q', j) {
      PickKeepsItem(q, i, j);
    }
  }

  lemma RaiseKeepsInv(q: Queue, i: nat)
    requires Inv(q) && i < |q.items| && q.items[i].phase.Raising?
    requires q.items[i].phase.next < |q.items|
    ensures Inv(RaiseReady(q, i, q.items[i].phase.next))
  {
    var next := q.items[i].phase.next;
    assert ItemOk(q, i);
    var raised := q.items[next := q.items[next].(ready := true)];
    var q' := RaiseReady(q, i, next);
    TokensUpdate(q.items, next, raised[next]);
    TokensUpdate(raised, i, raised[i].(phase := Gone));
    forall k | 0 <= k < |q'.waiting| ensures WaitingOk(q', q'.waiting[k]) {
      assert WaitingOk(q, q.waiting[k]) && q.waiting[k] in q.waiting;
    }
    forall j: nat | j < |q'.items| ensures ItemOk(q', j) {
      assert ItemOk(q, j);
      if j != i && q.items[j].phase.Raising? {
        TokensTwo(q.items, if i < j then i else j, if i < j then j else i);
      }
    }
  }

  lemma AdvanceKeepsInv(q: Queue, i: nat)
    requires Inv(q) && WellFormed(q) && i < |q.items|
    ensures Inv(Apply(q, Advance(i)))
  {
    var item := q.items[i];
    assert ItemOk(q, i);
    match item.phase
    case Dropping => ReplaceKeepsInv(q, i, item.(phase := if item.ready then Releasing else Marking));
    case Marking => ReplaceKeepsInv(q, i, item.(dropped := true, phase := Abandoned));
    case Releasing => PickKeepsInv(q, i);
    case Raising(next) => RaiseKeepsInv(q, i);
    case _ =>
  }

  lemma ApplyKeepsInv(q: Queue, e: Event)
    requires Inv(q) && WellFormed(q)
    ensures Inv(Apply(q, e)) && WellFormed(Apply(q, e))
  {
    if e.Acquire? {
      AcquireKeepsInv(q);
    } else if e.item < |q.items| {
      var i := e.item;
      var item := q.items[i];
      assert ItemOk(q, i);
      match e
      case Poll(_) =>
        if item.phase == Waiting && item.ready { ReplaceKeepsInv(q, i, item.(phase := Holding)); }
      case DropFuture(_) =>
        if item.phase == Waiting { ReplaceKeepsInv(q, i, item.(phase := Dropping)); }
      case DropPermit(_) =>
        if item.phase == Holding { ReplaceKeepsInv(q, i, item.(phase := Releasing)); }
      case Advance(_) => AdvanceKeepsInv(q, i);
    }
    InvIsWellFormed(Apply(q, e));
  }

  /** A run, with the invariant that makes every step defined. */
  function Run(events: seq<Event>): (q: Queue)
    ensures Inv(q) && WellFormed(q)
  {
    if events == [] then EMPTY
    else
      var q := Run(events[..|events| - 1]);
      ApplyKeepsInv(q, events[|events| - 1]);
      Apply(q, events[|events| - 1])
  }

  // ---- The promises ----

  /** No two permits exist at the same time. */
  lemma AtMostOnePermit(q: Queue, i: nat, j: nat)
    requires Inv(q) && i < |q.items| && j < |q.items|
    requires q.items[i].phase == Holding && q.items[j].phase == Holding
    ensures i == j
  {
    if i != j {
      TokensTwo(q.items, if i < j then i else j, if i < j then j else i);
    }
  }

  /** Permits are granted in the order of the calls. */
  lemma GrantedInOrder(events: seq<Event>)
    ensures Increasing(Run(events).granted)
  {
  }

  /** The threads in the middle of `drop` or `raise_next`. */
  predicate Active(p: Phase) {
    p.Dropping? || p.Marking? || p.Releasing? || p.Raising?
  }

  predicate Quiescent(q: Queue) {
    forall i :: 0 <= i < |q.items| ==> !Active(q.items[i].phase)
  }

  predicate LostAt(q: Queue, i: nat) {
    i < |q.items| && q.items[i].phase == Abandoned && q.items[i].ready
  }

  /** The permit went to a future that nobody will poll or drop again. */
  ghost predicate Lost(q: Queue) {
    exists i: nat :: LostAt(q, i)
  }

  /** A future that will get the permit when polled, or the permit itself. */
  predicate Owns(item: Item) {
    item.ready && (item.phase.Waiting? || item.phase.Holding?)
  }

  /** Between calls, a queue that runs has one live owner of the permit, or has lost it. */
  lemma RunningHasOwner(q: Queue)
    requires Inv(q) && Quiescent(q) && q.running && !Lost(q)
    ensures exists i :: 0 <= i < |q.items| && Owns(q.items[i])
  {
    if forall i :: 0 <= i < |q.items| ==> Weight(q.items[i]) == 0 {
      TokensZero(q.items);
    } else {
      var i: nat :| i < |q.items| && Weight(q.items[i]) != 0;
      assert ItemOk(q, i) && !LostAt(q, i);
    }
  }

  /** Calls that do not overlap: each drop runs to its end before the next call begins. */
  predicate OneAtATime(events: seq<Event>) {
    events == [] ||
    (var rest := events[..|events| - 1];
     OneAtATime(rest) && (events[|events| - 1].Advance? || Quiescent(Run(rest))))
  }

  /** Only `i` is in the middle of a call. */
  predicate OnlyActive(q: Queue, i: nat) {
    forall j: nat :: j < |q.items| && Active(q.items[j].phase) ==> j == i
  }

  /** An abandoned item is marked and unpicked; a picked one is not marked. */
  predicate Unharmed(q: Queue, i: nat)
    requires i < |q.items|
  {
    var item := q.items[i];
    && (item.phase.Abandoned? ==> item.dropped)
    && (item.phase.Abandoned? || item.phase.Marking? ==> !item.ready)
    && (item.phase.Raising? ==> item.phase.next < |q.items| && !q.items[item.phase.next].dropped)
  }

  ghost predicate Orderly(q: Queue) {
    && (exists i: nat :: OnlyActive(q, i))
    && (forall i: nat :: i < |q.items| ==> Unharmed(q, i))
  }

  lemma OrderlyCall(q: Queue, e: Event)
    requires Inv(q) && WellFormed(q) && Orderly(q) && Quiescent(q) && !e.Advance?
    ensures Orderly(Apply(q, e))
  {
    var q' := Apply(q, e);
    assert OnlyActive(q', if e.Acquire? then 0 else e.item);
    forall i: nat | i < |q'.items| ensures Unharmed(q', i) {
      if i < |q.items| {
        assert Unharmed(q, i);
      }
    }
  }

  lemma OrderlyAdvance(q: Queue, i: nat)
    requires Inv(q) && WellFormed(q) && Orderly(q) && i < |q.items| && Active(q.items[i].phase)
    ensures Orderly(Apply(q, Advance(i)))
  {
    var q' := Apply(q, Advance(i));
    assert OnlyActive(q, i);
    assert OnlyActive(q', i);
    assert ItemOk(q, i) && Unharmed(q, i);
    forall j: nat | j < |q'.items| ensures Unharmed(q', j) {
      assert Unharmed(q, j);
      assert j != i ==> !q'.items[j].phase.Raising?;
    }
  }

  lemma {:induction false} OneAtATimeIsOrderly(events: seq<Event>)
    requires OneAtATime(events)
    ensures Orderly(Run(events))
  {
    if events != [] {
      var rest := events[..|events| - 1];
      var q, e := Run(rest), events[|events| - 1];
      OneAtATimeIsOrderly(rest);
      if !e.Advance? {
        OrderlyCall(q, e);
      } else if e.item < |q.items| && Active(q.items[e.item].phase) {
        OrderlyAdvance(q, e.item);
      }
    } else {
      assert OnlyActive(Run(events), 0);
    }
  }

  lemma OrderlyIsNotLost(q: Queue)
    requires Orderly(q)
    ensures !Lost(q)
  {
    forall i: nat | i < |q.items| ensures !LostAt(q, i) {
      assert Unharmed(q, i);
    }
  }

  /** Without overlapping calls no permit is ever lost: a running queue always has a live owner. */
  lemma OneAtATimeNeverStalls(events: seq<Event>)
    requires OneAtATime(events)
    ensures !Lost(Run(events))
    ensures var q := Run(events);
            Quiescent(q) && q.running ==> exists i :: 0 <= i < |q.items| && Owns(q.items[i])
  {
    OneAtATimeIsOrderly(events);
    OrderlyIsNotLost(Run(events));
    if Quiescent(Run(events)) && Run(events).running {
      RunningHasOwner(Run(events));
    }
  }

  // ---- First come, first served ----

  /** Every item waits, was picked, or was dropped unpicked; and only the last pick may be in flight. */
  predicate Accounted(q: Queue, i: nat)
    requires i < |q.items|
  {
    && (i in q.granted || i in q.waiting || q.items[i].dropped)
    && (i in q.granted && !q.items[i].ready ==> exists r :: 0 <= r < |q.items| && q.items[r].phase == Raising(i))
  }

  predicate AllAccounted(q: Queue) {
    forall i: nat :: i < |q.items| ==> Accounted(q, i)
  }

  /** While item `i` has the token to pick with, no picked item is in flight. */
  lemma NoneInFlight(q: Queue, i: nat, j: nat)
    requires Inv(q) && i < |q.items| && q.items[i].phase == Releasing && j < |q.items|
    ensures forall r :: 0 <= r < |q.items| ==> q.items[r].phase != Raising(j)
  {
    forall r | 0 <= r < |q.items| ensures q.items[r].phase != Raising(j) {
      if r != i {
        TokensTwo(q.items, if r < i then r else i, if r < i then i else r);
      }
    }
  }

  lemma PickAccounts(q: Queue, i: nat, j: nat)
    requires Inv(q) && WellFormed(q) && i < |q.items| && q.items[i].phase == Releasing && j < |q.items|
    requires Accounted(q, j)
    ensures Accounted(PickNext(q, i), j)
  {
    var q' := PickNext(q, i);
    var d := Skipped(q.items, q.waiting);
    if j in q.waiting {
      var k :| 0 <= k < |q.waiting| && q.waiting[k] == j;
      assert WaitingOk(q, j);
      if k > d {
        assert q'.waiting[k - d - 1] == j;
      } else if k == d {
        assert q'.items[i].phase == Raising(j);
      }
    }
    if j in q.granted && !q.items[j].ready {
      NoneInFlight(q, i, j);
    }
  }

  lemma RaiseAccounts(q: Queue, i: nat, j: nat)
    requires Inv(q) && WellFormed(q) && i < |q.items| && q.items[i].phase.Raising? && j < |q.items|
    requires Accounted(q, j)
    ensures Accounted(RaiseReady(q, i, q.items[i].phase.next), j)
  {
    if j in q.granted && !q.items[j].ready {
      var r :| 0 <= r < |q.items| && q.items[r].phase == Raising(j);
      if r != i {
        TokensTwo(q.items, if r < i then r else i, if r < i then i else r);
      }
    }
  }

  /** The other steps move no picked item out of flight. */
  lemma OtherAccounts(q: Queue, q': Queue, i: nat, j: nat)
    requires i < |q.items| && j < |q.items| && Accounted(q, j)
    requires q' == q.(items := q'.items) && |q'.items| == |q.items| && !q.items[i].phase.Raising?
    requires forall k :: 0 <= k < |q.items| && k != i ==> q'.items[k] == q.items[k]
    requires q'.items[i].ready == q.items[i].ready && (q.items[i].dropped ==> q'.items[i].dropped)
    ensures Accounted(q', j)
  {
  }

  lemma AcquireAccounts(q: Queue, j: nat)
    requires Inv(q) && AllAccounted(q) && j < |Acquired(q).items|
    ensures Accounted(Acquired(q), j)
  {
    var q' := Acquired(q);
    if j < |q.items| {
      assert Accounted(q, j);
      if j in q.granted && !q.items[j].ready {
        var r :| 0 <= r < |q.items| && q.items[r].phase == Raising(j);
        assert q'.items[r].phase == Raising(j);
      }
    } else {
      assert q.running ==> q'.waiting[|q.waiting|] == j;
      assert !q.running ==> q'.granted[|q.granted|] == j;
    }
  }

  lemma ApplyAccounts(q: Queue, e: Event)
    requires Inv(q) && WellFormed(q) && AllAccounted(q)
    ensures AllAccounted(Apply(q, e))
  {
    var q' := Apply(q, e);
    forall j: nat | j < |q'.items| ensures Accounted(q', j) {
      if e.Acquire? {
        AcquireAccounts(q, j);
      } else {
        assert Accounted(q, j);
        if e.item < |q.items| {
          var phase := q.items[e.item].phase;
          if e.Advance? && phase.Releasing? {
            PickAccounts(q, e.item, j);
          } else if e.Advance? && phase.Raising? {
            RaiseAccounts(q, e.item, j);
          } else if q' != q {
            OtherAccounts(q, q', e.item, j);
          }
        }
      }
    }
  }

  lemma {:induction false} RunAccounts(events: seq<Event>)
    ensures AllAccounted(Run(events))
  {
    if events != [] {
      RunAccounts(events[..|events| - 1]);
      ApplyAccounts(Run(events[..|events| - 1]), events[|events| - 1]);
    }
  }

  /** In every interleaving, nobody holds the permit while an earlier caller still waits for it. */
  lemma NoOvertaking(events: seq<Event>, i: nat, j: nat)
    requires i < j < |Run(events).items| && Run(events).items[j].phase == Holding
    ensures Run(events).items[i].phase != Waiting
  {
    var q := Run(events);
    RunAccounts(events);
    assert Accounted(q, i) && ItemOk(q, i) && ItemOk(q, j);
    TokensTwo(q.items, i, j);
    if q.items[i].phase == Waiting && i in q.granted {
      var r: nat :| r < |q.items| && q.items[r].phase == Raising(i);
      TokensTwo(q.items, if r < j then r else j, if r < j then j else r);
    }
  }

  // ---- Overlapping calls can lose the permit ----

  lemma LostItemStays(q: Queue, e: Event, i: nat)
    requires WellFormed(q) && LostAt(q, i)
    ensures LostAt(Apply(q, e), i)
  {
  }

  /** The lost item carries the only token. */
  lemma NobodyOwns(q: Queue, l: nat, i: nat)
    requires Inv(q) && LostAt(q, l) && i < |q.items|
    ensures !Owns(q.items[i])
  {
    if i != l {
      TokensTwo(q.items, if i < l then i else l, if i < l then l else i);
    }
  }

  lemma LostStays(q: Queue, e: Event)
    requires WellFormed(q) && Lost(q)
    ensures Lost(Apply(q, e))
  {
    var i: nat :| LostAt(q, i);
    LostItemStays(q, e, i);
  }

  lemma RunSnoc(events: seq<Event>, e: Event)
    ensures Run(events + [e]) == Apply(Run(events), e)
  {
    assert (events + [e])[..|events|] == events;
  }

  /** A lost permit stays lost in every continuation, and nobody ever owns one again. */
  lemma {:induction false} LostForever(events: seq<Event>, more: seq<Event>)
    requires Lost(Run(events))
    ensures Lost(Run(events + more))
    ensures var q := Run(events + more); forall i :: 0 <= i < |q.items| ==> !Owns(q.items[i])
    decreases |more|
  {
    if more == [] {
      assert events + more == events;
    } else {
      var rest, e := more[..|more| - 1], more[|more| - 1];
      LostForever(events, rest);
      assert events + more == events + rest + [e];
      RunSnoc(events + rest, e);
      LostStays(Run(events + rest), e);
    }
    var q := Run(events + more);
    var l: nat :| LostAt(q, l);
    forall i | 0 <= i < |q.items| ensures !Owns(q.items[i]) {
      NobodyOwns(q, l, i);
    }
  }

  /** The two racing steps: marking an item that was raised meanwhile, or raising an abandoned one. */
  predicate Races(q: Queue, e: Event)
    requires WellFormed(q)
  {
    e.Advance? && e.item < |q.items| &&
    (var item := q.items[e.item];
     || (item.phase.Marking? && item.ready)
     || (item.phase.Raising? && q.items[item.phase.next].phase.Abandoned?))
  }

  lemma OnlyRacesLose(q: Queue, e: Event, i: nat)
    requires Inv(q) && WellFormed(q) && !LostAt(q, i) && LostAt(Apply(q, e), i)
    ensures Races(q, e)
  {
    if e.Advance? && e.item < |q.items| {
      assert ItemOk(q, e.item);
    }
  }

  /** Exactly which steps lose the permit. */
  lemma LostByRacingStep(q: Queue, e: Event)
    requires Inv(q) && WellFormed(q) && !Lost(q)
    ensures Lost(Apply(q, e)) <==> Races(q, e)
  {
    if Races(q, e) {
      var item := q.items[e.item];
      assert LostAt(Apply(q, e), if item.phase.Marking? then e.item else item.phase.next);
    } else if i: nat :| LostAt(Apply(q, e), i) {
      OnlyRacesLose(q, e, i);
    }
  }

  predicate RacingStep(before: seq<Event>, e: Event) {
    Races(Run(before), e)
  }

  /** Exactly which runs lose the permit: those in which some event is one of the two racing steps. */
  lemma {:induction false} LostExactlyByRacingDrop(events: seq<Event>)
    ensures Lost(Run(events)) <==> Ever(RacingStep, events)
  {
    if events != [] {
      var rest, e := events[..|events| - 1], events[|events| - 1];
      LostExactlyByRacingDrop(rest);
      EverStep(RacingStep, events);
      if Lost(Run(rest)) {
        LostStays(Run(rest), e);
      } else {
        LostByRacingStep(Run(rest), e);
      }
    }
  }

  lemma RunTo(events: seq<Event>, from: Queue, e: Event, to: Queue) returns (longer: seq<Event>)
    requires Run(events) == from && WellFormed(from) && Apply(from, e) == to
    ensures Run(longer) == to
  {
    longer := events + [e];
    RunSnoc(events, e);
  }

  /** Two callers, of which the first was granted the permit at once. */
  function Two(first: Phase, second: Item, picked: bool): Queue {
    Queue(true, [Item(true, false, first), second], if picked then [] else [1], if picked then [0, 1] else [0])
  }

  const WAITING := Item(false, false, Waiting)
  const DROPPING := Item(false, false, Dropping)
  const MARKING := Item(false, false, Marking)
  const MARKED := Item(false, true, Abandoned)
  const LOST := Item(true, true, Abandoned)

  lemma PickSecond()
    ensures WellFormed(Two(Releasing, MARKING, false))
    ensures Apply(Two(Releasing, MARKING, false), Advance(0)) == Two(Raising(1), MARKING, true)
  {
    var q := Two(Releasing, MARKING, false);
    assert Skipped(q.items, q.waiting) == 0;
  }

  lemma RaceSteps()
    ensures WellFormed(Two(Raising(1), MARKING, true)) && WellFormed(Two(Raising(1), MARKED, true))
    ensures Apply(Two(Raising(1), MARKING, true), Advance(1)) == Two(Raising(1), MARKED, true)
    ensures Apply(Two(Raising(1), MARKED, true), Advance(0)) == Two(Gone, LOST, true)
  {
  }

  lemma SetupSteps()
    ensures WellFormed(Two(Holding, WAITING, false))
    ensures WellFormed(Two(Holding, DROPPING, false)) && WellFormed(Two(Holding, MARKING, false))
    ensures Apply(Two(Holding, WAITING, false), DropFuture(1)) == Two(Holding, DROPPING, false)
    ensures Apply(Two(Holding, DROPPING, false), Advance(1)) == Two(Holding, MARKING, false)
    ensures Apply(Two(Holding, MARKING, false), DropPermit(0)) == Two(Releasing, MARKING, false)
  {
  }

  function One(phase: Phase): Queue {
    Queue(true, [Item(true, false, phase)], [], [0])
  }

  lemma TwoAcquire() returns (events: seq<Event>)
    ensures Run(events) == Two(Holding, WAITING, false)
  {
    var waits, holds := One(Waiting), One(Holding);
    events := RunTo([], EMPTY, Acquire, waits);
    events := RunTo(events, waits, Poll(0), holds);
    events := RunTo(events, holds, Acquire, Two(Holding, WAITING, false));
  }

  lemma OverlapSetup() returns (events: seq<Event>)
    ensures Run(events) == Two(Releasing, MARKING, false)
  {
    events := TwoAcquire();
    SetupSteps();
    events := RunTo(events, Two(Holding, WAITING, false), DropFuture(1), Two(Holding, DROPPING, false));
    events := RunTo(events, Two(Holding, DROPPING, false), Advance(1), Two(Holding, MARKING, false));
    events := RunTo(events, Two(Holding, MARKING, false), DropPermit(0), Two(Releasing, MARKING, false));
  }

  /** A second future is dropped after its `is_ready` test and before it is marked, while the first permit is released. */
  lemma OverlapCanLosePermit() returns (events: seq<Event>)
    ensures Lost(Run(events)) && Quiescent(Run(events))
  {
    events := OverlapSetup();
    PickSecond();
    events := RunTo(events, Two(Releasing, MARKING, false), Advance(0), Two(Raising(1), MARKING, true));
    RaceSteps();
    events := RunTo(events, Two(Raising(1), MARKING, true), Advance(1), Two(Raising(1), MARKED, true));
    events := RunTo(events, Two(Raising(1), MARKED, true), Advance(0), Two(Gone, LOST, true));
    assert LostAt(Run(events), 1);
  }

  // ---- The loop of `raise_next` ----

  /** The state under the mutex. */
  class Tasks {
    var isRunning: bool
    var waiting: seq<nat>

    constructor ()
      ensures !isRunning && waiting == []
    {
      isRunning := false;
      waiting := [];
    }

    /** The locked half of `raise_next`: drops dead futures off the front and takes the next one. */
    method TakeFront(items: seq<Item>) returns (next: Option<nat>)
      requires Indexed(items, waiting)
      modifies this
      ensures var d := Skipped(items, old(waiting));
              if d == |old(waiting)|
              then next == None && waiting == [] && !isRunning
              else next == Some(old(waiting)[d]) && waiting == old(waiting)[d + 1..] && isRunning
    {
      ghost var k := 0;
      while waiting != [] && items[waiting[0]].dropped
        invariant k <= |old(waiting)| && waiting == old(waiting)[k..]
        invariant Skipped(items, old(waiting)) == k + Skipped(items, waiting)
        decreases |waiting|
      {
        waiting := waiting[1..];
        k := k + 1;
      }
      if waiting == [] {
        next, isRunning := None, false;
      } else {
        next, waiting, isRunning := Some(waiting[0]), waiting[1..], true;
      }
    }
  }
}
