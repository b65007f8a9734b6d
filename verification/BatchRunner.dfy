/** The batch runner: one tool call per param set, in order or under a counting semaphore. A parallel
    step runs one item, or the caller, from one await to the next. */
module BatchRunner {
  import opened Seqs

  /** How a tool call ends: a value, an `Exception`, or an error that is not one, such as a cancellation. */
  datatype Outcome<R> = Value(value: R) | Error(text: string) | Abort

  /** A result slot: the tool's value, or the error's text when failures do not abort the batch. */
  datatype Slot<R> = Result(value: R) | ErrorText(text: string)

  datatype ItemState<R> =
    | Created
    | Queued
    | Flying
    | Done(slot: Slot<R>)
    | Failed(outcome: Outcome<R>)
    | Dropped

  datatype Item<R> = Item(st: ItemState<R>, cancelled: bool)

  datatype Fault<R> = ItemFault(i: nat, outcome: Outcome<R>) | CallCancelled

  datatype Phase<R> =
    | Gathering
    | Draining(fault: Fault<R>)
    | Returned(slots: seq<Slot<R>>)
    | Raised(fault: Fault<R>)

  /** `verdict` is what the gather will raise, and `heard` says that its future has it: a task that ends
      tells the gather one turn of the event loop later. `outer` says the call itself was cancelled. */
  datatype Batch<R> = Batch(items: seq<Item<R>>, permits: int, phase: Phase<R>, verdict: Option<Fault<R>>,
                            heard: bool, outer: bool, called: set<nat>)

  datatype Step<R> =
    | Starts(i: nat)                  // the task first runs
    | Admitted(i: nat)                // a waiter gets a permit
    | Finishes(i: nat, outcome: Outcome<R>)
    | Drops(i: nat)                   // a cancelled task that never called the tool ends
    | CallerCancelled                 // the batch call itself is cancelled
    | Hears                           // the gather is told of the first failure
    | Catches                         // the caller sees the failure and cancels every task
    | Returns
    | Raises

  // ---- Admission ----

  datatype Mode = Sequential | Parallel | OtherMode

  datatype Admission = TooLarge | BadLimit | UnknownMode | RunSequential | RunParallel(limit: int)

  function Admit(n: nat, maxBatch: int, mode: Mode, maxConcurrent: Option<int>, defaultConcurrent: int): Admission {
    if n > maxBatch then TooLarge
    else match mode
         case Sequential => RunSequential
         case OtherMode => UnknownMode
         case Parallel =>
           if maxConcurrent.Some? && maxConcurrent.value < 1 then BadLimit
           else RunParallel(if maxConcurrent.Some? then maxConcurrent.value
                            else Min(defaultConcurrent, if n != 0 then n else 1))
  }

  /** Which request is refused, and why: the size comes first, then the mode, then the given limit. A given
      limit is used as it is; without one no more items run at once than the default allows or than there
      are, but always at least one, even for an empty batch. */
  lemma LimitPositive(n: nat, maxBatch: int, mode: Mode, maxConcurrent: Option<int>, defaultConcurrent: int)
    requires defaultConcurrent > 0
    ensures var a := Admit(n, maxBatch, mode, maxConcurrent, defaultConcurrent);
            && (a == TooLarge <==> n > maxBatch)
            && (a == RunSequential <==> n <= maxBatch && mode == Sequential)
            && (a == UnknownMode <==> n <= maxBatch && mode == OtherMode)
            && (a == BadLimit <==> n <= maxBatch && mode == Parallel && maxConcurrent.Some? && maxConcurrent.value < 1)
            && (a.RunParallel? && maxConcurrent.Some? ==> a.limit == maxConcurrent.value >= 1)
            && (a.RunParallel? && maxConcurrent.None? ==>
                  && 1 <= a.limit <= defaultConcurrent && (n > 0 ==> a.limit <= n)
                  && (a.limit == defaultConcurrent || a.limit == n || (n == 0 && a.limit == 1)))
  {
  }

  // ---- Running one item ----

  /** `process_single` after the tool call: does the item fill a slot, or raise? */
  function Settle<R>(outcome: Outcome<R>, failFast: bool): ItemState<R> {
    match outcome
    case Value(v) => Done(Result(v))
    case Error(text) => if failFast then Failed(outcome) else Done(ErrorText(text))
    case Abort => Failed(outcome)
  }

  /** An `Exception` aborts the batch only under fail-fast; any other error always does. */
  predicate Aborts<R>(outcome: Outcome<R>, failFast: bool) {
    outcome.Abort? || (failFast && outcome.Error?)
  }

  /** What the caller finds in the slot of an item that ends like this and does not abort the batch. */
  ghost predicate SlotFor<R>(slot: Slot<R>, outcome: Outcome<R>) {
    match outcome
    case Value(v) => slot == Result(v)
    case Error(text) => slot == ErrorText(text)
    case Abort => false
  }

  lemma SettleMeans<R>(outcome: Outcome<R>, failFast: bool)
    ensures var st := Settle(outcome, failFast);
            if Aborts(outcome, failFast) then st == Failed(outcome) else st.Done? && SlotFor(st.slot, outcome)
  {
  }

  datatype SequentialResult<R> = Listed(slots: seq<Slot<R>>) | Stopped(i: nat, outcome: Outcome<R>)

  /** The sequential branch: in order, up to the first item that raises. */
  function RunInOrder<P, R>(params: seq<P>, tool: P -> Outcome<R>, failFast: bool): SequentialResult<R> {
    if params == [] then Listed([])
    else
      var n := |params| - 1;
      var before := RunInOrder(params[..n], tool, failFast);
      if before.Stopped? then before
      else
        var st := Settle(tool(params[n]), failFast);
        if st.Done? then Listed(before.slots + [st.slot]) else Stopped(n, tool(params[n]))
  }

  // ---- The parallel branch ----

  predicate Terminal<R>(item: Item<R>) {
    item.st.Done? || item.st.Failed? || item.st.Dropped?
  }

  ghost predicate AllTerminal<R>(items: seq<Item<R>>) {
    forall i :: 0 <= i < |items| ==> Terminal(items[i])
  }

  ghost predicate AllDone<R>(items: seq<Item<R>>) {
    forall i :: 0 <= i < |items| ==> items[i].st.Done?
  }

  ghost predicate AnyQueued<R>(items: seq<Item<R>>) {
    exists i :: 0 <= i < |items| && items[i].st.Queued?
  }

  function CancelAll<R>(items: seq<Item<R>>): seq<Item<R>> {
    seq(|items|, i requires 0 <= i < |items| => items[i].(cancelled := true))
  }

  function Slots<R>(items: seq<Item<R>>): seq<Slot<R>>
    requires forall i :: 0 <= i < |items| ==> items[i].st.Done?
  {
    seq(|items|, i requires 0 <= i < |items| => items[i].st.slot)
  }

  /** Whether a cancellation comes too late for the gather to pass it on: its future has a failure, or
      every task ended. */
  ghost predicate Gathered<R>(b: Batch<R>) {
    b.heard || AllTerminal(b.items)
  }

  ghost predicate Enabled<R>(b: Batch<R>, step: Step<R>) {
    match step
    case Starts(i) => i < |b.items| && b.items[i] == Item(Created, false)
    case Admitted(i) => i < |b.items| && b.items[i] == Item(Queued, false) && b.permits > 0
    case Finishes(i, _) => i < |b.items| && b.items[i].st.Flying?
    case Drops(i) => i < |b.items| && b.items[i].cancelled && (b.items[i].st.Created? || b.items[i].st.Queued?)
    case CallerCancelled => b.phase.Gathering? && !b.outer
    case Hears => b.phase.Gathering? && b.verdict.Some? && !b.heard
    case Catches =>
      b.phase.Gathering? && if b.verdict.Some? then b.heard else b.outer && AllTerminal(b.items)
    case Returns => b.phase.Gathering? && b.verdict.None? && !b.outer && AllDone(b.items)
    case Raises => b.phase.Draining? && AllTerminal(b.items)
  }

  function At<R>(b: Batch<R>, i: nat, st: ItemState<R>): seq<Item<R>>
    requires i < |b.items|
  {
    b.items[i := b.items[i].(st := st)]
  }

  /** The gather will be told of the first failure first. */
  function Noted<R>(b: Batch<R>, st: ItemState<R>, i: nat): Option<Fault<R>> {
    if b.verdict.Some? || !b.phase.Gathering? then b.verdict
    else match st
         case Failed(outcome) => Some(ItemFault(i, outcome))
         case Dropped => Some(ItemFault(i, Abort))
         case _ => None
  }

  function Fly<R>(b: Batch<R>, i: nat): Batch<R>
    requires i < |b.items|
  {
    b.(items := At(b, i, Flying), permits := b.permits - 1, called := b.called + {i})
  }

  ghost function Next<R>(b: Batch<R>, step: Step<R>, failFast: bool): Batch<R>
    requires Enabled(b, step)
  {
    match step
    case Starts(i) =>
      if b.permits > 0 && !AnyQueued(b.items) then Fly(b, i) else b.(items := At(b, i, Queued))
    case Admitted(i) => Fly(b, i)
    case Finishes(i, outcome) =>
      var st := Settle(outcome, failFast);
      b.(items := At(b, i, st), permits := b.permits + 1, verdict := Noted(b, st, i))
    case Drops(i) => b.(items := At(b, i, Dropped), verdict := Noted(b, Dropped, i))
    case CallerCancelled =>
      if Gathered(b) then b.(outer := true, verdict := Some(CallCancelled))
      else b.(outer := true, items := CancelAll(b.items))
    case Hears => b.(heard := true)
    case Catches =>
      b.(phase := Draining(if b.verdict.Some? then b.verdict.value else CallCancelled), items := CancelAll(b.items))
    case Returns => b.(phase := Returned(Slots(b.items)))
    case Raises => b.(phase := Raised(b.phase.fault))
  }

  function Fresh<R>(n: nat, limit: int): Batch<R> {
    Batch(seq(n, _ => Item(Created, false)), limit, Gathering, None, false, false, {})
  }

  ghost predicate Trace<R>(states: seq<Batch<R>>, steps: seq<Step<R>>, n: nat, limit: int, failFast: bool) {
    && |states| == |steps| + 1 && states[0] == Fresh(n, limit) && limit >= 1
    && forall m :: 0 <= m < |steps| ==>
         Enabled(states[m], steps[m]) && states[m + 1] == Next(states[m], steps[m], failFast)
  }

  // ---- Conservation ----

  /** Calls in flight, and the steps the items still have to take. */
  datatype Tally = Tally(flying: nat, work: nat)

  function Weigh<R>(item: Item<R>): Tally {
    match item.st
    case Created => Tally(0, 3)
    case Queued => Tally(0, 2)
    case Flying => Tally(1, 1)
    case _ => Tally(0, 0)
  }

  function Total<R>(items: seq<Item<R>>): Tally {
    if items == [] then Tally(0, 0)
    else
      var t, w := Total(items[..|items| - 1]), Weigh(items[|items| - 1]);
      Tally(t.flying + w.flying, t.work + w.work)
  }

  lemma {:induction false} TotalAfter<R>(items: seq<Item<R>>, i: nat, item: Item<R>)
    requires i < |items|
    ensures var (t, u, v, w) := (Total(items[i := item]), Total(items), Weigh(item), Weigh(items[i]));
            t.flying == u.flying + v.flying - w.flying && t.work == u.work + v.work - w.work
  {
    var n := |items| - 1;
    if i == n {
      assert items[i := item][..n] == items[..n];
    } else {
      assert items[i := item][..n] == items[..n][i := item];
      TotalAfter(items[..n], i, item);
    }
  }

  lemma {:induction false} TotalCancelled<R>(items: seq<Item<R>>)
    ensures Total(CancelAll(items)) == Total(items)
  {
    if items != [] {
      var n := |items| - 1;
      assert CancelAll(items)[..n] == CancelAll(items[..n]);
      TotalCancelled(items[..n]);
    }
  }

  lemma {:induction false} TotalFlying<R>(items: seq<Item<R>>)
    ensures Total(items).flying > 0 <==> exists i :: 0 <= i < |items| && items[i].st.Flying?
  {
    if items != [] {
      var n := |items| - 1;
      TotalFlying(items[..n]);
      assert forall i :: 0 <= i < n ==> items[..n][i] == items[i];
    }
  }

  lemma {:induction false} TotalFresh<R>(n: nat)
    ensures Total(Fresh<R>(n, 1).items) == Tally(0, 3 * n)
  {
    if n > 0 {
      TotalFresh<R>(n - 1);
      assert Fresh<R>(n, 1).items[..n - 1] == Fresh<R>(n - 1, 1).items;
    }
  }

  /** In flight plus free make the limit. */
  ghost predicate Conserved<R>(b: Batch<R>, limit: int) {
    b.permits >= 0 && b.permits + Total(b.items).flying == limit
  }

  ghost predicate NoneFailed<R>(items: seq<Item<R>>) {
    forall i :: 0 <= i < |items| ==> !items[i].st.Failed? && !items[i].st.Dropped?
  }

  ghost predicate AllCancelled<R>(items: seq<Item<R>>) {
    forall i :: 0 <= i < |items| ==> items[i].cancelled
  }

  ghost predicate NoneCancelled<R>(items: seq<Item<R>>) {
    forall i :: 0 <= i < |items| ==> !items[i].cancelled
  }

  /** The first failure is noted, a cancellation covers all tasks, and the end comes after all of them. */
  ghost predicate Orderly<R>(b: Batch<R>) {
    && (b.phase.Gathering? && b.verdict.None? ==>
          NoneFailed(b.items) && if b.outer then AllCancelled(b.items) else NoneCancelled(b.items))
    && (b.outer && b.verdict != Some(CallCancelled) ==> AllCancelled(b.items))
    && (b.phase.Draining? || b.phase.Raised? ==> AllCancelled(b.items))
    && (b.phase.Raised? ==> AllTerminal(b.items))
    && (b.phase.Returned? ==> AllDone(b.items) && b.phase.slots == Slots(b.items))
  }

  /** The steps a state can still see at most. */
  function Work<R>(b: Batch<R>): nat {
    Total(b.items).work + (if b.outer then 0 else 1) + (if b.heard then 0 else 1)
    + match b.phase
      case Gathering => 2
      case Draining(_) => 1
      case _ => 0
  }

  lemma StepTally<R>(b: Batch<R>, step: Step<R>, limit: int, failFast: bool)
    requires Conserved(b, limit) && Enabled(b, step)
    ensures Conserved(Next(b, step, failFast), limit)
    ensures Work(Next(b, step, failFast)) < Work(b)
  {
    hide Total;
    var t := Next(b, step, failFast);
    match step
    case Starts(i) => TotalAfter(b.items, i, t.items[i]);
    case Admitted(i) => TotalAfter(b.items, i, t.items[i]);
    case Finishes(i, outcome) => TotalAfter(b.items, i, t.items[i]);
    case Drops(i) => TotalAfter(b.items, i, t.items[i]);
    case CallerCancelled => TotalCancelled(b.items);
    case Hears =>
    case Catches => TotalCancelled(b.items);
    case Returns =>
    case Raises =>
  }

  lemma ItemStepOrderly<R>(b: Batch<R>, i: nat, t: Batch<R>)
    requires Orderly(b) && i < |b.items| && !Terminal(b.items[i]) && i < |t.items|
    requires t.items == At(b, i, t.items[i].st) && t.phase == b.phase && t.outer == b.outer && t.heard == b.heard
    requires t.verdict == Noted(b, t.items[i].st, i)
    ensures Orderly(t)
  {
    assert forall j :: 0 <= j < |b.items| && j != i ==> t.items[j] == b.items[j];
    assert t.items[i].cancelled == b.items[i].cancelled;
  }

  lemma StepOrderly<R>(b: Batch<R>, step: Step<R>, failFast: bool)
    requires Orderly(b) && Enabled(b, step)
    ensures Orderly(Next(b, step, failFast))
  {
    var t := Next(b, step, failFast);
    if step.Starts? || step.Admitted? || step.Finishes? || step.Drops? {
      assert t.verdict == Noted(b, t.items[step.i].st, step.i);
      ItemStepOrderly(b, step.i, t);
    }
  }

  lemma FreshInv<R>(n: nat, limit: int)
    requires limit >= 1
    ensures Conserved(Fresh<R>(n, limit), limit) && Orderly(Fresh<R>(n, limit)) && Work(Fresh<R>(n, limit)) == 3 * n + 4
  {
    TotalFresh<R>(n);
    assert Fresh<R>(n, limit).items == Fresh<R>(n, 1).items;
  }

  lemma SameItems<R>(b: Batch<R>, step: Step<R>, failFast: bool)
    requires Enabled(b, step)
    ensures |Next(b, step, failFast).items| == |b.items|
  {
  }

  lemma {:induction false} TraceInv<R>(states: seq<Batch<R>>, steps: seq<Step<R>>, n: nat, limit: int,
                                       failFast: bool, m: nat)
    requires Trace(states, steps, n, limit, failFast) && m < |states|
    ensures Conserved(states[m], limit) && Orderly(states[m]) && |states[m].items| == n
    ensures Work(states[m]) + m <= 3 * n + 4
  {
    if m == 0 {
      FreshInv<R>(n, limit);
    } else {
      TraceInv(states, steps, n, limit, failFast, m - 1);
      StepTally(states[m - 1], steps[m - 1], limit, failFast);
      StepOrderly(states[m - 1], steps[m - 1], failFast);
      SameItems(states[m - 1], steps[m - 1], failFast);
    }
  }

  /** In flight plus free always make the limit, so no more than `limit` calls ever run at once; the
      error is re-raised only when every item has ended and every permit is back. */
  lemma PermitsConserved<R>(states: seq<Batch<R>>, steps: seq<Step<R>>, n: nat, limit: int, failFast: bool, m: nat)
    requires Trace(states, steps, n, limit, failFast) && m < |states|
    ensures var b := states[m];
            && b.permits >= 0 && b.permits + Total(b.items).flying == limit
            && (b.phase.Raised? || b.phase.Returned? ==> AllTerminal(b.items) && b.permits == limit)
  {
    TraceInv(states, steps, n, limit, failFast, m);
    TotalFlying(states[m].items);
  }

  /** Every run ends: no schedule takes more than three steps per item and four for the caller. */
  lemma RunsEnd<R>(states: seq<Batch<R>>, steps: seq<Step<R>>, n: nat, limit: int, failFast: bool)
    requires Trace(states, steps, n, limit, failFast)
    ensures |steps| <= 3 * n + 4
  {
    TraceInv(states, steps, n, limit, failFast, |steps|);
  }

  ghost predicate Final<R>(b: Batch<R>) {
    b.phase.Returned? || b.phase.Raised?
  }

  /** No reachable state is stuck while tools finish: unless the batch has returned or raised, some step
      other than a cancellation from outside is enabled. */
  lemma NeverStuck<R>(states: seq<Batch<R>>, steps: seq<Step<R>>, n: nat, limit: int, failFast: bool, m: nat)
    returns (step: Step<R>)
    requires Trace(states, steps, n, limit, failFast) && m < |states| && !Final(states[m])
    ensures Enabled(states[m], step) && !step.CallerCancelled?
  {
    var b := states[m];
    TraceInv(states, steps, n, limit, failFast, m);
    TotalFlying(b.items);
    if b.phase.Gathering? && b.verdict.Some? {
      step := if b.heard then Catches else Hears;
    } else if i :| 0 <= i < |b.items| && !Terminal(b.items[i]) {
      if j :| 0 <= j < |b.items| && b.items[j].st.Flying? {
        step := Finishes(j, Abort);
      } else if b.items[i].cancelled {
        step := Drops(i);
      } else if b.items[i].st.Created? {
        step := Starts(i);
      } else {
        step := Admitted(i);
      }
    } else if b.phase.Draining? {
      step := Raises;
    } else if b.outer {
      step := Catches;
    } else {
      step := Returns;
    }
  }

  /** The tasks have been cancelled: by the caller on a failure, or with the call itself. */
  ghost predicate Stopping<R>(b: Batch<R>) {
    AllCancelled(b.items) && (b.outer || !b.phase.Gathering?) && !b.phase.Returned?
  }

  /** The cancel loop ran, or the gather passed a cancellation of the call on to the tasks. */
  ghost predicate PassedOn<R>(b: Batch<R>) {
    b.phase.Draining? || (b.phase.Gathering? && b.outer && b.verdict != Some(CallCancelled))
  }

  lemma CancelsStop<R>(b: Batch<R>)
    requires Orderly(b) && PassedOn(b)
    ensures Stopping(b)
  {
  }

  lemma StepAfterCancel<R>(b: Batch<R>, step: Step<R>, failFast: bool)
    requires Stopping(b) && Enabled(b, step)
    ensures Stopping(Next(b, step, failFast)) && Next(b, step, failFast).called == b.called
  {
  }

  /** Once the tasks are cancelled no further tool call starts, in any continuation of the run. */
  lemma {:induction false} NoCallAfterCancel<R>(states: seq<Batch<R>>, steps: seq<Step<R>>, n: nat, limit: int,
                                                failFast: bool, from: nat, m: nat)
    requires Trace(states, steps, n, limit, failFast) && from <= m < |states|
    requires PassedOn(states[from])
    ensures Stopping(states[m]) && states[m].called == states[from].called
  {
    if m == from {
      TraceInv(states, steps, n, limit, failFast, m);
      CancelsStop(states[m]);
    } else {
      NoCallAfterCancel(states, steps, n, limit, failFast, from, m - 1);
      StepAfterCancel(states[m - 1], steps[m - 1], failFast);
    }
  }

  // ---- What starts a call ----

  /** A task calls the tool on its first run iff a permit is free and nobody waits for one; a waiter that is
      admitted calls it, and each call takes one permit. */
  lemma CallBegins<R>(b: Batch<R>, step: Step<R>, failFast: bool)
    requires Enabled(b, step) && (step.Starts? || step.Admitted?)
    ensures var t, i := Next(b, step, failFast), step.i;
            && i < |t.items| && t.items == b.items[i := t.items[i]]
            && (if step.Admitted? || (b.permits > 0 && forall j :: 0 <= j < |b.items| ==> !b.items[j].st.Queued?)
                then t.items[i] == Item(Flying, false) && t.permits == b.permits - 1 && t.called == b.called + {i}
                else t.items[i] == Item(Queued, false) && t.permits == b.permits && t.called == b.called)
  {
  }

  /** `called` is the set of items whose tool call began: those in flight and those it ended for. */
  ghost predicate CalledExactly<R>(b: Batch<R>) {
    forall i: nat :: i in b.called
      <==> i < |b.items| && (b.items[i].st.Flying? || b.items[i].st.Done? || b.items[i].st.Failed?)
  }

  lemma StepCalled<R>(b: Batch<R>, step: Step<R>, failFast: bool)
    requires CalledExactly(b) && Enabled(b, step)
    ensures CalledExactly(Next(b, step, failFast))
  {
  }

  /** In every run the tool was called for exactly the items that are in flight or ended by a call; an item
      that was dropped was never called. */
  lemma {:induction false} CalledInRun<R>(states: seq<Batch<R>>, steps: seq<Step<R>>, n: nat, limit: int,
                                          failFast: bool, m: nat)
    requires Trace(states, steps, n, limit, failFast) && m < |states|
    ensures CalledExactly(states[m])
  {
    if m > 0 {
      CalledInRun(states, steps, n, limit, failFast, m - 1);
      StepCalled(states[m - 1], steps[m - 1], failFast);
    }
  }

  // ---- Which failure is raised ----

  /** The step ends an item without a slot. */
  ghost predicate Fails<R>(step: Step<R>, failFast: bool) {
    step.Drops? || (step.Finishes? && Aborts(step.outcome, failFast))
  }

  ghost predicate NoFailure<R>(steps: seq<Step<R>>, n: nat, failFast: bool) {
    forall l :: 0 <= l < n && l < |steps| ==> !Fails(steps[l], failFast)
  }

  ghost predicate CalledOff<R>(steps: seq<Step<R>>, n: nat) {
    exists l :: 0 <= l < n && l < |steps| && steps[l].CallerCancelled?
  }

  /** The fault is that of step `l`, and no earlier step failed. It is the error of a tool call, unless the
      batch call had been cancelled. */
  ghost predicate FirstFailure<R>(steps: seq<Step<R>>, l: nat, fault: Fault<R>, failFast: bool) {
    && l < |steps| && Fails(steps[l], failFast) && NoFailure(steps, l, failFast)
    && fault == ItemFault(steps[l].i, if steps[l].Drops? then Abort else steps[l].outcome)
    && (steps[l].Drops? ==> CalledOff(steps, l))
  }

  /** The fault is the first failure among the first `n` steps, or the cancellation of the call. */
  ghost predicate Blamed<R>(steps: seq<Step<R>>, n: nat, fault: Fault<R>, failFast: bool) {
    if fault.CallCancelled? then CalledOff(steps, n)
    else exists l :: 0 <= l < n && FirstFailure(steps, l, fault, failFast)
  }

  ghost predicate Blames<R>(b: Batch<R>, steps: seq<Step<R>>, n: nat, failFast: bool) {
    && (b.outer ==> CalledOff(steps, n))
    && (b.phase.Gathering? && b.verdict.None? ==> NoFailure(steps, n, failFast))
    && (b.verdict.Some? ==> Blamed(steps, n, b.verdict.value, failFast))
    && (b.phase.Draining? || b.phase.Raised? ==> Blamed(steps, n, b.phase.fault, failFast))
  }

  lemma BlamedLater<R>(steps: seq<Step<R>>, n: nat, fault: Fault<R>, failFast: bool)
    requires Blamed(steps, n, fault, failFast)
    ensures Blamed(steps, n + 1, fault, failFast)
  {
  }

  lemma CancellationBlamed<R>(steps: seq<Step<R>>, n: nat, failFast: bool)
    requires CalledOff(steps, n)
    ensures Blamed(steps, n, CallCancelled, failFast)
  {
  }

  lemma FailureBlamed<R>(steps: seq<Step<R>>, n: nat, fault: Fault<R>, failFast: bool)
    requires FirstFailure(steps, n, fault, failFast)
    ensures Blamed(steps, n + 1, fault, failFast)
  {
  }

  lemma StepBlames<R>(b: Batch<R>, steps: seq<Step<R>>, n: nat, failFast: bool)
    requires n < |steps| && Blames(b, steps, n, failFast) && Orderly(b) && Enabled(b, steps[n])
    ensures Blames(Next(b, steps[n], failFast), steps, n + 1, failFast)
  {
    hide Blamed;
    var t := Next(b, steps[n], failFast);
    assert CalledOff(steps, n) || steps[n].CallerCancelled? ==> CalledOff(steps, n + 1);
    if b.verdict.Some? {
      BlamedLater(steps, n, b.verdict.value, failFast);
    }
    if b.phase.Draining? {
      BlamedLater(steps, n, b.phase.fault, failFast);
    }
    if b.phase.Raised? {
      BlamedLater(steps, n, b.phase.fault, failFast);
    }
    if t.outer {
      CancellationBlamed(steps, n + 1, failFast);
    }
    if b.verdict.None? && b.phase.Gathering? && Fails(steps[n], failFast) {
      FailureBlamed(steps, n, t.verdict.value, failFast);
    }
  }

  lemma FreshBlames<R>(b: Batch<R>, steps: seq<Step<R>>, n: nat, limit: int, failFast: bool)
    requires b == Fresh(n, limit)
    ensures Blames(b, steps, 0, failFast)
  {
  }

  lemma {:induction false} TraceBlames<R>(states: seq<Batch<R>>, steps: seq<Step<R>>, n: nat, limit: int,
                                          failFast: bool, m: nat)
    requires Trace(states, steps, n, limit, failFast) && m < |states|
    ensures Blames(states[m], steps, m, failFast)
  {
    hide Blames;
    if m == 0 {
      FreshBlames(states[0], steps, n, limit, failFast);
    } else {
      TraceBlames(states, steps, n, limit, failFast, m - 1);
      TraceInv(states, steps, n, limit, failFast, m - 1);
      StepBlames(states[m - 1], steps, m - 1, failFast);
    }
  }

  /** The error raised is that of the item that failed first, however many fail before the caller looks;
      only a cancellation of the call itself can take its place. */
  lemma FirstFailureRaised<R>(states: seq<Batch<R>>, steps: seq<Step<R>>, n: nat, limit: int, failFast: bool, m: nat)
    requires Trace(states, steps, n, limit, failFast) && m < |states| && states[m].phase.Raised?
    ensures if states[m].phase.fault.CallCancelled? then CalledOff(steps, m)
            else exists l :: 0 <= l < m && FirstFailure(steps, l, states[m].phase.fault, failFast)
  {
    TraceBlames(states, steps, n, limit, failFast, m);
  }

  /** The call was cancelled and will raise `fault`. */
  ghost predicate Doomed<R>(b: Batch<R>, fault: Fault<R>) {
    && b.outer && b.verdict == Some(fault) && !b.phase.Returned?
    && (b.phase.Draining? || b.phase.Raised? ==> b.phase.fault == fault)
  }

  lemma {:induction false} StaysDoomed<R>(states: seq<Batch<R>>, steps: seq<Step<R>>, n: nat, limit: int,
                                          failFast: bool, from: nat, m: nat, fault: Fault<R>)
    requires Trace(states, steps, n, limit, failFast) && from <= m < |states| && Doomed(states[from], fault)
    ensures Doomed(states[m], fault)
  {
    if from < m {
      StaysDoomed(states, steps, n, limit, failFast, from, m - 1, fault);
    }
  }

  /** A cancelled call never returns, whatever its tool calls make of the cancellation. */
  lemma {:induction false} CancelledCallRaises<R>(states: seq<Batch<R>>, steps: seq<Step<R>>, n: nat, limit: int,
                                                  failFast: bool, c: nat, m: nat)
    requires Trace(states, steps, n, limit, failFast) && c < m < |states| && steps[c].CallerCancelled?
    ensures states[m].outer && !states[m].phase.Returned?
    ensures Final(states[m]) ==> states[m].phase.Raised?
  {
    if c < m - 1 {
      CancelledCallRaises(states, steps, n, limit, failFast, c, m - 1);
    }
  }

  /** A cancellation of the call that comes when the gather is over is raised, whatever failed before. One
      that comes while a failure is on its way to the gather is lost: the item's error is raised. */
  lemma CancelAgainstFailure<R>(states: seq<Batch<R>>, steps: seq<Step<R>>, n: nat, limit: int, failFast: bool,
                                c: nat, m: nat)
    requires Trace(states, steps, n, limit, failFast) && c < m < |states|
    requires steps[c].CallerCancelled? && (Gathered(states[c]) || states[c].verdict.Some?)
    requires Final(states[m])
    ensures states[m].phase.Raised?
    ensures states[m].phase.fault == if Gathered(states[c]) then CallCancelled else states[c].verdict.value
  {
    var fault := if Gathered(states[c]) then CallCancelled else states[c].verdict.value;
    assert Doomed(states[c + 1], fault);
    StaysDoomed(states, steps, n, limit, failFast, c + 1, m, fault);
  }

  /** A run in which a cancellation is lost: of two calls one fails, the batch call is cancelled before the
      gather hears of it, and the other call ends cancelled. */
  function LostSteps<R>(text: string): seq<Step<R>> {
    [Starts(0), Starts(1), Finishes(0, Error(text)), CallerCancelled, Hears, Catches, Finishes(1, Abort), Raises]
  }

  function LostState<R>(text: string, m: nat): Batch<R> {
    var fault: Fault<R> := ItemFault(0, Error(text));
    var first: ItemState<R> := if m == 0 then Created else if m <= 2 then Flying else Failed(Error(text));
    var second: ItemState<R> := if m <= 1 then Created else if m <= 6 then Flying else Failed(Abort);
    Batch([Item(first, m >= 4), Item(second, m >= 4)],
          if m == 0 then 2 else if m == 1 then 1 else if m == 2 then 0 else if m <= 6 then 1 else 2,
          if m <= 5 then Gathering else if m <= 7 then Draining(fault) else Raised(fault),
          if m <= 2 then None else Some(fault), m >= 5, m >= 4,
          if m == 0 then {} else if m == 1 then {0} else {0, 1})
  }

  lemma LostBegins<R>(text: string, m: nat)
    requires m < 2
    ensures Enabled(LostState<R>(text, m), LostSteps<R>(text)[m])
    ensures Next(LostState<R>(text, m), LostSteps<R>(text)[m], true) == LostState<R>(text, m + 1)
  {
  }

  lemma LostCancelled<R>(text: string, m: nat)
    requires 2 <= m < 5
    ensures Enabled(LostState<R>(text, m), LostSteps<R>(text)[m])
    ensures Next(LostState<R>(text, m), LostSteps<R>(text)[m], true) == LostState<R>(text, m + 1)
  {
    if m == 3 {
      assert !Terminal(LostState<R>(text, m).items[1]);
      assert CancelAll(LostState<R>(text, m).items) == LostState<R>(text, m + 1).items;
    }
  }

  lemma LostRaises<R>(text: string, m: nat)
    requires 5 <= m < 8
    ensures Enabled(LostState<R>(text, m), LostSteps<R>(text)[m])
    ensures Next(LostState<R>(text, m), LostSteps<R>(text)[m], true) == LostState<R>(text, m + 1)
  {
    if m == 5 {
      assert CancelAll(LostState<R>(text, m).items) == LostState<R>(text, m + 1).items;
    }
  }

  lemma LostLength<R>(text: string)
    ensures |LostSteps<R>(text)| == 8 && LostState<R>(text, 0) == Fresh(2, 2)
  {
    assert LostState<R>(text, 0).items == Fresh<R>(2, 2).items;
  }

  lemma CancellationLost<R>(text: string)
    ensures var states := seq(9, m requires 0 <= m < 9 => LostState<R>(text, m));
            Trace(states, LostSteps(text), 2, 2, true) && states[8].phase == Raised(ItemFault(0, Error(text)))
  {
    hide Next, Enabled, LostSteps;
    var states := seq(9, m requires 0 <= m < 9 => LostState<R>(text, m));
    LostLength<R>(text);
    forall m | 0 <= m < 8
      ensures Enabled(states[m], LostSteps<R>(text)[m]) && states[m + 1] == Next(states[m], LostSteps<R>(text)[m], true)
    {
      if m < 2 {
        LostBegins<R>(text, m);
      } else if m < 5 {
        LostCancelled<R>(text, m);
      } else {
        LostRaises<R>(text, m);
      }
    }
  }

  // ---- Parallel against sequential ----

  /** The tool's outcome depends only on its params, as long as nobody cancels the call. */
  ghost predicate FollowsTool<P, R>(b: Batch<R>, step: Step<R>, params: seq<P>, tool: P -> Outcome<R>) {
    step.Finishes? && step.i < |b.items| && step.i < |params| && !b.items[step.i].cancelled
    ==> step.outcome == tool(params[step.i])
  }

  /** A run of a tool like that, with nobody cancelling the batch call from outside. */
  ghost predicate Undisturbed<P, R>(states: seq<Batch<R>>, steps: seq<Step<R>>, params: seq<P>, tool: P -> Outcome<R>) {
    forall m :: 0 <= m < |steps| && m < |states| ==>
      !steps[m].CallerCancelled? && FollowsTool(states[m], steps[m], params, tool)
  }

  ghost predicate Fills<P, R>(slots: seq<Slot<R>>, params: seq<P>, tool: P -> Outcome<R>, failFast: bool) {
    && |slots| == |params|
    && forall i :: 0 <= i < |params| ==> !Aborts(tool(params[i]), failFast) && SlotFor(slots[i], tool(params[i]))
  }

  ghost predicate EndedByTool<R>(item: Item<R>, outcome: Outcome<R>, failFast: bool) {
    !item.cancelled && (Terminal(item) ==> item.st == Settle(outcome, failFast))
  }

  ghost predicate BlamesTool<P, R>(fault: Fault<R>, params: seq<P>, tool: P -> Outcome<R>, failFast: bool) {
    fault.ItemFault? && fault.i < |params| && fault.outcome == tool(params[fault.i])
    && Aborts(fault.outcome, failFast)
  }

  /** Before anything was cancelled, an ended item ended as its tool call says; and so did the item the
      verdict names. */
  ghost predicate ByTool<P, R>(b: Batch<R>, params: seq<P>, tool: P -> Outcome<R>, failFast: bool) {
    && |b.items| == |params| && !b.outer
    && (b.phase.Gathering? ==> forall i :: 0 <= i < |params| ==> EndedByTool(b.items[i], tool(params[i]), failFast))
    && (b.verdict.Some? ==> BlamesTool(b.verdict.value, params, tool, failFast))
    && (b.phase.Draining? || b.phase.Raised? ==> BlamesTool(b.phase.fault, params, tool, failFast))
    && (b.phase.Returned? ==> Fills(b.phase.slots, params, tool, failFast))
  }

  lemma StepByTool<P, R>(b: Batch<R>, step: Step<R>, params: seq<P>, tool: P -> Outcome<R>, failFast: bool)
    requires ByTool(b, params, tool, failFast) && Enabled(b, step) && !step.CallerCancelled?
    requires FollowsTool(b, step, params, tool)
    ensures ByTool(Next(b, step, failFast), params, tool, failFast)
  {
  }

  lemma {:induction false} TraceByTool<P, R>(states: seq<Batch<R>>, steps: seq<Step<R>>, limit: int, failFast: bool,
                                             params: seq<P>, tool: P -> Outcome<R>, m: nat)
    requires Trace(states, steps, |params|, limit, failFast) && m < |states|
    requires Undisturbed(states, steps, params, tool)
    ensures ByTool(states[m], params, tool, failFast)
  {
    if m > 0 {
      TraceByTool(states, steps, limit, failFast, params, tool, m - 1);
      StepByTool(states[m - 1], steps[m - 1], params, tool, failFast);
    }
  }

  /** The first failing item stops the sequential branch. */
  ghost predicate StopsAt<P, R>(r: SequentialResult<R>, params: seq<P>, tool: P -> Outcome<R>, failFast: bool) {
    && r.Stopped? && r.i < |params| && r.outcome == tool(params[r.i]) && Aborts(r.outcome, failFast)
    && forall i :: 0 <= i < r.i ==> !Aborts(tool(params[i]), failFast)
  }

  /** The sequential branch lists the slots when every item fills one, and otherwise raises the first
      failing item's error. */
  lemma {:induction false} InOrderMeans<P, R>(params: seq<P>, tool: P -> Outcome<R>, failFast: bool)
    ensures var r := RunInOrder(params, tool, failFast);
            if r.Listed? then Fills(r.slots, params, tool, failFast) else StopsAt(r, params, tool, failFast)
  {
    if params != [] {
      InOrderMeans(params[..|params| - 1], tool, failFast);
    }
  }

  lemma FilledListed<P, R>(slots: seq<Slot<R>>, params: seq<P>, tool: P -> Outcome<R>, failFast: bool)
    requires Fills(slots, params, tool, failFast)
    ensures RunInOrder(params, tool, failFast) == Listed(slots)
  {
    InOrderMeans(params, tool, failFast);
    var r := RunInOrder(params, tool, failFast);
    if r.Listed? {
      assert forall i :: 0 <= i < |params| ==>
               SlotFor(r.slots[i], tool(params[i])) && SlotFor(slots[i], tool(params[i]));
      assert r.slots == slots;
    }
  }

  lemma BlamedStopped<P, R>(fault: Fault<R>, params: seq<P>, tool: P -> Outcome<R>, failFast: bool)
    requires BlamesTool(fault, params, tool, failFast)
    ensures RunInOrder(params, tool, failFast).Stopped?
  {
    InOrderMeans(params, tool, failFast);
  }

  /** Parallel refines sequential: whatever the schedule and the limit, a parallel batch that returns
      gives the list the sequential batch gives, and one that raises does so iff the sequential batch
      raises, with the error of an item that fails. With `RunsEnd` and `NeverStuck` one of them happens. */
  lemma ParallelRefinesSequential<P, R>(states: seq<Batch<R>>, steps: seq<Step<R>>, limit: int, failFast: bool,
                                        params: seq<P>, tool: P -> Outcome<R>, m: nat)
    requires Trace(states, steps, |params|, limit, failFast) && m < |states|
    requires Undisturbed(states, steps, params, tool)
    ensures var (phase, r) := (states[m].phase, RunInOrder(params, tool, failFast));
            && (phase.Returned? ==> r == Listed(phase.slots))
            && (phase.Raised? ==> r.Stopped? && BlamesTool(phase.fault, params, tool, failFast))
            && (Final(states[m]) ==> (phase.Raised? <==> r.Stopped?))
  {
    TraceByTool(states, steps, limit, failFast, params, tool, m);
    var phase := states[m].phase;
    if phase.Returned? {
      FilledListed(phase.slots, params, tool, failFast);
    } else if phase.Raised? {
      BlamedStopped(phase.fault, params, tool, failFast);
    }
  }

  /** Without fail-fast a finished batch has returned iff no tool call ended outside the `Exception`
      hierarchy, and then every failing item's text is in its slot. */
  lemma NoFailFastReturns<P, R>(states: seq<Batch<R>>, steps: seq<Step<R>>, limit: int,
                                params: seq<P>, tool: P -> Outcome<R>, m: nat)
    requires Trace(states, steps, |params|, limit, false) && m < |states| && Final(states[m])
    requires Undisturbed(states, steps, params, tool)
    ensures var phase := states[m].phase;
            && (phase.Returned? <==> forall p :: p in params ==> !tool(p).Abort?)
            && (phase.Returned? ==> |phase.slots| == |params| && forall i :: 0 <= i < |params| ==>
                  phase.slots[i]
                  == match tool(params[i]) case Value(v) => Result(v) case Error(text) => ErrorText(text))
  {
    TraceByTool(states, steps, limit, false, params, tool, m);
    var phase := states[m].phase;
    if phase.Raised? {
      assert tool(params[phase.fault.i]).Abort?;
    }
  }

  /** With fail-fast the sequential branch lists the values iff every call gives one, and otherwise raises
      the error of the first call that does not. */
  lemma FailFastInOrder<P, R>(params: seq<P>, tool: P -> Outcome<R>)
    ensures var r := RunInOrder(params, tool, true);
            if forall i :: 0 <= i < |params| ==> tool(params[i]).Value?
            then r.Listed? && |r.slots| == |params|
                 && forall i :: 0 <= i < |params| ==> r.slots[i] == Result(tool(params[i]).value)
            else r.Stopped? && r.i < |params| && !tool(params[r.i]).Value? && r.outcome == tool(params[r.i])
                 && forall i :: 0 <= i < r.i ==> tool(params[i]).Value?
  {
    InOrderMeans(params, tool, true);
  }

  /** With fail-fast a finished parallel batch has returned the values iff every call gives one, and otherwise
      raised the error of a call that does not. */
  lemma FailFastRaises<P, R>(states: seq<Batch<R>>, steps: seq<Step<R>>, limit: int,
                             params: seq<P>, tool: P -> Outcome<R>, m: nat)
    requires Trace(states, steps, |params|, limit, true) && m < |states| && Final(states[m])
    requires Undisturbed(states, steps, params, tool)
    ensures var phase := states[m].phase;
            if forall i :: 0 <= i < |params| ==> tool(params[i]).Value?
            then phase.Returned? && |phase.slots| == |params|
                 && forall i :: 0 <= i < |params| ==> phase.slots[i] == Result(tool(params[i]).value)
            else phase.Raised? && phase.fault.ItemFault? && phase.fault.i < |params|
                 && !tool(params[phase.fault.i]).Value? && phase.fault.outcome == tool(params[phase.fault.i])
  {
    TraceByTool(states, steps, limit, true, params, tool, m);
  }
}
