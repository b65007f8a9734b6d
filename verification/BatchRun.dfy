/** The parallel branch as the state the code updates: a counting semaphore, a list of tasks, and the
    caller's position. Each method is one step of `BatchRunner`, proved against it. */
module BatchRunClass {
  import opened Seqs
  import opened BatchRunner

  class BatchRun<R> {
    const failFast: bool
    const items: array<Item<R>>
    var permits: int
    var phase: Phase<R>
    var verdict: Option<Fault<R>>
    var heard: bool
    var outer: bool
    ghost var called: set<nat>

    ghost function Model(): Batch<R>
      reads this, items
    {
      Batch(items[..], permits, phase, verdict, heard, outer, called)
    }

    constructor (n: nat, limit: int, failFast: bool)
      ensures Model() == Fresh(n, limit) && this.failFast == failFast && fresh(items)
    {
      this.failFast := failFast;
      items := new Item<R>[n](_ => Item(Created, false));
      permits, phase, verdict, heard, outer, called := limit, Gathering, None, false, false, {};
      new;
      assert items[..] == Fresh<R>(n, limit).items;
    }

    method AnyWaiting() returns (any: bool)
      ensures any == AnyQueued(items[..])
    {
      any := false;
      for i := 0 to items.Length
        invariant any <==> exists j :: 0 <= j < i && items[j].st.Queued?
      {
        any := any || items[i].st.Queued?;
      }
    }

    method Move(i: nat, st: ItemState<R>)
      requires i < items.Length
      modifies items
      ensures items[..] == At(old(Model()), i, st)
    {
      items[i] := items[i].(st := st);
    }

    /** A task first runs: it takes a permit, or queues for one. */
    method Start(i: nat)
      requires Enabled(Model(), Starts(i))
      modifies this, items
      ensures Model() == Next(old(Model()), Starts(i), failFast)
      ensures items[i].st.Flying? <==> old(permits) > 0 && !old(AnyQueued(items[..]))
    {
      var waiting := AnyWaiting();
      if permits > 0 && !waiting {
        Move(i, Flying);
        permits, called := permits - 1, called + {i};
      } else {
        Move(i, Queued);
      }
    }

    method Admit(i: nat)
      requires Enabled(Model(), Admitted(i))
      modifies this, items
      ensures Model() == Next(old(Model()), Admitted(i), failFast)
    {
      Move(i, Flying);
      permits, called := permits - 1, called + {i};
    }

    /** The tool call ends: the permit goes back, and a first failure is on its way to the gather. */
    method Finish(i: nat, outcome: Outcome<R>)
      requires Enabled(Model(), Finishes(i, outcome))
      modifies this, items
      ensures Model() == Next(old(Model()), Finishes(i, outcome), failFast)
      ensures permits == old(permits) + 1
      ensures match outcome
              case Value(v) => items[i].st == Done(Result(v))
              case Error(text) => items[i].st == if failFast then Failed(outcome) else Done(ErrorText(text))
              case Abort => items[i].st == Failed(outcome)
    {
      var st := Settle(outcome, failFast);
      if verdict.None? && phase.Gathering? && st.Failed? {
        verdict := Some(ItemFault(i, outcome));
      }
      Move(i, st);
      permits := permits + 1;
    }

    /** A cancelled coroutine that never called the tool ends. */
    method Drop(i: nat)
      requires Enabled(Model(), Drops(i))
      modifies this, items
      ensures Model() == Next(old(Model()), Drops(i), failFast)
    {
      if verdict.None? && phase.Gathering? {
        verdict := Some(ItemFault(i, Abort));
      }
      Move(i, Dropped);
    }

    method AllEnded() returns (all: bool)
      ensures all == AllTerminal(items[..])
    {
      all := true;
      for i := 0 to items.Length
        invariant all <==> forall j :: 0 <= j < i ==> Terminal(items[j])
      {
        all := all && Terminal(items[i]);
      }
    }

    /** The call itself is cancelled: the gather passes it on to the tasks, unless it is over. */
    method CancelCall()
      requires Enabled(Model(), CallerCancelled)
      modifies this, items
      ensures Model() == Next(old(Model()), CallerCancelled, failFast)
    {
      var ended := AllEnded();
      if heard || ended {
        verdict := Some(CallCancelled);
      } else {
        CancelTasks();
      }
      outer := true;
    }

    /** The gather's results, in the order of the tasks. */
    method Return()
      requires Enabled(Model(), Returns)
      modifies this
      ensures Model() == Next(old(Model()), Returns, failFast)
    {
      var slots: seq<Slot<R>> := [];
      for i := 0 to items.Length
        invariant |slots| == i && forall j :: 0 <= j < i ==> slots[j] == items[j].st.slot
      {
        slots := slots + [items[i].st.slot];
      }
      assert slots == Slots(items[..]);
      phase := Returned(slots);
    }

    /** The gather's future takes the first failure. */
    method Hear()
      requires Enabled(Model(), Hears)
      modifies this
      ensures Model() == Next(old(Model()), Hears, failFast)
    {
      heard := true;
    }

    /** `for task in tasks: task.cancel()` */
    method CancelTasks()
      modifies items
      ensures items[..] == CancelAll(old(items[..]))
    {
      for i := 0 to items.Length
        invariant forall j :: 0 <= j < i ==> items[j] == old(items[j]).(cancelled := true)
        invariant forall j :: i <= j < items.Length ==> items[j] == old(items[j])
      {
        items[i] := items[i].(cancelled := true);
      }
    }

    /** The `except` clause: cancel everything, then drain. */
    method Catch()
      requires Enabled(Model(), Catches)
      modifies this, items
      ensures Model() == Next(old(Model()), Catches, failFast)
    {
      phase := Draining(if verdict.Some? then verdict.value else CallCancelled);
      CancelTasks();
    }

    /** The drained call re-raises. */
    method Raise()
      requires Enabled(Model(), Raises)
      modifies this
      ensures Model() == Next(old(Model()), Raises, failFast)
    {
      phase := Raised(phase.fault);
    }
  }
}
