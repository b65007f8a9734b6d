/** What each step does to its caller, how every caller of a run came to where it stands, and that every
    run ends with nobody left waiting. */
module CallerOutcomes {
  import opened Seqs
  import opened StoreModel
  import opened CacheProtocol
  import C = CacheCalls

  // ---- One step ----

  /** The value a reader of `k` is given at `now`. */
  ghost predicate FindsValue<V>(s: Sys<V>, k: Key, now: real) {
    k in s.store.values && LiveAt(s.store.values[k], now)
  }

  /** Some caller that has not ended uses the lock `l`. */
  ghost predicate InUse<V>(s: Sys<V>, l: nat) {
    exists j :: 0 <= j < |s.callers|
                && (s.callers[j].pc == Waiting(l) || s.callers[j].pc == Running(l))
  }

  /** Only the stepping caller moves, and only its position. */
  ghost predicate OnlyMoves<V>(s: Sys<V>, i: nat, t: Sys<V>) {
    && |t.callers| == |s.callers| && i < |s.callers|
    && t.callers == s.callers[i := s.callers[i].(pc := t.callers[i].pc)]
  }

  lemma InUseIsBusy<V>(s: Sys<V>, l: nat)
    ensures InUse(s, l) <==> Busy(s, l)
  {
    if Busy(s, l) {
      var j :| 0 <= j < |s.callers| && Engaged(s.callers[j]) && s.callers[j].pc.lock == l;
      assert s.callers[j].pc == Waiting(l) || s.callers[j].pc == Running(l);
    }
  }

  lemma ReadFinds<V, L>(s: Store<V, L>, k: Key, now: real)
    ensures Read(s, k, now).1 == if k in s.values && LiveAt(s.values[k], now) then Some(s.values[k].value) else None
  {
  }

  /** An arriving caller takes a live value; else it waits for the registered lock while that is in use, and
      otherwise runs the backing function under the registered lock or one of its own. */
  lemma ArrivalOutcome<V>(s: Sys<V>, i: nat, fast: real, held: real)
    requires Valid(s.store) && Enabled(s, Arrives(i, fast, held))
    ensures var (k, t) := (s.callers[i].key, Next(s, Arrives(i, fast, held)));
            var l := if k in s.store.locks then s.store.locks[k] else s.nextLock;
            && OnlyMoves(s, i, t) && t.produced == s.produced && t.now == held
            && (if FindsValue(s, k, fast)
                then t.callers[i].pc == Done(s.store.values[k].value) && t.began == s.began
                     && t.store.locks == s.store.locks
                else t.store.locks == s.store.locks[k := l]
                     && if InUse(s, l) then t.callers[i].pc == Waiting(l) && t.began == s.began
                        else t.callers[i].pc == Running(l) && t.began == s.began + multiset{k})
  {
    hide Read;
    var k := s.callers[i].key;
    ReadShrinks(s.store, k, fast);
    ReadFinds(s.store, k, fast);
    MissedIsAbsent(s.store, k, fast, held, s.nextLock);
    var l := NewLock(s, k);
    assert InUse(s, l) <==> Busy(s, l) by {
      InUseIsBusy(s, l);
    }
    if k in s.store.locks {
      assert s.store.locks[k := s.store.locks[k]] == s.store.locks;
    }
  }

  /** A waiter that gets the lock takes a live value and drops the registry entry; without one it runs the
      backing function itself under that lock. */
  lemma ResumptionOutcome<V>(s: Sys<V>, i: nat, held: real)
    requires Valid(s.store) && Enabled(s, Resumes(i, held))
    ensures var (k, t) := (s.callers[i].key, Next(s, Resumes(i, held)));
            && OnlyMoves(s, i, t) && t.produced == s.produced && t.now == held
            && (if FindsValue(s, k, held)
                then t.callers[i].pc == Done(s.store.values[k].value) && t.began == s.began
                     && t.store.locks == s.store.locks - {k}
                else t.callers[i].pc == Running(s.callers[i].pc.lock) && t.began == s.began + multiset{k}
                     && t.store.locks == s.store.locks)
  {
    hide Read;
    ReadShrinks(s.store, s.callers[i].key, held);
    ReadFinds(s.store, s.callers[i].key, held);
  }

  /** A caller whose backing call ends, or that is cancelled, is done and leaves no registry entry of its key;
      only a value changes what is stored. */
  lemma EndOutcome<V>(s: Sys<V>, step: Step<V>)
    requires Valid(s.store) && Enabled(s, step) && (step.Produces? || step.Raises? || step.Cancels?)
    ensures var (c, t) := (s.callers[step.i], Next(s, step));
            && OnlyMoves(s, step.i, t) && t.began == s.began
            && t.callers[step.i].pc == (if step.Produces? then Done(step.value) else if step.Raises? then Failed
                                        else Cancelled)
            && t.produced == (if step.Produces? then s.produced + [(c.key, step.value)] else s.produced)
            && t.store.locks == (if c.pc.Idle? then s.store.locks else s.store.locks - {c.key})
            && (!step.Produces? ==> t.store.values == s.store.values && t.store.order == s.store.order)
  {
    hide C.Finish;
    if step.Produces? {
      var c := s.callers[step.i];
      FinishAdds(s.store, c.key, step.value, c.exp, step.stamp, step.sweep);
    }
  }

  // ---- Whole runs ----

  /** Caller `i` came to `pc` by a step of its own. */
  ghost predicate Accounted<V>(steps: seq<Step<V>>, n: nat, i: nat, pc: Pc<V>) {
    && (pc.Failed? <==> exists m :: 0 <= m < n && m < |steps| && steps[m] == Raises(i))
    && (pc.Cancelled? <==> exists m :: 0 <= m < n && m < |steps| && steps[m] == Cancels(i))
    && (pc.Idle? <==> forall m :: 0 <= m < n && m < |steps| ==> steps[m].i != i)
  }

  ghost predicate AllAccounted<V>(s: Sys<V>, steps: seq<Step<V>>, n: nat) {
    forall i: nat :: i < |s.callers| ==> Accounted(steps, n, i, s.callers[i].pc)
  }

  /** How a step of a caller changes its position. */
  lemma StepMoves<V>(s: Sys<V>, step: Step<V>)
    requires Valid(s.store) && Enabled(s, step)
    ensures var (t, i) := (Next(s, step), step.i);
            && OnlyMoves(s, i, t)
            && !(s.callers[i].pc.Done? || s.callers[i].pc.Failed? || s.callers[i].pc.Cancelled?)
            && !t.callers[i].pc.Idle?
            && (t.callers[i].pc.Failed? <==> step.Raises?) && (t.callers[i].pc.Cancelled? <==> step.Cancels?)
            && (t.callers[i].pc.Waiting? ==> s.callers[i].pc.Idle?)
            && (s.callers[i].pc.Running? ==> !t.callers[i].pc.Running?)
  {
    hide Next;
    match step
    case Arrives(i, fast, held) => ArrivalOutcome(s, i, fast, held);
    case Resumes(i, held) => ResumptionOutcome(s, i, held);
    case Produces(i, v, stamp, sweep) => EndOutcome(s, step);
    case Raises(i) => EndOutcome(s, step);
    case Cancels(i) => EndOutcome(s, step);
  }

  lemma StepAccounted<V>(s: Sys<V>, steps: seq<Step<V>>, n: nat)
    requires n < |steps| && Valid(s.store) && Enabled(s, steps[n]) && AllAccounted(s, steps, n)
    ensures AllAccounted(Next(s, steps[n]), steps, n + 1)
  {
    hide Next;
    var t := Next(s, steps[n]);
    StepMoves(s, steps[n]);
    forall i: nat | i < |t.callers| ensures Accounted(steps, n + 1, i, t.callers[i].pc) {
      assert Accounted(steps, n, i, s.callers[i].pc);
    }
  }

  /** In every run a caller has failed iff its backing call raised, is cancelled iff it was cancelled, and is
      idle iff it has not arrived: nobody fails for another caller's failure. */
  lemma {:induction false} OwnFailuresOnly<V>(states: seq<Sys<V>>, steps: seq<Step<V>>, n: nat)
    requires Trace(states, steps) && n < |states|
    ensures AllAccounted(states[n], steps, n)
  {
    hide Next, Enabled;
    if n > 0 {
      OwnFailuresOnly(states, steps, n - 1);
      TraceTransparent(states, steps, n - 1);
      StepAccounted(states[n - 1], steps, n - 1);
    }
  }

  // ---- Every run ends ----

  /** The steps a caller can still take. */
  function StepsLeft<V>(pc: Pc<V>): nat {
    match pc
    case Idle => 3
    case Waiting(_) => 2
    case Running(_) => 1
    case _ => 0
  }

  function Work<V>(callers: seq<Caller<V>>): nat {
    if callers == [] then 0 else Work(callers[..|callers| - 1]) + StepsLeft(callers[|callers| - 1].pc)
  }

  lemma {:induction false} WorkAfter<V>(callers: seq<Caller<V>>, i: nat, c: Caller<V>)
    requires i < |callers|
    ensures Work(callers[i := c]) == Work(callers) + StepsLeft(c.pc) - StepsLeft(callers[i].pc)
  {
    var n := |callers| - 1;
    if i == n {
      assert callers[i := c][..n] == callers[..n];
    } else {
      assert callers[i := c][..n] == callers[..n][i := c];
      WorkAfter(callers[..n], i, c);
    }
  }

  lemma {:induction false} WorkBound<V>(callers: seq<Caller<V>>)
    ensures Work(callers) <= 3 * |callers|
  {
    if callers != [] {
      WorkBound(callers[..|callers| - 1]);
    }
  }

  lemma StepLeaves<V>(s: Sys<V>, step: Step<V>)
    requires Valid(s.store) && Enabled(s, step)
    ensures OnlyMoves(s, step.i, Next(s, step))
    ensures StepsLeft(Next(s, step).callers[step.i].pc) < StepsLeft(s.callers[step.i].pc)
  {
    hide Next;
    match step
    case Arrives(i, fast, held) => ArrivalOutcome(s, i, fast, held);
    case Resumes(i, held) => ResumptionOutcome(s, i, held);
    case Produces(i, v, stamp, sweep) => EndOutcome(s, step);
    case Raises(i) => EndOutcome(s, step);
    case Cancels(i) => EndOutcome(s, step);
  }

  lemma StepWorks<V>(s: Sys<V>, step: Step<V>)
    requires Valid(s.store) && Enabled(s, step)
    ensures Work(Next(s, step).callers) < Work(s.callers)
  {
    hide Next, Work;
    StepMoves(s, step);
    StepLeaves(s, step);
    WorkAfter(s.callers, step.i, Next(s, step).callers[step.i]);
  }

  lemma {:induction false} TraceWorks<V>(states: seq<Sys<V>>, steps: seq<Step<V>>, n: nat)
    requires Trace(states, steps) && n < |states|
    ensures Work(states[n].callers) + n <= 3 * |states[0].callers|
  {
    hide Next, Enabled;
    if n == 0 {
      WorkBound(states[0].callers);
    } else {
      TraceWorks(states, steps, n - 1);
      TraceTransparent(states, steps, n - 1);
      StepWorks(states[n - 1], steps[n - 1]);
    }
  }

  /** Every run ends: no caller takes more than three steps. */
  lemma RunsEnd<V>(states: seq<Sys<V>>, steps: seq<Step<V>>)
    requires Trace(states, steps)
    ensures |steps| <= 3 * |states[0].callers|
  {
    TraceWorks(states, steps, |steps|);
  }

  predicate Ended<V>(c: Caller<V>) {
    c.pc.Done? || c.pc.Failed? || c.pc.Cancelled?
  }

  /** Nobody is stuck: a caller that has not ended can step itself, or waits for a caller of the same key whose
      backing call runs and can end with any value. No cancellation and no failure is needed. */
  lemma NeverStuck<V>(states: seq<Sys<V>>, steps: seq<Step<V>>, n: nat, i: nat, v: V) returns (step: Step<V>)
    requires Trace(states, steps) && n < |states| && i < |states[n].callers| && !Ended(states[n].callers[i])
    ensures Enabled(states[n], step)
    ensures step.Arrives? || step.Resumes? || step == Produces(step.i, v, states[n].now, states[n].now)
    ensures step.i != i ==> states[n].callers[i].pc.Waiting? && step.Produces?
                            && states[n].callers[step.i].key == states[n].callers[i].key
  {
    var s := states[n];
    TraceRegistered(states, steps, n);
    match s.callers[i].pc
    case Idle => step := Arrives(i, s.now, s.now);
    case Running(_) => step := Produces(i, v, s.now, s.now);
    case Waiting(l) =>
      if Held(s, l) {
        var j :| 0 <= j < |s.callers| && s.callers[j].pc == Running(l);
        assert SharedLockSharedKey(s.callers[i], s.callers[j]);
        step := Produces(j, v, s.now, s.now);
      } else {
        step := Resumes(i, s.now);
      }
  }

  /** A caller that has not ended can be cancelled at any moment, and a backing call can raise or return any
      value at any later time; that ends the caller. */
  lemma EndsAnytime<V>(s: Sys<V>, i: nat, v: V, stamp: real, sweep: real)
    requires Valid(s.store) && i < |s.callers| && !Ended(s.callers[i]) && s.now <= stamp <= sweep
    ensures Enabled(s, Cancels(i)) && Ended(Next(s, Cancels(i)).callers[i])
    ensures s.callers[i].pc.Running? ==>
              && Enabled(s, Raises(i)) && Ended(Next(s, Raises(i)).callers[i])
              && Enabled(s, Produces(i, v, stamp, sweep)) && Ended(Next(s, Produces(i, v, stamp, sweep)).callers[i])
  {
    hide Next;
    EndOutcome(s, Cancels(i));
    if s.callers[i].pc.Running? {
      EndOutcome(s, Raises(i));
      EndOutcome(s, Produces(i, v, stamp, sweep));
    }
  }

  // ---- Freshness ----

  /** Step `m` is the latest backing call on `k` that ended with a value. */
  ghost predicate LatestYield<V>(states: seq<Sys<V>>, steps: seq<Step<V>>, n: nat, k: Key, m: int) {
    && 0 <= m < n && n <= |steps| && n <= |states| && steps[m].Produces?
    && steps[m].i < |states[m].callers| && states[m].callers[steps[m].i].key == k
    && forall l :: m < l < n && steps[l].Produces? && steps[l].i < |states[l].callers| ==>
         states[l].callers[steps[l].i].key != k
  }

  ghost predicate FromYield<V>(states: seq<Sys<V>>, steps: seq<Step<V>>, n: nat, k: Key, e: Entry<V>) {
    exists m :: LatestYield(states, steps, n, k, m)
                && e == Entry(steps[m].value, Expiry(states[m].callers[steps[m].i].exp, steps[m].stamp))
  }

  lemma {:induction false} StoredFromYield<V>(states: seq<Sys<V>>, steps: seq<Step<V>>, n: nat, k: Key)
    requires Trace(states, steps) && n < |states| && k in states[n].store.values
    ensures FromYield(states, steps, n, k, states[n].store.values[k])
  {
    hide Next, Expiry;
    if n > 0 {
      var (s, step) := (states[n - 1], steps[n - 1]);
      TraceTransparent(states, steps, n - 1);
      StepEntry(s, step, k);
      if step.Produces? && s.callers[step.i].key == k {
        assert LatestYield(states, steps, n, k, n - 1);
      } else {
        StoredFromYield(states, steps, n - 1, k);
        var m :| LatestYield(states, steps, n - 1, k, m)
                 && s.store.values[k] == Entry(steps[m].value,
                                               Expiry(states[m].callers[steps[m].i].exp, steps[m].stamp));
        assert LatestYield(states, steps, n, k, m);
      }
    }
  }

  /** In every run a caller that finds a value is given that of the latest backing call on its key that ended
      with one, and the TTL given with that call has not elapsed at the reading. */
  lemma HitIsFresh<V>(states: seq<Sys<V>>, steps: seq<Step<V>>, n: nat)
    requires Trace(states, steps) && n < |steps| && (steps[n].Arrives? || steps[n].Resumes?)
    requires states[n + 1].callers[steps[n].i].pc.Done?
    ensures var (i, now) := (steps[n].i, if steps[n].Arrives? then steps[n].fast else steps[n].held);
            exists m :: LatestYield(states, steps, n, states[n].callers[i].key, m)
                        && states[n + 1].callers[i].pc == Done(steps[m].value)
                        && Unexpired(states[m].callers[steps[m].i].exp, steps[m].stamp, now)
  {
    hide Next, Expiry, LiveAt;
    var (s, step) := (states[n], steps[n]);
    TraceTransparent(states, steps, n);
    match step {
      case Arrives(i, fast, held) => ArrivalOutcome(s, i, fast, held);
      case Resumes(i, held) => ResumptionOutcome(s, i, held);
    }
    var (k, now) := (s.callers[step.i].key, if step.Arrives? then step.fast else step.held);
    assert FindsValue(s, k, now);
    StoredFromYield(states, steps, n, k);
    var m :| LatestYield(states, steps, n, k, m)
             && s.store.values[k] == Entry(steps[m].value,
                                           Expiry(states[m].callers[steps[m].i].exp, steps[m].stamp));
    ExpiryMeans(steps[m].value, states[m].callers[steps[m].i].exp, steps[m].stamp, now);
  }
}
