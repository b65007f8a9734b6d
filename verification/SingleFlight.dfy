/** Single flight over whole runs. For one key: while none of its callers raises, none is cancelled before
    the value is there, and the stored value is not lost, the backing function runs at most once, whatever
    happens to other keys; and the first step that breaks this lets the next caller run it again. For all
    keys at once: nothing expires and the distinct keys fit the cap. */
module SingleFlight {
  import opened Seqs
  import opened StoreModel
  import opened CacheProtocol
  import C = CacheCalls

  // ---- One key ----

  /** What the callers of a key share: its stored value, its registered lock, its backing calls so far. */
  datatype View<V> = View(value: Option<V>, lock: Option<nat>, began: nat)

  ghost function ViewOf<V>(s: Sys<V>, k: Key): View<V> {
    View(if k in s.store.values then Some(s.store.values[k].value) else None,
         if k in s.store.locks then Some(s.store.locks[k]) else None, s.began[k])
  }

  predicate Runs<V>(c: Caller<V>, k: Key) {
    c.pc.Running? && c.key == k
  }

  ghost predicate Runner<V>(callers: seq<Caller<V>>, k: Key) {
    exists j :: 0 <= j < |callers| && Runs(callers[j], k)
  }

  /** What the position of a caller of `k` says about the view: a finished one returned the stored value,
      a running one is the only backing call, and before the value is there all use the registered lock. */
  ghost predicate Fits<V>(c: Caller<V>, k: Key, v: View<V>) {
    c.key == k ==>
      && (c.pc.Done? ==> v.value == Some(c.pc.value))
      && (c.pc.Running? ==> v.value.None? && v.began == 1)
      && (Engaged(c) && v.value.None? ==> v.lock == Some(c.pc.lock))
  }

  /** A waiter without a stored value waits behind the backing call, and a backing call that began is
      still running or its value is stored. */
  ghost predicate Flight<V>(callers: seq<Caller<V>>, k: Key, v: View<V>) {
    && (forall i :: 0 <= i < |callers| ==> Fits(callers[i], k, v))
    && (forall i :: 0 <= i < |callers| && callers[i].key == k && callers[i].pc.Waiting? && v.value.None? ==>
          Runner(callers, k))
    && v.began <= 1 && (v.value.Some? ==> v.began == 1) && (v.began > 0 ==> v.value.Some? || Runner(callers, k))
  }

  /** Changing a caller that does not run `k` leaves `k`'s runner in place. */
  lemma RunnerStays<V>(callers: seq<Caller<V>>, i: nat, c: Caller<V>, k: Key)
    requires i < |callers| && !Runs(callers[i], k)
    ensures Runner(callers, k) ==> Runner(callers[i := c], k)
  {
    if Runner(callers, k) {
      var j :| 0 <= j < |callers| && Runs(callers[j], k);
      assert Runs(callers[i := c][j], k);
    }
  }

  // ---- What a step can do to the callers of a key ----

  /** A caller of another key moves, or one of this key gives up before it began. */
  lemma AsideFlight<V>(callers: seq<Caller<V>>, k: Key, v: View<V>, i: nat, c: Caller<V>)
    requires Flight(callers, k, v) && i < |callers| && c.key == callers[i].key
    requires c.key == k ==> callers[i].pc.Idle? && c.pc.Cancelled?
    ensures Flight(callers[i := c], k, v)
  {
    RunnerStays(callers, i, c, k);
  }

  /** With the value there, a caller takes it or gives up, perhaps with the registry entry. */
  lemma HitFlight<V>(callers: seq<Caller<V>>, k: Key, v: View<V>, i: nat, c: Caller<V>, after: View<V>)
    requires Flight(callers, k, v) && i < |callers| && !callers[i].pc.Running? && callers[i].key == k == c.key
    requires v.value.Some? && (c.pc == Done(v.value.value) || c.pc.Cancelled?) && after == v.(lock := after.lock)
    ensures Flight(callers[i := c], k, after)
  {
    RunnerStays(callers, i, c, k);
  }

  /** A caller queues for the registered lock while the backing call runs. */
  lemma QueueFlight<V>(callers: seq<Caller<V>>, k: Key, v: View<V>, i: nat, c: Caller<V>)
    requires Flight(callers, k, v) && i < |callers| && callers[i].pc.Idle? && callers[i].key == k == c.key
    requires v.value.None? && v.lock.Some? && c.pc == Waiting(v.lock.value) && Runner(callers, k)
    ensures Flight(callers[i := c], k, v)
  {
    RunnerStays(callers, i, c, k);
  }

  /** The first caller registers its lock and starts the backing call. */
  lemma BeginFlight<V>(callers: seq<Caller<V>>, k: Key, v: View<V>, i: nat, c: Caller<V>)
    requires Flight(callers, k, v) && i < |callers| && callers[i].pc.Idle? && callers[i].key == k == c.key
    requires v.value.None? && v.lock.None? && c.pc.Running?
    ensures Flight(callers[i := c], k, View(None, Some(c.pc.lock), v.began + 1))
  {
    forall j | 0 <= j < |callers| && callers[j].key == k ensures !Engaged(callers[j]) {
      assert Fits(callers[j], k, v);
    }
    assert Runs(callers[i := c][i], k);
  }

  /** The backing call's value is stored, and the registry entry goes. */
  lemma ProduceFlight<V>(callers: seq<Caller<V>>, k: Key, v: View<V>, i: nat, c: Caller<V>)
    requires Flight(callers, k, v) && i < |callers| && callers[i].pc.Running? && callers[i].key == k == c.key
    requires c.pc.Done?
    requires forall j :: 0 <= j < |callers| && j != i ==> !BothHold(callers[i], callers[j])
    ensures Flight(callers[i := c], k, View(Some(c.pc.value), None, v.began))
  {
    assert Fits(callers[i], k, v);
    forall j | 0 <= j < |callers| && j != i && callers[j].key == k
      ensures !callers[j].pc.Running? && !callers[j].pc.Done?
    {
      assert Fits(callers[j], k, v) && !BothHold(callers[i], callers[j]);
    }
  }

  // ---- Steps ----

  /** A caller that has not begun, or that waits although the value is there, may be cancelled. */
  ghost predicate HarmlessCancel<V>(s: Sys<V>, i: nat)
    requires i < |s.callers|
  {
    var c := s.callers[i];
    c.pc.Idle? || (c.pc.Waiting? && c.key in s.store.values)
  }

  /** No caller of `k` raises or is cancelled in the middle, and `k`'s value is not found expired, swept or
      evicted. All of this can be read off before the step. */
  ghost predicate Spares<V>(s: Sys<V>, step: Step<V>, k: Key) {
    && step.i < |s.callers|
    && (s.callers[step.i].key == k ==> !step.Raises? && (step.Cancels? ==> HarmlessCancel(s, step.i)))
    && (k in s.store.values ==> !LosesValue(s, step, k))
  }

  lemma SparedStays<V>(s: Sys<V>, step: Step<V>, k: Key)
    requires WithinCap(s.store) && Enabled(s, step) && Spares(s, step, k) && k in s.store.values
    ensures k in Next(s, step).store.values
  {
    LossIff(s, step, k);
  }

  lemma RegisteredHasRunner<V>(s: Sys<V>, k: Key)
    requires Registered(s) && Flight(s.callers, k, ViewOf(s, k)) && k in s.store.locks && k !in s.store.values
    ensures Runner(s.callers, k) && Busy(s, s.store.locks[k])
  {
    LockKnown(s, k);
    var i :| 0 <= i < |s.callers| && Uses(s.callers[i], k, s.store.locks[k]);
    assert s.callers[i].pc.Running? ==> Runs(s.callers[i], k);
  }

  lemma FreshLockFree<V>(s: Sys<V>)
    requires Registered(s)
    ensures !Busy(s, s.nextLock)
  {
    forall j | 0 <= j < |s.callers| && Engaged(s.callers[j]) ensures s.callers[j].pc.lock != s.nextLock {
      assert LockBelow(s.callers[j], s.nextLock);
    }
  }

  /** A read of a value that is not lost is a hit, and no read finds a value that is not there. */
  lemma ArriveSpares<V, L>(s: Store<V, L>, k: Key, now: real, made: L, held: real)
    requires Valid(s)
    ensures var (t, hit) := C.Arrive(s, k, now, made);
            && (k !in s.values ==> hit.None? && k !in t.values && C.Hold(t, k, held).1.None?)
            && (k in s.values && hit.None? ==> k !in C.Hold(t, k, held).0.values && k !in t.values)
  {
  }

  lemma HoldSpares<V, L>(s: Store<V, L>, k: Key, now: real)
    requires Valid(s)
    ensures var (t, hit) := C.Hold(s, k, now);
            k in s.values ==> (hit.Some? <==> k in t.values)
  {
  }

  lemma ArriveFlight<V>(s: Sys<V>, i: nat, fast: real, held: real)
    requires Valid(s.store) && Registered(s) && Enabled(s, Arrives(i, fast, held))
    requires var (k, t) := (s.callers[i].key, Next(s, Arrives(i, fast, held)));
             Flight(s.callers, k, ViewOf(s, k)) && (k in s.store.values ==> k in t.store.values)
    ensures var (k, t) := (s.callers[i].key, Next(s, Arrives(i, fast, held))); Flight(t.callers, k, ViewOf(t, k))
  {
    hide C.Arrive, C.Hold, Flight, Registered;
    var (k, t) := (s.callers[i].key, Next(s, Arrives(i, fast, held)));
    var (store, hit) := C.Arrive(s.store, k, fast, s.nextLock);
    ArriveShrinks(s.store, k, fast, s.nextLock);
    ArriveSpares(s.store, k, fast, s.nextLock, held);
    HoldShrinks(store, k, held);
    if k in s.store.values {
      HitFlight(s.callers, k, ViewOf(s, k), i, t.callers[i], ViewOf(t, k));
    } else if k in s.store.locks {
      RegisteredHasRunner(s, k);
      QueueFlight(s.callers, k, ViewOf(s, k), i, t.callers[i]);
    } else {
      FreshLockFree(s);
      BeginFlight(s.callers, k, ViewOf(s, k), i, t.callers[i]);
    }
  }

  lemma RunnerHoldsRegistered<V>(s: Sys<V>, k: Key)
    requires Flight(s.callers, k, ViewOf(s, k)) && Runner(s.callers, k)
    ensures k in s.store.locks && Held(s, s.store.locks[k])
  {
    var j :| 0 <= j < |s.callers| && Runs(s.callers[j], k);
    assert Fits(s.callers[j], k, ViewOf(s, k));
  }

  /** A waiter is let in only once the value is stored. */
  lemma ResumedFindsValue<V>(s: Sys<V>, i: nat)
    requires i < |s.callers| && Flight(s.callers, s.callers[i].key, ViewOf(s, s.callers[i].key))
    requires s.callers[i].pc.Waiting? && !Held(s, s.callers[i].pc.lock)
    ensures s.callers[i].key in s.store.values
  {
    assert Fits(s.callers[i], s.callers[i].key, ViewOf(s, s.callers[i].key));
    if s.callers[i].key !in s.store.values {
      RunnerHoldsRegistered(s, s.callers[i].key);
    }
  }

  lemma RunnersDiffer<V>(s: Sys<V>, i: nat)
    requires Registered(s) && i < |s.callers|
    ensures forall j :: 0 <= j < |s.callers| && j != i ==> !BothHold(s.callers[i], s.callers[j])
  {
  }

  lemma RunnerRegistered<V>(s: Sys<V>, i: nat)
    requires i < |s.callers| && s.callers[i].pc.Running?
    requires Flight(s.callers, s.callers[i].key, ViewOf(s, s.callers[i].key))
    ensures s.callers[i].key in s.store.locks
  {
    assert Fits(s.callers[i], s.callers[i].key, ViewOf(s, s.callers[i].key));
  }

  /** A step by a caller of `k`. */
  lemma OwnStepFlight<V>(s: Sys<V>, step: Step<V>)
    requires WithinCap(s.store) && Registered(s) && Enabled(s, step)
    requires var k := s.callers[step.i].key; Flight(s.callers, k, ViewOf(s, k)) && Spares(s, step, k)
    ensures var (k, t) := (s.callers[step.i].key, Next(s, step)); Flight(t.callers, k, ViewOf(t, k))
  {
    hide C.Arrive, C.Hold, C.Finish, Flight, LosesValue;
    var (c, t) := (s.callers[step.i], Next(s, step));
    var v := ViewOf(s, c.key);
    if c.key in s.store.values {
      SparedStays(s, step, c.key);
    }
    match step
    case Arrives(i, fast, held) => ArriveFlight(s, i, fast, held);
    case Resumes(i, held) =>
      ResumedFindsValue(s, i);
      HoldSpares(s.store, c.key, held);
      HoldShrinks(s.store, c.key, held);
      HitFlight(s.callers, c.key, v, i, t.callers[i], ViewOf(t, c.key));
    case Produces(i, value, stamp, sweep) =>
      RunnerRegistered(s, i);
      FinishAdds(s.store, c.key, value, c.exp, stamp, sweep);
      RunnersDiffer(s, i);
      ProduceFlight(s.callers, c.key, v, i, t.callers[i]);
    case Cancels(i) =>
      if c.pc.Idle? {
        AsideFlight(s.callers, c.key, v, i, t.callers[i]);
      } else {
        HitFlight(s.callers, c.key, v, i, t.callers[i], ViewOf(t, c.key));
      }
  }

  lemma OtherArriveView<V>(s: Sys<V>, i: nat, fast: real, held: real, k: Key)
    requires Valid(s.store) && Enabled(s, Arrives(i, fast, held)) && s.callers[i].key != k
    requires k in s.store.values ==> k in Next(s, Arrives(i, fast, held)).store.values
    ensures ViewOf(Next(s, Arrives(i, fast, held)), k) == ViewOf(s, k)
  {
    hide C.Arrive, C.Hold;
    var c := s.callers[i];
    var store := C.Arrive(s.store, c.key, fast, s.nextLock).0;
    ArriveShrinks(s.store, c.key, fast, s.nextLock);
    HoldShrinks(store, c.key, held);
    assert k in store.locks <==> k in s.store.locks;
  }

  /** A step by a caller of another key does not change the view of `k`. */
  lemma OtherStepView<V>(s: Sys<V>, step: Step<V>, k: Key)
    requires Valid(s.store) && Enabled(s, step) && s.callers[step.i].key != k
    requires k in s.store.values ==> k in Next(s, step).store.values
    ensures ViewOf(Next(s, step), k) == ViewOf(s, k)
  {
    hide C.Arrive, C.Hold, C.Finish;
    var c := s.callers[step.i];
    match step
    case Arrives(i, fast, held) => OtherArriveView(s, i, fast, held, k);
    case Resumes(i, held) => HoldShrinks(s.store, c.key, held);
    case Produces(i, v, stamp, sweep) => FinishAdds(s.store, c.key, v, c.exp, stamp, sweep);
    case Raises(i) =>
    case Cancels(i) =>
  }

  /** A step changes one caller, and not its key. */
  lemma OneCallerMoves<V>(s: Sys<V>, step: Step<V>)
    requires Enabled(s, step)
    ensures var callers := Next(s, step).callers;
            && |callers| == |s.callers| && callers == s.callers[step.i := callers[step.i]]
            && callers[step.i].key == s.callers[step.i].key
  {
    hide C.Arrive, C.Hold, C.Finish;
  }

  lemma StepFlight<V>(s: Sys<V>, step: Step<V>, k: Key)
    requires WithinCap(s.store) && Registered(s) && Enabled(s, step) && Spares(s, step, k)
    requires Flight(s.callers, k, ViewOf(s, k))
    ensures Flight(Next(s, step).callers, k, ViewOf(Next(s, step), k))
  {
    if s.callers[step.i].key == k {
      OwnStepFlight(s, step);
    } else {
      if k in s.store.values {
        SparedStays(s, step, k);
      }
      OtherStepView(s, step, k);
      OneCallerMoves(s, step);
      AsideFlight(s.callers, k, ViewOf(s, k), step.i, Next(s, step).callers[step.i]);
    }
  }

  lemma {:induction false} TraceFlight<V>(states: seq<Sys<V>>, steps: seq<Step<V>>, n: nat, k: Key)
    requires Trace(states, steps) && n < |states|
    requires forall m :: 0 <= m < n ==> Spares(states[m], steps[m], k)
    ensures Flight(states[n].callers, k, ViewOf(states[n], k))
  {
    if n > 0 {
      TraceFlight(states, steps, n - 1, k);
      TraceRegistered(states, steps, n - 1);
      NeverAboveCap(states, steps, n - 1);
      StepFlight(states[n - 1], steps[n - 1], k);
    }
  }

  /** One backing call at most began for `k`, and every finished caller of `k` returned its one value. */
  ghost predicate FlownOnce<V>(s: Sys<V>, k: Key) {
    && s.began[k] <= 1
    && forall i :: 0 <= i < |s.callers| && s.callers[i].key == k && s.callers[i].pc.Done? ==>
         s.began[k] == 1 && k in s.store.values && s.callers[i].pc.value == s.store.values[k].value
         && (k, s.callers[i].pc.value) in s.produced
  }

  /** Single flight for one key, in every interleaving of any number of callers, with any failures,
      cancellations, expiries and evictions of other keys. */
  lemma OneBackingCall<V>(states: seq<Sys<V>>, steps: seq<Step<V>>, n: nat, k: Key)
    requires Trace(states, steps) && n < |states|
    requires forall m :: 0 <= m < n ==> Spares(states[m], steps[m], k)
    ensures FlownOnce(states[n], k)
  {
    TraceFlight(states, steps, n, k);
    TraceTransparent(states, steps, n);
    var s := states[n];
    assert forall i :: 0 <= i < |s.callers| ==> Fits(s.callers[i], k, ViewOf(s, k));
  }

  // ---- All keys: when no value can be lost ----

  /** No failure, no cancellation, and every stored entry still live when the step reads its clock. */
  ghost predicate Calm<V>(s: Sys<V>, step: Step<V>) {
    && !step.Raises? && !step.Cancels?
    && forall k :: k in s.store.values ==> LiveAt(s.store.values[k], Clock(step, s.now))
  }

  lemma HoldCalm<V, L>(s: Store<V, L>, k: Key, now: real)
    requires forall x :: x in s.values ==> LiveAt(s.values[x], now)
    ensures C.Hold(s, k, now).0.values == s.values
  {
  }

  lemma ArriveCalm<V, L>(s: Store<V, L>, k: Key, now: real, made: L)
    requires forall x :: x in s.values ==> LiveAt(s.values[x], now)
    ensures C.Arrive(s, k, now, made).0.values == s.values
  {
  }

  lemma NothingSwept<V, L>(s: Store<V, L>, k: Key, e: Entry<V>, sweep: real)
    requires forall x :: x in s.values ==> LiveAt(s.values[x], sweep)
    ensures Put(DropExpired(s, sweep), k, e).values == s.values[k := e]
  {
    assert ExpiredKeys(s.values, sweep) == {};
    assert s.values - {} == s.values;
  }

  /** With room for every key, a finished call stores its value and evicts nothing. */
  lemma FinishCalm<V, L>(s: Store<V, L>, k: Key, v: V, exp: Option<real>, stamp: real, sweep: real, keys: set<Key>)
    requires Valid(s) && k in keys && s.values.Keys <= keys && |keys| <= s.cap
    requires forall x :: x in s.values ==> LiveAt(s.values[x], sweep)
    ensures C.Finish(s, k, v, exp, stamp, sweep).values == s.values[k := Entry(v, Expiry(exp, stamp))]
  {
    var e := Entry(v, Expiry(exp, stamp));
    SweptPutValid(s, k, e, sweep);
    SweptPutKeys(s, k, e, sweep);
    SubsetSize(Contenders(s, k, sweep), keys);
    EvictOutcome(Put(DropExpired(s, sweep), k, e));
    NothingSwept(s, k, e, sweep);
  }

  ghost predicate Within<V>(s: Sys<V>, keys: set<Key>) {
    && (forall i :: 0 <= i < |s.callers| ==> s.callers[i].key in keys)
    && s.store.values.Keys <= keys && |keys| <= s.store.cap
  }

  lemma CalmKeeps<V>(s: Sys<V>, step: Step<V>, keys: set<Key>)
    requires Valid(s.store) && Within(s, keys) && Enabled(s, step) && Calm(s, step)
    ensures Within(Next(s, step), keys)
    ensures forall k :: k in s.store.values ==> k in Next(s, step).store.values
  {
    hide C.Arrive, C.Hold, C.Finish;
    var c := s.callers[step.i];
    match step
    case Arrives(i, fast, held) =>
      var store := C.Arrive(s.store, c.key, fast, s.nextLock).0;
      ArriveCalm(s.store, c.key, fast, s.nextLock);
      ArriveShrinks(s.store, c.key, fast, s.nextLock);
      HoldCalm(store, c.key, held);
      HoldShrinks(store, c.key, held);
    case Resumes(i, held) =>
      HoldCalm(s.store, c.key, held);
      HoldShrinks(s.store, c.key, held);
    case Produces(i, v, stamp, sweep) =>
      FinishCalm(s.store, c.key, v, c.exp, stamp, sweep, keys);
      FinishAdds(s.store, c.key, v, c.exp, stamp, sweep);
  }

  lemma CalmSpares<V>(states: seq<Sys<V>>, steps: seq<Step<V>>, n: nat, keys: set<Key>)
    requires Trace(states, steps) && n < |steps| && Within(states[n], keys) && Calm(states[n], steps[n])
    ensures Within(states[n + 1], keys)
    ensures forall k :: Spares(states[n], steps[n], k)
  {
    hide Next, LosesValue, Within;
    var (s, step) := (states[n], steps[n]);
    NeverAboveCap(states, steps, n);
    CalmKeeps(s, step, keys);
    forall k ensures Spares(s, step, k) {
      if k in s.store.values {
        LossIff(s, step, k);
      }
    }
  }

  lemma {:induction false} TraceCalm<V>(states: seq<Sys<V>>, steps: seq<Step<V>>, n: nat, keys: set<Key>)
    requires Trace(states, steps) && n < |states| && Within(states[0], keys)
    requires forall m :: 0 <= m < n ==> Calm(states[m], steps[m])
    ensures Within(states[n], keys)
    ensures forall m, k :: 0 <= m < n ==> Spares(states[m], steps[m], k)
  {
    hide Next, Spares, Calm, Within;
    if n > 0 {
      TraceCalm(states, steps, n - 1, keys);
      CalmSpares(states, steps, n - 1, keys);
    }
  }

  /** In every interleaving of any number of callers with at most `cap` distinct keys, no failure and no
      expiry, the backing function runs at most once per key, and all finished callers of a key return
      the one value that call produced. */
  lemma OneBackingCallPerKey<V>(states: seq<Sys<V>>, steps: seq<Step<V>>, n: nat, keys: set<Key>)
    requires Trace(states, steps) && n < |states|
    requires forall m :: 0 <= m < n ==> Calm(states[m], steps[m])
    requires |keys| <= states[0].store.cap
    requires forall i :: 0 <= i < |states[0].callers| ==> states[0].callers[i].key in keys
    ensures forall k :: FlownOnce(states[n], k)
  {
    TraceCalm(states, steps, n, keys);
    forall k ensures FlownOnce(states[n], k) {
      OneBackingCall(states, steps, n, k);
    }
  }

  // ---- The condition is exact ----

  /** Everything the runs so far have kept, for `k`. */
  ghost predicate Steady<V>(s: Sys<V>, k: Key) {
    WithinCap(s.store) && Registered(s) && Flight(s.callers, k, ViewOf(s, k))
  }

  predicate YetToCall<V>(s: Sys<V>, j: nat, k: Key) {
    j < |s.callers| && s.callers[j].key == k && s.callers[j].pc.Idle?
  }

  /** A backing call for `k` began, but its value is not there and its lock is not registered. */
  ghost predicate Exposed<V>(s: Sys<V>, k: Key) {
    s.began[k] > 0 && k !in s.store.values && k !in s.store.locks
  }

  ghost function NextCall<V>(s: Sys<V>, j: nat): Sys<V>
    requires j < |s.callers|
  {
    Next(s, Arrives(j, s.now, s.now))
  }

  lemma SteadyStep<V>(s: Sys<V>, step: Step<V>, k: Key)
    requires Steady(s, k) && Enabled(s, step) && Spares(s, step, k)
    ensures Steady(Next(s, step), k)
  {
    hide Next, Flight, Registered;
    StepRegistered(s, step);
    StepWithinCap(s, step);
    StepFlight(s, step, k);
  }

  /** While the value is missing, a caller that waits or runs means that a backing call runs. */
  lemma EngagedBegan<V>(s: Sys<V>, i: nat)
    requires i < |s.callers| && Engaged(s.callers[i]) && s.callers[i].key !in s.store.values
    requires Flight(s.callers, s.callers[i].key, ViewOf(s, s.callers[i].key))
    ensures s.began[s.callers[i].key] == 1
  {
    var k := s.callers[i].key;
    assert s.callers[i].pc.Running? ==> Runs(s.callers[i], k);
    var j :| 0 <= j < |s.callers| && Runs(s.callers[j], k);
    assert Fits(s.callers[j], k, ViewOf(s, k));
  }

  /** A failure or a cancellation in the middle leaves its key exposed. */
  lemma GivingUpExposes<V>(s: Sys<V>, step: Step<V>)
    requires Enabled(s, step) && (step.Raises? || (step.Cancels? && !HarmlessCancel(s, step.i)))
    requires var k := s.callers[step.i].key; Flight(s.callers, k, ViewOf(s, k))
    ensures Exposed(Next(s, step), s.callers[step.i].key)
  {
    var k := s.callers[step.i].key;
    assert Fits(s.callers[step.i], k, ViewOf(s, k));
    EngagedBegan(s, step.i);
  }

  /** A caller that finds the value expired runs the backing function again. */
  lemma OwnLossDoubles<V>(s: Sys<V>, step: Step<V>)
    requires Enabled(s, step) && Steady(s, s.callers[step.i].key) && s.callers[step.i].key in s.store.values
    requires s.callers[step.i].key !in Next(s, step).store.values
    ensures Next(s, step).began[s.callers[step.i].key] == 2
  {
    hide C.Finish, Registered, Write;
    var (c, t) := (s.callers[step.i], Next(s, step));
    assert s.began[c.key] == 1;
    match step
    case Arrives(i, fast, held) => FreshLockFree(s);
    case Resumes(i, held) =>
    case Produces(i, value, stamp, sweep) =>
      FinishWithinCap(s.store, c.key, value, c.exp, stamp, sweep);
      assert false;
    case Raises(i) => assert false;
    case Cancels(i) => assert false;
  }

  /** A write for another key that evicts or reclaims the value leaves its key exposed. */
  lemma OtherLossExposes<V>(s: Sys<V>, step: Step<V>, k: Key)
    requires Steady(s, k) && Enabled(s, step) && s.callers[step.i].key != k
    requires k in s.store.values && k !in Next(s, step).store.values
    ensures Exposed(Next(s, step), k)
  {
    hide C.Arrive, C.Hold, C.Finish, Registered;
    var (c, t) := (s.callers[step.i], Next(s, step));
    match step
    case Arrives(i, fast, held) =>
      ArriveShrinks(s.store, c.key, fast, s.nextLock);
      HoldShrinks(C.Arrive(s.store, c.key, fast, s.nextLock).0, c.key, held);
    case Resumes(i, held) => HoldShrinks(s.store, c.key, held);
    case Produces(i, v, stamp, sweep) => FinishAdds(s.store, c.key, v, c.exp, stamp, sweep);
    case Raises(i) =>
    case Cancels(i) =>
  }

  /** A step that does not spare `k` starts a second backing call or leaves `k` exposed to one. */
  lemma BreachExposes<V>(s: Sys<V>, step: Step<V>, k: Key)
    requires Steady(s, k) && Enabled(s, step) && !Spares(s, step, k)
    ensures Next(s, step).began[k] == 2 || (Exposed(Next(s, step), k) && !YetToCall(s, step.i, k))
  {
    hide Next, Flight, Registered, WithinCap, LosesValue;
    if k in s.store.values {
      LossIff(s, step, k);
    }
    if s.callers[step.i].key != k {
      OtherLossExposes(s, step, k);
    } else if step.Raises? || (step.Cancels? && !HarmlessCancel(s, step.i)) {
      GivingUpExposes(s, step);
    } else {
      OwnLossDoubles(s, step);
    }
  }

  /** The next caller of an exposed key gets a lock of its own and runs the backing function again. */
  lemma ExposedDoubles<V>(s: Sys<V>, j: nat, k: Key)
    requires Registered(s) && Exposed(s, k) && YetToCall(s, j, k)
    ensures NextCall(s, j).began[k] == s.began[k] + 1
  {
    FreshLockFree(s);
  }

  lemma TraceSteady<V>(states: seq<Sys<V>>, steps: seq<Step<V>>, n: nat, k: Key)
    requires Trace(states, steps) && n < |states|
    requires forall m :: 0 <= m < n ==> Spares(states[m], steps[m], k)
    ensures Steady(states[n], k)
  {
    TraceRegistered(states, steps, n);
    NeverAboveCap(states, steps, n);
    TraceFlight(states, steps, n, k);
  }

  /** The first step of a run that does not spare `k` breaks single flight: it starts a second backing call
      itself, or any caller of `k` that is yet to come starts one on its arrival. */
  lemma FirstBreachDoubles<V>(states: seq<Sys<V>>, steps: seq<Step<V>>, n: nat, k: Key, step: Step<V>, j: nat)
    requires Trace(states, steps) && n < |states|
    requires forall m :: 0 <= m < n ==> Spares(states[m], steps[m], k)
    requires Enabled(states[n], step) && !Spares(states[n], step, k)
    requires YetToCall(states[n], j, k)
    ensures var t := Next(states[n], step);
            t.began[k] >= 2 || (Enabled(t, Arrives(j, t.now, t.now)) && NextCall(t, j).began[k] >= 2)
  {
    hide Next, Flight, Registered;
    TraceSteady(states, steps, n, k);
    BreachExposes(states[n], step, k);
    var t := Next(states[n], step);
    if t.began[k] < 2 {
      OneCallerMoves(states[n], step);
      StepRegistered(states[n], step);
      ExposedDoubles(t, j, k);
    }
  }

  /** After the step `k` has a value that has already expired: the one just written, or the one it had. */
  ghost predicate LeavesExpired<V>(s: Sys<V>, step: Step<V>, k: Key)
    requires step.i < |s.callers|
  {
    var c := s.callers[step.i];
    if step.Produces? && c.key == k then !Unexpired(c.exp, step.stamp, step.sweep)
    else k in s.store.values && !LiveAt(s.store.values[k], Clock(step, s.now))
  }

  lemma LeftExpired<V>(s: Sys<V>, step: Step<V>, k: Key)
    requires WithinCap(s.store) && Enabled(s, step) && Spares(s, step, k)
    ensures var t := Next(s, step);
            (k in t.store.values ==> LiveAt(t.store.values[k], t.now)) <==> !LeavesExpired(s, step, k)
  {
    hide C.Finish, LosesValue;
    var (c, t) := (s.callers[step.i], Next(s, step));
    if k in t.store.values {
      StepEntry(s, step, k);
    } else if k in s.store.values {
      SparedStays(s, step, k);
      assert false;
    } else if step.Produces? && c.key == k {
      FinishWithinCap(s.store, k, step.value, c.exp, step.stamp, step.sweep);
    }
  }

  /** The next call starts a second backing call iff it finds a stored value expired. */
  lemma NextCallSafe<V>(s: Sys<V>, j: nat, k: Key)
    requires Steady(s, k) && YetToCall(s, j, k)
    ensures s.began[k] <= 1
    ensures NextCall(s, j).began[k] <= 1 <==> k in s.store.values ==> LiveAt(s.store.values[k], s.now)
  {
    hide Next;
    var step := Arrives(j, s.now, s.now);
    if k in s.store.values && !LiveAt(s.store.values[k], s.now) {
      LossIff(s, step, k);
      OwnLossDoubles(s, step);
    } else {
      SteadyStep(s, step, k);
    }
  }

  /** So for a step after which another caller of `k` may still come, single flight survives the step and
      that call iff the step spares `k` and leaves no value of `k` that has already expired. Both can be
      read off before the step. */
  lemma SingleFlightIff<V>(states: seq<Sys<V>>, steps: seq<Step<V>>, n: nat, k: Key, step: Step<V>, j: nat)
    requires Trace(states, steps) && n < |states|
    requires forall m :: 0 <= m < n ==> Spares(states[m], steps[m], k)
    requires Enabled(states[n], step) && step.i != j && YetToCall(states[n], j, k)
    ensures var t := Next(states[n], step);
            && j < |t.callers| && Enabled(t, Arrives(j, t.now, t.now))
            && (t.began[k] <= 1 && NextCall(t, j).began[k] <= 1
                <==> Spares(states[n], step, k) && !LeavesExpired(states[n], step, k))
  {
    hide Next, Flight, Registered, LosesValue, LeavesExpired, LiveAt;
    TraceSteady(states, steps, n, k);
    var t := Next(states[n], step);
    OneCallerMoves(states[n], step);
    if Spares(states[n], step, k) {
      SteadyStep(states[n], step, k);
      LeftExpired(states[n], step, k);
      NextCallSafe(t, j, k);
    } else {
      FirstBreachDoubles(states, steps, n, k, step, j);
    }
  }

  // ---- Two short runs ----

  function Stage<V>(cap: nat, k: Key, locks: map<Key, nat>, pcs: seq<Pc<V>>, made: nat, began: nat): Sys<V> {
    Sys(Store(cap, [], map[], locks), seq(|pcs|, i requires 0 <= i < |pcs| => Caller(k, None, pcs[i])),
        made, 0.0, multiset{}[k := began], [])
  }

  lemma FirstComputes<V>(cap: nat, k: Key)
    ensures Next(Stage<V>(cap, k, map[], [Idle, Idle, Idle], 0, 0), Arrives(0, 0.0, 0.0))
            == Stage(cap, k, map[k := 0], [Running(0), Idle, Idle], 1, 1)
  {
  }

  lemma SecondWaits<V>(cap: nat, k: Key)
    ensures Next(Stage<V>(cap, k, map[k := 0], [Running(0), Idle, Idle], 1, 1), Arrives(1, 0.0, 0.0))
            == Stage(cap, k, map[k := 0], [Running(0), Waiting(0), Idle], 2, 1)
  {
    var s := Stage<V>(cap, k, map[k := 0], [Running(0), Idle, Idle], 1, 1);
    assert Engaged(s.callers[0]) && Busy(s, 0);
  }

  lemma SecondCancelled<V>(cap: nat, k: Key)
    ensures Next(Stage<V>(cap, k, map[k := 0], [Running(0), Waiting(0), Idle], 2, 1), Cancels(1))
            == Stage(cap, k, map[], [Running(0), Cancelled, Idle], 2, 1)
  {
  }

  lemma ThirdComputes<V>(cap: nat, k: Key)
    ensures Next(Stage<V>(cap, k, map[], [Running(0), Cancelled, Idle], 2, 1), Arrives(2, 0.0, 0.0))
            == Stage(cap, k, map[k := 2], [Running(0), Cancelled, Running(2)], 3, 2)
  {
  }

  /** One cancelled waiter is enough: it drops the registry entry while the first caller still computes,
      so the next caller gets a new lock and starts a second backing call for the same key. */
  lemma CancelledWaiterDoublesFlight<V>(k: Key, cap: nat) returns (states: seq<Sys<V>>, steps: seq<Step<V>>)
    requires cap > 0
    ensures Trace(states, steps) && states[0].store.cap == cap
    ensures steps == [Arrives(0, 0.0, 0.0), Arrives(1, 0.0, 0.0), Cancels(1), Arrives(2, 0.0, 0.0)]
    ensures states[4].callers == [Caller(k, None, Running(0)), Caller(k, None, Cancelled), Caller(k, None, Running(2))]
    ensures states[4].began[k] == 2
  {
    hide Next;
    FirstComputes<V>(cap, k);
    SecondWaits<V>(cap, k);
    SecondCancelled<V>(cap, k);
    ThirdComputes<V>(cap, k);
    states := [Stage(cap, k, map[], [Idle, Idle, Idle], 0, 0),
               Stage(cap, k, map[k := 0], [Running(0), Idle, Idle], 1, 1),
               Stage(cap, k, map[k := 0], [Running(0), Waiting(0), Idle], 2, 1),
               Stage(cap, k, map[], [Running(0), Cancelled, Idle], 2, 1),
               Stage(cap, k, map[k := 2], [Running(0), Cancelled, Running(2)], 3, 2)];
    steps := [Arrives(0, 0.0, 0.0), Arrives(1, 0.0, 0.0), Cancels(1), Arrives(2, 0.0, 0.0)];
  }

  lemma FirstRaises<V>(cap: nat, k: Key)
    ensures Next(Stage<V>(cap, k, map[k := 0], [Running(0), Waiting(0), Idle], 2, 1), Raises(0))
            == Stage(cap, k, map[], [Failed, Waiting(0), Idle], 2, 1)
  {
  }

  lemma SecondTakesOver<V>(cap: nat, k: Key)
    ensures Next(Stage<V>(cap, k, map[], [Failed, Waiting(0), Idle], 2, 1), Resumes(1, 0.0))
            == Stage(cap, k, map[], [Failed, Running(0), Idle], 2, 2)
  {
  }

  /** A failure is not shared: the waiter behind it runs the backing function itself. */
  lemma WaiterTakesOver<V>(k: Key, cap: nat) returns (states: seq<Sys<V>>, steps: seq<Step<V>>)
    requires cap > 0
    ensures Trace(states, steps) && states[0].store.cap == cap
    ensures steps == [Arrives(0, 0.0, 0.0), Arrives(1, 0.0, 0.0), Raises(0), Resumes(1, 0.0)]
    ensures states[4].callers == [Caller(k, None, Failed), Caller(k, None, Running(0)), Caller(k, None, Idle)]
    ensures states[4].began[k] == 2
  {
    hide Next;
    FirstComputes<V>(cap, k);
    SecondWaits<V>(cap, k);
    FirstRaises<V>(cap, k);
    SecondTakesOver<V>(cap, k);
    states := [Stage(cap, k, map[], [Idle, Idle, Idle], 0, 0),
               Stage(cap, k, map[k := 0], [Running(0), Idle, Idle], 1, 1),
               Stage(cap, k, map[k := 0], [Running(0), Waiting(0), Idle], 2, 1),
               Stage(cap, k, map[], [Failed, Waiting(0), Idle], 2, 1),
               Stage(cap, k, map[], [Failed, Running(0), Idle], 2, 2)];
    steps := [Arrives(0, 0.0, 0.0), Arrives(1, 0.0, 0.0), Raises(0), Resumes(1, 0.0)];
  }
}
