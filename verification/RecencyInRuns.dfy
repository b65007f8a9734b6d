/** LRU order under concurrency: whole runs of the wrapper in which nothing is found expired, with any
    interleaving, failures and cancellations. */
module RecencyInRuns {
  import opened Seqs
  import opened StoreModel
  import opened CacheProtocol
  import C = CacheCalls

  /** The keys a step uses: that of a read which finds its value, and that of a write. */
  function Use<V>(s: Sys<V>, step: Step<V>): seq<Key>
    requires step.i < |s.callers|
  {
    var k := s.callers[step.i].key;
    if step.Produces? || ((step.Arrives? || step.Resumes?) && k in s.store.values) then [k] else []
  }

  /** The keys used by the first `n` steps, in order. */
  ghost function UsesOf<V>(states: seq<Sys<V>>, steps: seq<Step<V>>, n: nat): seq<Key>
    requires n <= |steps| && n <= |states| && forall m :: 0 <= m < n ==> steps[m].i < |states[m].callers|
  {
    if n == 0 then [] else UsesOf(states, steps, n - 1) + Use(states[n - 1], steps[n - 1])
  }

  /** The step finds nothing expired: a read looks at its own entry, a write sweeps those of the others. */
  ghost predicate FindsLive<V>(s: Sys<V>, step: Step<V>)
    requires step.i < |s.callers|
  {
    var k := s.callers[step.i].key;
    match step
    case Arrives(_, fast, _) => k in s.store.values ==> LiveAt(s.store.values[k], fast)
    case Resumes(_, held) => k in s.store.values ==> LiveAt(s.store.values[k], held)
    case Produces(_, _, _, sweep) => forall x :: x in s.store.values && x != k ==> LiveAt(s.store.values[x], sweep)
    case _ => true
  }

  /** A read moves a key it finds to the recent end and changes nothing else. */
  lemma LiveRead<V, L>(s: Store<V, L>, k: Key, now: real)
    requires k in s.values ==> LiveAt(s.values[k], now)
    ensures var (t, hit) := Read(s, k, now);
            (hit.Some? <==> k in s.values) && t == if k in s.values then Touch(s, k) else s
  {
  }

  /** A write puts its key behind the others, and the `cap` most recent stay. */
  lemma LiveWrite<V, L>(s: Store<V, L>, k: Key, v: V, exp: Option<real>, stamp: real, sweep: real)
    requires WithinCap(s) && forall x :: x in s.values && x != k ==> LiveAt(s.values[x], sweep)
    ensures C.Finish(s, k, v, exp, stamp, sweep).order == Tail(Minus(s.order, {k}) + [k], s.cap)
  {
    hide C.Finish, Minus;
    FinishEvicts(s, k, v, exp, stamp, sweep);
    assert ExpiredKeys(s.values, sweep) + {k} == {k};
  }

  lemma RecentDistinct(r: seq<Key>, cap: nat)
    requires Distinct(r)
    ensures Distinct(Tail(r, cap)) && |Tail(r, cap)| <= cap
  {
    var n := |r| - |Tail(r, cap)|;
    assert r == r[..n] + Tail(r, cap);
    DistinctPart(r[..n], Tail(r, cap));
  }

  /** What a use of `k` does to a store that holds the most recent keys. */
  lemma UsedAgain(keys: seq<Key>, k: Key, cap: nat)
    requires cap > 0
    ensures var order := Tail(C.Recency(keys), cap);
            && Tail(C.Recency(keys + [k]), cap) == Tail(Minus(order, {k}) + [k], cap)
            && (k in order ==> Tail(C.Recency(keys + [k]), cap) == Minus(order, {k}) + [k])
  {
    hide Minus, C.Recency;
    var order := Tail(C.Recency(keys), cap);
    C.RecencyDistinct(keys);
    C.RecencySnoc(keys, k);
    C.SplitTail(C.Recency(keys), k, cap);
    RecentDistinct(C.Recency(keys), cap);
    if k in order {
      MinusOne(order, k);
    } else {
      MinusNothing(order, {k});
    }
  }

  /** The key order after a step that finds nothing expired. */
  lemma StepOrder<V>(s: Sys<V>, step: Step<V>)
    requires WithinCap(s.store) && Enabled(s, step) && FindsLive(s, step)
    ensures var (order, k) := (Next(s, step).store.order, s.callers[step.i].key);
            order == if step.Produces? then Tail(Minus(s.store.order, {k}) + [k], s.store.cap)
                     else if Use(s, step) == [k] then Minus(s.store.order, {k}) + [k] else s.store.order
    ensures step.Arrives? || step.Resumes? ==>
              (Next(s, step).callers[step.i].pc.Done? <==> s.callers[step.i].key in s.store.values)
  {
    hide C.Finish, Minus, Read;
    var c := s.callers[step.i];
    match step
    case Arrives(i, fast, held) =>
      LiveRead(s.store, c.key, fast);
      MissedIsAbsent(s.store, c.key, fast, held, s.nextLock);
    case Resumes(i, held) => LiveRead(s.store, c.key, held);
    case Produces(i, v, stamp, sweep) => LiveWrite(s.store, c.key, v, c.exp, stamp, sweep);
    case Raises(i) =>
    case Cancels(i) =>
  }

  lemma NothingUsed(cap: nat)
    ensures Tail(C.Recency([]), cap) == []
  {
  }

  lemma OneUse<V>(s: Sys<V>, step: Step<V>, uses: seq<Key>)
    requires step.i < |s.callers| && Valid(s.store) && s.store.order == Tail(C.Recency(uses), s.store.cap)
    ensures var (order, k) := (s.store.order, s.callers[step.i].key);
            Tail(C.Recency(uses + Use(s, step)), s.store.cap)
            == if step.Produces? then Tail(Minus(order, {k}) + [k], s.store.cap)
               else if Use(s, step) == [k] then Minus(order, {k}) + [k] else order
  {
    hide Minus, Tail, C.Recency;
    UsedAgain(uses, s.callers[step.i].key, s.store.cap);
    assert uses + [] == uses;
  }

  /** In every run that finds nothing expired the store holds the `cap` most recently used keys, in
      recency order, and nothing else; failures and cancellations leave no trace in it. */
  lemma {:induction false} StoreIsRecent<V>(states: seq<Sys<V>>, steps: seq<Step<V>>, n: nat)
    requires Trace(states, steps) && n < |states|
    requires forall m :: 0 <= m < n ==> FindsLive(states[m], steps[m])
    ensures var cap := states[0].store.cap;
            cap > 0 && states[n].store.order == Tail(C.Recency(UsesOf(states, steps, n)), cap)
  {
    hide Next, Minus, C.Recency, FindsLive, Use;
    if n == 0 {
      NothingUsed(states[0].store.cap);
    } else {
      StoreIsRecent(states, steps, n - 1);
      NeverAboveCap(states, steps, n - 1);
      StepOrder(states[n - 1], steps[n - 1]);
      OneUse(states[n - 1], steps[n - 1], UsesOf(states, steps, n - 1));
    }
  }

  /** So a caller's read is a hit iff its key was used before in the run and fewer than `cap` distinct other
      keys were used since, whoever used them. */
  lemma HitIff<V>(states: seq<Sys<V>>, steps: seq<Step<V>>, n: nat)
    requires Trace(states, steps) && n < |steps|
    requires forall m :: 0 <= m <= n ==> FindsLive(states[m], steps[m])
    requires steps[n].Arrives? || steps[n].Resumes?
    ensures var (i, cap) := (steps[n].i, states[0].store.cap);
            && cap > 0
            && (states[n + 1].callers[i].pc.Done?
                <==> C.UsedWithin(UsesOf(states, steps, n), states[n].callers[i].key, cap))
  {
    hide Next, Minus, Tail, C.Recency, C.UsedWithin, FindsLive, Use;
    StoreIsRecent(states, steps, n);
    NeverAboveCap(states, steps, n);
    StepOrder(states[n], steps[n]);
    C.TailIffUsedWithin(UsesOf(states, steps, n), states[n].callers[steps[n].i].key, states[0].store.cap);
  }
}
