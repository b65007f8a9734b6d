/** Any number of concurrent callers of one cached tool. A step runs one caller from one await to the
    next; clock readings, backing results, failures and cancellations are chosen by the environment. */
module CacheProtocol {
  import opened Seqs
  import opened StoreModel
  import C = CacheCalls

  /** Where a caller stands. A caller waits for, or holds, the lock object it was given on arrival. */
  datatype Pc<V> =
    | Idle
    | Waiting(lock: nat)
    | Running(lock: nat)
    | Done(value: V)
    | Failed
    | Cancelled

  datatype Caller<V> = Caller(key: Key, exp: Option<real>, pc: Pc<V>)

  /** `began` counts the backing calls started per key and `produced` lists their results. */
  datatype Sys<V> = Sys(store: Store<V, nat>, callers: seq<Caller<V>>, nextLock: nat, now: real,
                        began: multiset<Key>, produced: seq<(Key, V)>)

  datatype Step<V> =
    | Arrives(i: nat, fast: real, held: real)
    | Resumes(i: nat, held: real)
    | Produces(i: nat, value: V, stamp: real, sweep: real)
    | Raises(i: nat)
    | Cancels(i: nat)

  predicate Engaged<V>(c: Caller<V>) {
    c.pc.Waiting? || c.pc.Running?
  }

  ghost predicate Held<V>(s: Sys<V>, l: nat) {
    exists j :: 0 <= j < |s.callers| && s.callers[j].pc == Running(l)
  }

  /** A newcomer may not overtake: a lock somebody waits for is not free. */
  ghost predicate Busy<V>(s: Sys<V>, l: nat) {
    exists j :: 0 <= j < |s.callers| && Engaged(s.callers[j]) && s.callers[j].pc.lock == l
  }

  function Clock<V>(step: Step<V>, now: real): real {
    match step
    case Arrives(_, _, held) => held
    case Resumes(_, held) => held
    case Produces(_, _, _, sweep) => sweep
    case _ => now
  }

  ghost predicate Enabled<V>(s: Sys<V>, step: Step<V>) {
    && step.i < |s.callers|
    && var pc := s.callers[step.i].pc;
       match step
       case Arrives(_, fast, held) => pc.Idle? && s.now <= fast <= held
       case Resumes(_, held) => pc.Waiting? && !Held(s, pc.lock) && s.now <= held
       case Produces(_, _, stamp, sweep) => pc.Running? && s.now <= stamp <= sweep
       case Raises(_) => pc.Running?
       case Cancels(_) => pc.Idle? || pc.Waiting? || pc.Running?
  }

  function At<V>(s: Sys<V>, i: nat, pc: Pc<V>): seq<Caller<V>>
    requires i < |s.callers|
  {
    s.callers[i := s.callers[i].(pc := pc)]
  }

  /** The caller has the lock `l`: the second read, then either the `finally` or the backing call. */
  function Acquire<V>(s: Sys<V>, i: nat, l: nat, held: real): Sys<V>
    requires i < |s.callers|
  {
    var k := s.callers[i].key;
    var (t, hit) := C.Hold(s.store, k, held);
    if hit.Some? then s.(store := t, callers := At(s, i, Done(hit.value)))
    else s.(store := t, callers := At(s, i, Running(l)), began := s.began + multiset{k})
  }

  /** The lock `setdefault` gives to a caller of `k`. */
  function NewLock<V>(s: Sys<V>, k: Key): nat {
    if k in s.store.locks then s.store.locks[k] else s.nextLock
  }

  ghost function Next<V>(s: Sys<V>, step: Step<V>): Sys<V>
    requires step.i < |s.callers|
  {
    var i := step.i;
    var c := s.callers[i];
    var u := s.(now := Clock(step, s.now));
    match step
    case Arrives(_, fast, held) =>
      var (t, hit) := C.Arrive(s.store, c.key, fast, s.nextLock);
      if hit.Some? then u.(store := t, callers := At(s, i, Done(hit.value)))
      else
        var l := NewLock(s, c.key);
        var v := u.(store := t, nextLock := s.nextLock + 1);
        if Busy(s, l) then v.(callers := At(s, i, Waiting(l))) else Acquire(v, i, l, held)
    case Resumes(_, held) =>
      if c.pc.Waiting? then Acquire(u, i, c.pc.lock, held) else u
    case Produces(_, value, stamp, sweep) =>
      u.(store := C.Finish(s.store, c.key, value, c.exp, stamp, sweep), callers := At(s, i, Done(value)),
         produced := s.produced + [(c.key, value)])
    case Raises(_) =>
      u.(store := DropLock(s.store, c.key), callers := At(s, i, Failed))
    case Cancels(_) =>
      if c.pc.Idle? then u.(callers := At(s, i, Cancelled))
      else u.(store := DropLock(s.store, c.key), callers := At(s, i, Cancelled))
  }

  ghost predicate Init<V>(s: Sys<V>) {
    && s.store.cap > 0 && s.store == Store(s.store.cap, [], map[], map[])
    && (forall i :: 0 <= i < |s.callers| ==> s.callers[i].pc.Idle?)
    && s.began == multiset{} && s.produced == []
  }

  /** A run: every state follows from the one before by an enabled step. */
  ghost predicate Trace<V>(states: seq<Sys<V>>, steps: seq<Step<V>>) {
    && |states| == |steps| + 1 && Init(states[0])
    && forall n :: 0 <= n < |steps| ==> Enabled(states[n], steps[n]) && states[n + 1] == Next(states[n], steps[n])
  }

  // ---- What the segments do to a store ----

  ghost predicate Shrinks<V, L>(s: Store<V, L>, t: Store<V, L>) {
    && Valid(t) && t.cap == s.cap && |t.order| <= |s.order|
    && forall k :: k in t.values ==> k in s.values && t.values[k] == s.values[k]
  }

  lemma ReadShrinks<V, L>(s: Store<V, L>, k: Key, now: real)
    requires Valid(s)
    ensures var (t, hit) := Read(s, k, now);
            && Shrinks(s, t) && t.locks == s.locks
            && (hit.Some? ==> k in s.values && s.values[k].value == hit.value && k in t.values)
  {
    ReadValid(s, k, now);
    if k in s.values {
      MinusOne(s.order, k);
    }
  }

  lemma ArriveShrinks<V, L>(s: Store<V, L>, k: Key, now: real, made: L)
    requires Valid(s)
    ensures var (t, hit) := C.Arrive(s, k, now, made);
            && Shrinks(s, t)
            && t.locks == (if hit.Some? || k in s.locks then s.locks else s.locks[k := made])
            && (hit.Some? ==> k in s.values && s.values[k].value == hit.value)
  {
    ReadShrinks(s, k, now);
  }

  lemma HoldShrinks<V, L>(s: Store<V, L>, k: Key, now: real)
    requires Valid(s)
    ensures var (t, hit) := C.Hold(s, k, now);
            && Shrinks(s, t)
            && t.locks == (if hit.Some? then s.locks - {k} else s.locks)
            && (hit.Some? ==> k in s.values && s.values[k].value == hit.value)
  {
    ReadShrinks(s, k, now);
  }

  /** A finished call adds its own entry and nothing else. */
  lemma FinishAdds<V, L>(s: Store<V, L>, k: Key, v: V, exp: Option<real>, stamp: real, sweep: real)
    requires Valid(s)
    ensures var t := C.Finish(s, k, v, exp, stamp, sweep);
            && Valid(t) && t.cap == s.cap && t.locks == s.locks - {k}
            && (forall x :: x in t.values ==> if x == k then t.values[x] == Entry(v, Expiry(exp, stamp))
                                              else x in s.values && t.values[x] == s.values[x])
            && (k in s.locks ==> k in t.values)
  {
    SweptPutValid(s, k, Entry(v, Expiry(exp, stamp)), sweep);
    EvictOutcome(Put(DropExpired(s, sweep), k, Entry(v, Expiry(exp, stamp))));
  }

  /** The entry a step leaves is the one just written, or the one there was. */
  lemma StepEntry<V>(s: Sys<V>, step: Step<V>, k: Key)
    requires Valid(s.store) && Enabled(s, step) && k in Next(s, step).store.values
    ensures var (c, e) := (s.callers[step.i], Next(s, step).store.values[k]);
            if step.Produces? && c.key == k then e == Entry(step.value, Expiry(c.exp, step.stamp))
            else k in s.store.values && e == s.store.values[k]
  {
    hide C.Arrive, C.Hold, C.Finish;
    var c := s.callers[step.i];
    match step
    case Arrives(i, fast, held) =>
      ArriveShrinks(s.store, c.key, fast, s.nextLock);
      HoldShrinks(C.Arrive(s.store, c.key, fast, s.nextLock).0, c.key, held);
    case Resumes(i, held) => HoldShrinks(s.store, c.key, held);
    case Produces(i, v, stamp, sweep) => FinishAdds(s.store, c.key, v, c.exp, stamp, sweep);
    case Raises(i) =>
    case Cancels(i) =>
  }

  // ---- Transparency: values come from backing calls on the same key ----

  ghost predicate Transparent<V>(s: Sys<V>) {
    && Valid(s.store)
    && (forall k :: k in s.store.values ==> (k, s.store.values[k].value) in s.produced)
    && forall i :: 0 <= i < |s.callers| && s.callers[i].pc.Done? ==>
         (s.callers[i].key, s.callers[i].pc.value) in s.produced
  }

  lemma AcquireTransparent<V>(s: Sys<V>, i: nat, l: nat, held: real)
    requires Transparent(s) && i < |s.callers|
    ensures Transparent(Acquire(s, i, l, held))
  {
    HoldShrinks(s.store, s.callers[i].key, held);
  }

  lemma ArriveTransparent<V>(s: Sys<V>, i: nat, fast: real, held: real)
    requires Transparent(s) && Enabled(s, Arrives(i, fast, held))
    ensures Transparent(Next(s, Arrives(i, fast, held)))
  {
    hide C.Arrive, C.Hold, Acquire;
    var k := s.callers[i].key;
    ArriveShrinks(s.store, k, fast, s.nextLock);
    var (t, hit) := C.Arrive(s.store, k, fast, s.nextLock);
    if hit.None? {
      AcquireTransparent(s.(store := t, nextLock := s.nextLock + 1, now := held), i, NewLock(s, k), held);
    }
  }

  lemma StepTransparent<V>(s: Sys<V>, step: Step<V>)
    requires Transparent(s) && Enabled(s, step)
    ensures Transparent(Next(s, step))
  {
    hide C.Arrive, C.Hold, C.Finish, Acquire;
    var c := s.callers[step.i];
    match step
    case Arrives(i, fast, held) => ArriveTransparent(s, i, fast, held);
    case Resumes(i, held) => AcquireTransparent(s.(now := held), i, c.pc.lock, held);
    case Produces(i, v, stamp, sweep) => FinishAdds(s.store, c.key, v, c.exp, stamp, sweep);
    case Raises(i) =>
    case Cancels(i) =>
  }

  lemma {:induction false} TraceTransparent<V>(states: seq<Sys<V>>, steps: seq<Step<V>>, n: nat)
    requires Trace(states, steps) && n < |states|
    ensures Transparent(states[n])
  {
    if n > 0 {
      TraceTransparent(states, steps, n - 1);
      StepTransparent(states[n - 1], steps[n - 1]);
    }
  }

  ghost predicate Yields<V>(s: Sys<V>, step: Step<V>, k: Key, v: V) {
    step.Produces? && step.i < |s.callers| && s.callers[step.i].key == k && step.value == v
  }

  /** Some backing call on `k` returned `v` among the first `n` steps. */
  ghost predicate ProducedBy<V>(states: seq<Sys<V>>, steps: seq<Step<V>>, n: nat, k: Key, v: V) {
    exists m :: 0 <= m < n && m < |steps| && m < |states| && Yields(states[m], steps[m], k, v)
  }

  lemma NextProduced<V>(s: Sys<V>, step: Step<V>)
    requires step.i < |s.callers|
    ensures Next(s, step).produced
            == if step.Produces? then s.produced + [(s.callers[step.i].key, step.value)] else s.produced
  {
  }

  lemma {:induction false} ProducedInRun<V>(states: seq<Sys<V>>, steps: seq<Step<V>>, n: nat)
    requires Trace(states, steps) && n < |states|
    ensures forall p :: p in states[n].produced ==> ProducedBy(states, steps, n, p.0, p.1)
  {
    hide Next;
    if n > 0 {
      ProducedInRun(states, steps, n - 1);
      NextProduced(states[n - 1], steps[n - 1]);
      forall p | p in states[n].produced ensures ProducedBy(states, steps, n, p.0, p.1) {
        if p in states[n - 1].produced {
          assert ProducedBy(states, steps, n - 1, p.0, p.1);
        } else {
          assert Yields(states[n - 1], steps[n - 1], p.0, p.1);
        }
      }
    }
  }

  /** In every run, with any expiries, evictions, failures and cancellations, a value a caller returned
      or the store holds was produced earlier in the run by a backing call on the same key. */
  lemma ReturnsBackingValue<V>(states: seq<Sys<V>>, steps: seq<Step<V>>, n: nat)
    requires Trace(states, steps) && n < |states|
    ensures var s := states[n];
            forall i :: 0 <= i < |s.callers| && s.callers[i].pc.Done? ==>
              ProducedBy(states, steps, n, s.callers[i].key, s.callers[i].pc.value)
    ensures var s := states[n];
            forall k :: k in s.store.values ==> ProducedBy(states, steps, n, k, s.store.values[k].value)
  {
    TraceTransparent(states, steps, n);
    ProducedInRun(states, steps, n);
    var s := states[n];
    forall i | 0 <= i < |s.callers| && s.callers[i].pc.Done?
      ensures ProducedBy(states, steps, n, s.callers[i].key, s.callers[i].pc.value)
    {
      assert (s.callers[i].key, s.callers[i].pc.value) in s.produced;
    }
    forall k | k in s.store.values ensures ProducedBy(states, steps, n, k, s.store.values[k].value) {
      assert (k, s.store.values[k].value) in s.produced;
    }
  }

  /** So a backing function that is determined by the key is what every caller gets. */
  lemma ReturnsFunctionValue<V>(states: seq<Sys<V>>, steps: seq<Step<V>>, n: nat, f: Key -> V)
    requires Trace(states, steps) && n < |states|
    requires forall m :: 0 <= m < |steps| && steps[m].Produces? ==>
               steps[m].value == f(states[m].callers[steps[m].i].key)
    ensures forall i :: 0 <= i < |states[n].callers| && states[n].callers[i].pc.Done? ==>
              states[n].callers[i].pc.value == f(states[n].callers[i].key)
    ensures forall k :: k in states[n].store.values ==> states[n].store.values[k].value == f(k)
  {
    ReturnsBackingValue(states, steps, n);
  }

  /** A call that nobody interrupts is exactly its steps, taken one after the other. */
  lemma SoloIsSteps<V>(s: Sys<V>, i: nat, c: C.Call<V>)
    requires i < |s.callers| && s.callers[i] == Caller(c.key, c.exp, Idle) && !Busy(s, NewLock(s, c.key))
    ensures var o := C.Solo(s.store, c, s.nextLock);
            var t := Next(s, Arrives(i, c.at.fast, c.at.held));
            if !o.ran then t.store == o.store && o.result.Returned? && t.callers[i].pc == Done(o.result.value)
            else t.callers[i].pc.Running? &&
                 match c.backing
                 case Raises =>
                   var u := Next(t, Raises(i));
                   u.store == o.store && o.result == C.Raised && u.callers[i].pc == Failed
                 case Produces(v) =>
                   var u := Next(t, Produces(i, v, c.at.stamp, c.at.sweep));
                   u.store == o.store && o.result == C.Returned(v) && u.callers[i].pc == Done(v)
  {
  }

  // ---- The lock registry ----

  predicate Uses<V>(c: Caller<V>, k: Key, l: nat) {
    c.key == k && Engaged(c) && c.pc.lock == l
  }

  predicate SharedLockSharedKey<V>(c: Caller<V>, d: Caller<V>) {
    Engaged(c) && Engaged(d) && c.pc.lock == d.pc.lock ==> c.key == d.key
  }

  predicate BothHold<V>(c: Caller<V>, d: Caller<V>) {
    c.pc.Running? && d.pc.Running? && c.pc.lock == d.pc.lock
  }

  predicate LockBelow<V>(c: Caller<V>, n: nat) {
    Engaged(c) ==> c.pc.lock < n
  }

  ghost predicate Referenced<V>(callers: seq<Caller<V>>, locks: map<Key, nat>) {
    forall k :: k in locks ==> exists i :: 0 <= i < |callers| && Uses(callers[i], k, locks[k])
  }

  ghost predicate LocksBelow<V>(callers: seq<Caller<V>>, n: nat) {
    forall i :: 0 <= i < |callers| ==> LockBelow(callers[i], n)
  }

  ghost predicate OneKeyPerLock<V>(callers: seq<Caller<V>>) {
    forall i, j :: 0 <= i < |callers| && 0 <= j < |callers| ==> SharedLockSharedKey(callers[i], callers[j])
  }

  ghost predicate OneHolderPerLock<V>(callers: seq<Caller<V>>) {
    forall i, j :: 0 <= i < |callers| && 0 <= j < |callers| && i != j ==> !BothHold(callers[i], callers[j])
  }

  /** Every registered lock is used by an unfinished caller of its key, locks belong to one key each,
      and a lock has at most one holder. */
  ghost predicate Registered<V>(s: Sys<V>) {
    && Referenced(s.callers, s.store.locks)
    && LocksBelow(s.callers, s.nextLock)
    && OneKeyPerLock(s.callers)
    && OneHolderPerLock(s.callers)
  }

  /** Callers other than `i` are unchanged and keep their registry entries referenced. */
  lemma StillReferenced<V>(callers: seq<Caller<V>>, locks: map<Key, nat>, i: nat, c: Caller<V>, after: map<Key, nat>)
    requires Referenced(callers, locks) && i < |callers| && c.key == callers[i].key
    requires forall k :: k in after ==>
      if k in locks then after[k] == locks[k] && (Uses(callers[i], k, locks[k]) ==> Uses(c, k, locks[k]))
      else Uses(c, k, after[k])
    ensures Referenced(callers[i := c], after)
  {
    var d := callers[i := c];
    forall k | k in after ensures exists j :: 0 <= j < |d| && Uses(d[j], k, after[k]) {
      if k in locks {
        var j :| 0 <= j < |callers| && Uses(callers[j], k, locks[k]);
        assert j != i ==> d[j] == callers[j];
        if j == i {
          assert Uses(d[i], k, after[k]);
        }
      } else {
        assert Uses(d[i], k, after[k]);
      }
    }
  }

  lemma JoinOneKey<V>(s: Sys<V>, i: nat, c: Caller<V>)
    requires Registered(s) && i < |s.callers| && Engaged(c) && c.key == s.callers[i].key
    requires Uses(s.callers[i], c.key, c.pc.lock) || c.pc.lock == NewLock(s, c.key)
    ensures OneKeyPerLock(s.callers[i := c])
  {
    forall j | 0 <= j < |s.callers| && Engaged(s.callers[j]) && s.callers[j].pc.lock == c.pc.lock
      ensures s.callers[j].key == c.key
    {
      assert LockBelow(s.callers[j], s.nextLock);
      var w :| 0 <= w < |s.callers| && Uses(s.callers[w], c.key, c.pc.lock);
      assert SharedLockSharedKey(s.callers[w], s.callers[j]);
    }
  }

  /** A caller that enters the queue, or takes a lock nobody holds, keeps the registry in order. */
  lemma JoinRegistered<V>(s: Sys<V>, i: nat, c: Caller<V>, t: Sys<V>)
    requires Registered(s) && i < |s.callers| && Engaged(c) && c.key == s.callers[i].key
    requires t.callers == s.callers[i := c] && s.nextLock <= t.nextLock
    requires s.callers[i].pc.Idle? ==> c.pc.lock < t.nextLock
    requires if s.callers[i].pc.Waiting? then c.pc.lock == s.callers[i].pc.lock && t.store.locks == s.store.locks
             else s.callers[i].pc.Idle? && NewLock(s, c.key) == c.pc.lock
                  && t.store.locks == if c.key in s.store.locks then s.store.locks
                                      else s.store.locks[c.key := c.pc.lock]
    requires c.pc.Running? ==> !Held(s, c.pc.lock)
    ensures Registered(t)
  {
    StillReferenced(s.callers, s.store.locks, i, c, t.store.locks);
    JoinOneKey(s, i, c);
  }

  /** A caller that leaves keeps the registry in order when no entry of its key stays behind; so does
      one that never registered and adds no entry. */
  lemma LeaveRegistered<V>(s: Sys<V>, i: nat, c: Caller<V>, t: Sys<V>)
    requires Registered(s) && i < |s.callers| && !Engaged(c) && c.key == s.callers[i].key
    requires t.callers == s.callers[i := c] && t.nextLock >= s.nextLock
    requires forall k :: k in t.store.locks ==> k in s.store.locks && t.store.locks[k] == s.store.locks[k]
    requires Engaged(s.callers[i]) ==> c.key !in t.store.locks
    ensures Registered(t)
  {
    StillReferenced(s.callers, s.store.locks, i, c, t.store.locks);
  }

  lemma HeldIsBusy<V>(s: Sys<V>, l: nat)
    ensures Held(s, l) ==> Busy(s, l)
  {
  }

  lemma LockKnown<V>(s: Sys<V>, k: Key)
    requires Registered(s) && k in s.store.locks
    ensures s.store.locks[k] < s.nextLock
    ensures exists i :: 0 <= i < |s.callers| && Uses(s.callers[i], k, s.store.locks[k])
  {
    var i :| 0 <= i < |s.callers| && Uses(s.callers[i], k, s.store.locks[k]);
    assert LockBelow(s.callers[i], s.nextLock);
  }

  lemma ArriveRegistered<V>(s: Sys<V>, i: nat, fast: real, held: real)
    requires Valid(s.store) && Registered(s) && Enabled(s, Arrives(i, fast, held))
    ensures Registered(Next(s, Arrives(i, fast, held)))
  {
    hide C.Arrive, C.Hold, Registered;
    var t, c := Next(s, Arrives(i, fast, held)), s.callers[i];
    var (store, hit) := C.Arrive(s.store, c.key, fast, s.nextLock);
    ArriveShrinks(s.store, c.key, fast, s.nextLock);
    HoldShrinks(store, c.key, held);
    var pc := t.callers[i].pc;
    if hit.Some? || pc.Done? {
      LeaveRegistered(s, i, t.callers[i], t);
    } else {
      if c.key in s.store.locks {
        LockKnown(s, c.key);
      }
      HeldIsBusy(s, NewLock(s, c.key));
      JoinRegistered(s, i, t.callers[i], t);
    }
  }

  lemma StepRegistered<V>(s: Sys<V>, step: Step<V>)
    requires Valid(s.store) && Registered(s) && Enabled(s, step)
    ensures Registered(Next(s, step))
  {
    hide C.Arrive, C.Hold, C.Finish, Registered;
    var t, c := Next(s, step), s.callers[step.i];
    match step
    case Arrives(i, fast, held) => ArriveRegistered(s, i, fast, held);
    case Resumes(i, held) =>
      HoldShrinks(s.store, c.key, held);
      if t.callers[i].pc.Running? {
        JoinRegistered(s, i, t.callers[i], t);
      } else {
        LeaveRegistered(s, i, t.callers[i], t);
      }
    case Produces(i, v, stamp, sweep) =>
      FinishAdds(s.store, c.key, v, c.exp, stamp, sweep);
      LeaveRegistered(s, i, t.callers[i], t);
    case Raises(i) => LeaveRegistered(s, i, t.callers[i], t);
    case Cancels(i) => LeaveRegistered(s, i, t.callers[i], t);
  }

  lemma {:induction false} TraceRegistered<V>(states: seq<Sys<V>>, steps: seq<Step<V>>, n: nat)
    requires Trace(states, steps) && n < |states|
    ensures Valid(states[n].store) && Registered(states[n])
  {
    hide Next;
    TraceTransparent(states, steps, n);
    if n > 0 {
      TraceRegistered(states, steps, n - 1);
      StepRegistered(states[n - 1], steps[n - 1]);
    }
  }

  ghost function InFlight<V>(s: Sys<V>): set<int> {
    set i | 0 <= i < |s.callers| && Engaged(s.callers[i])
  }

  lemma LocksWithinFlight<V>(s: Sys<V>)
    requires Registered(s)
    ensures |s.store.locks.Keys| <= |InFlight(s)|
  {
    var keyOf := map i | i in InFlight(s) :: s.callers[i].key;
    forall k | k in s.store.locks.Keys ensures exists i :: i in InFlight(s) && keyOf[i] == k {
      LockKnown(s, k);
      var i :| 0 <= i < |s.callers| && Uses(s.callers[i], k, s.store.locks[k]);
      assert i in InFlight(s) && keyOf[i] == k;
    }
    ImageSize(InFlight(s), keyOf, s.store.locks.Keys);
  }

  /** No lock leaks: a registered key always has an unfinished caller that uses the registered lock, so
      the registry is never larger than the callers in flight, and empty when there are none. */
  lemma NoLockLeak<V>(states: seq<Sys<V>>, steps: seq<Step<V>>, n: nat)
    requires Trace(states, steps) && n < |states|
    ensures forall k :: k in states[n].store.locks ==>
              exists i :: 0 <= i < |states[n].callers| && Uses(states[n].callers[i], k, states[n].store.locks[k])
    ensures |states[n].store.locks.Keys| <= |InFlight(states[n])|
    ensures InFlight(states[n]) == {} ==> states[n].store.locks == map[]
  {
    TraceRegistered(states, steps, n);
    LocksWithinFlight(states[n]);
  }

  // ---- How large the store can get ----

  /** A stored key has no registered lock: a caller registers one only after its read found nothing, and a
      finished call drops the lock with its write. */
  ghost predicate StoredUnlocked<V, L>(s: Store<V, L>) {
    forall k :: k in s.values ==> k !in s.locks
  }

  ghost predicate WithinCap<V, L>(s: Store<V, L>) {
    Valid(s) && StoredUnlocked(s) && |s.order| <= s.cap
  }

  lemma FinishIs<V, L>(s: Store<V, L>, k: Key, v: V, exp: Option<real>, stamp: real, sweep: real)
    ensures C.Finish(s, k, v, exp, stamp, sweep) == DropLock(Write(s, k, v, exp, stamp, sweep), k)
  {
  }

  /** With only the written key locked, a write always finds a victim and never takes its own key. */
  lemma FinishWithinCap<V, L>(s: Store<V, L>, k: Key, v: V, exp: Option<real>, stamp: real, sweep: real)
    requires Valid(s) && StoredUnlocked(s)
    ensures var t := C.Finish(s, k, v, exp, stamp, sweep); WithinCap(t) && k in t.values
  {
    hide C.Finish, Write;
    assert Protected(s, k, sweep) == {};
    WrittenKeyLost(s, k, v, exp, stamp, sweep);
    WriteSize(s, k, v, exp, stamp, sweep);
    SubsetSize(LockedContenders(s, k, sweep), {k});
    FinishAdds(s, k, v, exp, stamp, sweep);
    FinishIs(s, k, v, exp, stamp, sweep);
  }

  lemma ArriveWithinCap<V, L>(s: Store<V, L>, k: Key, now: real, made: L)
    requires WithinCap(s)
    ensures WithinCap(C.Arrive(s, k, now, made).0) && C.Arrive(s, k, now, made).0.cap == s.cap
  {
    ArriveShrinks(s, k, now, made);
  }

  lemma HoldWithinCap<V, L>(s: Store<V, L>, k: Key, now: real)
    requires WithinCap(s)
    ensures WithinCap(C.Hold(s, k, now).0) && C.Hold(s, k, now).0.cap == s.cap
  {
    HoldShrinks(s, k, now);
  }

  lemma StepWithinCap<V>(s: Sys<V>, step: Step<V>)
    requires WithinCap(s.store) && Enabled(s, step)
    ensures WithinCap(Next(s, step).store) && Next(s, step).store.cap == s.store.cap
  {
    hide C.Finish;
    var c := s.callers[step.i];
    match step
    case Arrives(i, fast, held) =>
      ArriveWithinCap(s.store, c.key, fast, s.nextLock);
      HoldWithinCap(C.Arrive(s.store, c.key, fast, s.nextLock).0, c.key, held);
    case Resumes(i, held) => HoldWithinCap(s.store, c.key, held);
    case Produces(i, v, stamp, sweep) =>
      FinishAdds(s.store, c.key, v, c.exp, stamp, sweep);
      FinishWithinCap(s.store, c.key, v, c.exp, stamp, sweep);
    case Raises(i) =>
    case Cancels(i) =>
  }

  /** In every run the store stays within its cap and no stored key is locked. */
  lemma {:induction false} NeverAboveCap<V>(states: seq<Sys<V>>, steps: seq<Step<V>>, n: nat)
    requires Trace(states, steps) && n < |states|
    ensures WithinCap(states[n].store) && states[n].store.cap == states[0].store.cap
  {
    hide Next;
    if n > 0 {
      NeverAboveCap(states, steps, n - 1);
      StepWithinCap(states[n - 1], steps[n - 1]);
    }
  }

  /** The other keys that are live at the sweep, least recent first. */
  ghost function LiveOthers<V, L>(s: Store<V, L>, k: Key, sweep: real): seq<Key> {
    Minus(s.order, ExpiredKeys(s.values, sweep) + {k})
  }

  lemma FinishEvicts<V, L>(s: Store<V, L>, k: Key, v: V, exp: Option<real>, stamp: real, sweep: real)
    requires WithinCap(s)
    ensures C.Finish(s, k, v, exp, stamp, sweep).order == Tail(LiveOthers(s, k, sweep) + [k], s.cap)
  {
    hide Minus, C.Finish, Write, Victims;
    var e := Entry(v, Expiry(exp, stamp));
    var live := LiveOthers(s, k, sweep);
    InMinus(s.order, ExpiredKeys(s.values, sweep) + {k});
    MinusMinus(s.order, ExpiredKeys(s.values, sweep), {k});
    SweptPutValid(s, k, e, sweep);
    WriteIs(s, k, v, exp, stamp, sweep);
    C.OneVictim(live, k, s.locks.Keys, s.cap);
    FinishIs(s, k, v, exp, stamp, sweep);
  }

  /** In every run a finished call leaves the `cap` most recent of the live other keys and, last, its own: it
      costs at most the least recent live entry its place, and no lock changes which one. */
  lemma EvictsLeastRecent<V>(states: seq<Sys<V>>, steps: seq<Step<V>>, n: nat)
    requires Trace(states, steps) && n < |steps| && steps[n].Produces?
    ensures var (s, k) := (states[n].store, states[n].callers[steps[n].i].key);
            s.cap > 0 && states[n + 1].store.order == Tail(LiveOthers(s, k, steps[n].sweep) + [k], s.cap)
  {
    hide C.Finish;
    NeverAboveCap(states, steps, n);
    var (s, c) := (states[n].store, states[n].callers[steps[n].i]);
    FinishEvicts(s, c.key, steps[n].value, c.exp, steps[n].stamp, steps[n].sweep);
  }

  // ---- When a stored value is lost ----

  /** `k` is the least recent of the live other keys, and they fill the cap. */
  ghost predicate MakesRoom<V, L>(s: Store<V, L>, written: Key, sweep: real, k: Key) {
    var live := LiveOthers(s, written, sweep);
    live != [] && live[0] == k && |live| == s.cap
  }

  /** Its caller finds it expired, or a write for another key sweeps it or needs its place. */
  ghost predicate LosesValue<V>(s: Sys<V>, step: Step<V>, k: Key)
    requires step.i < |s.callers| && k in s.store.values
  {
    var (c, e) := (s.callers[step.i], s.store.values[k]);
    match step
    case Arrives(_, fast, _) => c.key == k && !LiveAt(e, fast)
    case Resumes(_, held) => c.key == k && !LiveAt(e, held)
    case Produces(_, _, _, sweep) => c.key != k && (!LiveAt(e, sweep) || MakesRoom(s.store, c.key, sweep, k))
    case _ => false
  }

  lemma ReadLoses<V, L>(s: Store<V, L>, x: Key, now: real, k: Key)
    requires k in s.values
    ensures k !in Read(s, x, now).0.values <==> x == k && !LiveAt(s.values[k], now)
  {
  }

  /** After a first read that found nothing the second finds nothing either, and loses nothing. */
  lemma MissedIsAbsent<V, L>(s: Store<V, L>, k: Key, fast: real, held: real, made: L)
    requires Valid(s)
    ensures var (t, hit) := C.Arrive(s, k, fast, made);
            && t.values == Read(s, k, fast).0.values
            && (hit.None? ==> C.Hold(t, k, held) == (t, None))
  {
  }

  lemma ArriveLoses<V>(s: Sys<V>, i: nat, fast: real, held: real, k: Key)
    requires Valid(s.store) && Enabled(s, Arrives(i, fast, held)) && k in s.store.values
    ensures k !in Next(s, Arrives(i, fast, held)).store.values
            <==> s.callers[i].key == k && !LiveAt(s.store.values[k], fast)
  {
    hide Read;
    var c := s.callers[i].key;
    var (t, hit) := C.Arrive(s.store, c, fast, s.nextLock);
    ReadLoses(s.store, c, fast, k);
    MissedIsAbsent(s.store, c, fast, held, s.nextLock);
  }

  lemma TailSnoc(live: seq<Key>, x: Key, cap: nat)
    requires 0 < |live| == cap
    ensures Tail(live + [x], cap) == live[1..] + [x]
  {
  }

  lemma InTailSnoc(live: seq<Key>, x: Key, cap: nat, k: Key)
    requires Distinct(live) && |live| <= cap && k != x
    ensures k in Tail(live + [x], cap) <==> k in live && !(live != [] && live[0] == k && |live| == cap)
  {
    if |live| == cap && live != [] {
      DistinctAt(live, 0);
      hide Distinct, Tail;
      TailSnoc(live, x, cap);
      assert live == [live[0]] + live[1..];
    }
  }

  lemma FinishLoses<V, L>(s: Store<V, L>, x: Key, v: V, exp: Option<real>, stamp: real, sweep: real, k: Key)
    requires WithinCap(s) && k in s.values
    ensures k !in C.Finish(s, x, v, exp, stamp, sweep).values
            <==> x != k && (!LiveAt(s.values[k], sweep) || MakesRoom(s, x, sweep, k))
  {
    hide C.Finish, Minus, Tail;
    FinishWithinCap(s, x, v, exp, stamp, sweep);
    FinishEvicts(s, x, v, exp, stamp, sweep);
    if x != k {
      var gone := ExpiredKeys(s.values, sweep) + {x};
      InMinus(s.order, gone);
      MinusDistinct(s.order, gone);
      InTailSnoc(LiveOthers(s, x, sweep), x, s.cap, k);
    }
  }

  /** The exact condition, readable before the step, under which a stored value is gone after it. */
  lemma LossIff<V>(s: Sys<V>, step: Step<V>, k: Key)
    requires WithinCap(s.store) && Enabled(s, step) && k in s.store.values
    ensures k !in Next(s, step).store.values <==> LosesValue(s, step, k)
  {
    hide C.Finish, Read, MakesRoom;
    var c := s.callers[step.i];
    match step
    case Arrives(i, fast, held) => ArriveLoses(s, i, fast, held, k);
    case Resumes(i, held) => ReadLoses(s.store, c.key, held, k);
    case Produces(i, v, stamp, sweep) => FinishLoses(s.store, c.key, v, c.exp, stamp, sweep, k);
    case Raises(i) =>
    case Cancels(i) =>
  }
}
