/** Concurrent guarded requests over pooled sessions. A step runs one task from one await to the next;
    requests may fail or be cancelled while queued, in flight or reading the body. */
module PinnedRequests {
  import opened Seqs
  import opened SessionGuard

  datatype CurlOpt = Resolve | Other(code: int)

  /** An option value; the RESOLVE option holds a pin list. */
  datatype OptValue = Pins(entries: seq<string>) | Opaque(id: int)

  type Options = map<CurlOpt, OptValue>

  /** `Inside` a request: with the guard entry it holds, none for a keyless request, and the values of
      the RESOLVE option curl has read for it so far. */
  datatype Pc =
    | Outside
    | Queued(entry: nat)
    | Inside(held: Option<nat>, seen: seq<Option<OptValue>>)
    | Finished(seen: seq<Option<OptValue>>)

  datatype Task = Task(loop: Loop, key: Option<SessionKey>, session: nat, pins: OptValue, pc: Pc)

  datatype Sys = Sys(guard: Guard<nat>, made: nat, sessions: map<nat, Options>, tasks: seq<Task>)

  datatype Step =
    | Enters(i: nat)    // the pooled session is handed over and the guard is entered
    | Admitted(i: nat)  // a queued task gets the lock
    | Observes(i: nat)  // after an await, curl reads the shared option
    | Exits(i: nat)     // the body is read, or the request raised or was cancelled
    | Abandons(i: nat)  // cancelled before the request began

  predicate References(t: Task, e: nat) {
    t.pc == Queued(e) || (t.pc.Inside? && t.pc.held == Some(e))
  }

  predicate Holds(t: Task, e: nat) {
    t.pc.Inside? && t.pc.held == Some(e)
  }

  ghost predicate Free(s: Sys, e: nat) {
    forall j :: 0 <= j < |s.tasks| ==> !Holds(s.tasks[j], e)
  }

  ghost predicate Unused(s: Sys, e: nat) {
    forall j :: 0 <= j < |s.tasks| ==> !References(s.tasks[j], e)
  }

  ghost predicate Enabled(s: Sys, step: Step) {
    && step.i < |s.tasks|
    && var pc := s.tasks[step.i].pc;
       match step
       case Enters(_) => pc.Outside?
       case Admitted(_) => pc.Queued? && Free(s, pc.entry)
       case Observes(_) => pc.Inside?
       case Exits(_) => pc.Inside?
       case Abandons(_) => pc.Outside? || pc.Queued?
  }

  function OptionsOf(sessions: map<nat, Options>, session: nat): Options {
    if session in sessions then sessions[session] else map[]
  }

  /** `session.curl_options = {**session.curl_options, RESOLVE: pins}` */
  function SetPins(sessions: map<nat, Options>, t: Task): map<nat, Options> {
    sessions[t.session := OptionsOf(sessions, t.session)[Resolve := t.pins]]
  }

  function ReadPins(sessions: map<nat, Options>, t: Task): Option<OptValue> {
    var options := OptionsOf(sessions, t.session);
    if Resolve in options then Some(options[Resolve]) else None
  }

  function At(s: Sys, i: nat, pc: Pc): seq<Task>
    requires i < |s.tasks|
  {
    s.tasks[i := s.tasks[i].(pc := pc)]
  }

  /** Past the guard: the pins are set, and the request is started. */
  function Begin(s: Sys, i: nat, held: Option<nat>): Sys
    requires i < |s.tasks|
  {
    s.(sessions := SetPins(s.sessions, s.tasks[i]), tasks := At(s, i, Inside(held, [])))
  }

  function Release(s: Sys, t: Task, e: nat): Guard<nat> {
    if t.key.Some? then Leave(s.guard, t.loop, t.key.value, e) else s.guard
  }

  ghost function Next(s: Sys, step: Step): Sys
    requires step.i < |s.tasks|
  {
    var i, t := step.i, s.tasks[step.i];
    match step
    case Enters(_) =>
      if t.key.None? then Begin(s, i, None)
      else
        var (g, e) := Enter(s.guard, t.loop, t.key.value, s.made);
        var u := s.(guard := g, made := s.made + 1);
        if Unused(s, e) then Begin(u, i, Some(e)) else u.(tasks := At(s, i, Queued(e)))
    case Admitted(_) =>
      if t.pc.Queued? then Begin(s, i, Some(t.pc.entry)) else s
    case Observes(_) =>
      if t.pc.Inside? then s.(tasks := At(s, i, t.pc.(seen := t.pc.seen + [ReadPins(s.sessions, t)]))) else s
    case Exits(_) =>
      if !t.pc.Inside? then s
      else s.(guard := if t.pc.held.Some? then Release(s, t, t.pc.held.value) else s.guard,
              tasks := At(s, i, Finished(t.pc.seen)))
    case Abandons(_) =>
      s.(guard := if t.pc.Queued? then Release(s, t, t.pc.entry) else s.guard, tasks := At(s, i, Finished([])))
  }

  ghost predicate Init(s: Sys) {
    s.guard == Guard(map[], map[]) && forall i :: 0 <= i < |s.tasks| ==> s.tasks[i].pc.Outside?
  }

  ghost predicate Trace(states: seq<Sys>, steps: seq<Step>) {
    && |states| == |steps| + 1 && Init(states[0])
    && forall n :: 0 <= n < |steps| ==> Enabled(states[n], steps[n]) && states[n + 1] == Next(states[n], steps[n])
  }

  // ---- The guard ----

  ghost function Refs(tasks: seq<Task>, e: nat): set<int> {
    set i | 0 <= i < |tasks| && References(tasks[i], e)
  }

  lemma RefsAfter(tasks: seq<Task>, i: nat, t: Task, e: nat)
    requires i < |tasks|
    ensures |Refs(tasks[i := t], e)|
            == |Refs(tasks, e)| + (if References(t, e) then 1 else 0) - (if References(tasks[i], e) then 1 else 0)
  {
    var before, after := Refs(tasks, e), Refs(tasks[i := t], e);
    var rest := before - {i};
    assert before == if References(tasks[i], e) then rest + {i} else rest;
    assert after == if References(t, e) then rest + {i} else rest;
  }

  /** A task refers to an entry only as the registered entry of its own key and loop. */
  predicate InPlace(t: Task, g: Guard<nat>, made: nat) {
    && (t.pc.Queued? ==> t.key.Some? && t.pc.entry < made && EntryAt(g, t.loop, t.key.value) == Some(t.pc.entry))
    && (t.pc.Inside? && t.pc.held.Some? ==>
          t.key.Some? && t.pc.held.value < made && EntryAt(g, t.loop, t.key.value) == Some(t.pc.held.value))
    && (t.pc.Inside? && t.pc.held.None? ==> t.key.None?)
  }

  predicate SamePlace(t: Task, u: Task) {
    t.loop == u.loop && t.key == u.key
  }

  ghost predicate AllInPlace(s: Sys) {
    forall i :: 0 <= i < |s.tasks| ==> InPlace(s.tasks[i], s.guard, s.made)
  }

  /** A registered entry counts exactly the tasks that refer to it, and there is at least one. */
  ghost predicate CountsExact(s: Sys) {
    forall l: Loop, k: SessionKey :: EntryAt(s.guard, l, k).Some? ==>
      var e := EntryAt(s.guard, l, k).value;
      e < s.made && Count(s.guard, e) == |Refs(s.tasks, e)| && Count(s.guard, e) > 0
  }

  /** Entries belong to one key of one loop. */
  ghost predicate EntriesApart(g: Guard<nat>) {
    forall l: Loop, k: SessionKey, l': Loop, k': SessionKey ::
      EntryAt(g, l, k).Some? && EntryAt(g, l, k) == EntryAt(g, l', k') ==> l == l' && k == k'
  }

  ghost predicate OneInside(s: Sys) {
    forall i, j, e: nat ::
      0 <= i < |s.tasks| && 0 <= j < |s.tasks| && Holds(s.tasks[i], e) && Holds(s.tasks[j], e) ==> i == j
  }

  ghost predicate Guarded(s: Sys) {
    AllInPlace(s) && CountsExact(s) && EntriesApart(s.guard) && OneInside(s)
  }

  lemma NoRefs(s: Sys, e: nat)
    requires AllInPlace(s) && e >= s.made
    ensures Refs(s.tasks, e) == {}
  {
    forall i | 0 <= i < |s.tasks| ensures !References(s.tasks[i], e) {
      assert InPlace(s.tasks[i], s.guard, s.made);
    }
  }

  lemma EnterCounts(s: Sys, i: nat, u: Task, t: Sys)
    requires AllInPlace(s) && CountsExact(s) && EntriesApart(s.guard)
    requires i < |s.tasks| && s.tasks[i].pc.Outside? && u.key.Some?
    requires var (g, e) := Enter(s.guard, u.loop, u.key.value, s.made);
             && t.guard == g && t.made == s.made + 1 && t.tasks == s.tasks[i := u]
             && (u.pc == Queued(e) || u.pc == Inside(Some(e), []))
    ensures CountsExact(t)
  {
    var g := t.guard;
    EnterMeans(s.guard, u.loop, u.key.value, s.made);
    NoRefs(s, s.made);
    forall l: Loop, k: SessionKey | EntryAt(g, l, k).Some?
      ensures var x := EntryAt(g, l, k).value;
              x < t.made && Count(g, x) == |Refs(t.tasks, x)| && Count(g, x) > 0
    {
      RefsAfter(s.tasks, i, u, EntryAt(g, l, k).value);
    }
  }

  /** Entering: the task now refers to the entry of its key, as a holder only if nobody referred to it. */
  lemma EnterGuarded(s: Sys, i: nat, u: Task, t: Sys)
    requires Guarded(s) && i < |s.tasks| && s.tasks[i].pc.Outside? && u.key.Some? && SamePlace(u, s.tasks[i])
    requires var (g, e) := Enter(s.guard, u.loop, u.key.value, s.made);
             && t.guard == g && t.made == s.made + 1 && t.tasks == s.tasks[i := u]
             && (u.pc == Queued(e) || (u.pc == Inside(Some(e), []) && Free(s, e)))
    ensures Guarded(t)
  {
    var k := u.key.value;
    var (g, e) := Enter(s.guard, u.loop, k, s.made);
    hide Enter, EntryAt, Count, Refs;
    EnterMeans(s.guard, u.loop, k, s.made);
    NoRefs(s, s.made);
    assert EntriesApart(g);
    forall j | 0 <= j < |t.tasks| ensures InPlace(t.tasks[j], g, t.made) {
      assert j != i ==> InPlace(s.tasks[j], s.guard, s.made);
    }
    EnterCounts(s, i, u, t);
  }

  lemma LeaveCounts(s: Sys, i: nat, u: Task, e: nat, t: Sys)
    requires CountsExact(s) && EntriesApart(s.guard) && i < |s.tasks| && References(s.tasks[i], e)
    requires u.pc.Finished? && u.key.Some? && EntryAt(s.guard, u.loop, u.key.value) == Some(e)
    requires t.guard == Leave(s.guard, u.loop, u.key.value, e) && t.made == s.made && t.tasks == s.tasks[i := u]
    ensures CountsExact(t)
  {
    LeaveMeans(s.guard, u.loop, u.key.value, e);
    forall l: Loop, k: SessionKey | EntryAt(t.guard, l, k).Some?
      ensures var x := EntryAt(t.guard, l, k).value;
              x < t.made && Count(t.guard, x) == |Refs(t.tasks, x)| && Count(t.guard, x) > 0
    {
      RefsAfter(s.tasks, i, u, EntryAt(t.guard, l, k).value);
    }
  }

  lemma SomeRefs(tasks: seq<Task>, j: nat, e: nat)
    requires j < |tasks| && References(tasks[j], e)
    ensures |Refs(tasks, e)| > 0
  {
    assert j in Refs(tasks, e);
  }

  /** Leaving: the count goes down with the reference, and the entry goes with the last one. */
  lemma LeaveGuarded(s: Sys, i: nat, u: Task, e: nat, t: Sys)
    requires Guarded(s) && i < |s.tasks| && References(s.tasks[i], e) && u.pc.Finished? && SamePlace(u, s.tasks[i])
    requires u.key.Some? && t.guard == Leave(s.guard, u.loop, u.key.value, e)
    requires t.made == s.made && t.tasks == s.tasks[i := u]
    ensures Guarded(t)
  {
    var k := u.key.value;
    hide Leave, EntryAt, Count, Refs;
    LeaveMeans(s.guard, u.loop, k, e);
    assert InPlace(s.tasks[i], s.guard, s.made);
    RefsAfter(s.tasks, i, u, e);
    forall j | 0 <= j < |t.tasks| ensures InPlace(t.tasks[j], t.guard, t.made) {
      if j != i && References(t.tasks[j], e) {
        SomeRefs(t.tasks, j, e);
      }
      assert j != i ==> InPlace(s.tasks[j], s.guard, s.made);
    }
    LeaveCounts(s, i, u, e, t);
  }

  /** A step that changes no reference, and gives the lock only when it is free. */
  lemma StayGuarded(s: Sys, i: nat, u: Task, t: Sys)
    requires Guarded(s) && i < |s.tasks| && SamePlace(u, s.tasks[i]) && InPlace(u, s.guard, s.made)
    requires forall e :: References(u, e) <==> References(s.tasks[i], e)
    requires forall e: nat :: Holds(u, e) ==> Holds(s.tasks[i], e) || Free(s, e)
    requires t.guard == s.guard && t.made == s.made && t.tasks == s.tasks[i := u]
    ensures Guarded(t)
  {
    forall l: Loop, k: SessionKey | EntryAt(s.guard, l, k).Some?
      ensures var x := EntryAt(s.guard, l, k).value;
              x < t.made && Count(s.guard, x) == |Refs(t.tasks, x)| && Count(s.guard, x) > 0
    {
      RefsAfter(s.tasks, i, u, EntryAt(s.guard, l, k).value);
    }
  }

  lemma PlaceOf(s: Sys, i: nat)
    requires Guarded(s) && i < |s.tasks|
    ensures InPlace(s.tasks[i], s.guard, s.made)
  {
  }

  lemma UnusedIsFree(s: Sys, e: nat)
    ensures Unused(s, e) ==> Free(s, e)
  {
  }

  lemma StepGuarded(s: Sys, step: Step)
    requires Guarded(s) && Enabled(s, step)
    ensures Guarded(Next(s, step))
  {
    hide Enter, Leave, Guarded, EntryAt;
    var i, t, n := step.i, s.tasks[step.i], Next(s, step);
    PlaceOf(s, i);
    match step
    case Enters(_) =>
      if t.key.Some? {
        UnusedIsFree(s, Enter(s.guard, t.loop, t.key.value, s.made).1);
        EnterGuarded(s, i, n.tasks[i], n);
      } else {
        StayGuarded(s, i, n.tasks[i], n);
      }
    case Admitted(_) => StayGuarded(s, i, n.tasks[i], n);
    case Observes(_) => StayGuarded(s, i, n.tasks[i], n);
    case Exits(_) =>
      if t.pc.held.Some? {
        LeaveGuarded(s, i, n.tasks[i], t.pc.held.value, n);
      } else {
        StayGuarded(s, i, n.tasks[i], n);
      }
    case Abandons(_) =>
      if t.pc.Queued? {
        LeaveGuarded(s, i, n.tasks[i], t.pc.entry, n);
      } else {
        StayGuarded(s, i, n.tasks[i], n);
      }
  }

  lemma {:induction false} TraceGuarded(states: seq<Sys>, steps: seq<Step>, n: nat)
    requires Trace(states, steps) && n < |states|
    ensures Guarded(states[n])
  {
    if n > 0 {
      TraceGuarded(states, steps, n - 1);
      StepGuarded(states[n - 1], steps[n - 1]);
    }
  }

  /** A keyed request inside the guard of `u`'s key and loop. */
  predicate InsideWith(t: Task, u: Task) {
    t.pc.Inside? && t.key.Some? && SamePlace(t, u)
  }

  /** In every run, with any failures and cancellations: an entry's count is the number of tasks holding
      or waiting for it, and tasks of one key and loop share one entry ... */
  lemma CountsReferences(states: seq<Sys>, steps: seq<Step>, n: nat, i: nat, e: nat)
    requires Trace(states, steps) && n < |states| && i < |states[n].tasks| && References(states[n].tasks[i], e)
    ensures var s, t := states[n], states[n].tasks[i];
            t.key.Some? && EntryAt(s.guard, t.loop, t.key.value) == Some(e) && Count(s.guard, e) == |Refs(s.tasks, e)|
  {
    TraceGuarded(states, steps, n);
    assert InPlace(states[n].tasks[i], states[n].guard, states[n].made);
  }

  /** ... so at most one task per key and loop is inside. */
  lemma MutualExclusion(states: seq<Sys>, steps: seq<Step>, n: nat)
    requires Trace(states, steps) && n < |states|
    ensures var s := states[n];
            forall i, j | 0 <= i < |s.tasks| && 0 <= j < |s.tasks| && InsideWith(s.tasks[i], s.tasks[j])
                          && InsideWith(s.tasks[j], s.tasks[i]) :: i == j
  {
    TraceGuarded(states, steps, n);
    var s := states[n];
    forall i, j | 0 <= i < |s.tasks| && 0 <= j < |s.tasks| && InsideWith(s.tasks[i], s.tasks[j])
                  && InsideWith(s.tasks[j], s.tasks[i])
      ensures i == j
    {
      assert InPlace(s.tasks[i], s.guard, s.made) && InPlace(s.tasks[j], s.guard, s.made);
      assert Holds(s.tasks[i], s.tasks[i].pc.held.value) && Holds(s.tasks[j], s.tasks[i].pc.held.value);
    }
  }

  predicate InGuard(t: Task, loop: Loop, key: SessionKey) {
    t.loop == loop && t.key == Some(key) && (t.pc.Queued? || t.pc.Inside?)
  }

  /** The registry holds a key exactly while some task of that key and loop is queued or inside. */
  lemma RegistryExact(states: seq<Sys>, steps: seq<Step>, n: nat, loop: Loop, key: SessionKey)
    requires Trace(states, steps) && n < |states|
    ensures EntryAt(states[n].guard, loop, key).Some?
            <==> exists i :: 0 <= i < |states[n].tasks| && InGuard(states[n].tasks[i], loop, key)
  {
    TraceGuarded(states, steps, n);
    var s := states[n];
    if EntryAt(s.guard, loop, key).Some? {
      var e := EntryAt(s.guard, loop, key).value;
      assert Refs(s.tasks, e) != {};
      var i :| i in Refs(s.tasks, e);
      assert InPlace(s.tasks[i], s.guard, s.made);
      assert EntryAt(s.guard, s.tasks[i].loop, s.tasks[i].key.value) == EntryAt(s.guard, loop, key);
      assert InGuard(s.tasks[i], loop, key);
    }
    forall i | 0 <= i < |s.tasks| && InGuard(s.tasks[i], loop, key) ensures EntryAt(s.guard, loop, key).Some? {
      assert InPlace(s.tasks[i], s.guard, s.made);
    }
  }

  /** So with no task in the guard the registry is empty. */
  lemma RegistryEmptyWhenIdle(states: seq<Sys>, steps: seq<Step>, n: nat, loop: Loop)
    requires Trace(states, steps) && n < |states|
    requires forall i :: 0 <= i < |states[n].tasks| ==> !states[n].tasks[i].pc.Queued? && !states[n].tasks[i].pc.Inside?
    ensures Inner(states[n].guard, loop) == map[]
  {
    forall k ensures k !in Inner(states[n].guard, loop) {
      RegistryExact(states, steps, n, loop, k);
    }
  }

  // ---- The pins ----

  /** Tasks that share a session share its key and loop; a keyless request has a session of its own. */
  ghost predicate SessionsShared(tasks: seq<Task>) {
    forall i, j :: 0 <= i < |tasks| && 0 <= j < |tasks| && i != j && tasks[i].session == tasks[j].session ==>
      tasks[i].key.Some? && SamePlace(tasks[i], tasks[j])
  }

  predicate OwnPins(t: Task, sessions: map<nat, Options>) {
    && (t.pc.Inside? ==> ReadPins(sessions, t) == Some(t.pins) && forall x :: x in t.pc.seen ==> x == Some(t.pins))
    && (t.pc.Finished? ==> forall x :: x in t.pc.seen ==> x == Some(t.pins))
  }

  ghost predicate Pinned(s: Sys) {
    SessionsShared(s.tasks) && forall i :: 0 <= i < |s.tasks| ==> OwnPins(s.tasks[i], s.sessions)
  }

  /** A request begins: nobody else inside shares its session, so nobody else's pins are touched. */
  lemma BeginPinned(s: Sys, i: nat, held: Option<nat>)
    requires Pinned(s) && i < |s.tasks| && (s.tasks[i].pc.Outside? || s.tasks[i].pc.Queued?)
    requires forall j :: 0 <= j < |s.tasks| ==> !InsideWith(s.tasks[j], s.tasks[i])
    ensures Pinned(Begin(s, i, held))
  {
    var t := Begin(s, i, held);
    forall j | 0 <= j < |t.tasks| ensures OwnPins(t.tasks[j], t.sessions) {
      assert OwnPins(s.tasks[j], s.sessions);
    }
  }

  lemma OthersElsewhere(s: Sys, i: nat, e: nat)
    requires Guarded(s) && i < |s.tasks| && Free(s, e) && s.tasks[i].key.Some?
    requires var at := EntryAt(s.guard, s.tasks[i].loop, s.tasks[i].key.value); at == None || at == Some(e)
    ensures forall j :: 0 <= j < |s.tasks| ==> !InsideWith(s.tasks[j], s.tasks[i])
  {
    forall j | 0 <= j < |s.tasks| ensures !InsideWith(s.tasks[j], s.tasks[i]) {
      assert InPlace(s.tasks[j], s.guard, s.made) && !Holds(s.tasks[j], e);
    }
  }

  lemma StepPinned(s: Sys, step: Step)
    requires Guarded(s) && Pinned(s) && Enabled(s, step)
    ensures Pinned(Next(s, step))
  {
    hide Enter, Leave, Guarded, EntryAt;
    var i, t, n := step.i, s.tasks[step.i], Next(s, step);
    assert OwnPins(t, s.sessions);
    PlaceOf(s, i);
    match step
    case Enters(_) =>
      if t.key.Some? {
        var (g, e) := Enter(s.guard, t.loop, t.key.value, s.made);
        EnterMeans(s.guard, t.loop, t.key.value, s.made);
        if Unused(s, e) {
          UnusedIsFree(s, e);
          OthersElsewhere(s, i, e);
          BeginPinned(s.(guard := g, made := s.made + 1), i, Some(e));
        }
      } else {
        BeginPinned(s, i, None);
      }
    case Admitted(_) =>
      OthersElsewhere(s, i, t.pc.entry);
      BeginPinned(s, i, Some(t.pc.entry));
    case Observes(_) =>
    case Exits(_) =>
    case Abandons(_) =>
  }

  lemma {:induction false} TracePinned(states: seq<Sys>, steps: seq<Step>, n: nat)
    requires Trace(states, steps) && n < |states| && SessionsShared(states[0].tasks)
    ensures Pinned(states[n])
  {
    if n > 0 {
      TracePinned(states, steps, n - 1);
      TraceGuarded(states, steps, n - 1);
      StepPinned(states[n - 1], steps[n - 1]);
    }
  }

  /** Pin isolation: in every interleaving, from the moment a request sets its pins until its body is
      read, its session carries exactly those pins, and every read curl made for it saw them. */
  lemma PinIsolation(states: seq<Sys>, steps: seq<Step>, n: nat, i: nat)
    requires Trace(states, steps) && n < |states| && SessionsShared(states[0].tasks) && i < |states[n].tasks|
    ensures var t := states[n].tasks[i];
            && (t.pc.Inside? ==> ReadPins(states[n].sessions, t) == Some(t.pins))
            && (t.pc.Inside? || t.pc.Finished? ==> forall x :: x in t.pc.seen ==> x == Some(t.pins))
  {
    TracePinned(states, steps, n);
    assert OwnPins(states[n].tasks[i], states[n].sessions);
  }

  lemma StepKeepsOptions(s: Sys, step: Step, session: nat)
    requires step.i < |s.tasks|
    ensures OptionsOf(Next(s, step).sessions, session) - {Resolve} == OptionsOf(s.sessions, session) - {Resolve}
  {
    assert OptionsOf(SetPins(s.sessions, s.tasks[step.i]), session) - {Resolve}
           == OptionsOf(s.sessions, session) - {Resolve};
  }

  /** Setting pins replaces one option of one session: every other option of every session stays. */
  lemma {:induction false} OtherOptionsKept(states: seq<Sys>, steps: seq<Step>, n: nat, session: nat)
    requires Trace(states, steps) && n < |states|
    ensures OptionsOf(states[n].sessions, session) - {Resolve} == OptionsOf(states[0].sessions, session) - {Resolve}
  {
    if n > 0 {
      OtherOptionsKept(states, steps, n - 1, session);
      StepKeepsOptions(states[n - 1], steps[n - 1], session);
    }
  }
}
