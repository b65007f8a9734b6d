/** What each step does to a guarded request and its session, and that every queued request gets its turn. */
module RequestOutcomes {
  import opened Seqs
  import opened SessionGuard
  import opened PinnedRequests

  // ---- One step ----

  ghost predicate OnlyMoves(s: Sys, i: nat, t: Sys) {
    && |t.tasks| == |s.tasks| && i < |s.tasks|
    && t.tasks == s.tasks[i := s.tasks[i].(pc := t.tasks[i].pc)]
  }

  /** Some task of `t`'s key and loop is queued or inside. */
  ghost predicate KeyTaken(s: Sys, t: Task) {
    t.key.Some? && exists j :: 0 <= j < |s.tasks| && InGuard(s.tasks[j], t.loop, t.key.value)
  }

  /** The session of `t` now carries `t`'s pins; its other options and all other sessions are as before. */
  ghost predicate PinsSet(s: Sys, t: Task, after: Sys) {
    && (forall session: nat :: session != t.session ==>
          OptionsOf(after.sessions, session) == OptionsOf(s.sessions, session))
    && OptionsOf(after.sessions, t.session) == OptionsOf(s.sessions, t.session)[Resolve := t.pins]
  }

  lemma ReferrerTakes(s: Sys, t: Task, e: nat)
    requires Guarded(s) && t.key.Some? && EntryAt(s.guard, t.loop, t.key.value) == Some(e)
    requires |Refs(s.tasks, e)| > 0
    ensures !Unused(s, e) && KeyTaken(s, t)
  {
    assert Refs(s.tasks, e) != {};
    var j :| j in Refs(s.tasks, e);
    assert InPlace(s.tasks[j], s.guard, s.made) && References(s.tasks[j], e);
    assert EntryAt(s.guard, s.tasks[j].loop, s.tasks[j].key.value) == EntryAt(s.guard, t.loop, t.key.value);
    assert InGuard(s.tasks[j], t.loop, t.key.value);
  }

  /** Who refers to the entry `Enter` gives is who stands in the guard of that key and loop. */
  lemma UnusedUntaken(s: Sys, t: Task)
    requires Guarded(s) && t.key.Some?
    ensures Unused(s, Enter(s.guard, t.loop, t.key.value, s.made).1) <==> !KeyTaken(s, t)
  {
    var e := Enter(s.guard, t.loop, t.key.value, s.made).1;
    hide Enter, Refs;
    EnterMeans(s.guard, t.loop, t.key.value, s.made);
    if EntryAt(s.guard, t.loop, t.key.value).Some? {
      assert |Refs(s.tasks, e)| > 0;
      ReferrerTakes(s, t, e);
    } else {
      NoRefs(s, s.made);
      assert e == s.made;
      forall j | 0 <= j < |s.tasks| ensures !References(s.tasks[j], e) && !InGuard(s.tasks[j], t.loop, t.key.value) {
        assert InPlace(s.tasks[j], s.guard, s.made);
      }
    }
  }

  /** A request begins at once, with its pins set, iff it is keyless or nobody stands in the guard of its key
      and loop; otherwise it queues for the entry those share, and no session changes. */
  lemma EnterOutcome(s: Sys, i: nat)
    requires Guarded(s) && Enabled(s, Enters(i))
    ensures var (c, t) := (s.tasks[i], Next(s, Enters(i)));
            && OnlyMoves(s, i, t)
            && (if KeyTaken(s, c)
                then t.tasks[i].pc.Queued? && t.sessions == s.sessions
                     && EntryAt(t.guard, c.loop, c.key.value) == Some(t.tasks[i].pc.entry)
                     && EntryAt(s.guard, c.loop, c.key.value) == Some(t.tasks[i].pc.entry)
                else t.tasks[i].pc.Inside? && t.tasks[i].pc.seen == [] && PinsSet(s, c, t)
                     && t.tasks[i].pc.held == if c.key.None? then None else EntryAt(t.guard, c.loop, c.key.value))
  {
    var c := s.tasks[i];
    if c.key.Some? {
      UnusedUntaken(s, c);
      EnterMeans(s.guard, c.loop, c.key.value, s.made);
      if KeyTaken(s, c) {
        var j :| 0 <= j < |s.tasks| && InGuard(s.tasks[j], c.loop, c.key.value);
        assert InPlace(s.tasks[j], s.guard, s.made);
      }
    }
  }

  /** A request that is given the lock begins: it holds the entry it queued for, and its pins are set. */
  lemma AdmissionOutcome(s: Sys, i: nat)
    requires Enabled(s, Admitted(i))
    ensures var (c, t) := (s.tasks[i], Next(s, Admitted(i)));
            && OnlyMoves(s, i, t) && t.tasks[i].pc == Inside(Some(c.pc.entry), [])
            && PinsSet(s, c, t) && t.guard == s.guard
  {
  }

  lemma TakenIffRegistered(s: Sys, t: Task)
    requires Guarded(s) && t.key.Some?
    ensures EntryAt(s.guard, t.loop, t.key.value).Some? <==> KeyTaken(s, t)
  {
    if EntryAt(s.guard, t.loop, t.key.value).Some? {
      ReferrerTakes(s, t, EntryAt(s.guard, t.loop, t.key.value).value);
    }
    if KeyTaken(s, t) {
      var j :| 0 <= j < |s.tasks| && InGuard(s.tasks[j], t.loop, t.key.value);
      assert InPlace(s.tasks[j], s.guard, s.made);
    }
  }

  /** A request leaves with what was read for it; its entry stays iff others of its key and loop need it, and
      no session changes. */
  lemma LeavingOutcome(s: Sys, step: Step)
    requires Guarded(s) && Enabled(s, step) && (step.Exits? || step.Abandons?)
    ensures var (c, t) := (s.tasks[step.i], Next(s, step));
            && OnlyMoves(s, step.i, t) && t.sessions == s.sessions
            && t.tasks[step.i].pc == Finished(if step.Exits? then c.pc.seen else [])
            && (c.key.Some? ==> (EntryAt(t.guard, c.loop, c.key.value).Some? <==> KeyTaken(t, c)))
  {
    var (c, t) := (s.tasks[step.i], Next(s, step));
    StepGuarded(s, step);
    if c.key.Some? {
      TakenIffRegistered(t, c);
    }
  }

  /** In every run each time curl reads the option for a request it is given one more reading, of exactly that
      request's pins, and nothing else changes. */
  lemma ReadingOutcome(states: seq<Sys>, steps: seq<Step>, n: nat)
    requires Trace(states, steps) && n < |steps| && steps[n].Observes? && SessionsShared(states[0].tasks)
    ensures var (s, t, i) := (states[n], states[n + 1], steps[n].i);
            && OnlyMoves(s, i, t) && t.sessions == s.sessions && t.guard == s.guard
            && t.tasks[i].pc == Inside(s.tasks[i].pc.held, s.tasks[i].pc.seen + [Some(s.tasks[i].pins)])
  {
    PinIsolation(states, steps, n, steps[n].i);
  }

  // ---- Progress ----

  /** The steps a task can still take, apart from readings. */
  function StepsLeft(pc: Pc): nat {
    match pc
    case Outside => 3
    case Queued(_) => 2
    case Inside(_, _) => 1
    case Finished(_) => 0
  }

  function Work(tasks: seq<Task>): nat {
    if tasks == [] then 0 else Work(tasks[..|tasks| - 1]) + StepsLeft(tasks[|tasks| - 1].pc)
  }

  lemma {:induction false} WorkAfter(tasks: seq<Task>, i: nat, t: Task)
    requires i < |tasks|
    ensures Work(tasks[i := t]) == Work(tasks) + StepsLeft(t.pc) - StepsLeft(tasks[i].pc)
  {
    var n := |tasks| - 1;
    if i == n {
      assert tasks[i := t][..n] == tasks[..n];
    } else {
      assert tasks[i := t][..n] == tasks[..n][i := t];
      WorkAfter(tasks[..n], i, t);
    }
  }

  lemma {:induction false} WorkBound(tasks: seq<Task>)
    ensures Work(tasks) <= 3 * |tasks|
  {
    if tasks != [] {
      WorkBound(tasks[..|tasks| - 1]);
    }
  }

  lemma StepLeaves(s: Sys, step: Step)
    requires Guarded(s) && Enabled(s, step)
    ensures OnlyMoves(s, step.i, Next(s, step))
    ensures var (left, before) := (StepsLeft(Next(s, step).tasks[step.i].pc), StepsLeft(s.tasks[step.i].pc));
            if step.Observes? then left == before else left < before
  {
    hide Guarded;
    match step
    case Enters(i) => EnterOutcome(s, i);
    case Admitted(i) => AdmissionOutcome(s, i);
    case Observes(i) =>
    case Exits(i) => LeavingOutcome(s, step);
    case Abandons(i) => LeavingOutcome(s, step);
  }

  lemma StepWorks(s: Sys, step: Step)
    requires Guarded(s) && Enabled(s, step)
    ensures if step.Observes? then Work(Next(s, step).tasks) == Work(s.tasks)
            else Work(Next(s, step).tasks) < Work(s.tasks)
  {
    hide Next, Work, Guarded;
    StepLeaves(s, step);
    WorkAfter(s.tasks, step.i, Next(s, step).tasks[step.i]);
  }

  /** The steps other than readings among the first `n`. */
  function Moves(steps: seq<Step>, n: nat): nat
    requires n <= |steps|
  {
    if n == 0 then 0 else Moves(steps, n - 1) + if steps[n - 1].Observes? then 0 else 1
  }

  lemma {:induction false} TraceWorks(states: seq<Sys>, steps: seq<Step>, n: nat)
    requires Trace(states, steps) && n < |states|
    ensures Work(states[n].tasks) + Moves(steps, n) <= 3 * |states[0].tasks|
  {
    hide Next, Enabled;
    if n == 0 {
      WorkBound(states[0].tasks);
    } else {
      TraceWorks(states, steps, n - 1);
      TraceGuarded(states, steps, n - 1);
      StepWorks(states[n - 1], steps[n - 1]);
    }
  }

  /** Apart from readings, no run takes more than three steps per request. */
  lemma RunsEnd(states: seq<Sys>, steps: seq<Step>)
    requires Trace(states, steps)
    ensures Moves(steps, |steps|) <= 3 * |states[0].tasks|
  {
    TraceWorks(states, steps, |steps|);
  }

  /** Nobody is stuck: a request that has not finished can step itself, or it is queued behind one of its own
      key and loop that is inside and can finish. No cancellation is needed. */
  lemma NeverStuck(states: seq<Sys>, steps: seq<Step>, n: nat, i: nat) returns (step: Step)
    requires Trace(states, steps) && n < |states| && i < |states[n].tasks| && !states[n].tasks[i].pc.Finished?
    ensures Enabled(states[n], step) && (step.Enters? || step.Admitted? || step.Exits?)
    ensures var tasks := states[n].tasks;
            step.i != i ==> tasks[i].pc.Queued? && step.Exits? && tasks[i].key.Some?
                            && InGuard(tasks[step.i], tasks[i].loop, tasks[i].key.value)
  {
    var s := states[n];
    TraceGuarded(states, steps, n);
    match s.tasks[i].pc
    case Outside => step := Enters(i);
    case Inside(_, _) => step := Exits(i);
    case Queued(e) =>
      if Free(s, e) {
        step := Admitted(i);
      } else {
        var j :| 0 <= j < |s.tasks| && Holds(s.tasks[j], e);
        assert InPlace(s.tasks[i], s.guard, s.made) && InPlace(s.tasks[j], s.guard, s.made);
        step := Exits(j);
      }
  }

  /** A request can end at any moment, whether outside, queued or inside, and then it is out of the guard; while
      it is inside, curl can read the option for it. */
  lemma EndsAnytime(s: Sys, i: nat) returns (step: Step)
    requires Guarded(s) && i < |s.tasks| && !s.tasks[i].pc.Finished?
    ensures step == (if s.tasks[i].pc.Inside? then Exits(i) else Abandons(i))
    ensures Enabled(s, step) && Next(s, step).tasks[i].pc.Finished?
    ensures s.tasks[i].pc.Inside? ==> Enabled(s, Observes(i))
  {
    step := if s.tasks[i].pc.Inside? then Exits(i) else Abandons(i);
    LeavingOutcome(s, step);
  }
}
