/** The refcounted lock registry that serializes requests sharing a pooled session. `E` is the type of
    registry entries: objects in the class, numbers in the protocol. An entry stands for the pair of
    its lock, which never changes, and its count. */
module SessionGuard {
  import opened Seqs

  type Loop = nat

  datatype SessionKey = SessionKey(text: string)

  datatype Guard<!E> = Guard(registry: map<Loop, map<SessionKey, E>>, refs: map<E, int>)

  function Inner<E>(g: Guard<E>, loop: Loop): map<SessionKey, E> {
    if loop in g.registry then g.registry[loop] else map[]
  }

  function EntryAt<E>(g: Guard<E>, loop: Loop, key: SessionKey): Option<E> {
    if key in Inner(g, loop) then Some(Inner(g, loop)[key]) else None
  }

  function Count<E(==)>(g: Guard<E>, e: E): int {
    if e in g.refs then g.refs[e] else 0
  }

  /** Before the lock: find or make the entry, and count this task in. */
  function Enter<E(==)>(g: Guard<E>, loop: Loop, key: SessionKey, made: E): (Guard<E>, E) {
    var inner := Inner(g, loop);
    var e := if key in inner then inner[key] else made;
    var count := if key in inner then Count(g, e) else 0;
    (Guard(g.registry[loop := inner[key := e]], g.refs[e := count + 1]), e)
  }

  /** The `finally`: count this task out and, at zero, pop the key. */
  function Leave<E(==)>(g: Guard<E>, loop: Loop, key: SessionKey, e: E): Guard<E> {
    var count := Count(g, e) - 1;
    Guard(if count == 0 then g.registry[loop := Inner(g, loop) - {key}] else g.registry, g.refs[e := count])
  }

  lemma EnterMeans<E(!new)>(g: Guard<E>, loop: Loop, key: SessionKey, made: E)
    ensures var (t, e) := Enter(g, loop, key, made);
            && EntryAt(t, loop, key) == Some(e)
            && (forall l: Loop, k: SessionKey :: (l, k) != (loop, key) ==> EntryAt(t, l, k) == EntryAt(g, l, k))
            && e == (if EntryAt(g, loop, key).Some? then EntryAt(g, loop, key).value else made)
            && Count(t, e) == (if EntryAt(g, loop, key).Some? then Count(g, e) else 0) + 1
            && forall x :: x != e ==> Count(t, x) == Count(g, x)
  {
  }

  lemma LeaveMeans<E(!new)>(g: Guard<E>, loop: Loop, key: SessionKey, e: E)
    ensures var t := Leave(g, loop, key, e);
            && Count(t, e) == Count(g, e) - 1
            && EntryAt(t, loop, key) == (if Count(t, e) == 0 then None else EntryAt(g, loop, key))
            && (forall l: Loop, k: SessionKey :: (l, k) != (loop, key) ==> EntryAt(t, l, k) == EntryAt(g, l, k))
            && forall x :: x != e ==> Count(t, x) == Count(g, x)
  {
  }
}
