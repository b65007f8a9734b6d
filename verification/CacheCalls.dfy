/** One call of the cached tool: its segments between awaits, the call that nobody interrupts, and
    what whole sequences of such calls leave in the store. */
module CacheCalls {
  import opened Seqs
  import opened StoreModel
  import opened CacheStoreClass

  datatype Backing<V> = Produces(value: V) | Raises

  /** The clock readings of one call, in the order they are taken. */
  datatype Readings = Readings(fast: real, held: real, stamp: real, sweep: real)

  datatype Call<V> = Call(key: Key, exp: Option<real>, backing: Backing<V>, at: Readings)

  datatype Result<V> = Returned(value: V) | Raised

  /** Up to the lock: the fast read, and on a miss the lock registration. */
  function Arrive<V, L>(s: Store<V, L>, k: Key, now: real, made: L): (Store<V, L>, Option<V>) {
    var (t, hit) := Read(s, k, now);
    if hit.Some? then (t, hit) else (Register(t, k, made), None)
  }

  /** With the lock held: the second read; a hit leaves through the `finally`. */
  function Hold<V, L>(s: Store<V, L>, k: Key, now: real): (Store<V, L>, Option<V>) {
    var (t, hit) := Read(s, k, now);
    if hit.Some? then (DropLock(t, k), hit) else (t, None)
  }

  /** After the backing call returned: the write, then the `finally`. */
  function Finish<V, L>(s: Store<V, L>, k: Key, v: V, exp: Option<real>, stamp: real, sweep: real): Store<V, L> {
    DropLock(Write(s, k, v, exp, stamp, sweep), k)
  }

  datatype Outcome<V, L> = Outcome(store: Store<V, L>, result: Result<V>, ran: bool)

  /** A call that no other call overlaps. */
  function Solo<V, L>(s: Store<V, L>, c: Call<V>, made: L): Outcome<V, L> {
    var (s1, fast) := Arrive(s, c.key, c.at.fast, made);
    if fast.Some? then Outcome(s1, Returned(fast.value), false)
    else
      var (s2, second) := Hold(s1, c.key, c.at.held);
      if second.Some? then Outcome(s2, Returned(second.value), false)
      else match c.backing
           case Raises => Outcome(DropLock(s2, c.key), Raised, true)
           case Produces(v) => Outcome(Finish(s2, c.key, v, c.exp, c.at.stamp, c.at.sweep), Returned(v), true)
  }

  /** A call under its own registered lock stores its value. */
  lemma FinishStores<V, L>(s: Store<V, L>, k: Key, v: V, exp: Option<real>, stamp: real, sweep: real)
    requires Valid(s) && k in s.locks
    ensures var t := Finish(s, k, v, exp, stamp, sweep);
            t.locks == s.locks - {k} && k in t.values && t.values[k] == Entry(v, Expiry(exp, stamp))
  {
    hide Minus, Write;
    WriteEntries(s, k, v, exp, stamp, sweep);
    WrittenKeyLost(s, k, v, exp, stamp, sweep);
    WriteIs(s, k, v, exp, stamp, sweep);
  }

  /** What an uninterrupted call does: a live stored value is returned without a backing call; otherwise the
      backing function runs, its value is returned and stored, or its failure passed on with nothing stored.
      No lock of the call's key is left. */
  lemma SoloMeans<V, L>(s: Store<V, L>, c: Call<V>, made: L)
    requires Valid(s)
    ensures var (o, live) := (Solo(s, c, made), c.key in s.values && LiveAt(s.values[c.key], c.at.fast));
            && (o.ran <==> !live)
            && (live ==> o.result == Returned(s.values[c.key].value) && o.store.locks == s.locks)
            && (o.ran ==> o.store.locks == s.locks - {c.key})
            && (o.ran && c.backing.Raises? ==> o.result == Raised && o.store.values == s.values - {c.key})
            && (o.ran && c.backing.Produces? ==>
                  o.result == Returned(c.backing.value) && c.key in o.store.values
                  && o.store.values[c.key] == Entry(c.backing.value, Expiry(c.exp, c.at.stamp)))
  {
    hide Minus, Finish;
    ReadValid(s, c.key, c.at.fast);
    var (r, fast) := Read(s, c.key, c.at.fast);
    if fast.None? {
      assert r.values == s.values - {c.key};
      assert Register(r, c.key, made).locks - {c.key} == s.locks - {c.key};
      if c.backing.Produces? {
        FinishStores(Register(r, c.key, made), c.key, c.backing.value, c.exp, c.at.stamp, c.at.sweep);
      }
    }
  }

  lemma FinishIgnoresLock<V, L>(s: Store<V, L>, la: map<Key, L>, lb: map<Key, L>, c: Call<V>)
    requires Valid(s) && c.backing.Produces?
    requires la.Keys == lb.Keys && la - {c.key} == lb - {c.key}
    ensures Finish(s.(locks := la), c.key, c.backing.value, c.exp, c.at.stamp, c.at.sweep)
            == Finish(s.(locks := lb), c.key, c.backing.value, c.exp, c.at.stamp, c.at.sweep)
  {
    WriteIgnoresLocks(s.(locks := la), lb, c.key, c.backing.value, c.exp, c.at.stamp, c.at.sweep);
    WriteIs(s.(locks := la), c.key, c.backing.value, c.exp, c.at.stamp, c.at.sweep);
  }

  /** Which lock object a call makes leaves no trace: only registered keys matter, and its own is dropped. */
  lemma SoloIgnoresLock<V, L>(s: Store<V, L>, c: Call<V>, a: L, b: L)
    requires Valid(s)
    ensures Solo(s, c, a) == Solo(s, c, b)
  {
    hide Minus, EvictToCap, Write, Victims, Finish;
    var (s1, fast) := Read(s, c.key, c.at.fast);
    ReadValid(s, c.key, c.at.fast);
    if fast.None? {
      if c.key in s1.values {
        assert false;
      }
      var ra, rb := Register(s1, c.key, a), Register(s1, c.key, b);
      assert ra.locks - {c.key} == rb.locks - {c.key};
      if c.backing.Produces? {
        FinishIgnoresLock(s1, ra.locks, rb.locks, c);
      }
    }
  }

  /** The wrapper's body over the shared store, run without interruption. */
  method CallTool<V>(store: CacheStore<V>, c: Call<V>, ghost made: KeyLock) returns (r: Result<V>, ran: bool)
    requires store.Valid()
    modifies store
    ensures store.Valid()
    ensures Outcome(store.Model(), r, ran) == Solo(old(store.Model()), c, made)
  {
    ghost var before := store.Model();
    var value := store.Read(c.key, c.at.fast);
    if value.Some? {
      return Returned(value.value), false;
    }
    var lock := store.LockFor(c.key);
    SoloIgnoresLock(before, c, lock, made);
    ran := false;
    value := store.Read(c.key, c.at.held);
    if value.Some? {
      r := Returned(value.value);
    } else {
      ran := true;
      match c.backing {
        case Raises => r := Raised;
        case Produces(v) =>
          store.Write(c.key, v, c.exp, c.at.stamp, c.at.sweep);
          r := Returned(v);
      }
    }
    store.DropLock(c.key);
  }

  // ---- Sequences of calls that neither overlap nor raise, and find nothing expired ----

  function Keys<V>(calls: seq<Call<V>>): seq<Key> {
    seq(|calls|, i requires 0 <= i < |calls| => calls[i].key)
  }

  /** The store of a fresh branch after `calls`. */
  function Replay<V>(cap: nat, calls: seq<Call<V>>): Store<V, nat> {
    if calls == [] then Store(cap, [], map[], map[])
    else Solo(Replay(cap, calls[..|calls| - 1]), calls[|calls| - 1], |calls|).store
  }

  /** No reading of the call finds an expired entry: a hit looks at its own entry, a miss sweeps them all. */
  ghost predicate FindsNoneExpired<V, L>(s: Store<V, L>, c: Call<V>) {
    if c.key in s.values then LiveAt(s.values[c.key], c.at.fast)
    else forall k :: k in s.values ==> LiveAt(s.values[k], c.at.sweep)
  }

  /** No call raises, and no TTL has elapsed when it is looked at. */
  ghost predicate Quiet<V>(cap: nat, calls: seq<Call<V>>) {
    calls == [] ||
    var before, last := calls[..|calls| - 1], calls[|calls| - 1];
    Quiet(cap, before) && last.backing.Produces? && FindsNoneExpired(Replay(cap, before), last)
  }

  /** How many of `calls` ran the backing function. */
  function BackingCalls<V>(cap: nat, calls: seq<Call<V>>): nat {
    if calls == [] then 0
    else
      var before, last := calls[..|calls| - 1], calls[|calls| - 1];
      BackingCalls(cap, before) + if Solo(Replay(cap, before), last, |calls|).ran then 1 else 0
  }

  /** The distinct keys of a call sequence, by last use, the least recent first. */
  function Recency(keys: seq<Key>): seq<Key> {
    if keys == [] then []
    else Minus(Recency(keys[..|keys| - 1]), {keys[|keys| - 1]}) + [keys[|keys| - 1]]
  }

  lemma RecencySnoc(keys: seq<Key>, k: Key)
    ensures Recency(keys + [k]) == Minus(Recency(keys), {k}) + [k]
  {
    assert (keys + [k])[..|keys|] == keys;
  }

  lemma {:induction false} RecencyDistinct(keys: seq<Key>)
    ensures Distinct(Recency(keys))
    ensures forall k :: k in Recency(keys) <==> k in keys
  {
    if keys != [] {
      var before, last := keys[..|keys| - 1], keys[|keys| - 1];
      assert keys == before + [last];
      RecencyDistinct(before);
      RecencySnoc(before, last);
      InMinus(Recency(before), {last});
      MinusDistinct(Recency(before), {last});
      DistinctSnoc(Minus(Recency(before), {last}), last);
    }
  }

  lemma RecencyUnused(r: seq<Key>)
    ensures Minus(r, Elems([])) + Recency([]) == r
  {
    MinusNothing(r, {});
  }

  lemma ElemsSnoc(keys: seq<Key>, k: Key)
    ensures Elems(keys + [k]) == Elems(keys) + {k}
  {
  }

  lemma MoveBehind(r: seq<Key>, used: set<Key>, since: seq<Key>, k: Key)
    ensures Minus(Minus(r, used) + since, {k}) + [k] == Minus(r, used + {k}) + (Minus(since, {k}) + [k])
  {
    MinusAppend(Minus(r, used), since, {k});
    MinusMinus(r, used, {k});
  }

  /** Later uses move to the end; the keys not used later keep their order before them. */
  lemma {:induction false} RecencyAppend(a: seq<Key>, b: seq<Key>)
    ensures Recency(a + b) == Minus(Recency(a), Elems(b)) + Recency(b)
  {
    hide Minus, Recency, Elems;
    if b == [] {
      assert a + b == a;
      RecencyUnused(Recency(a));
    } else {
      var c, last := b[..|b| - 1], b[|b| - 1];
      RecencyAppend(a, c);
      RecencySnoc(a + c, last);
      RecencySnoc(c, last);
      assert (a + c) + [last] == a + b;
      MoveBehind(Recency(a), Elems(c), Recency(c), last);
      ElemsSnoc(c, last);
      assert b == c + [last];
    }
  }

  ghost predicate AtRest<V, L>(s: Store<V, L>) {
    Valid(s) && s.locks == map[]
  }

  lemma SoloHit<V, L>(s: Store<V, L>, c: Call<V>, made: L)
    requires AtRest(s) && c.key in s.values && FindsNoneExpired(s, c)
    ensures var o := Solo(s, c, made);
            !o.ran && o.result == Returned(s.values[c.key].value) && o.store == Touch(s, c.key) && AtRest(o.store)
  {
    TouchValid(s, c.key);
  }

  lemma FirstVictim(order: seq<Key>, k: Key, locked: set<Key>, cap: int)
    requires 0 < cap && |order| <= cap && forall x :: x in order ==> x !in locked
    ensures Elems(Victims(order + [k], locked, cap)) == if |order| == cap then {order[0]} else {}
  {
    hide Minus;
    MinusSnoc(order, k, locked);
    MinusNothing(order, locked);
    if |order| == cap {
      var free := Minus(order + [k], locked);
      assert free[0] == order[0];
      assert free[..1] == [order[0]];
    }
  }

  /** With no other key locked, a newest key costs at most the least recent one its place. */
  lemma OneVictim(order: seq<Key>, k: Key, locked: set<Key>, cap: int)
    requires Distinct(order + [k]) && 0 < cap && |order| <= cap && forall x :: x in order ==> x !in locked
    ensures Minus(order + [k], Elems(Victims(order + [k], locked, cap))) == Tail(order + [k], cap)
  {
    hide Minus, Elems, Victims, Distinct;
    FirstVictim(order, k, locked, cap);
    var all := order + [k];
    if |order| < cap {
      MinusNothing(all, {});
    } else {
      assert all[0] == order[0];
      MinusFirst(all);
    }
  }

  lemma RestingWrite<V, L>(s: Store<V, L>, k: Key, v: V, exp: Option<real>, stamp: real, sweep: real)
    requires Valid(s) && s.locks.Keys == {k} && k !in s.values && |s.order| <= s.cap
    requires forall x :: x in s.values ==> LiveAt(s.values[x], sweep)
    ensures var w := Write(s, k, v, exp, stamp, sweep);
            w.order == Tail(s.order + [k], s.cap) && w.cap == s.cap && w.locks == s.locks && Valid(w)
  {
    WriteIs(s, k, v, exp, stamp, sweep);
    assert ExpiredKeys(s.values, sweep) == {};
    ForgetNothing(s);
    MinusNothing(s.order, {k});
    DistinctSnoc(s.order, k);
    OneVictim(s.order, k, s.locks.Keys, s.cap);
  }

  lemma SoloMiss<V, L>(s: Store<V, L>, c: Call<V>, made: L)
    requires AtRest(s) && c.key !in s.values && |s.order| <= s.cap
    requires c.backing.Produces? && FindsNoneExpired(s, c)
    ensures var o := Solo(s, c, made);
            && o.ran && o.result == Returned(c.backing.value)
            && o.store.order == Tail(s.order + [c.key], s.cap)
            && o.store.cap == s.cap && AtRest(o.store)
  {
    hide Minus, EvictToCap;
    var r := Register(s, c.key, made);
    RestingWrite(r, c.key, c.backing.value, c.exp, c.at.stamp, c.at.sweep);
    assert r.locks - {c.key} == map[];
  }

  lemma SplitTail(r: seq<Key>, k: Key, cap: nat)
    requires Distinct(r) && cap > 0
    ensures Tail(Minus(r, {k}) + [k], cap)
            == if k in Tail(r, cap) then Minus(Tail(r, cap), {k}) + [k] else Tail(Tail(r, cap) + [k], cap)
  {
    hide Minus;
    var t := Tail(r, cap);
    assert r == r[..|r| - |t|] + t;
    TailOfUse(r[..|r| - |t|], t, k, cap);
  }

  lemma RecentStep<V, L>(s: Store<V, L>, keys: seq<Key>, c: Call<V>, made: L)
    requires AtRest(s) && s.order == Tail(Recency(keys), s.cap)
    requires c.backing.Produces? && FindsNoneExpired(s, c)
    ensures var t := Solo(s, c, made).store;
            AtRest(t) && t.cap == s.cap && t.order == Tail(Recency(keys + [c.key]), s.cap)
  {
    RecencyDistinct(keys);
    SplitTail(Recency(keys), c.key, s.cap);
    RecencySnoc(keys, c.key);
    if c.key in s.values {
      SoloHit(s, c, made);
    } else {
      SoloMiss(s, c, made);
    }
  }

  lemma KeysSnoc<V>(calls: seq<Call<V>>, c: Call<V>)
    ensures Keys(calls + [c]) == Keys(calls) + [c.key]
  {
  }

  lemma NothingRecent<V>(cap: nat)
    ensures Tail(Recency(Keys<V>([])), cap) == []
  {
  }

  /** The store holds the `cap` most recently called keys, in recency order, and nothing else. */
  lemma {:induction false} StoreIsRecent<V>(cap: nat, calls: seq<Call<V>>)
    requires cap > 0 && Quiet(cap, calls)
    ensures AtRest(Replay(cap, calls)) && Replay(cap, calls).cap == cap
    ensures Replay(cap, calls).order == Tail(Recency(Keys(calls)), cap)
  {
    hide Solo, Tail, Keys;
    if calls == [] {
      NothingRecent<V>(cap);
    } else {
      var before, last := calls[..|calls| - 1], calls[|calls| - 1];
      StoreIsRecent(cap, before);
      RecentStep(Replay(cap, before), Keys(before), last, |calls|);
      KeysSnoc(before, last);
      assert calls == before + [last];
    }
  }

  lemma WriteWithoutTtl<V, L>(s: Store<V, L>, k: Key, v: V, exp: Option<real>, stamp: real, sweep: real)
    requires Valid(s) && (forall x :: x in s.values ==> s.values[x].expire.None?) && Expiry(exp, 0.0).None?
    ensures var t := Write(s, k, v, exp, stamp, sweep);
            Valid(t) && forall x :: x in t.values ==> t.values[x].expire.None?
  {
    hide Minus, Victims;
    SweptPutValid(s, k, Entry(v, Expiry(exp, stamp)), sweep);
    WriteIs(s, k, v, exp, stamp, sweep);
  }

  lemma SoloWithoutTtl<V, L>(s: Store<V, L>, c: Call<V>, made: L)
    requires Valid(s) && (forall k :: k in s.values ==> s.values[k].expire.None?) && Expiry(c.exp, 0.0).None?
    ensures var t := Solo(s, c, made).store; Valid(t) && forall k :: k in t.values ==> t.values[k].expire.None?
  {
    hide Minus, Write;
    ReadValid(s, c.key, c.at.fast);
    if c.key !in s.values && c.backing.Produces? {
      WriteWithoutTtl(Register(s, c.key, made), c.key, c.backing.value, c.exp, c.at.stamp, c.at.sweep);
    }
  }

  /** Calls without a TTL are such a sequence under every cap. */
  lemma {:induction false} WithoutTtlQuiet<V>(cap: nat, calls: seq<Call<V>>)
    requires cap > 0
    requires forall i :: 0 <= i < |calls| ==> calls[i].backing.Produces? && Expiry(calls[i].exp, 0.0).None?
    ensures Quiet(cap, calls)
    ensures var s := Replay(cap, calls); Valid(s) && forall k :: k in s.values ==> s.values[k].expire.None?
  {
    hide Solo;
    if calls != [] {
      var before, last := calls[..|calls| - 1], calls[|calls| - 1];
      WithoutTtlQuiet(cap, before);
      SoloWithoutTtl(Replay(cap, before), last, |calls|);
    }
  }

  lemma RecencySplit(a: seq<Key>, k: Key, b: seq<Key>)
    requires k !in b
    ensures Recency((a + [k]) + b) == Minus(Recency(a), Elems(b) + {k}) + [k] + Recency(b)
  {
    RecencyAppend(a + [k], b);
    RecencySnoc(a, k);
    MinusAppend(Minus(Recency(a), {k}), [k], Elems(b));
    MinusNothing([k], Elems(b));
    MinusMinus(Recency(a), {k}, Elems(b));
    assert {k} + Elems(b) == Elems(b) + {k};
  }

  lemma StoredSince(a: seq<Key>, k: Key, b: seq<Key>, cap: nat)
    requires k !in b
    ensures k in Tail(Recency((a + [k]) + b), cap) <==> |Elems(b)| < cap
  {
    RecencySplit(a, k, b);
    RecencyDistinct(b);
    InTail(Minus(Recency(a), Elems(b) + {k}), k, Recency(b), cap);
    DistinctSize(Recency(b));
    assert Elems(Recency(b)) == Elems(b);
  }

  /** Reuse distance at a last use: the key is still stored iff fewer than `cap` others were used since. */
  lemma StoredAfterUse(keys: seq<Key>, i: nat, cap: nat)
    requires i < |keys| && keys[i] !in keys[i + 1..]
    ensures keys[i] in Tail(Recency(keys), cap) <==> |Elems(keys[i + 1..])| < cap
  {
    SplitAt(keys, i);
    StoredSince(keys[..i], keys[i], keys[i + 1..], cap);
  }

  lemma LastUse(keys: seq<Key>, k: Key) returns (i: nat)
    requires k in keys
    ensures i < |keys| && keys[i] == k && k !in keys[i + 1..]
  {
    i := |keys| - 1;
    while keys[i] != k
      invariant i < |keys| && k !in keys[i + 1..]
      invariant exists j :: 0 <= j <= i && keys[j] == k
      decreases i
    {
      assert keys[i..] == [keys[i]] + keys[i + 1..];
      i := i - 1;
    }
  }

  /** `k` was used before, and fewer than `cap` distinct other keys were used since. */
  ghost predicate UsedWithin(keys: seq<Key>, k: Key, cap: nat) {
    exists i :: 0 <= i < |keys| && keys[i] == k && k !in keys[i + 1..] && |Elems(keys[i + 1..])| < cap
  }

  lemma TailIffUsedWithin(keys: seq<Key>, k: Key, cap: nat)
    ensures k in Tail(Recency(keys), cap) <==> UsedWithin(keys, k, cap)
  {
    RecencyDistinct(keys);
    if k in Tail(Recency(keys), cap) {
      assert k in Recency(keys);
      var i := LastUse(keys, k);
      StoredAfterUse(keys, i, cap);
    }
    if UsedWithin(keys, k, cap) {
      var i :| 0 <= i < |keys| && keys[i] == k && k !in keys[i + 1..] && |Elems(keys[i + 1..])| < cap;
      StoredAfterUse(keys, i, cap);
    }
  }

  /** LRU reuse distance: a next call runs the backing function unless its key was called before and
      fewer than `cap` distinct other keys were called since. */
  lemma ReuseDistance<V>(cap: nat, calls: seq<Call<V>>, next: Call<V>, made: nat)
    requires cap > 0 && Quiet(cap, calls + [next])
    ensures !Solo(Replay(cap, calls), next, made).ran <==> UsedWithin(Keys(calls), next.key, cap)
  {
    hide Solo, Tail, Recency;
    var s := Replay(cap, calls);
    assert (calls + [next])[..|calls|] == calls;
    assert Quiet(cap, calls) && (calls + [next])[|calls|] == next;
    StoreIsRecent(cap, calls);
    RecencyDistinct(Keys(calls));
    TailWithin(Recency(Keys(calls)), cap);
    TailIffUsedWithin(Keys(calls), next.key, cap);
    if next.key in s.values {
      SoloHit(s, next, made);
    } else {
      SoloMiss(s, next, made);
    }
  }

  /** A larger cap keeps a superset of the keys, so it never turns a hit into a miss ... */
  lemma LargerCapKeepsMore<V>(cap: nat, larger: nat, calls: seq<Call<V>>)
    requires 0 < cap <= larger && Quiet(cap, calls) && Quiet(larger, calls)
    ensures Replay(cap, calls).values.Keys <= Replay(larger, calls).values.Keys
  {
    StoreIsRecent(cap, calls);
    StoreIsRecent(larger, calls);
    var r := Recency(Keys(calls));
    forall k | k in Replay(cap, calls).values ensures k in Replay(larger, calls).values {
      assert k in Tail(r, cap);
      TailGrows(r, cap, larger, k);
    }
  }

  /** ... and never runs the backing function more often. */
  lemma {:induction false} LargerCapCallsLess<V>(cap: nat, larger: nat, calls: seq<Call<V>>)
    requires 0 < cap <= larger && Quiet(cap, calls) && Quiet(larger, calls)
    ensures BackingCalls(larger, calls) <= BackingCalls(cap, calls)
  {
    if calls != [] {
      var before, last := calls[..|calls| - 1], calls[|calls| - 1];
      LargerCapCallsLess(cap, larger, before);
      LargerCapKeepsMore(cap, larger, before);
      StoreIsRecent(cap, before);
      StoreIsRecent(larger, before);
      var s, t := Replay(cap, before), Replay(larger, before);
      if last.key in t.values {
        SoloHit(t, last, |calls|);
      } else {
        assert last.key !in s.values;
        SoloMiss(s, last, |calls|);
      }
    }
  }
}
