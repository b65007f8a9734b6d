/** The value store of one cache branch as a value, and what its operations mean.
    `L` is the type of lock objects: references in the class, numbers in the protocol. */
module StoreModel {
  import opened Seqs

  /** A serialized call; nothing here looks inside it. */
  datatype Key = Key(text: string)

  datatype Entry<V> = Entry(value: V, expire: Option<real>)

  /** `order` lists the stored keys, least recently used first. */
  datatype Store<V, L> = Store(cap: int, order: seq<Key>, values: map<Key, Entry<V>>, locks: map<Key, L>)

  ghost predicate Valid<V, L>(s: Store<V, L>) {
    && s.cap > 0
    && Distinct(s.order)
    && forall k :: k in s.order <==> k in s.values
  }

  predicate LiveAt<V>(e: Entry<V>, t: real) {
    e.expire.None? || t < e.expire.value
  }

  function Expiry(exp: Option<real>, now: real): Option<real> {
    if exp.Some? && exp.value > 0.0 then Some(now + exp.value) else None
  }

  /** A value written at `stamp` with this TTL has not expired at `t`; a TTL that is not positive means none. */
  predicate Unexpired(exp: Option<real>, stamp: real, t: real) {
    exp.None? || exp.value <= 0.0 || t < stamp + exp.value
  }

  lemma ExpiryMeans<V>(v: V, exp: Option<real>, stamp: real, t: real)
    ensures LiveAt(Entry(v, Expiry(exp, stamp)), t) <==> Unexpired(exp, stamp, t)
  {
  }

  function Forget<V, L>(s: Store<V, L>, ks: set<Key>): Store<V, L> {
    s.(order := Minus(s.order, ks), values := s.values - ks)
  }

  function Touch<V, L>(s: Store<V, L>, k: Key): Store<V, L> {
    s.(order := Minus(s.order, {k}) + [k])
  }

  /** `CacheStore.read`: a hit moves the key to the recent end, an expired entry is deleted. */
  function Read<V, L>(s: Store<V, L>, k: Key, now: real): (Store<V, L>, Option<V>) {
    if k !in s.values then (s, None)
    else if LiveAt(s.values[k], now) then (Touch(s, k), Some(s.values[k].value))
    else (Forget(s, {k}), None)
  }

  /** `CacheStore.key_lock`: `setdefault` with a freshly made lock. */
  function Register<V, L>(s: Store<V, L>, k: Key, l: L): Store<V, L> {
    if k in s.locks then s else s.(locks := s.locks[k := l])
  }

  /** `CacheStore.drop_lock`. */
  function DropLock<V, L>(s: Store<V, L>, k: Key): Store<V, L> {
    s.(locks := s.locks - {k})
  }

  function ExpiredKeys<V>(values: map<Key, Entry<V>>, now: real): set<Key> {
    set k | k in values && !LiveAt(values[k], now)
  }

  function DropExpired<V, L>(s: Store<V, L>, now: real): Store<V, L> {
    Forget(s, ExpiredKeys(s.values, now))
  }

  function Put<V, L>(s: Store<V, L>, k: Key, e: Entry<V>): Store<V, L> {
    Touch(s.(values := s.values[k := e]), k)
  }

  /** The stored keys without a registered lock, least recent first. */
  function Unlocked<V, L>(s: Store<V, L>): seq<Key> {
    Minus(s.order, s.locks.Keys)
  }

  lemma {:induction false} ForgetShrinks(order: seq<Key>, k: Key)
    requires k in order
    ensures |Minus(order, {k})| < |order|
  {
    if order[|order| - 1] != k {
      ForgetShrinks(order[..|order| - 1], k);
    }
  }

  /** `CacheStore._evict_to_cap`, one victim at a time. */
  function EvictToCap<V, L>(s: Store<V, L>): Store<V, L>
    decreases |s.order|
  {
    var free := Unlocked(s);
    if |s.order| <= s.cap || free == [] then s
    else
      InMinus(s.order, s.locks.Keys);
      assert free[0] in free;
      ForgetShrinks(s.order, free[0]);
      EvictToCap(Forget(s, {free[0]}))
  }

  /** `CacheStore.write`: the clock is read once for the expiry and once for the sweep. */
  function Write<V, L>(s: Store<V, L>, k: Key, v: V, exp: Option<real>, stamp: real, sweep: real): Store<V, L> {
    EvictToCap(Put(DropExpired(s, sweep), k, Entry(v, Expiry(exp, stamp))))
  }

  // ---- Every operation keeps the store well formed ----

  lemma ForgetValid<V, L>(s: Store<V, L>, ks: set<Key>)
    requires Valid(s)
    ensures Valid(Forget(s, ks))
  {
    InMinus(s.order, ks);
    MinusDistinct(s.order, ks);
  }

  lemma TouchValid<V, L>(s: Store<V, L>, k: Key)
    requires s.cap > 0 && Distinct(s.order) && k in s.values
    requires forall x :: x in s.order || x == k <==> x in s.values
    ensures Valid(Touch(s, k))
  {
    InMinus(s.order, {k});
    MinusDistinct(s.order, {k});
  }

  lemma ReadValid<V, L>(s: Store<V, L>, k: Key, now: real)
    requires Valid(s)
    ensures Valid(Read(s, k, now).0)
  {
    ForgetValid(s, {k});
    if k in s.values {
      TouchValid(s, k);
    }
  }

  lemma SweptPutValid<V, L>(s: Store<V, L>, k: Key, e: Entry<V>, sweep: real)
    requires Valid(s)
    ensures Valid(DropExpired(s, sweep)) && Valid(Put(DropExpired(s, sweep), k, e))
  {
    ForgetValid(s, ExpiredKeys(s.values, sweep));
    var d := DropExpired(s, sweep);
    TouchValid(d.(values := d.values[k := e]), k);
  }

  // ---- Eviction ----

  /** The keys an eviction may take: the least recent unlocked ones, no more than the overflow. */
  function Victims(order: seq<Key>, locked: set<Key>, cap: int): seq<Key> {
    var free := Minus(order, locked);
    var n := Min(|order| - cap, |free|);
    if n <= 0 then [] else free[..n]
  }

  /** Taking the first victim leaves the other victims, in the same order. */
  lemma TakeOneVictim(order: seq<Key>, locked: set<Key>, cap: int)
    requires Distinct(order) && |order| > cap && Minus(order, locked) != []
    ensures var first := Minus(order, locked)[0];
            && Distinct(Minus(order, {first})) && first in order
            && Victims(order, locked, cap) == [first] + Victims(Minus(order, {first}), locked, cap)
  {
    hide Minus;
    var free := Minus(order, locked);
    InMinus(order, locked);
    assert free[0] in free;
    MinusOne(order, free[0]);
    MinusFirstOutside(order, locked);
    var n := Min(|order| - cap, |free|);
    assert free[..n] == [free[0]] + free[1..][..n - 1];
  }

  lemma ElemsCons(k: Key, rest: seq<Key>)
    ensures Elems([k] + rest) == {k} + Elems(rest)
  {
  }

  lemma ForgetTwice<V, L>(s: Store<V, L>, d: set<Key>, e: set<Key>)
    ensures Forget(Forget(s, d), e) == Forget(s, d + e)
  {
    MinusMinus(s.order, d, e);
    assert (s.values - d) - e == s.values - (d + e);
  }

  /** The eviction loop removes exactly the victims and nothing else, whatever the registry holds. */
  lemma {:induction false} EvictClosedForm<V, L>(s: Store<V, L>)
    requires Valid(s)
    ensures EvictToCap(s) == Forget(s, Elems(Victims(s.order, s.locks.Keys, s.cap)))
    decreases |s.order|
  {
    var free := Unlocked(s);
    if |s.order| <= s.cap || free == [] {
      MinusNothing(s.order, {});
      assert Elems(Victims(s.order, s.locks.Keys, s.cap)) == {};
      assert s.values - {} == s.values;
    } else {
      var first := {free[0]};
      var t := Forget(s, first);
      TakeOneVictim(s.order, s.locks.Keys, s.cap);
      ForgetValid(s, first);
      ForgetShrinks(s.order, free[0]);
      EvictClosedForm(t);
      var rest := Victims(t.order, t.locks.Keys, t.cap);
      ForgetTwice(s, first, Elems(rest));
      ElemsCons(free[0], rest);
    }
  }

  lemma ForgetNothing<V, L>(s: Store<V, L>)
    ensures Forget(s, {}) == s
  {
    MinusNothing(s.order, {});
    assert s.values - {} == s.values;
  }

  /** What an eviction leaves of a key order: it stops at the cap or when only locked keys are left,
      never takes a locked key, and takes nothing from an order within the cap. */
  lemma VictimsOutcome(order: seq<Key>, locked: set<Key>, cap: int)
    requires Distinct(order)
    ensures var w := Victims(order, locked, cap);
            && (forall k :: k in w ==> k in order && k !in locked)
            && |Minus(order, Elems(w))| == |order| - |w|
            && (|w| < |order| - cap ==> forall k :: k in order && k !in w ==> k in locked)
  {
    var free, w := Minus(order, locked), Victims(order, locked, cap);
    InMinus(order, locked);
    MinusDistinct(order, locked);
    DistinctPrefix(free, |w|);
    DistinctSize(w);
    assert forall k :: k in w ==> k in free;
    MinusSize(order, Elems(w));
    assert Both(order, Elems(w)) == Elems(w);
    if |w| < |order| - cap {
      assert w == free;
      forall k | k in order && k !in w ensures k in locked {
        assert k !in free;
      }
    }
  }

  /** Eviction in terms of sizes and locks. */
  lemma EvictOutcome<V, L>(s: Store<V, L>)
    requires Valid(s)
    ensures var t := EvictToCap(s);
            && Valid(t) && t.cap == s.cap && t.locks == s.locks
            && (|s.order| <= s.cap ==> t == s)
            && |t.order| <= |s.order|
            && (|t.order| > s.cap ==> t.values.Keys <= s.locks.Keys)
            && (forall k :: k in s.values && k in s.locks ==> k in t.values)
            && forall k :: k in t.values ==> k in s.values && t.values[k] == s.values[k]
  {
    var w := Victims(s.order, s.locks.Keys, s.cap);
    VictimsOutcome(s.order, s.locks.Keys, s.cap);
    EvictClosedForm(s);
    ForgetValid(s, Elems(w));
  }

  lemma LastFree(order: seq<Key>, locked: set<Key>, cap: int, k: Key)
    requires Distinct(Minus(order, locked))
    requires k !in locked ==> Minus(order, locked) != [] && Minus(order, locked)[|Minus(order, locked)| - 1] == k
    ensures k in Victims(order, locked, cap) <==> k !in locked && |order| - cap >= |Minus(order, locked)|
  {
    InMinus(order, locked);
    var free := Minus(order, locked);
    var n := Min(|order| - cap, |free|);
    if k in locked {
      assert forall i :: 0 <= i < |free| ==> free[i] in free && free[i] != k;
    } else {
      LastInPrefix(free, if n <= 0 then 0 else n);
    }
  }

  /** The most recent key is a victim iff it is unlocked and `cap` of the keys are locked. */
  lemma LastKeyVictim(order: seq<Key>, locked: set<Key>, cap: int)
    requires Distinct(order) && order != [] && cap > 0
    ensures var k := order[|order| - 1];
            k in Victims(order, locked, cap) <==> k !in locked && |Both(order, locked)| >= cap
  {
    hide Minus, Victims;
    var k, front, free := order[|order| - 1], order[..|order| - 1], Minus(order, locked);
    assert order == front + [k];
    MinusSnoc(front, k, locked);
    MinusDistinct(order, locked);
    MinusSize(order, locked);
    LastFree(order, locked, cap, k);
  }

  // ---- What a write keeps and loses ----

  /** The keys that compete for a place when `k` is written: the live ones and `k` itself. */
  ghost function Contenders<V, L>(s: Store<V, L>, k: Key, sweep: real): set<Key> {
    set x | x in s.values.Keys + {k} && (x == k || LiveAt(s.values[x], sweep))
  }

  /** The contenders for `k`'s place that a registered lock protects. */
  ghost function Protected<V, L>(s: Store<V, L>, k: Key, sweep: real): set<Key> {
    set x | x in s.values && x != k && LiveAt(s.values[x], sweep) && x in s.locks
  }

  lemma SameSize(order: seq<Key>, keys: set<Key>)
    requires Distinct(order) && forall x :: x in order <==> x in keys
    ensures |order| == |keys|
  {
    DistinctSize(order);
    assert Elems(order) == keys;
  }

  lemma SweptPutKeys<V, L>(s: Store<V, L>, k: Key, e: Entry<V>, sweep: real)
    requires Valid(s)
    ensures var order := Put(DropExpired(s, sweep), k, e).order;
            && (forall x :: x in order <==> x in Contenders(s, k, sweep))
            && |order| == |Contenders(s, k, sweep)|
  {
    SweptPutValid(s, k, e, sweep);
    SameSize(Put(DropExpired(s, sweep), k, e).order, Contenders(s, k, sweep));
  }

  /** A write keeps the contenders, except for the victims among them. */
  lemma WriteClosedForm<V, L>(s: Store<V, L>, k: Key, v: V, exp: Option<real>, stamp: real, sweep: real)
    returns (order: seq<Key>)
    requires Valid(s)
    ensures Distinct(order) && order != [] && order[|order| - 1] == k
    ensures forall x :: x in order <==> x in Contenders(s, k, sweep)
    ensures |order| == |Contenders(s, k, sweep)|
    ensures forall x :: x in Write(s, k, v, exp, stamp, sweep).values
                        <==> x in order && x !in Victims(order, s.locks.Keys, s.cap)
  {
    var e := Entry(v, Expiry(exp, stamp));
    var p := Put(DropExpired(s, sweep), k, e);
    order := p.order;
    SweptPutValid(s, k, e, sweep);
    SweptPutKeys(s, k, e, sweep);
    EvictClosedForm(p);
  }

  lemma ProtectedKeys<V, L>(s: Store<V, L>, k: Key, sweep: real, order: seq<Key>)
    requires k !in s.locks && forall x :: x in order <==> x in Contenders(s, k, sweep)
    ensures Both(order, s.locks.Keys) == Protected(s, k, sweep)
  {
    forall x ensures x in Both(order, s.locks.Keys) <==> x in Protected(s, k, sweep) {
      assert x in order <==> x in Contenders(s, k, sweep);
    }
  }

  /** A key just written is lost again iff it is unlocked and `cap` other live keys are locked. */
  lemma WrittenKeyLost<V, L>(s: Store<V, L>, k: Key, v: V, exp: Option<real>, stamp: real, sweep: real)
    requires Valid(s)
    ensures k !in Write(s, k, v, exp, stamp, sweep).values
            <==> k !in s.locks && |Protected(s, k, sweep)| >= s.cap
  {
    var order := WriteClosedForm(s, k, v, exp, stamp, sweep);
    LastKeyVictim(order, s.locks.Keys, s.cap);
    if k !in s.locks {
      ProtectedKeys(s, k, sweep, order);
    }
  }

  /** A write evicts a live entry iff the live entries alone, with the new one, exceed the cap and
      one of them is unlocked; expired entries never cost a live one its place. */
  lemma WriteEvictsLive<V, L>(s: Store<V, L>, k: Key, v: V, exp: Option<real>, stamp: real, sweep: real)
    requires Valid(s)
    ensures var live := Contenders(s, k, sweep);
            (exists x :: x in live && x !in Write(s, k, v, exp, stamp, sweep).values)
            <==> |live| > s.cap && exists x :: x in live && x !in s.locks
  {
    var order := WriteClosedForm(s, k, v, exp, stamp, sweep);
    var w := Victims(order, s.locks.Keys, s.cap);
    VictimsOutcome(order, s.locks.Keys, s.cap);
    if w != [] {
      assert w[0] in w;
    }
  }

  /** The contenders for a place whose lock is registered, `k` included. */
  ghost function LockedContenders<V, L>(s: Store<V, L>, k: Key, sweep: real): set<Key> {
    set x | x in Contenders(s, k, sweep) && x in s.locks
  }

  lemma VictimsSize(order: seq<Key>, locked: set<Key>, cap: int)
    requires Distinct(order)
    ensures |Minus(order, Elems(Victims(order, locked, cap)))|
            == if Min(|order|, cap) >= |Both(order, locked)| then Min(|order|, cap) else |Both(order, locked)|
  {
    VictimsOutcome(order, locked, cap);
    MinusSize(order, locked);
  }

  /** A write in closed form: sweep, put, and forget the victims. */
  lemma WriteIs<V, L>(s: Store<V, L>, k: Key, v: V, exp: Option<real>, stamp: real, sweep: real)
    requires Valid(s)
    ensures var p := Put(DropExpired(s, sweep), k, Entry(v, Expiry(exp, stamp)));
            && Write(s, k, v, exp, stamp, sweep) == Forget(p, Elems(Victims(p.order, s.locks.Keys, s.cap)))
            && Valid(Write(s, k, v, exp, stamp, sweep))
  {
    var e := Entry(v, Expiry(exp, stamp));
    SweptPutValid(s, k, e, sweep);
    EvictClosedForm(Put(DropExpired(s, sweep), k, e));
    EvictOutcome(Put(DropExpired(s, sweep), k, e));
  }

  /** The exact size after a write: all contenders up to the cap, or as many as are locked if that is more. */
  lemma WriteSize<V, L>(s: Store<V, L>, k: Key, v: V, exp: Option<real>, stamp: real, sweep: real)
    requires Valid(s)
    ensures var (all, locked) := (|Contenders(s, k, sweep)|, |LockedContenders(s, k, sweep)|);
            |Write(s, k, v, exp, stamp, sweep).order| == if Min(all, s.cap) >= locked then Min(all, s.cap) else locked
  {
    hide Minus, Write, Victims;
    var order := Put(DropExpired(s, sweep), k, Entry(v, Expiry(exp, stamp))).order;
    WriteIs(s, k, v, exp, stamp, sweep);
    SweptPutValid(s, k, Entry(v, Expiry(exp, stamp)), sweep);
    SweptPutKeys(s, k, Entry(v, Expiry(exp, stamp)), sweep);
    assert Both(order, s.locks.Keys) == LockedContenders(s, k, sweep);
    VictimsSize(order, s.locks.Keys, s.cap);
  }

  /** A write does not look at lock objects, only at which keys are registered. */
  lemma WriteIgnoresLocks<V, L>(s: Store<V, L>, locks: map<Key, L>,
                                k: Key, v: V, exp: Option<real>, stamp: real, sweep: real)
    requires Valid(s) && locks.Keys == s.locks.Keys
    ensures Write(s.(locks := locks), k, v, exp, stamp, sweep)
            == Write(s, k, v, exp, stamp, sweep).(locks := locks)
  {
    WriteIs(s, k, v, exp, stamp, sweep);
    WriteIs(s.(locks := locks), k, v, exp, stamp, sweep);
  }

  // ---- Expiry ----

  /** What a reader at time `t` would be given for `k`. */
  function Lookup<V, L>(s: Store<V, L>, k: Key, t: real): Option<V> {
    if k in s.values && LiveAt(s.values[k], t) then Some(s.values[k].value) else None
  }

  /** A read answers `Lookup` and changes no answer, now or later. */
  lemma ReadAgrees<V, L>(s: Store<V, L>, k: Key, now: real, k': Key, t: real)
    requires now <= t
    ensures Read(s, k, now).1 == Lookup(s, k, now)
    ensures Lookup(Read(s, k, now).0, k', t) == Lookup(s, k', t)
  {
  }

  /** Reclaiming expired entries changes no answer, now or later, and leaves only live entries. */
  lemma DropExpiredKeepsLookups<V, L>(s: Store<V, L>, now: real, k: Key, t: real)
    requires now <= t
    ensures Lookup(DropExpired(s, now), k, t) == Lookup(s, k, t)
    ensures k in DropExpired(s, now).values ==> LiveAt(s.values[k], now)
  {
    if k in s.values && !LiveAt(s.values[k], now) {
      assert k in ExpiredKeys(s.values, now);
    }
  }

  /** The entries after a write: the new one, and old ones. */
  lemma WriteEntries<V, L>(s: Store<V, L>, k: Key, v: V, exp: Option<real>, stamp: real, sweep: real)
    requires Valid(s)
    ensures forall x :: x in Write(s, k, v, exp, stamp, sweep).values ==>
              if x == k then Write(s, k, v, exp, stamp, sweep).values[x] == Entry(v, Expiry(exp, stamp))
              else x in s.values && Write(s, k, v, exp, stamp, sweep).values[x] == s.values[x]
  {
    var e := Entry(v, Expiry(exp, stamp));
    SweptPutValid(s, k, e, sweep);
    EvictOutcome(Put(DropExpired(s, sweep), k, e));
  }

  /** After a write, every other key is answered as before unless it was evicted, and the written key with
      its new value until its own TTL has elapsed, unless it was lost. */
  lemma WriteAgrees<V, L>(s: Store<V, L>, k: Key, v: V, exp: Option<real>, stamp: real, sweep: real, k': Key, t: real)
    requires Valid(s) && sweep <= t
    ensures var w := Write(s, k, v, exp, stamp, sweep);
            k' in w.values ==>
              Lookup(w, k', t) == if k' != k then Lookup(s, k', t)
                                  else if Unexpired(exp, stamp, t) then Some(v) else None
    ensures var w := Write(s, k, v, exp, stamp, sweep);
            k in w.values ==> w.values[k] == Entry(v, Expiry(exp, stamp))
  {
    hide Write, Expiry;
    WriteEntries(s, k, v, exp, stamp, sweep);
    ExpiryMeans(v, exp, stamp, t);
  }

  /** A written value is answered to a reader exactly until `exp` seconds after its stamp, and for ever when
      there is no positive `exp`; from then on the reader gets a miss. */
  lemma TtlExact<V, L>(s: Store<V, L>, k: Key, v: V, exp: Option<real>, stamp: real, sweep: real, t: real)
    requires Valid(s) && sweep <= t && k in Write(s, k, v, exp, stamp, sweep).values
    ensures Read(Write(s, k, v, exp, stamp, sweep), k, t).1
            == if exp.None? || exp.value <= 0.0 || t < stamp + exp.value then Some(v) else None
  {
    hide Write;
    WriteAgrees(s, k, v, exp, stamp, sweep, k, t);
    ReadAgrees(Write(s, k, v, exp, stamp, sweep), k, t, k, t);
  }
}
