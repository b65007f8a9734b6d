/** The store as the class that updates it in place. Each method is proved against `StoreModel`. */
module CacheStoreClass {
  import opened Seqs
  import opened StoreModel

  /** A single-flight lock; only its identity matters to the store. */
  class KeyLock {
    constructor () {}
  }

  datatype Created<V> = Created(store: CacheStore<V>) | BadCap(cap: int)

  /** `CacheStore(max_entries)`: the configured cap applies when none is given, and must be positive. */
  method Create<V>(maxEntries: Option<int>, configured: int) returns (r: Created<V>)
    ensures var cap := if maxEntries.Some? then maxEntries.value else configured;
            && (r.BadCap? <==> cap <= 0)
            && (r.Created? ==> r.store.Valid() && fresh(r.store)
                               && r.store.Model() == Store(cap, [], map[], map[]))
  {
    var cap := if maxEntries.Some? then maxEntries.value else configured;
    if cap <= 0 {
      return BadCap(cap);
    }
    var s := new CacheStore<V>(cap);
    r := Created(s);
  }

  /** The expired ones among `keys`, each once. */
  ghost predicate ListedExpired<V>(expired: seq<Key>, keys: seq<Key>, values: map<Key, Entry<V>>, now: real) {
    && Distinct(expired)
    && forall k :: k in expired <==> k in keys && k in values && !LiveAt(values[k], now)
  }

  lemma NoneListed<V>(values: map<Key, Entry<V>>, now: real)
    ensures ListedExpired([], [], values, now)
  {
  }

  lemma AllListed<V>(expired: seq<Key>, order: seq<Key>, values: map<Key, Entry<V>>, now: real)
    requires ListedExpired(expired, order[..|order|], values, now) && forall k :: k in order <==> k in values
    ensures Distinct(expired) && Elems(expired) == ExpiredKeys(values, now)
  {
    assert order[..|order|] == order;
  }

  lemma NextListed<V>(expired: seq<Key>, before: seq<Key>, key: Key, values: map<Key, Entry<V>>, now: real)
    requires key !in before && key in values && ListedExpired(expired, before, values, now)
    ensures ListedExpired(if LiveAt(values[key], now) then expired else expired + [key], before + [key], values, now)
  {
    DistinctSnoc(expired, key);
  }

  class CacheStore<V> {
    const maxEntries: int
    var order: seq<Key>
    var values: map<Key, Entry<V>>
    var keyLocks: map<Key, KeyLock>

    ghost function Model(): Store<V, KeyLock>
      reads this
    {
      Store(maxEntries, order, values, keyLocks)
    }

    ghost predicate Valid()
      reads this
    {
      StoreModel.Valid(Model())
    }

    constructor (cap: int)
      requires cap > 0
      ensures Valid() && Model() == Store(cap, [], map[], map[])
    {
      maxEntries, order, values, keyLocks := cap, [], map[], map[];
    }

    /** `del self._values[key]` */
    method Delete(key: Key)
      requires key in values
      modifies this`order, this`values
      ensures Model() == Forget(old(Model()), {key})
    {
      order := Minus(order, {key});
      values := values - {key};
    }

    method MoveToEnd(key: Key)
      requires key in values
      modifies this`order
      ensures Model() == Touch(old(Model()), key)
    {
      order := Minus(order, {key}) + [key];
    }

    method Read(key: Key, now: real) returns (hit: Option<V>)
      requires Valid()
      modifies this`order, this`values
      ensures Valid() && (Model(), hit) == StoreModel.Read(old(Model()), key, now)
    {
      ReadValid(Model(), key, now);
      if key !in values {
        return None;
      }
      var entry := values[key];
      if entry.expire.None? || now < entry.expire.value {
        MoveToEnd(key);
        return Some(entry.value);
      }
      Delete(key);
      return None;
    }

    /** `setdefault`: the lock already registered, or a new one. */
    method LockFor(key: Key) returns (lock: KeyLock)
      requires Valid()
      modifies this`keyLocks
      ensures Valid() && Model() == Register(old(Model()), key, lock)
      ensures key in keyLocks && keyLocks[key] == lock
      ensures key !in old(keyLocks) ==> fresh(lock)
    {
      lock := new KeyLock();
      if key in keyLocks {
        lock := keyLocks[key];
      } else {
        keyLocks := keyLocks[key := lock];
      }
    }

    method Write(key: Key, value: V, exp: Option<real>, stamp: real, sweep: real)
      requires Valid()
      modifies this`order, this`values
      ensures Valid() && Model() == StoreModel.Write(old(Model()), key, value, exp, stamp, sweep)
    {
      hide Minus, StoreModel.EvictToCap;
      var expire := if exp.Some? && exp.value > 0.0 then Some(stamp + exp.value) else None;
      SweptPutValid(Model(), key, Entry(value, expire), sweep);
      DropExpired(sweep);
      Assign(key, Entry(value, expire));
      EvictToCap();
    }

    /** `self._values[key] = entry`, then to the recent end. */
    method Assign(key: Key, entry: Entry<V>)
      modifies this`order, this`values
      ensures Model() == Put(old(Model()), key, entry)
    {
      values := values[key := entry];
      MoveToEnd(key);
    }

    method DropLock(key: Key)
      requires Valid()
      modifies this`keyLocks
      ensures Valid() && Model() == StoreModel.DropLock(old(Model()), key)
    {
      keyLocks := keyLocks - {key};
    }

    /** Lists the expired keys first, then deletes them one by one. */
    method DropExpired(now: real)
      requires Valid()
      modifies this`order, this`values
      ensures Valid() && Model() == StoreModel.DropExpired(old(Model()), now)
    {
      hide Minus;
      ForgetValid(Model(), ExpiredKeys(values, now));
      var expired := ListExpired(now);
      assert forall k :: k in expired ==> k in Elems(expired);
      DeleteAll(expired);
    }

    method ListExpired(now: real) returns (expired: seq<Key>)
      requires Valid()
      ensures Distinct(expired) && Elems(expired) == ExpiredKeys(values, now)
    {
      hide ListedExpired;
      expired := [];
      NoneListed(values, now);
      for i := 0 to |order|
        invariant ListedExpired(expired, order[..i], values, now)
      {
        var key := order[i];
        DistinctAt(order, i);
        NextListed(expired, order[..i], key, values, now);
        assert order[..i + 1] == order[..i] + [key];
        var expire := values[key].expire;
        if expire.Some? && expire.value <= now {
          expired := expired + [key];
        }
      }
      AllListed(expired, order, values, now);
    }

    method DeleteAll(keys: seq<Key>)
      requires Distinct(keys) && forall k :: k in keys ==> k in values
      modifies this`order, this`values
      ensures Model() == Forget(old(Model()), Elems(keys))
    {
      hide Minus;
      ghost var before := Model();
      ForgetNothing(before);
      assert Elems(keys[..0]) == {};
      for i := 0 to |keys|
        invariant Model() == Forget(before, Elems(keys[..i]))
      {
        DistinctAt(keys, i);
        assert keys[i] in keys;
        Delete(keys[i]);
        ForgetTwice(before, Elems(keys[..i]), {keys[i]});
        assert Elems(keys[..i + 1]) == Elems(keys[..i]) + {keys[i]};
      }
      assert keys[..|keys|] == keys;
    }

    /** The first key in recency order without a registered lock. */
    method FindVictim() returns (victim: Option<Key>)
      ensures var free := Unlocked(Model());
              victim == if free == [] then None else Some(free[0])
    {
      for i := 0 to |order|
        invariant Minus(order[..i], keyLocks.Keys) == []
      {
        assert order == order[..i] + [order[i]] + order[i + 1..];
        MinusAppend(order[..i] + [order[i]], order[i + 1..], keyLocks.Keys);
        assert order[..i + 1] == order[..i] + [order[i]];
        if order[i] !in keyLocks {
          return Some(order[i]);
        }
      }
      assert order[..|order|] == order;
      return None;
    }

    method EvictToCap()
      requires Valid()
      modifies this`order, this`values
      ensures Valid() && Model() == StoreModel.EvictToCap(old(Model()))
    {
      while |order| > maxEntries
        invariant Valid() && keyLocks == old(keyLocks)
        invariant StoreModel.EvictToCap(Model()) == StoreModel.EvictToCap(old(Model()))
        decreases |order|
      {
        var victim := FindVictim();
        if victim.None? {
          break;
        }
        InMinus(order, keyLocks.Keys);
        assert victim.value in Unlocked(Model()) && victim.value in order;
        ForgetShrinks(order, victim.value);
        ForgetValid(Model(), {victim.value});
        Delete(victim.value);
      }
    }
  }
}
