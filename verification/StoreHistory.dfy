/** Whole histories of one store against the simplest reference: a ledger of the latest write to
    each key. Every clock reading is an input; the monotonic clock never goes back. */
module StoreHistory {
  import opened Seqs
  import opened StoreModel

  datatype Op<V> =
    | ReadOp(key: Key, now: real)
    | WriteOp(key: Key, value: V, exp: Option<real>, stamp: real, sweep: real)
    | LockOp(key: Key)
    | DropOp(key: Key)

  function Apply<V>(s: Store<V, nat>, op: Op<V>): Store<V, nat> {
    match op
    case ReadOp(k, now) => Read(s, k, now).0
    case WriteOp(k, v, exp, stamp, sweep) => Write(s, k, v, exp, stamp, sweep)
    case LockOp(k) => Register(s, k, 0)
    case DropOp(k) => DropLock(s, k)
  }

  function Exec<V>(cap: nat, ops: seq<Op<V>>): Store<V, nat> {
    if ops == [] then Store(cap, [], map[], map[]) else Apply(Exec(cap, ops[..|ops| - 1]), ops[|ops| - 1])
  }

  /** The reference: the latest write to each key, with its expiry, never forgotten. */
  function Ledger<V>(ops: seq<Op<V>>): map<Key, Entry<V>> {
    if ops == [] then map[]
    else
      var before, op := Ledger(ops[..|ops| - 1]), ops[|ops| - 1];
      if op.WriteOp? then before[op.key := Entry(op.value, Expiry(op.exp, op.stamp))] else before
  }

  /** Operation `i` is the latest write to `k`. */
  ghost predicate LatestWrite<V>(ops: seq<Op<V>>, k: Key, i: int) {
    && 0 <= i < |ops| && ops[i].WriteOp? && ops[i].key == k
    && forall j :: i < j < |ops| && ops[j].WriteOp? ==> ops[j].key != k
  }

  /** What an unbounded cache would answer at `t`: the value of the latest write to `k` while its own TTL
      lasts, and nothing otherwise. */
  ghost predicate Answers<V>(ops: seq<Op<V>>, k: Key, t: real, answer: Option<V>) {
    match answer
    case Some(v) => exists i :: LatestWrite(ops, k, i) && ops[i].value == v && Unexpired(ops[i].exp, ops[i].stamp, t)
    case None => forall i :: LatestWrite(ops, k, i) ==> !Unexpired(ops[i].exp, ops[i].stamp, t)
  }

  lemma LaterOther<V>(ops: seq<Op<V>>, k: Key)
    requires ops != [] && !(ops[|ops| - 1].WriteOp? && ops[|ops| - 1].key == k)
    ensures forall i :: LatestWrite(ops[..|ops| - 1], k, i) <==> LatestWrite(ops, k, i)
  {
  }

  /** The ledger holds the latest write to each key that was written. */
  lemma {:induction false} LedgerIsLatest<V>(ops: seq<Op<V>>, k: Key)
    ensures k in Ledger(ops) ==> exists i :: LatestWrite(ops, k, i)
    ensures forall i :: LatestWrite(ops, k, i) ==>
              k in Ledger(ops) && Ledger(ops)[k] == Entry(ops[i].value, Expiry(ops[i].exp, ops[i].stamp))
  {
    if ops != [] {
      var before, n := ops[..|ops| - 1], |ops| - 1;
      LedgerIsLatest(before, k);
      if ops[n].WriteOp? && ops[n].key == k {
        assert LatestWrite(ops, k, n);
      } else {
        LaterOther(ops, k);
        if k in Ledger(before) {
          var i :| LatestWrite(before, k, i);
          assert LatestWrite(ops, k, i);
        }
      }
    }
  }

  /** The last clock reading, `start` if there was none. */
  function Clock<V>(start: real, ops: seq<Op<V>>): real {
    if ops == [] then start
    else match ops[|ops| - 1]
         case ReadOp(_, now) => now
         case WriteOp(_, _, _, _, sweep) => sweep
         case _ => Clock(start, ops[..|ops| - 1])
  }

  ghost predicate Monotone<V>(start: real, ops: seq<Op<V>>) {
    ops == [] ||
    var before, op := ops[..|ops| - 1], ops[|ops| - 1];
    && Monotone(start, before)
    && (op.ReadOp? ==> Clock(start, before) <= op.now)
    && (op.WriteOp? ==> Clock(start, before) <= op.stamp <= op.sweep)
  }

  /** The keys whose latest write is live at `t`, and `k`. */
  ghost function LiveIn<V>(ledger: map<Key, Entry<V>>, k: Key, t: real): set<Key> {
    set x | x in ledger.Keys + {k} && (x == k || LiveAt(ledger[x], t))
  }

  /** No write ever finds more than `cap` live keys, counting its own. */
  ghost predicate Roomy<V>(cap: nat, ops: seq<Op<V>>) {
    ops == [] ||
    var before, op := ops[..|ops| - 1], ops[|ops| - 1];
    && Roomy(cap, before)
    && (op.WriteOp? ==> |LiveIn(Ledger(before), op.key, op.sweep)| <= cap)
  }

  ghost predicate Agrees<V>(s: Store<V, nat>, ledger: map<Key, Entry<V>>) {
    forall k :: k in s.values ==> k in ledger && s.values[k] == ledger[k]
  }

  ghost predicate Complete<V>(s: Store<V, nat>, ledger: map<Key, Entry<V>>, now: real) {
    forall k :: k in ledger && LiveAt(ledger[k], now) ==> k in s.values
  }

  /** Whatever was stored, expired, locked or evicted along the way, a stored entry is the latest
      write to its key. */
  lemma {:induction false} StoredIsLatest<V>(cap: nat, ops: seq<Op<V>>)
    requires cap > 0
    ensures Valid(Exec(cap, ops)) && Exec(cap, ops).cap == cap
    ensures Agrees(Exec(cap, ops), Ledger(ops))
  {
    if ops != [] {
      var before, op := ops[..|ops| - 1], ops[|ops| - 1];
      var s := Exec(cap, before);
      StoredIsLatest(cap, before);
      match op
      case ReadOp(k, now) => ReadValid(s, k, now);
      case WriteOp(k, v, exp, stamp, sweep) =>
        SweptPutValid(s, k, Entry(v, Expiry(exp, stamp)), sweep);
        EvictOutcome(Put(DropExpired(s, sweep), k, Entry(v, Expiry(exp, stamp))));
      case LockOp(k) =>
      case DropOp(k) =>
    }
  }

  lemma LedgerAnswers<V>(ops: seq<Op<V>>, k: Key, t: real)
    ensures var ledger := Ledger(ops);
            Answers(ops, k, t, if k in ledger && LiveAt(ledger[k], t) then Some(ledger[k].value) else None)
  {
    LedgerIsLatest(ops, k);
    forall i | LatestWrite(ops, k, i)
      ensures LiveAt(Ledger(ops)[k], t) <==> Unexpired(ops[i].exp, ops[i].stamp, t)
    {
      ExpiryMeans(ops[i].value, ops[i].exp, ops[i].stamp, t);
    }
  }

  /** A hit is the value of the latest write to its key, and that write's own TTL has not elapsed. */
  lemma HitIsLatest<V>(cap: nat, ops: seq<Op<V>>, k: Key, now: real)
    requires cap > 0
    ensures var hit := Read(Exec(cap, ops), k, now).1;
            hit.Some? ==> exists i :: LatestWrite(ops, k, i) && ops[i].value == hit.value
                                      && Unexpired(ops[i].exp, ops[i].stamp, now)
  {
    StoredIsLatest(cap, ops);
    LedgerAnswers(ops, k, now);
  }

  lemma ContendersAreLive<V>(s: Store<V, nat>, ledger: map<Key, Entry<V>>, now: real, k: Key, sweep: real)
    requires Agrees(s, ledger) && Complete(s, ledger, now) && now <= sweep
    ensures Contenders(s, k, sweep) == LiveIn(ledger, k, sweep)
  {
  }

  /** A write that finds room keeps every live key. */
  lemma RoomyWriteComplete<V>(s: Store<V, nat>, ledger: map<Key, Entry<V>>, now: real, k: Key, e: Entry<V>, sweep: real)
    requires Valid(s) && Agrees(s, ledger) && Complete(s, ledger, now) && now <= sweep
    requires |LiveIn(ledger, k, sweep)| <= s.cap
    ensures var t := EvictToCap(Put(DropExpired(s, sweep), k, e));
            Complete(t, ledger[k := e], sweep)
  {
    var p := Put(DropExpired(s, sweep), k, e);
    SweptPutValid(s, k, e, sweep);
    SweptPutKeys(s, k, e, sweep);
    ContendersAreLive(s, ledger, now, k, sweep);
    EvictOutcome(p);
    forall x | x in ledger[k := e] && LiveAt(ledger[k := e][x], sweep) ensures x in p.values {
      assert x in LiveIn(ledger, k, sweep);
    }
  }

  lemma {:induction false} RoomyIsComplete<V>(cap: nat, start: real, ops: seq<Op<V>>)
    requires cap > 0 && Monotone(start, ops) && Roomy(cap, ops)
    ensures Complete(Exec(cap, ops), Ledger(ops), Clock(start, ops))
  {
    if ops != [] {
      var before, op := ops[..|ops| - 1], ops[|ops| - 1];
      StoredIsLatest(cap, before);
      RoomyIsComplete(cap, start, before);
      if op.WriteOp? {
        RoomyWriteComplete(Exec(cap, before), Ledger(before), Clock(start, before), op.key,
                           Entry(op.value, Expiry(op.exp, op.stamp)), op.sweep);
      }
    }
  }

  /** As long as the live keys fit the cap, the bounded store answers exactly as an unbounded cache of latest
      writes would, for every key and at every later time; a read in between changes none of the answers. */
  lemma StoreRefinesLedger<V>(cap: nat, start: real, ops: seq<Op<V>>, k: Key, t: real, k': Key, now: real)
    requires cap > 0 && Monotone(start, ops) && Roomy(cap, ops) && Clock(start, ops) <= t
    requires now <= t
    ensures var s := Exec(cap, ops);
            Answers(ops, k, t, Read(s, k, t).1) && Answers(ops, k, t, Lookup(Read(s, k', now).0, k, t))
  {
    StoredIsLatest(cap, ops);
    RoomyIsComplete(cap, start, ops);
    ReadAgrees(Exec(cap, ops), k, t, k, t);
    ReadAgrees(Exec(cap, ops), k', now, k, t);
    LedgerAnswers(ops, k, t);
  }
}
