/** The session lock registry as the objects the code updates in place. */
module SessionLocksClass {
  import opened Seqs
  import opened G = SessionGuard

  /** `[asyncio.Lock(), refcount]` */
  class GuardEntry {
    var refs: int

    constructor ()
      ensures refs == 0
    {
      refs := 0;
    }
  }

  class SessionLocks {
    var registry: map<Loop, map<SessionKey, GuardEntry>>
    ghost var entries: set<GuardEntry>  // every entry ever made

    ghost predicate Valid()
      reads this
    {
      forall l, k :: l in registry && k in registry[l] ==> registry[l][k] in entries
    }

    ghost function Model(): Guard<GuardEntry>
      reads this, entries
    {
      Guard(registry, map e | e in entries :: e.refs)
    }

    constructor ()
      ensures Valid() && Model() == Guard(map[], map[])
    {
      registry, entries := map[], {};
    }

    method Enter(loop: Loop, key: SessionKey) returns (entry: GuardEntry)
      requires Valid()
      modifies this, entries
      ensures Valid() && entry in entries && fresh(entries - old(entries))
      ensures (Model(), entry) == G.Enter(old(Model()), loop, key, entry)
      ensures EntryAt(old(Model()), loop, key).None? ==> fresh(entry)
    {
      ghost var before := Model();
      if loop !in registry {
        registry := registry[loop := map[]];
      }
      var locks := registry[loop];
      if key in locks {
        entry := locks[key];
      } else {
        entry := new GuardEntry();
        entries := entries + {entry};
        registry := registry[loop := locks[key := entry]];
      }
      entry.refs := entry.refs + 1;
      assert registry == before.registry[loop := Inner(before, loop)[key := entry]] by {
        assert registry[loop] == Inner(before, loop)[key := entry];
      }
      assert Model().refs == before.refs[entry := entry.refs];
    }

    method Leave(loop: Loop, key: SessionKey, entry: GuardEntry)
      requires Valid() && loop in registry && entry in entries
      modifies this`registry, entry
      ensures Valid() && entries == old(entries)
      ensures Model() == G.Leave(old(Model()), loop, key, entry)
    {
      entry.refs := entry.refs - 1;
      if entry.refs == 0 {
        registry := registry[loop := registry[loop] - {key}];
      }
    }
  }
}
