/**
 The object itself: each method is one statement of `Lock` or of the release function, executed by one
 actor on the shared map and entries, and does what `LockProtocol.Step` says.
 */
module KeyedMutexObject {
  import opened Wrappers
  import opened Bytes
  import opened LockProtocol

  class KeyedEntry {
    var mu: Mutex
    var refs: int
    ghost const id: nat

    constructor (ghost id: nat)
      ensures mu == None && refs == 0 && this.id == id
    {
      mu, refs := None, 0;
      this.id := id;
    }
  }

  lemma LookupEffect(s: State, a: Actor, key: bytes)
    requires a in s.pc && s.pc[a] == Lookup(key)
    ensures Step(s, a) == Some(
              if key in s.m then s.(pc := s.pc[a := Increment(key, s.m[key])])
              else s.(entries := s.entries + [Entry(None, 0)], m := s.m[key := |s.entries|],
                      pc := s.pc[a := Increment(key, |s.entries|)]))
  {}

  /** A statement keeps the invariant, and never unlocks a mutex that is free. */
  lemma Stepped(s: State, a: Actor)
    requires Inv(s) && a in s.pc
    ensures SafeEntry(s, a)
    ensures Step(s, a).Some? ==> Inv(Step(s, a).value)
    ensures s.pc[a].MapUnlock? || s.pc[a].MapDone? ==> s.mu.Some?
    ensures s.pc[a].Holding? ==> s.entries[s.pc[a].e].mu.Some?
  {
    if Step(s, a).Some? { StepKeepsInv(s, a); }
    hide Step, RefsCounted, NothingLeftBehind;
  }

  class KeyedMutex {
    var mu: Mutex
    var m: map<bytes, KeyedEntry>
    /** The variable `e` of every call of `Lock`. */
    var local: map<Actor, KeyedEntry>
    /** The calls whose `once` has fired. */
    var fired: set<Actor>
    /** Every entry made so far, and where every call stands. */
    ghost var entries: seq<KeyedEntry>
    ghost var pc: map<Actor, PC>

    ghost predicate Known(e: KeyedEntry)
      reads this
    {
      e.id < |entries| && entries[e.id] == e
    }

    /** The ghost fields describe the real ones. */
    ghost predicate Agrees()
      reads this, entries
    {
      && (forall i :: 0 <= i < |entries| ==> entries[i].id == i)
      && (forall k :: k in m ==> Known(m[k]))
      && (forall a :: a in pc && (pc[a].Attached() || pc[a].MapDone?) ==>
            a in local && Known(local[a]) && local[a].id == pc[a].e)
      && (forall a :: a in fired <==> a in pc && pc[a].Returned() && !pc[a].Holding?)
    }

    /** The fields agree, and their state keeps the invariant of the protocol. */
    ghost predicate Valid()
      reads this, entries
    {
      Agrees() && Inv(View())
    }

    ghost function View(): State
      reads this, entries
    {
      State(mu, Ids(), EntryViews(), pc)
    }

    ghost function Ids(): map<bytes, nat>
      reads this
    {
      map k | k in m :: m[k].id
    }

    ghost function EntryViews(): (s: seq<Entry>)
      reads this, entries
    {
      seq(|entries|, i requires 0 <= i < |entries| reads this, entries => Entry(entries[i].mu, entries[i].refs))
    }

    /** `NewKeyedMutex`. */
    constructor ()
      ensures Valid() && View() == INITIAL
    {
      mu, m, local, fired := None, map[], map[], {};
      entries, pc := [], map[];
      new;
      InitialInv();
    }

    /** `Lock(key)` is called. */
    method Enter(a: Actor, key: bytes)
      requires Valid() && a !in pc
      modifies this`pc
      ensures Valid() && View() == Call(old(View()), a, key)
    {
      hide Inv;
      ghost var was := View();
      CallKeepsInv(was, a, key);
      pc := pc[a := MapLock(key)];
      assert View() == Call(was, a, key);
    }

    /** `k.mu.Lock()` at the start of `Lock`; the caller waits until the mutex is free. */
    method LockMap(a: Actor)
      requires Valid() && a in pc && pc[a].MapLock? && mu == None
      modifies this`mu, this`pc
      ensures Valid() && Step(old(View()), a).Some? && View() == Step(old(View()), a).value
    {
      hide Inv;
      ghost var was := View();
      Stepped(was, a);
      mu := Some(a);
      pc := pc[a := Lookup(pc[a].key)];
      assert View() == Step(was, a).value;
    }

    /** The entry of `key`, made on first use. */
    method Find(a: Actor, key: bytes)
      requires Valid() && a in pc && pc[a] == Lookup(key)
      modifies this`m, this`local, this`entries, this`pc
      ensures Valid() && Step(old(View()), a).Some? && View() == Step(old(View()), a).value
      ensures forall e :: e in entries ==> e in old(entries) || fresh(e)
    {
      hide Inv;
      Stepped(View(), a);
      hide Step;
      ghost var was := View();
      if key !in m {
        var e := new KeyedEntry(|entries|);
        Add(key, e);
      }
      assert View() == was.(entries := EntryViews(), m := Ids());
      Take(a, key);
      LookupEffect(was, a, key);
    }

    /** `e` becomes the entry stored under `key`. */
    method Take(a: Actor, key: bytes)
      requires Agrees() && a in pc && pc[a] == Lookup(key) && key in m
      modifies this`local, this`pc
      ensures Agrees() && View() == old(View()).(pc := old(pc)[a := Increment(key, m[key].id)])
    {
      local := local[a := m[key]];
      pc := pc[a := Increment(key, local[a].id)];
    }

    /** Stores the new entry `e` under `key`. */
    method Add(key: bytes, e: KeyedEntry)
      requires Agrees() && key !in m
      requires e.id == |entries| && e.mu == None && e.refs == 0
      modifies this`m, this`entries
      ensures Agrees() && entries == old(entries) + [e] && m == old(m)[key := e]
      ensures EntryViews() == old(EntryViews()) + [Entry(None, 0)]
      ensures Ids() == old(Ids())[key := e.id]
    {
      entries := entries + [e];
      m := m[key := e];
    }

    /** `e.refs++` */
    method Register(a: Actor)
      requires Valid() && a in pc && pc[a].Increment?
      modifies this`pc, local[a]
      ensures Valid() && Step(old(View()), a).Some? && View() == Step(old(View()), a).value
    {
      hide Inv;
      ghost var was := View();
      Stepped(was, a);
      var e := local[a];
      e.refs := e.refs + 1;
      pc := pc[a := MapUnlock(pc[a].key, pc[a].e)];
      assert View() == Step(was, a).value;
    }

    /** `k.mu.Unlock()` before waiting for the entry. */
    method UnlockMap(a: Actor)
      requires Valid() && a in pc && pc[a].MapUnlock?
      modifies this`mu, this`pc
      ensures Valid() && Step(old(View()), a).Some? && View() == Step(old(View()), a).value
    {
      hide Inv;
      ghost var was := View();
      Stepped(was, a);
      mu := None;
      pc := pc[a := EntryLock(pc[a].key, pc[a].e)];
      assert View() == Step(was, a).value;
    }

    /** `e.mu.Lock()`; the caller waits until the mutex is free. */
    method LockEntry(a: Actor)
      requires Valid() && a in pc && pc[a].EntryLock? && local[a].mu == None
      modifies this`pc, local[a]
      ensures Valid() && Step(old(View()), a).Some? && View() == Step(old(View()), a).value
    {
      hide Inv;
      ghost var was := View();
      Stepped(was, a);
      local[a].mu := Some(a);
      pc := pc[a := Holding(pc[a].key, pc[a].e)];
      assert View() == Step(was, a).value;
    }

    /** The first `e.mu.Unlock()` of the release function; `once` turns every later call into nothing. */
    method UnlockEntry(a: Actor)
      requires Valid() && a in pc && pc[a].Returned()
      modifies this`pc, this`fired, if a in fired then {} else {local[a]}
      ensures Valid() && Release(old(View()), a).Some? && View() == Release(old(View()), a).value
    {
      hide Inv;
      ghost var was := View();
      Stepped(was, a);
      if a !in fired {
        fired := fired + {a};
        local[a].mu := None;
        pc := pc[a := MapRelock(pc[a].key, pc[a].e)];
      }
      assert View() == Release(was, a).value;
    }

    /** `k.mu.Lock()` of the release function. */
    method RelockMap(a: Actor)
      requires Valid() && a in pc && pc[a].MapRelock? && mu == None
      modifies this`mu, this`pc
      ensures Valid() && Step(old(View()), a).Some? && View() == Step(old(View()), a).value
    {
      hide Inv;
      ghost var was := View();
      Stepped(was, a);
      mu := Some(a);
      pc := pc[a := Decrement(pc[a].key, pc[a].e)];
      assert View() == Step(was, a).value;
    }

    /** `e.refs--` */
    method Deregister(a: Actor)
      requires Valid() && a in pc && pc[a].Decrement?
      modifies this`pc, local[a]
      ensures Valid() && Step(old(View()), a).Some? && View() == Step(old(View()), a).value
    {
      hide Inv;
      ghost var was := View();
      Stepped(was, a);
      var e := local[a];
      e.refs := e.refs - 1;
      pc := pc[a := Delete(pc[a].key, pc[a].e)];
      assert View() == Step(was, a).value;
    }

    lemma ForgetEffect(s: State, a: Actor)
      requires Inv(s) && a in s.pc && s.pc[a].Delete?
      ensures var e := s.pc[a].e;
              e < |s.entries|
              && Step(s, a) == Some(s.(m := if s.entries[e].refs == 0 then s.m - {s.pc[a].key} else s.m,
                                       pc := s.pc[a := MapDone(s.pc[a].key, e)]))
    {}

    /** Removes the entry when its count is zero. */
    method Forget(a: Actor, key: bytes)
      requires Valid() && a in pc && pc[a].Delete? && pc[a].key == key
      modifies this`m, this`pc
      ensures Valid() && Step(old(View()), a).Some? && View() == Step(old(View()), a).value
    {
      hide Inv, Step;
      ghost var was := View();
      Stepped(was, a);
      ForgetEffect(was, a);
      if local[a].refs == 0 {
        Remove(key);
      }
      assert View() == was.(m := Ids());
      Leave(a);
      assert View() == Step(was, a).value;
    }

    method Remove(key: bytes)
      requires Agrees()
      modifies this`m
      ensures Agrees() && Ids() == old(Ids()) - {key}
    {
      m := m - {key};
    }

    /** The call is about to give the map mutex back. */
    ghost method Leave(a: Actor)
      requires Agrees() && a in pc && pc[a].Delete?
      modifies this`pc
      ensures Agrees() && pc == old(pc)[a := MapDone(old(pc)[a].key, old(pc)[a].e)]
    {
      pc := pc[a := MapDone(pc[a].key, pc[a].e)];
    }

    /** The last `k.mu.Unlock()` of the release function. */
    method Finish(a: Actor)
      requires Valid() && a in pc && pc[a].MapDone?
      modifies this`mu, this`pc
      ensures Valid() && Step(old(View()), a).Some? && View() == Step(old(View()), a).value
    {
      hide Inv;
      ghost var was := View();
      Stepped(was, a);
      mu := None;
      pc := pc[a := Done];
      assert View() == Step(was, a).value;
    }

    /** Two holders of one key are one, and it holds the entry stored under the key. */
    lemma HoldsAlone(a: Actor, b: Actor)
      requires Valid() && a in pc && b in pc && pc[a].Holding? && pc[b].Holding? && pc[a].key == pc[b].key
      ensures a == b && pc[a].key in m && m[pc[a].key] == local[a] && local[a].mu == Some(a)
    {
      hide RefsCounted, NothingLeftBehind, MapExclusive;
      var s := View();
      assert s.pc[a].e == s.pc[b].e == s.m[pc[a].key];
      assert s.entries[pc[a].e].mu == Some(a) && s.entries[pc[b].e].mu == Some(b);
    }

    /** With every call released the map holds nothing. */
    lemma ReleasedIsEmpty()
      requires Valid() && forall a :: a in pc ==> pc[a].Done?
      ensures m == map[]
    {
      hide RefsCounted, HoldersExclusive, MapExclusive;
      assert forall k :: k in m ==> k in View().m;
    }

    /** `Size`; it takes and gives back the map mutex around this one read. */
    method Size() returns (n: nat)
      requires mu == None
      ensures n == |View().m|
    {
      n := |m|;
      assert View().m.Keys == m.Keys;
      assert |View().m| == |View().m.Keys| && |m| == |m.Keys|;
    }
  }
}
