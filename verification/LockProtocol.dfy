/**
 `KeyedMutex` (`locks.go`) as an interleaving of its statements. An actor is one call of `Lock` with the
 release function it returns. Which goroutine an actor belongs to does not matter here; `Goroutines` adds it.
 */
module LockProtocol {
  import opened Wrappers
  import opened Bytes

  type Actor = nat

  /** The statement an actor executes next; `e` is its local variable of that name. */
  datatype PC =
    | MapLock(key: bytes)
    | Lookup(key: bytes)
    | Increment(key: bytes, e: nat)
    | MapUnlock(key: bytes, e: nat)
    | EntryLock(key: bytes, e: nat)
    | Holding(key: bytes, e: nat)
    | MapRelock(key: bytes, e: nat)
    | Decrement(key: bytes, e: nat)
    | Delete(key: bytes, e: nat)
    | MapDone(key: bytes, e: nat)
    | Done
  {
    /** The actor is between `k.mu.Lock()` and `k.mu.Unlock()`. */
    predicate InMap() { Lookup? || Increment? || MapUnlock? || Decrement? || Delete? || MapDone? }

    /** The actor counts in `refs` of its entry. */
    predicate Counted() { MapUnlock? || EntryLock? || Holding? || MapRelock? || Decrement? }

    /** `Lock` has returned and the caller has the release function. */
    predicate Returned() { Holding? || MapRelock? || Decrement? || Delete? || MapDone? || Done? }

    /** The actor's entry must be the one in the map under its key. */
    predicate Attached() { Increment? || Counted() || Delete? }
  }

  /** A mutex is None when free. Who holds it is recorded for the proofs; no statement looks at it. */
  type Mutex = Option<Actor>

  datatype Entry = Entry(mu: Mutex, refs: int)

  datatype State = State(mu: Mutex, m: map<bytes, nat>, entries: seq<Entry>, pc: map<Actor, PC>)

  const INITIAL := State(None, map[], [], map[])

  /** `Lock(key)` is called. */
  function Call(s: State, a: Actor, key: bytes): State
    requires a !in s.pc
  {
    s.(pc := s.pc[a := MapLock(key)])
  }

  predicate SafeEntry(s: State, a: Actor) {
    a in s.pc && (s.pc[a].Attached() || s.pc[a].MapDone? ==> s.pc[a].e < |s.entries|)
  }

  /**
   Actor `a` executes its next statement: None when it must wait for a mutex, and when it would unlock a
   mutex nobody holds, which Go answers with a fatal error. For a holder it is the first call of release.
   */
  function Step(s: State, a: Actor): Option<State>
    requires SafeEntry(s, a)
  {
    match s.pc[a]
    case MapLock(key) =>
      if s.mu.Some? then None else Some(s.(mu := Some(a), pc := s.pc[a := Lookup(key)]))
    case Lookup(key) =>
      if key in s.m then Some(s.(pc := s.pc[a := Increment(key, s.m[key])]))
      else
        var e := |s.entries|;
        Some(s.(entries := s.entries + [Entry(None, 0)], m := s.m[key := e], pc := s.pc[a := Increment(key, e)]))
    case Increment(key, e) =>
      Some(SetEntry(s, e, s.entries[e].(refs := s.entries[e].refs + 1), a, MapUnlock(key, e)))
    case MapUnlock(key, e) =>
      if s.mu.None? then None else Some(s.(mu := None, pc := s.pc[a := EntryLock(key, e)]))
    case EntryLock(key, e) =>
      if s.entries[e].mu.Some? then None
      else Some(SetEntry(s, e, s.entries[e].(mu := Some(a)), a, Holding(key, e)))
    case Holding(key, e) =>
      if s.entries[e].mu.None? then None
      else Some(SetEntry(s, e, s.entries[e].(mu := None), a, MapRelock(key, e)))
    case MapRelock(key, e) =>
      if s.mu.Some? then None else Some(s.(mu := Some(a), pc := s.pc[a := Decrement(key, e)]))
    case Decrement(key, e) =>
      Some(SetEntry(s, e, s.entries[e].(refs := s.entries[e].refs - 1), a, Delete(key, e)))
    case Delete(key, e) =>
      Some(s.(m := if s.entries[e].refs == 0 then s.m - {key} else s.m, pc := s.pc[a := MapDone(key, e)]))
    case MapDone(key, e) =>
      if s.mu.None? then None else Some(s.(mu := None, pc := s.pc[a := Done]))
    case Done => None
  }

  function SetEntry(s: State, e: nat, entry: Entry, a: Actor, pc: PC): State
    requires e < |s.entries|
  {
    s.(entries := s.entries[e := entry], pc := s.pc[a := pc])
  }

  /** Calling the release function of `a`: `once` lets only the first call through. */
  function Release(s: State, a: Actor): Option<State>
    requires SafeEntry(s, a)
  {
    if s.pc[a].Holding? then Step(s, a) else Some(s)
  }

  // ----- runs -----

  datatype Action = CallLock(a: Actor, key: bytes) | Advance(a: Actor) | CallRelease(a: Actor)

  /** `s'` follows from `s` by one action of one actor. */
  predicate Next(s: State, s': State, act: Action) {
    match act
    case CallLock(a, key) => a !in s.pc && s' == Call(s, a, key)
    case Advance(a) => SafeEntry(s, a) && !s.pc[a].Holding? && Step(s, a) == Some(s')
    case CallRelease(a) => SafeEntry(s, a) && s.pc[a].Returned() && Release(s, a) == Some(s')
  }

  /** `run` is a sequence of states from the new mutex, each following from the one before. */
  predicate IsRun(run: seq<State>, acts: seq<Action>) {
    && |run| == |acts| + 1 && run[0] == INITIAL
    && forall i :: 0 <= i < |acts| ==> Next(run[i], run[i + 1], acts[i])
  }

  // ----- the invariant -----

  /** The actors that count in `refs` of entry `e`. */
  ghost function Users(s: State, e: nat): set<Actor> {
    set a | a in s.pc && s.pc[a].Counted() && s.pc[a].e == e
  }

  /** `s.mu` is held exactly by the one actor inside the map sections. */
  ghost predicate MapExclusive(s: State) {
    && (s.mu.Some? ==> s.mu.value in s.pc)
    && forall a :: a in s.pc ==> (s.pc[a].InMap() <==> s.mu == Some(a))
  }

  /** An actor's entry is in the map under its key for as long as the actor may touch it. */
  ghost predicate Attachments(s: State) {
    && (forall a :: a in s.pc ==> SafeEntry(s, a))
    && (forall a :: a in s.pc && s.pc[a].Attached() ==> s.pc[a].key in s.m && s.m[s.pc[a].key] == s.pc[a].e)
    && (forall k :: k in s.m ==> s.m[k] < |s.entries|)
    && (forall k, l :: k in s.m && l in s.m && s.m[k] == s.m[l] ==> k == l)
  }

  /** `refs` counts the users of an entry. */
  ghost predicate RefsCounted(s: State) {
    forall e :: 0 <= e < |s.entries| ==> s.entries[e].refs == |Users(s, e)|
  }

  /** The mutex of an entry is held exactly by its one holder. */
  ghost predicate HoldersExclusive(s: State) {
    && (forall e :: 0 <= e < |s.entries| && s.entries[e].mu.Some? ==>
          var a := s.entries[e].mu.value; a in s.pc && s.pc[a].Holding? && s.pc[a].e == e)
    && (forall a :: a in s.pc && s.pc[a].Holding? ==>
          s.pc[a].e < |s.entries| && s.entries[s.pc[a].e].mu == Some(a))
  }

  /** No key stays in the map without an actor that will remove it. */
  ghost predicate NothingLeftBehind(s: State) {
    forall k :: k in s.m ==> exists a :: a in s.pc && s.pc[a].Attached() && s.pc[a].key == k
  }

  ghost predicate Inv(s: State) {
    MapExclusive(s) && Attachments(s) && RefsCounted(s) && HoldersExclusive(s) && NothingLeftBehind(s)
  }

  lemma InitialInv()
    ensures Inv(INITIAL)
  {}

  /** `a` moves to `pc`; every other actor stays where it is. */
  lemma UsersMove(s: State, s': State, a: Actor, e: nat)
    requires a in s'.pc && s'.pc == s.pc[a := s'.pc[a]]
    ensures Users(s', e) ==
            if s'.pc[a].Counted() && s'.pc[a].e == e then Users(s, e) + {a} else Users(s, e) - {a}
  {}

  lemma UsersStay(s: State, s': State, a: Actor)
    requires a in s'.pc && s'.pc == s.pc[a := s'.pc[a]]
    requires s'.pc[a].Counted() <==> a in s.pc && s.pc[a].Counted()
    requires s'.pc[a].Counted() ==> s'.pc[a].e == s.pc[a].e
    ensures forall e :: Users(s', e) == Users(s, e)
  {
    forall e ensures Users(s', e) == Users(s, e) { UsersMove(s, s', a, e); }
  }

  /** If nobody lets go of an entry and the map keeps its keys, nothing is left behind. */
  lemma KeepAttached(s: State, s': State, a: Actor)
    requires NothingLeftBehind(s) && a in s'.pc && s'.pc == s.pc[a := s'.pc[a]]
    requires a in s.pc && s.pc[a].Attached() ==> s'.pc[a].Attached() && s'.pc[a].key == s.pc[a].key
    requires s'.m.Keys <= s.m.Keys + (if s'.pc[a].Attached() then {s'.pc[a].key} else {})
    ensures NothingLeftBehind(s')
  {
    forall k | k in s'.m
      ensures exists b :: b in s'.pc && s'.pc[b].Attached() && s'.pc[b].key == k
    {
      if !(s'.pc[a].Attached() && s'.pc[a].key == k) {
        var b :| b in s.pc && s.pc[b].Attached() && s.pc[b].key == k;
        assert s'.pc[b] == s.pc[b];
      }
    }
  }

  lemma StepKeepsMapExclusive(s: State, a: Actor)
    requires MapExclusive(s) && SafeEntry(s, a) && Step(s, a).Some?
    ensures MapExclusive(Step(s, a).value)
  {}

  lemma StepKeepsAttachments(s: State, a: Actor)
    requires MapExclusive(s) && Attachments(s) && a in s.pc && Step(s, a).Some? && !s.pc[a].Delete?
    ensures Attachments(Step(s, a).value)
  {
    if s.pc[a].Lookup? { LookupKeepsAttachments(s, a); } else { MoveKeepsAttachments(s, a); }
  }

  lemma LookupKeepsAttachments(s: State, a: Actor)
    requires MapExclusive(s) && Attachments(s) && a in s.pc && s.pc[a].Lookup?
    ensures Attachments(Step(s, a).value)
  {}

  lemma MoveKeepsAttachments(s: State, a: Actor)
    requires Attachments(s) && a in s.pc && Step(s, a).Some? && !s.pc[a].Delete? && !s.pc[a].Lookup?
    ensures Attachments(Step(s, a).value)
  {
    var s' := Step(s, a).value;
    assert s'.m == s.m && |s'.entries| == |s.entries|;
    assert s'.pc == s.pc[a := s'.pc[a]];
    assert s'.pc[a].Attached() ==> s.pc[a].Attached() && s'.pc[a].key == s.pc[a].key && s'.pc[a].e == s.pc[a].e;
    assert SafeEntry(s', a);
    hide Step;
  }

  lemma StepKeepsHolders(s: State, a: Actor)
    requires HoldersExclusive(s) && SafeEntry(s, a) && Step(s, a).Some?
    ensures HoldersExclusive(Step(s, a).value)
  {
    var s' := Step(s, a).value;
    if !s.pc[a].EntryLock? && !s.pc[a].Holding? {
      MutexesStay(s, a);
      hide Step;
    }
  }

  lemma MutexesStay(s: State, a: Actor)
    requires SafeEntry(s, a) && Step(s, a).Some? && !s.pc[a].EntryLock? && !s.pc[a].Holding?
    ensures var s' := Step(s, a).value;
            && s'.pc == s.pc[a := s'.pc[a]] && !s'.pc[a].Holding?
            && |s.entries| <= |s'.entries|
            && (forall e :: 0 <= e < |s.entries| ==> s'.entries[e].mu == s.entries[e].mu)
            && (forall e :: |s.entries| <= e < |s'.entries| ==> s'.entries[e].mu == None)
  {}

  lemma StepKeepsRefs(s: State, a: Actor)
    requires RefsCounted(s) && SafeEntry(s, a) && Step(s, a).Some?
    requires forall b :: b in s.pc ==> SafeEntry(s, b)
    ensures RefsCounted(Step(s, a).value)
  {
    var s' := Step(s, a).value;
    hide Step;
    forall e | 0 <= e < |s'.entries|
      ensures s'.entries[e].refs == |Users(s', e)|
    {
      StepRefsAt(s, a, e);
    }
  }

  predicate CountsOn(pc: PC, e: nat) { pc.Counted() && pc.e == e }

  /** A step adds to `refs` exactly when its actor starts to count, and takes from it when it stops. */
  lemma StepEffect(s: State, a: Actor, e: nat)
    requires SafeEntry(s, a) && Step(s, a).Some? && e < |Step(s, a).value.entries|
    ensures var s' := Step(s, a).value;
            && s'.pc == s.pc[a := s'.pc[a]]
            && if e < |s.entries| then
                 s'.entries[e].refs == s.entries[e].refs
                   + (if CountsOn(s'.pc[a], e) then 1 else 0) - (if CountsOn(s.pc[a], e) then 1 else 0)
               else s'.entries[e].refs == 0 && !CountsOn(s'.pc[a], e)
  {}

  lemma StepRefsAt(s: State, a: Actor, e: nat)
    requires RefsCounted(s) && SafeEntry(s, a) && Step(s, a).Some?
    requires forall b :: b in s.pc ==> SafeEntry(s, b)
    requires e < |Step(s, a).value.entries|
    ensures Step(s, a).value.entries[e].refs == |Users(Step(s, a).value, e)|
  {
    hide Step;
    var s' := Step(s, a).value;
    StepEffect(s, a, e);
    UsersMove(s, s', a, e);
    assert a in Users(s, e) <==> CountsOn(s.pc[a], e);
    if e >= |s.entries| {
      assert Users(s, e) == {};
    } else {
      RefsOf(s, e, a);
    }
  }

  lemma RefsOf(s: State, e: nat, a: Actor)
    requires RefsCounted(s) && e < |s.entries|
    ensures |Users(s, e) + {a}| == s.entries[e].refs + if a in Users(s, e) then 0 else 1
    ensures |Users(s, e) - {a}| == s.entries[e].refs - if a in Users(s, e) then 1 else 0
  {
    hide Users;
    ToggleSize(Users(s, e), a);
  }

  /** When the count is zero the deleting actor is the only one that still knows the entry. */
  lemma DeleteIsSafe(s: State, a: Actor, b: Actor)
    requires Inv(s) && a in s.pc && s.pc[a].Delete? && s.entries[s.pc[a].e].refs == 0
    requires b in s.pc && s.pc[b].Attached() && (s.pc[b].key == s.pc[a].key || s.pc[b].e == s.pc[a].e)
    ensures b == a
  {
    hide NothingLeftBehind, HoldersExclusive;
    assert s.pc[b].Counted() <==> b in Users(s, s.pc[a].e);
  }

  lemma DeleteKeepsAttachments(s: State, a: Actor)
    requires Inv(s) && a in s.pc && s.pc[a].Delete?
    ensures Attachments(Step(s, a).value)
  {
    var s' := Step(s, a).value;
    if s.entries[s.pc[a].e].refs == 0 {
      forall b | b in s'.pc && s'.pc[b].Attached()
        ensures s'.pc[b].key in s'.m && s'.m[s'.pc[b].key] == s'.pc[b].e
      {
        if s.pc[b].key == s.pc[a].key { DeleteIsSafe(s, a, b); }
      }
    }
  }

  lemma StepLeavesNothing(s: State, a: Actor)
    requires Inv(s) && a in s.pc && Step(s, a).Some?
    ensures NothingLeftBehind(Step(s, a).value)
  {
    var s' := Step(s, a).value;
    if s.pc[a].Delete? {
      DeleteLeavesNothing(s, a);
    } else {
      MapGrows(s, a);
      hide Step, RefsCounted, HoldersExclusive, NothingLeftBehind, MapExclusive;
      KeepAttached(s, s', a);
    }
  }

  lemma MapGrows(s: State, a: Actor)
    requires SafeEntry(s, a) && Step(s, a).Some? && !s.pc[a].Delete?
    ensures var s' := Step(s, a).value;
            && s'.pc == s.pc[a := s'.pc[a]]
            && (s.pc[a].Attached() ==> s'.pc[a].Attached() && s'.pc[a].key == s.pc[a].key)
            && s'.m.Keys <= s.m.Keys + (if s'.pc[a].Attached() then {s'.pc[a].key} else {})
  {}

  lemma DeleteLeavesNothing(s: State, a: Actor)
    requires Inv(s) && a in s.pc && s.pc[a].Delete?
    ensures NothingLeftBehind(Step(s, a).value)
  {
    var s' := Step(s, a).value;
    var (key, e) := (s.pc[a].key, s.pc[a].e);
    forall k | k in s'.m
      ensures exists b :: b in s'.pc && s'.pc[b].Attached() && s'.pc[b].key == k
    {
      if k == key {
        assert |Users(s, e)| == s.entries[e].refs != 0;
        var b :| b in Users(s, e);
        assert s'.pc[b] == s.pc[b];
      } else {
        var b :| b in s.pc && s.pc[b].Attached() && s.pc[b].key == k;
        assert s'.pc[b] == s.pc[b];
      }
    }
  }

  /** Every statement of every actor keeps the invariant. */
  lemma StepKeepsInv(s: State, a: Actor)
    requires Inv(s) && a in s.pc && Step(s, a).Some?
    ensures Inv(Step(s, a).value)
  {
    hide Step, RefsCounted, HoldersExclusive, NothingLeftBehind;
    StepKeepsMapExclusive(s, a);
    if s.pc[a].Delete? { DeleteKeepsAttachments(s, a); } else { StepKeepsAttachments(s, a); }
    StepKeepsRefs(s, a);
    StepKeepsHolders(s, a);
    StepLeavesNothing(s, a);
  }

  lemma CallKeepsInv(s: State, a: Actor, key: bytes)
    requires Inv(s) && a !in s.pc
    ensures Inv(Call(s, a, key))
  {
    hide NothingLeftBehind, Users;
    UsersStay(s, Call(s, a, key), a);
    KeepAttached(s, Call(s, a, key), a);
    CallKeepsAttachments(s, a, key);
    CallKeepsHolders(s, a, key);
    hide Attachments, HoldersExclusive;
  }

  lemma CallKeepsAttachments(s: State, a: Actor, key: bytes)
    requires Attachments(s) && a !in s.pc
    ensures Attachments(Call(s, a, key))
  {}

  lemma CallKeepsHolders(s: State, a: Actor, key: bytes)
    requires HoldersExclusive(s) && a !in s.pc
    ensures HoldersExclusive(Call(s, a, key))
  {}

  /** The invariant holds in every state of every run. */
  lemma {:induction false} RunKeepsInv(run: seq<State>, acts: seq<Action>, i: nat)
    requires IsRun(run, acts) && i < |run|
    ensures Inv(run[i])
  {
    if i == 0 {
      InitialInv();
    } else {
      RunKeepsInv(run, acts, i - 1);
      hide Inv, Step;
      assert Next(run[i - 1], run[i], acts[i - 1]);
      match acts[i - 1]
      case CallLock(a, key) => CallKeepsInv(run[i - 1], a, key);
      case Advance(a) => StepKeepsInv(run[i - 1], a);
      case CallRelease(a) => if run[i - 1].pc[a].Holding? { StepKeepsInv(run[i - 1], a); }
    }
  }

  // ----- what callers rely on -----

  /** At most one holder of a key, whatever entry it got; everyone on a key shares the entry in the map. */
  lemma MutualExclusion(run: seq<State>, acts: seq<Action>, i: nat, a: Actor, b: Actor)
    requires IsRun(run, acts) && i < |run|
    requires var pc := run[i].pc; a in pc && b in pc && pc[a].Attached() && pc[b].Attached() && pc[a].key == pc[b].key
    ensures var s := run[i]; s.pc[a].key in s.m && s.pc[a].e == s.pc[b].e == s.m[s.pc[a].key]
    ensures run[i].pc[a].Holding? && run[i].pc[b].Holding? ==> a == b
  {
    RunKeepsInv(run, acts, i);
  }

  /** `refs` is the number of actors between their `refs++` and their `refs--`. */
  lemma RefsCountUsers(run: seq<State>, acts: seq<Action>, i: nat, e: nat)
    requires IsRun(run, acts) && i < |run| && e < |run[i].entries|
    ensures run[i].entries[e].refs == |Users(run[i], e)|
  {
    RunKeepsInv(run, acts, i);
  }

  /**
   An actor that has unlocked its entry and not yet decremented still pins it: a newcomer that looks the
   key up in that window gets the same entry.
   */
  lemma NewcomerSharesEntry(run: seq<State>, acts: seq<Action>, i: nat, leaving: Actor, newcomer: Actor)
    requires IsRun(run, acts) && i < |run|
    requires var pc := run[i].pc;
             && leaving in pc && pc[leaving].MapRelock?
             && newcomer in pc && pc[newcomer].Lookup? && pc[newcomer].key == pc[leaving].key
    ensures SafeEntry(run[i], newcomer)
    ensures Step(run[i], newcomer) ==
            Some(run[i].(pc := run[i].pc[newcomer := Increment(run[i].pc[leaving].key, run[i].pc[leaving].e)]))
  {
    RunKeepsInv(run, acts, i);
  }

  /** A deleted entry is one no other actor uses or will use. */
  lemma DeletedEntryIsUnused(run: seq<State>, acts: seq<Action>, i: nat, a: Actor, b: Actor)
    requires IsRun(run, acts) && i < |run|
    requires a in run[i].pc && run[i].pc[a].Delete?
    requires b in run[i].pc && b != a && run[i].pc[b].Attached()
    ensures SafeEntry(run[i], a) && Step(run[i], a).Some?
    ensures run[i].pc[b].key in Step(run[i], a).value.m
  {
    RunKeepsInv(run, acts, i);
    if run[i].entries[run[i].pc[a].e].refs == 0 && run[i].pc[b].key == run[i].pc[a].key {
      DeleteIsSafe(run[i], a, b);
    }
  }

  /** The map holds exactly the keys some actor is registered on; with every call released, none. */
  lemma NothingLeaks(run: seq<State>, acts: seq<Action>, i: nat)
    requires IsRun(run, acts) && i < |run|
    ensures forall k :: k in run[i].m <==>
              exists a :: a in run[i].pc && run[i].pc[a].Attached() && run[i].pc[a].key == k
    ensures (forall a :: a in run[i].pc ==> run[i].pc[a].Done?) ==> |run[i].m| == 0
  {
    RunKeepsInv(run, acts, i);
    hide RefsCounted, HoldersExclusive, MapExclusive;
    assert run[i].m != map[] ==> exists k :: k in run[i].m;
  }

  /**
   Nobody unlocks a free mutex, and an actor waits only for the map mutex, whose holder can step, or for
   the holder of its own key.
   */
  lemma WaitsOnlyForOwnKey(run: seq<State>, acts: seq<Action>, i: nat, a: Actor)
    requires IsRun(run, acts) && i < |run| && a in run[i].pc && !run[i].pc[a].Done?
    ensures var s := run[i];
            && SafeEntry(s, a)
            && (Step(s, a).None? ==>
                  || (exists b :: b in s.pc && b != a && s.pc[b].InMap() && s.mu == Some(b)
                        && (s.pc[a].MapLock? || s.pc[a].MapRelock?))
                  || (exists b :: b in s.pc && b != a && s.pc[b].Holding?
                        && s.pc[a].EntryLock? && s.pc[b].key == s.pc[a].key))
  {
    RunKeepsInv(run, acts, i);
    HolderSharesKey(run[i]);
    hide NothingLeftBehind, RefsCounted;
  }

  lemma HolderSharesKey(s: State)
    requires Inv(s)
    ensures forall a, b :: a in s.pc && b in s.pc && s.pc[a].Attached() && s.pc[b].Attached() && s.pc[a].e == s.pc[b].e
              ==> s.pc[a].key == s.pc[b].key
  {}

  // ----- what is left to execute -----

  /** Statements an actor still has to execute. */
  function Left(pc: PC): nat {
    match pc
    case MapLock(_) => 10
    case Lookup(_) => 9
    case Increment(_, _) => 8
    case MapUnlock(_, _) => 7
    case EntryLock(_, _) => 6
    case Holding(_, _) => 5
    case MapRelock(_, _) => 4
    case Decrement(_, _) => 3
    case Delete(_, _) => 2
    case MapDone(_, _) => 1
    case Done => 0
  }

  /** Statements the actors of a set still have to execute. */
  ghost function LeftOf(pc: map<Actor, PC>, actors: set<Actor>): nat
    requires actors <= pc.Keys
  {
    if actors == {} then 0
    else
      var a := Pick(actors);
      Left(pc[a]) + LeftOf(pc, actors - {a})
  }

  ghost function Total(s: State): nat { LeftOf(s.pc, s.pc.Keys) }

  lemma {:induction false} LeftWithout(pc: map<Actor, PC>, actors: set<Actor>, a: Actor)
    requires a in actors && actors <= pc.Keys
    ensures LeftOf(pc, actors) == Left(pc[a]) + LeftOf(pc, actors - {a})
    decreases |actors|
  {
    hide Left;
    var x := Pick(actors);
    if x != a {
      LeftWithout(pc, actors - {x}, a);
      LeftWithout(pc, actors - {a}, x);
      assert actors - {x} - {a} == actors - {a} - {x};
    }
  }

  lemma {:induction false} LeftAgrees(pc: map<Actor, PC>, pc': map<Actor, PC>, actors: set<Actor>)
    requires actors <= pc.Keys && actors <= pc'.Keys && forall a :: a in actors ==> pc[a] == pc'[a]
    ensures LeftOf(pc, actors) == LeftOf(pc', actors)
    decreases |actors|
  {
    hide Left;
    if actors != {} { LeftAgrees(pc, pc', actors - {Pick(actors)}); }
  }

  lemma StepLeft(s: State, a: Actor)
    requires SafeEntry(s, a) && Step(s, a).Some?
    ensures var s' := Step(s, a).value;
            s'.pc == s.pc[a := s'.pc[a]] && Left(s'.pc[a]) + 1 == Left(s.pc[a])
  {}

  lemma StepTotal(s: State, a: Actor)
    requires SafeEntry(s, a) && Step(s, a).Some?
    ensures Total(Step(s, a).value) + 1 == Total(s)
  {
    var s' := Step(s, a).value;
    StepLeft(s, a);
    hide Step, Left, LeftOf;
    assert s'.pc.Keys == s.pc.Keys;
    LeftWithout(s.pc, s.pc.Keys, a);
    LeftWithout(s'.pc, s'.pc.Keys, a);
    LeftAgrees(s.pc, s'.pc, s.pc.Keys - {a});
  }

  /** The action executes a statement: it is neither a new call nor a repeated release. */
  predicate Works(s: State, act: Action) {
    match act
    case CallLock(_, _) => false
    case Advance(_) => true
    case CallRelease(a) => a in s.pc && s.pc[a].Holding?
  }

  /** However the actors are scheduled, they execute exactly the statements they have left. */
  lemma {:induction false} ScheduleIsBounded(run: seq<State>, acts: seq<Action>, i: nat, j: nat)
    requires IsRun(run, acts) && i <= j < |run|
    requires forall n :: i <= n < j ==> Works(run[n], acts[n])
    ensures Total(run[i]) == Total(run[j]) + (j - i)
    decreases j
  {
    if i < j {
      ScheduleIsBounded(run, acts, i, j - 1);
      var (s, act) := (run[j - 1], acts[j - 1]);
      assert Next(s, run[j], act) && Works(s, act);
      hide Step, Total;
      StepTotal(s, act.a);
    }
  }

  /** With every call released nothing is left to execute. */
  lemma AllDone(s: State)
    requires forall a :: a in s.pc ==> s.pc[a].Done?
    ensures Total(s) == 0
  {
    NoneLeft(s.pc, s.pc.Keys);
  }

  lemma {:induction false} NoneLeft(pc: map<Actor, PC>, actors: set<Actor>)
    requires actors <= pc.Keys && forall a :: a in actors ==> pc[a].Done?
    ensures LeftOf(pc, actors) == 0
    decreases |actors|
  {
    if actors != {} { NoneLeft(pc, actors - {Pick(actors)}); }
  }

  /** Once the entry is unlocked the call never holds its key again. */
  lemma NextPastHolding(s: State, s': State, act: Action, a: Actor)
    requires Next(s, s', act) && a in s.pc && s.pc[a].Returned() && !s.pc[a].Holding?
    ensures a in s'.pc && s'.pc[a].Returned() && !s'.pc[a].Holding?
  {}

  lemma {:induction false} NeverHoldsAgain(run: seq<State>, acts: seq<Action>, i: nat, j: nat, a: Actor)
    requires IsRun(run, acts) && i <= j < |run| && a in run[i].pc && run[i].pc[a].Returned() && !run[i].pc[a].Holding?
    ensures a in run[j].pc && run[j].pc[a].Returned() && !run[j].pc[a].Holding?
    decreases j
  {
    hide Next;
    if i < j {
      NeverHoldsAgain(run, acts, i, j - 1, a);
      assert Next(run[j - 1], run[j], acts[j - 1]);
      NextPastHolding(run[j - 1], run[j], acts[j - 1], a);
    }
  }

  /** In every run every call of a release function but the first changes nothing, whoever holds the key by then. */
  lemma ReleaseTwice(run: seq<State>, acts: seq<Action>, i: nat, j: nat, a: Actor)
    requires IsRun(run, acts) && i < j < |acts| && acts[i] == acts[j] == CallRelease(a)
    ensures run[j + 1] == run[j]
  {
    assert Next(run[i], run[i + 1], acts[i]) && Next(run[j], run[j + 1], acts[j]);
    NeverHoldsAgain(run, acts, i + 1, j, a);
  }
}
