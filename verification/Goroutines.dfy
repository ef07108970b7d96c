/**
 Goroutines over the calls of `LockProtocol`. A goroutine executes one statement at a time: while one of its
 calls is inside `Lock` or inside its release function, it makes no other call and releases none.
 */
module Goroutines {
  import opened Wrappers
  import opened Bytes
  import opened LockProtocol

  type Thread = nat

  /** The goroutine that makes a call and releases it. */
  type Owner = Actor -> Thread

  /** The call is inside `Lock`. */
  predicate Waiting(pc: PC) { !pc.Returned() }

  /** The call is inside `Lock` or inside its release function. */
  predicate Busy(pc: PC) { !pc.Holding? && !pc.Done? }

  ghost predicate Idle(s: State, owner: Owner, t: Thread) {
    forall b :: b in s.pc && owner(b) == t ==> !Busy(s.pc[b])
  }

  ghost predicate MayAct(s: State, owner: Owner, act: Action) {
    act.Advance? || Idle(s, owner, owner(act.a))
  }

  /** `run` is a run in which every action is one its goroutine comes to. */
  ghost predicate IsProgram(run: seq<State>, acts: seq<Action>, owner: Owner) {
    IsRun(run, acts) && forall i :: 0 <= i < |acts| ==> MayAct(run[i], owner, acts[i])
  }

  /** Goroutine `t` is in a `Lock` call for a key that `u` holds. */
  ghost predicate WaitsOn(s: State, owner: Owner, t: Thread, u: Thread) {
    exists a, b :: Blocks(s, owner, t, u, a, b)
  }

  predicate Blocks(s: State, owner: Owner, t: Thread, u: Thread, a: Actor, b: Actor) {
    && a in s.pc && b in s.pc && owner(a) == t && owner(b) == u
    && Waiting(s.pc[a]) && s.pc[b].Holding? && s.pc[a].key == s.pc[b].key
  }

  /** A closed chain of goroutines, each waiting for the next; one that asks for its own key waits for itself. */
  ghost predicate IsCycle(s: State, owner: Owner, ts: seq<Thread>) {
    && |ts| >= 2 && ts[0] == ts[|ts| - 1]
    && forall i :: 0 <= i < |ts| - 1 ==> WaitsOn(s, owner, ts[i], ts[i + 1])
  }

  ghost predicate Deadlocked(s: State, owner: Owner) { exists ts :: IsCycle(s, owner, ts) }

  /** Actor `b` has a statement to execute and its goroutine comes to it. */
  ghost predicate CanMove(s: State, owner: Owner, b: Actor) {
    SafeEntry(s, b) && Step(s, b).Some? && (s.pc[b].Holding? ==> Idle(s, owner, owner(b)))
  }

  // ----- one call at a time -----

  ghost predicate Sequential(s: State, owner: Owner) {
    forall a, b :: a in s.pc && b in s.pc && owner(a) == owner(b) && Busy(s.pc[a]) && Busy(s.pc[b]) ==> a == b
  }

  /** What an action does to the program counters. */
  lemma NextPC(s: State, s': State, act: Action)
    requires Next(s, s', act)
    ensures act.a in s'.pc && s'.pc == s.pc[act.a := s'.pc[act.a]]
    ensures act.CallLock? ==> act.a !in s.pc && s'.pc[act.a] == MapLock(act.key)
    ensures !act.CallLock? ==> act.a in s.pc
    ensures act.Advance? ==> Busy(s.pc[act.a])
    ensures act.CallRelease? ==> s.pc[act.a].Returned()
    ensures act.CallRelease? && !s.pc[act.a].Holding? ==> s' == s
    ensures !act.CallLock? && Waiting(s'.pc[act.a]) ==> Waiting(s.pc[act.a]) && s'.pc[act.a].key == s.pc[act.a].key
    ensures !act.CallLock? && Waiting(s.pc[act.a]) && !s'.pc[act.a].Holding? ==>
              Waiting(s'.pc[act.a]) && s'.pc[act.a].key == s.pc[act.a].key
    ensures s'.pc[act.a].Holding? ==>
              act.Advance? && s.pc[act.a].EntryLock? && s.pc[act.a].key == s'.pc[act.a].key
              && s.pc[act.a].e < |s.entries| && s.entries[s.pc[act.a].e].mu == None
  {}

  lemma {:induction false} ProgramIsSequential(run: seq<State>, acts: seq<Action>, owner: Owner, i: nat)
    requires IsProgram(run, acts, owner) && i < |run|
    ensures Sequential(run[i], owner)
  {
    if i > 0 {
      ProgramIsSequential(run, acts, owner, i - 1);
      assert Next(run[i - 1], run[i], acts[i - 1]) && MayAct(run[i - 1], owner, acts[i - 1]);
      hide Next, Step;
      NextPC(run[i - 1], run[i], acts[i - 1]);
    }
  }

  // ----- a deadlock is for good -----

  ghost predicate HasWaiting(s: State, owner: Owner, t: Thread) {
    exists a :: a in s.pc && owner(a) == t && Waiting(s.pc[a])
  }

  lemma CycleWaits(s: State, owner: Owner, ts: seq<Thread>, i: nat)
    requires IsCycle(s, owner, ts) && i < |ts|
    ensures HasWaiting(s, owner, ts[i])
  {
    var j := if i == |ts| - 1 then 0 else i;
    assert WaitsOn(s, owner, ts[j], ts[j + 1]);
    var a, b :| Blocks(s, owner, ts[j], ts[j + 1], a, b);
  }

  /** A call that waits for a held key does not get it by its next statement. */
  lemma BlockedCallWaits(s: State, s': State, act: Action, a: Actor, b: Actor)
    requires Inv(s) && Next(s, s', act) && act.a == a
    requires a in s.pc && b in s.pc && Waiting(s.pc[a]) && s.pc[b].Holding? && s.pc[a].key == s.pc[b].key
    ensures !s'.pc[a].Holding?
  {
    hide RefsCounted, NothingLeftBehind;
    NextPC(s, s', act);
    hide Next;
    if s.pc[a].EntryLock? { assert s.pc[a].e == s.pc[b].e; }
  }

  lemma EdgeStays(s: State, s': State, act: Action, owner: Owner, t: Thread, u: Thread)
    requires Inv(s) && Next(s, s', act) && MayAct(s, owner, act)
    requires WaitsOn(s, owner, t, u) && HasWaiting(s, owner, u)
    ensures WaitsOn(s', owner, t, u)
  {
    NextPC(s, s', act);
    hide Next, Inv;
    var a, b :| Blocks(s, owner, t, u, a, b);
    var w :| w in s.pc && owner(w) == u && Waiting(s.pc[w]);
    assert Busy(s.pc[w]);
    assert s'.pc[b] == s.pc[b];
    if act.a == a { BlockedCallWaits(s, s', act, a, b); }
    assert Blocks(s', owner, t, u, a, b);
  }

  /** What is deadlocked stays so, whatever else the goroutines do. */
  lemma {:induction false} DeadlockStays(run: seq<State>, acts: seq<Action>, owner: Owner, i: nat, j: nat)
    requires IsProgram(run, acts, owner) && i <= j < |run| && Deadlocked(run[i], owner)
    ensures Deadlocked(run[j], owner)
    decreases j
  {
    if i < j {
      DeadlockStays(run, acts, owner, i, j - 1);
      var (s, s', act) := (run[j - 1], run[j], acts[j - 1]);
      assert Next(s, s', act) && MayAct(s, owner, act);
      RunKeepsInv(run, acts, j - 1);
      hide Next, Inv, WaitsOn, HasWaiting, MayAct;
      var ts :| IsCycle(s, owner, ts);
      forall n | 0 <= n < |ts| - 1 ensures WaitsOn(s', owner, ts[n], ts[n + 1]) {
        CycleWaits(s, owner, ts, n + 1);
        EdgeStays(s, s', act, owner, ts[n], ts[n + 1]);
      }
      assert IsCycle(s', owner, ts);
    }
  }

  // ----- without new calls no deadlock comes about -----

  lemma EdgeWasThere(s: State, s': State, act: Action, owner: Owner, t: Thread, u: Thread)
    requires Sequential(s, owner) && Next(s, s', act) && !act.CallLock?
    requires WaitsOn(s', owner, t, u) && HasWaiting(s', owner, u)
    ensures WaitsOn(s, owner, t, u)
  {
    NextPC(s, s', act);
    hide Next;
    var a, b :| Blocks(s', owner, t, u, a, b);
    var w :| w in s'.pc && owner(w) == u && Waiting(s'.pc[w]);
    assert Busy(s.pc[w]) && w != b;
    assert Blocks(s, owner, t, u, a, b);
  }

  lemma NoNewDeadlock(s: State, s': State, act: Action, owner: Owner)
    requires Sequential(s, owner) && Next(s, s', act) && !act.CallLock? && Deadlocked(s', owner)
    ensures Deadlocked(s, owner)
  {
    hide Next, WaitsOn, HasWaiting, Sequential;
    var ts :| IsCycle(s', owner, ts);
    forall n | 0 <= n < |ts| - 1 ensures WaitsOn(s, owner, ts[n], ts[n + 1]) {
      CycleWaits(s', owner, ts, n + 1);
      EdgeWasThere(s, s', act, owner, ts[n], ts[n + 1]);
    }
    assert IsCycle(s, owner, ts);
  }

  // ----- where nobody can move there is a deadlock -----

  /** Goroutine `t` has a call it has not released. */
  ghost predicate Engaged(s: State, owner: Owner, t: Thread) {
    exists a :: a in s.pc && owner(a) == t && !s.pc[a].Done?
  }

  ghost predicate Stuck(s: State, owner: Owner) { forall b :: b in s.pc ==> !CanMove(s, owner, b) }

  lemma InMapMoves(run: seq<State>, acts: seq<Action>, i: nat, owner: Owner, b: Actor)
    requires IsRun(run, acts) && i < |run| && b in run[i].pc && run[i].pc[b].InMap()
    ensures CanMove(run[i], owner, b)
  {
    WaitsOnlyForOwnKey(run, acts, i, b);
    hide IsRun, Step;
  }

  lemma StuckCallWaits(run: seq<State>, acts: seq<Action>, i: nat, owner: Owner, a: Actor)
    requires IsRun(run, acts) && i < |run| && Stuck(run[i], owner) && a in run[i].pc && Busy(run[i].pc[a])
    ensures exists b :: Blocks(run[i], owner, owner(a), owner(b), a, b)
  {
    var s := run[i];
    hide IsRun, Step, SafeEntry, Idle;
    WaitsOnlyForOwnKey(run, acts, i, a);
    assert Step(s, a).None?;
    forall b | b in s.pc && s.pc[b].InMap() ensures CanMove(s, owner, b) { InMapMoves(run, acts, i, owner, b); }
    var b :| b in s.pc && s.pc[b].Holding? && s.pc[a].EntryLock? && s.pc[b].key == s.pc[a].key;
    assert Blocks(s, owner, owner(a), owner(b), a, b);
  }

  lemma StuckWaitsOnEngaged(run: seq<State>, acts: seq<Action>, i: nat, owner: Owner, t: Thread)
    requires IsRun(run, acts) && i < |run| && Stuck(run[i], owner) && Engaged(run[i], owner, t)
    ensures exists u :: WaitsOn(run[i], owner, t, u) && Engaged(run[i], owner, u)
  {
    var s := run[i];
    hide IsRun, Step, SafeEntry;
    var a :| a in s.pc && owner(a) == t && !s.pc[a].Done?;
    if s.pc[a].Holding? {
      WaitsOnlyForOwnKey(run, acts, i, a);
      assert !CanMove(s, owner, a);
      a :| a in s.pc && owner(a) == t && Busy(s.pc[a]);
    }
    StuckCallWaits(run, acts, i, owner, a);
    var b :| Blocks(s, owner, t, owner(b), a, b);
    assert WaitsOn(s, owner, t, owner(b)) && Engaged(s, owner, owner(b));
  }

  /** Each waits for the next. */
  ghost predicate IsChain(s: State, owner: Owner, path: seq<Thread>) {
    forall i :: 0 <= i < |path| - 1 ==> WaitsOn(s, owner, path[i], path[i + 1])
  }

  lemma ChainOn(s: State, owner: Owner, path: seq<Thread>, u: Thread)
    requires path != [] && IsChain(s, owner, path) && WaitsOn(s, owner, path[|path| - 1], u)
    ensures IsChain(s, owner, path + [u])
  {
    hide WaitsOn;
  }

  lemma ChainCloses(s: State, owner: Owner, path: seq<Thread>, u: Thread)
    requires u in path && IsChain(s, owner, path + [u])
    ensures Deadlocked(s, owner)
  {
    hide WaitsOn;
    var j :| 0 <= j < |path| && path[j] == u;
    var ts := (path + [u])[j..];
    forall i | 0 <= i < |ts| - 1 ensures WaitsOn(s, owner, ts[i], ts[i + 1]) {
      assert WaitsOn(s, owner, (path + [u])[j + i], (path + [u])[j + i + 1]);
    }
    assert IsCycle(s, owner, ts);
  }

  /** Everyone in `live` waits for someone in `live`. */
  ghost predicate NobodyFree(s: State, owner: Owner, live: set<Thread>) {
    forall t :: t in live ==> WaitsWithin(s, owner, live, t)
  }

  ghost predicate WaitsWithin(s: State, owner: Owner, live: set<Thread>, t: Thread) {
    exists u :: u in live && WaitsOn(s, owner, t, u)
  }

  lemma NextWithin(s: State, owner: Owner, live: set<Thread>, t: Thread) returns (u: Thread)
    requires WaitsWithin(s, owner, live, t)
    ensures u in live && WaitsOn(s, owner, t, u)
  {
    u :| u in live && WaitsOn(s, owner, t, u);
  }

  /** Then a chain in `live` runs into itself: `rest` are those not on it. */
  lemma {:induction false} FindCycle(s: State, owner: Owner, live: set<Thread>, path: seq<Thread>, rest: set<Thread>)
    requires NobodyFree(s, owner, live) && IsChain(s, owner, path)
    requires path != [] && path[|path| - 1] in live && forall t :: t in live ==> t in path || t in rest
    ensures Deadlocked(s, owner)
    decreases rest
  {
    hide WaitsOn, IsChain, Deadlocked, WaitsWithin;
    assert WaitsWithin(s, owner, live, path[|path| - 1]);
    hide NobodyFree;
    var u := NextWithin(s, owner, live, path[|path| - 1]);
    ChainOn(s, owner, path, u);
    if u in path {
      ChainCloses(s, owner, path, u);
    } else {
      assert forall t :: t in path ==> t in path + [u];
      assert (path + [u])[|path|] == u;
      FindCycle(s, owner, live, path + [u], rest - {u});
    }
  }

  ghost function EngagedThreads(s: State, owner: Owner): set<Thread> {
    set a | a in s.pc && !s.pc[a].Done? :: owner(a)
  }

  lemma EngagedThreadsAre(s: State, owner: Owner)
    ensures forall t :: t in EngagedThreads(s, owner) <==> Engaged(s, owner, t)
  {}

  lemma StuckWaitsWithin(run: seq<State>, acts: seq<Action>, i: nat, owner: Owner, t: Thread)
    requires IsRun(run, acts) && i < |run| && Stuck(run[i], owner) && Engaged(run[i], owner, t)
    ensures WaitsWithin(run[i], owner, EngagedThreads(run[i], owner), t)
  {
    hide IsRun, Stuck, WaitsOn, EngagedThreads, Engaged;
    StuckWaitsOnEngaged(run, acts, i, owner, t);
    EngagedThreadsAre(run[i], owner);
  }

  lemma StuckIsDeadlocked(run: seq<State>, acts: seq<Action>, i: nat, owner: Owner, t: Thread)
    requires IsRun(run, acts) && i < |run| && Stuck(run[i], owner) && Engaged(run[i], owner, t)
    ensures Deadlocked(run[i], owner)
  {
    var s := run[i];
    hide IsRun, Stuck, WaitsOn, EngagedThreads, Engaged, Deadlocked, IsChain, WaitsWithin;
    EngagedThreadsAre(s, owner);
    var live := EngagedThreads(s, owner);
    forall t | t in live ensures WaitsWithin(s, owner, live, t) {
      StuckWaitsWithin(run, acts, i, owner, t);
    }
    OneLink(s, owner, t);
    FindCycle(s, owner, live, [t], live);
  }

  lemma OneLink(s: State, owner: Owner, t: Thread)
    ensures IsChain(s, owner, [t])
  {}

  /** Where nobody can move, there is a call not released if and only if there is a deadlock. */
  lemma StuckIffDeadlocked(run: seq<State>, acts: seq<Action>, i: nat, owner: Owner)
    requires IsRun(run, acts) && i < |run| && Stuck(run[i], owner)
    ensures (exists a :: a in run[i].pc && !run[i].pc[a].Done?) <==> Deadlocked(run[i], owner)
  {
    var s := run[i];
    hide IsRun, Stuck, WaitsOn;
    if a :| a in s.pc && !s.pc[a].Done? {
      assert Engaged(s, owner, owner(a));
      StuckIsDeadlocked(run, acts, i, owner, owner(a));
    }
    hide IsCycle;
    if ts :| IsCycle(s, owner, ts) {
      CycleHasTwo(s, owner, ts);
      CycleWaits(s, owner, ts, 0);
    }
  }

  lemma CycleHasTwo(s: State, owner: Owner, ts: seq<Thread>)
    requires IsCycle(s, owner, ts)
    ensures |ts| >= 2
  {}

  // ----- exactly when all calls can be finished -----

  ghost predicate AllReleased(s: State) { forall a :: a in s.pc ==> s.pc[a].Done? }

  /** The goroutines can go on from the end of `run`, without new calls, until every call is released. */
  ghost predicate Finishable(run: seq<State>, acts: seq<Action>, owner: Owner) {
    exists run', acts' :: Finishes(run, acts, owner, run', acts')
  }

  ghost predicate Finishes(run: seq<State>, acts: seq<Action>, owner: Owner, run': seq<State>, acts': seq<Action>) {
    && IsProgram(run', acts', owner) && run <= run' && acts <= acts'
    && (forall n :: |acts| <= n < |acts'| ==> Works(run'[n], acts'[n]))
    && AllReleased(run'[|acts'|])
  }

  /** Without a deadlock some schedule finishes every call, in exactly the statements left, with an empty map. */
  lemma {:induction false} Drains(run: seq<State>, acts: seq<Action>, owner: Owner)
    returns (run': seq<State>, acts': seq<Action>)
    requires IsProgram(run, acts, owner) && !Deadlocked(run[|acts|], owner)
    ensures Finishes(run, acts, owner, run', acts')
    ensures |acts'| == |acts| + Total(run[|acts|]) && |run'[|acts'|].m| == 0
    decreases Total(run[|acts|])
  {
    hide Step, Total, Deadlocked, Idle;
    var s := run[|acts|];
    StuckOrDone(run, acts, owner);
    if b :| b in s.pc && CanMove(s, owner, b) {
      StepTotal(s, b);
      var act := if s.pc[b].Holding? then CallRelease(b) else Advance(b);
      var (run1, acts1) := (run + [Step(s, b).value], acts + [act]);
      assert Next(s, run1[|acts1|], act) && MayAct(s, owner, act);
      assert IsProgram(run1, acts1, owner) by { hide CanMove; }
      ProgramIsSequential(run, acts, owner, |acts|);
      if Deadlocked(run1[|acts1|], owner) { NoNewDeadlock(s, run1[|acts1|], act, owner); }
      run', acts' := Drains(run1, acts1, owner);
      assert run'[|acts|] == run1[|acts|] == s && acts'[|acts|] == act;
    } else {
      run', acts' := run, acts;
      NothingLeaks(run, acts, |acts|);
      AllDone(s);
    }
  }

  lemma StuckOrDone(run: seq<State>, acts: seq<Action>, owner: Owner)
    requires IsRun(run, acts) && !Deadlocked(run[|acts|], owner)
    ensures AllReleased(run[|acts|]) || exists b :: b in run[|acts|].pc && CanMove(run[|acts|], owner, b)
  {
    hide CanMove, Deadlocked, Next;
    if Stuck(run[|acts|], owner) { StuckIffDeadlocked(run, acts, |acts|, owner); }
  }

  /** All calls can be finished if and only if no goroutines wait on each other in a circle. */
  lemma FinishableIffNoDeadlock(run: seq<State>, acts: seq<Action>, owner: Owner)
    requires IsProgram(run, acts, owner)
    ensures Finishable(run, acts, owner) <==> !Deadlocked(run[|acts|], owner)
  {
    hide Next, MayAct, Total, Deadlocked, Works;
    if Finishable(run, acts, owner) {
      var run', acts' :| Finishes(run, acts, owner, run', acts');
      assert run'[|acts|] == run[|acts|];
      NotDeadlocked(run'[|acts'|], owner);
      if Deadlocked(run[|acts|], owner) { DeadlockStays(run', acts', owner, |acts|, |acts'|); }
    }
    if !Deadlocked(run[|acts|], owner) {
      var run', acts' := Drains(run, acts, owner);
    }
  }

  lemma NotDeadlocked(s: State, owner: Owner)
    requires AllReleased(s)
    ensures !Deadlocked(s, owner)
  {
    if ts :| IsCycle(s, owner, ts) { CycleWaits(s, owner, ts, 0); }
  }

  // ----- disciplines that rule deadlocks out -----

  /** Every goroutine asks only for keys above those it holds. */
  ghost predicate InOrder(run: seq<State>, acts: seq<Action>, owner: Owner, rank: bytes -> int) {
    |run| == |acts| + 1 &&
    forall j, b :: 0 <= j < |acts| && acts[j].CallLock? && b in run[j].pc ==>
      owner(b) == owner(acts[j].a) && run[j].pc[b].Holding? ==> rank(run[j].pc[b].key) < rank(acts[j].key)
  }

  ghost predicate Ordered(s: State, owner: Owner, rank: bytes -> int) {
    forall a, b :: a in s.pc && b in s.pc && owner(a) == owner(b) && Waiting(s.pc[a]) && s.pc[b].Holding?
      ==> rank(s.pc[b].key) < rank(s.pc[a].key)
  }

  lemma {:induction false} StaysOrdered(run: seq<State>, acts: seq<Action>, owner: Owner, rank: bytes -> int, i: nat)
    requires IsProgram(run, acts, owner) && InOrder(run, acts, owner, rank) && i < |run|
    ensures Ordered(run[i], owner, rank)
  {
    hide InOrder, Ordered, Sequential, Next, MayAct;
    if i == 0 {
      NobodyIsOrdered(owner, rank);
    } else {
      StaysOrdered(run, acts, owner, rank, i - 1);
      ProgramIsSequential(run, acts, owner, i - 1);
      assert Next(run[i - 1], run[i], acts[i - 1]);
      OrderedOn(run, acts, owner, rank, i - 1);
    }
  }

  lemma NobodyIsOrdered(owner: Owner, rank: bytes -> int)
    ensures Ordered(INITIAL, owner, rank)
  {}

  lemma OrderedOn(run: seq<State>, acts: seq<Action>, owner: Owner, rank: bytes -> int, j: nat)
    requires InOrder(run, acts, owner, rank) && j < |acts| && Next(run[j], run[j + 1], acts[j])
    requires Ordered(run[j], owner, rank) && MayAct(run[j], owner, acts[j])
    requires Sequential(run[j], owner)
    ensures Ordered(run[j + 1], owner, rank)
  {
    var (s, s', act) := (run[j], run[j + 1], acts[j]);
    NextPC(s, s', act);
    hide Next;
    forall a, b | a in s'.pc && b in s'.pc && owner(a) == owner(b) && Waiting(s'.pc[a]) && s'.pc[b].Holding?
      ensures rank(s'.pc[b].key) < rank(s'.pc[a].key)
    {
      if act.CallLock? {
        if a == act.a { assert s.pc[b] == s'.pc[b]; }
      } else {
        assert Busy(s.pc[a]);
      }
    }
  }

  lemma {:induction false} RanksRise(s: State, owner: Owner, rank: bytes -> int, ts: seq<Thread>, i: nat,
                                     a: Actor, b: Actor)
    requires Ordered(s, owner, rank) && Sequential(s, owner) && IsCycle(s, owner, ts) && i < |ts|
    requires a in s.pc && owner(a) == ts[0] && Waiting(s.pc[a])
    requires b in s.pc && owner(b) == ts[i] && Waiting(s.pc[b])
    ensures if i == 0 then a == b else rank(s.pc[a].key) < rank(s.pc[b].key)
  {
    if i > 0 {
      assert WaitsOn(s, owner, ts[i - 1], ts[i - 1 + 1]);
      var c, h :| Blocks(s, owner, ts[i - 1], ts[i], c, h);
      RanksRise(s, owner, rank, ts, i - 1, a, c);
    }
  }

  /** A fixed order of acquisition rules deadlocks out. */
  lemma OrderPreventsDeadlock(run: seq<State>, acts: seq<Action>, owner: Owner, rank: bytes -> int, i: nat)
    requires IsProgram(run, acts, owner) && InOrder(run, acts, owner, rank) && i < |run|
    ensures !Deadlocked(run[i], owner)
  {
    StaysOrdered(run, acts, owner, rank, i);
    ProgramIsSequential(run, acts, owner, i);
    hide IsProgram, InOrder, Sequential, Ordered, IsCycle;
    forall ts | IsCycle(run[i], owner, ts) ensures false {
      NoCycle(run[i], owner, rank, ts);
    }
  }

  lemma NoCycle(s: State, owner: Owner, rank: bytes -> int, ts: seq<Thread>)
    requires Ordered(s, owner, rank) && Sequential(s, owner)
    ensures !IsCycle(s, owner, ts)
  {
    if IsCycle(s, owner, ts) {
      CycleWaits(s, owner, ts, 0);
      var a :| a in s.pc && owner(a) == ts[0] && Waiting(s.pc[a]);
      RanksRise(s, owner, rank, ts, |ts| - 1, a, a);
    }
  }

  /** So does taking one key at a time. */
  lemma OneKeyPreventsDeadlock(run: seq<State>, acts: seq<Action>, owner: Owner, i: nat)
    requires IsProgram(run, acts, owner) && i < |run|
    requires forall j, b :: 0 <= j < |acts| && acts[j].CallLock? && b in run[j].pc && owner(b) == owner(acts[j].a)
               ==> !run[j].pc[b].Holding?
    ensures !Deadlocked(run[i], owner)
  {
    hide Next, MayAct, Deadlocked;
    OrderPreventsDeadlock(run, acts, owner, k => 0, i);
  }

  // ----- two keys in opposite orders -----

  lemma Extend(run: seq<State>, acts: seq<Action>, owner: Owner, act: Action, s': State)
    returns (run': seq<State>, acts': seq<Action>)
    requires IsProgram(run, acts, owner) && Next(run[|acts|], s', act) && MayAct(run[|acts|], owner, act)
    ensures run' == run + [s'] && acts' == acts + [act] && IsProgram(run', acts', owner)
  {
    run', acts' := run + [s'], acts + [act];
    hide Next, MayAct;
  }

  lemma Advances(run: seq<State>, acts: seq<Action>, owner: Owner, a: Actor, s': State)
    returns (run': seq<State>, acts': seq<Action>)
    requires IsProgram(run, acts, owner) && SafeEntry(run[|acts|], a) && !run[|acts|].pc[a].Holding?
    requires Step(run[|acts|], a) == Some(s')
    ensures IsProgram(run', acts', owner) && |acts'| == |acts| + 1 && run'[|acts'|] == s'
  {
    hide Step;
    run', acts' := Extend(run, acts, owner, Advance(a), s');
  }

  /** The six states of a call that finds the map mutex free and its key in no use. */
  function Acquiring(s: State, a: Actor, key: bytes, i: nat): State
    requires i < 6
  {
    var e := |s.entries|;
    if i == 0 then s.(pc := s.pc[a := MapLock(key)])
    else if i == 1 then s.(mu := Some(a), pc := s.pc[a := Lookup(key)])
    else if i == 5 then
      s.(m := s.m[key := e], entries := s.entries + [Entry(Some(a), 1)], pc := s.pc[a := Holding(key, e)])
    else
      s.(mu := if i < 4 then Some(a) else None, m := s.m[key := e],
         entries := s.entries + [Entry(None, if i == 2 then 0 else 1)],
         pc := s.pc[a := if i == 2 then Increment(key, e) else if i == 3 then MapUnlock(key, e) else EntryLock(key, e)])
  }

  lemma AcquiringSteps(s: State, a: Actor, key: bytes, i: nat)
    requires i < 5 && a !in s.pc && s.mu == None && key !in s.m
    ensures var t := Acquiring(s, a, key, i);
            SafeEntry(t, a) && !t.pc[a].Holding? && Step(t, a) == Some(Acquiring(s, a, key, i + 1))
  {
    var (t, t') := (Acquiring(s, a, key, i), Acquiring(s, a, key, i + 1));
    assert t'.pc == t.pc[a := t'.pc[a]];
    assert i == 1 ==> t'.m == t.m[key := |s.entries|];
    if i >= 2 {
      var e := |s.entries|;
      assert t.entries[e := Entry(Some(a), 1)] == s.entries + [Entry(Some(a), 1)];
      assert t.entries[e := Entry(None, 1)] == s.entries + [Entry(None, 1)];
    }
  }

  /** With the map mutex free and the key in no use, a call gets the key in its first six steps. */
  lemma Acquire(run: seq<State>, acts: seq<Action>, owner: Owner, a: Actor, key: bytes)
    returns (run': seq<State>, acts': seq<Action>)
    requires IsProgram(run, acts, owner) && a !in run[|acts|].pc && Idle(run[|acts|], owner, owner(a))
    requires run[|acts|].mu == None && key !in run[|acts|].m
    ensures IsProgram(run', acts', owner) && run'[|acts'|] == Acquiring(run[|acts|], a, key, 5)
  {
    hide Acquiring, Step, Idle, SafeEntry, Next, MayAct;
    var s := run[|acts|];
    assert Call(s, a, key) == Acquiring(s, a, key, 0) by { CallIsFirst(s, a, key); }
    CallIsNext(s, owner, a, key);
    run', acts' := Extend(run, acts, owner, CallLock(a, key), Call(s, a, key));
    hide IsRun;
    for i := 0 to 5
      invariant IsProgram(run', acts', owner) && |run'| == |acts'| + 1 && run'[|acts'|] == Acquiring(s, a, key, i)
    {
      AcquiringSteps(s, a, key, i);
      run', acts' := Advances(run', acts', owner, a, Acquiring(s, a, key, i + 1));
      ProgramLength(run', acts', owner);
    }
  }

  lemma CallIsFirst(s: State, a: Actor, key: bytes)
    requires a !in s.pc
    ensures Call(s, a, key) == Acquiring(s, a, key, 0)
  {}

  lemma CallIsNext(s: State, owner: Owner, a: Actor, key: bytes)
    requires a !in s.pc && Idle(s, owner, owner(a))
    ensures Next(s, Call(s, a, key), CallLock(a, key)) && MayAct(s, owner, CallLock(a, key))
  {}

  lemma ProgramLength(run: seq<State>, acts: seq<Action>, owner: Owner)
    requires IsProgram(run, acts, owner)
    ensures |run| == |acts| + 1
  {}

  lemma CrossedDeadlock(s: State, owner: Owner)
    requires owner(0) == owner(2) == 0 && owner(1) == owner(3) == 1
    requires s.pc == map[0 := Holding("A", 0), 1 := Holding("B", 1), 2 := MapLock("B"), 3 := MapLock("A")]
    ensures Deadlocked(s, owner)
  {
    assert Blocks(s, owner, 0, 1, 2, 1) && Blocks(s, owner, 1, 0, 3, 0);
    hide Blocks;
    assert WaitsOn(s, owner, 0, 1) && WaitsOn(s, owner, 1, 0);
    hide WaitsOn;
    assert IsCycle(s, owner, [0, 1, 0]);
  }

  lemma CallAnother(run: seq<State>, acts: seq<Action>, owner: Owner, a: Actor, key: bytes)
    returns (run': seq<State>, acts': seq<Action>)
    requires IsProgram(run, acts, owner) && a !in run[|acts|].pc && Idle(run[|acts|], owner, owner(a))
    ensures IsProgram(run', acts', owner) && run'[|acts'|] == Call(run[|acts|], a, key)
  {
    hide Next, MayAct, Idle;
    CallIsNext(run[|acts|], owner, a, key);
    run', acts' := Extend(run, acts, owner, CallLock(a, key), Call(run[|acts|], a, key));
  }

  /** Two goroutines, even and odd calls: one takes "A" and then "B", the other "B" and then "A". */
  lemma OppositeOrdersDeadlock() returns (run: seq<State>, acts: seq<Action>)
    ensures IsProgram(run, acts, a => a % 2) && Deadlocked(run[|acts|], a => a % 2)
    ensures run[|acts|].pc == map[0 := Holding("A", 0), 1 := Holding("B", 1), 2 := MapLock("B"), 3 := MapLock("A")]
  {
    hide Deadlocked, IsRun, MayAct, Next;
    var owner: Owner := a => a % 2;
    run, acts := [INITIAL], [];
    assert IsProgram(run, acts, owner) && |run| == 1 by { NothingYet(owner); }
    run, acts := Acquire(run, acts, owner, 0, "A");
    ProgramLength(run, acts, owner);
    run, acts := Acquire(run, acts, owner, 1, "B");
    ProgramLength(run, acts, owner);
    run, acts := CallAnother(run, acts, owner, 2, "B");
    ProgramLength(run, acts, owner);
    run, acts := CallAnother(run, acts, owner, 3, "A");
    ProgramLength(run, acts, owner);
    hide IsProgram;
    CrossedDeadlock(run[|acts|], owner);
  }

  lemma NothingYet(owner: Owner)
    ensures IsProgram([INITIAL], [], owner)
  {}
}
