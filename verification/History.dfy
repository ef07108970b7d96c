/** Runs of the in-memory directory: any sequence of completed operations on any objects. */
module History {
  import opened Wrappers
  import opened Bytes
  import opened Grammar
  import opened Scope
  import opened AceKey
  import opened Directory
  import opened Moves
  import opened Operations
  import opened Acl
  import opened Membership
  import opened StoredNames

  datatype State = State(d: Dir, serial: nat)

  const EMPTY := State(map[], 0)

  /** An operation that changed something, on the object stored under `k`. */
  datatype Op =
    | Create(cls: Class, s: Spec)
    | Update(cls: Class, k: bytes, s: Spec, order: seq<bytes>)
    | Delete(k: bytes)
    | EditMembers(k: bytes, guids: seq<bytes>, add: bool)
    | Grant(k: bytes, list: seq<ACE>)
    | Revoke(k: bytes, list: seq<ACE>)

  predicate Allowed(st: State, op: Op) {
    match op
    case Create(cls, s) => SpecValid(s) && !Occupied(st.d, NameOf(cls, s))
    case Update(cls, k, s, order) =>
      k in st.d && st.d[k].cls == cls && SpecValid(s) && OrderFits(st.d, cls, k, s, order)
    case Delete(k) => k in st.d && !HasChildren(st.d, k)
    case EditMembers(k, _, _) => k in st.d
    case Grant(k, _) => k in st.d
    case Revoke(k, _) => k in st.d
  }

  function After(st: State, op: Op): State
    requires Allowed(st, op)
  {
    match op
    case Create(cls, s) => State(st.d[NameOf(cls, s) := NewItem(cls, s, Guid(st.serial + 1))], st.serial + 1)
    case Update(cls, k, s, order) => st.(d := Updated(st.d, cls, k, s, order))
    case Delete(k) => st.(d := st.d - {k})
    case EditMembers(k, guids, add) => st.(d := EditedDir(st.d, k, guids, add))
    case Grant(k, list) => st.(d := WithAcl(st.d, k, Granted(st.d[k].dacl, list)))
    case Revoke(k, list) => st.(d := WithAcl(st.d, k, Revoked(st.d[k].dacl, list)))
  }

  /** What one call of an operation may do: nothing, or one allowed change. */
  ghost predicate Next(st: State, st': State) {
    st' == st || exists op :: Allowed(st, op) && st' == After(st, op)
  }

  lemma NothingIsNext(st: State)
    ensures Next(st, st)
  {}

  lemma OpIsNext(st: State, op: Op)
    requires Allowed(st, op)
    ensures Next(st, After(st, op))
  {}

  lemma CreateIsNext(d: Dir, serial: nat, cls: Class, s: Spec)
    requires SpecValid(s) && !Occupied(d, NameOf(cls, s))
    ensures Next(State(d, serial), State(d[NameOf(cls, s) := NewItem(cls, s, Guid(serial + 1))], serial + 1))
  {
    hide Next, SpecValid, Occupied, NameOf, Guid, NewItem;
    OpIsNext(State(d, serial), Create(cls, s));
  }

  lemma UpdateIsNext(d: Dir, serial: nat, cls: Class, k: bytes, s: Spec, order: seq<bytes>)
    requires k in d && d[k].cls == cls && SpecValid(s) && OrderFits(d, cls, k, s, order)
    ensures Next(State(d, serial), State(Updated(d, cls, k, s, order), serial))
  {
    hide Next, SpecValid, OrderFits, Updated;
    OpIsNext(State(d, serial), Update(cls, k, s, order));
  }

  lemma DeleteIsNext(d: Dir, serial: nat, k: bytes)
    requires k in d && !HasChildren(d, k)
    ensures Next(State(d, serial), State(d - {k}, serial))
  {
    hide Next, HasChildren;
    OpIsNext(State(d, serial), Delete(k));
  }

  lemma EditIsNext(d: Dir, serial: nat, k: bytes, guids: seq<bytes>, add: bool)
    requires k in d
    ensures Next(State(d, serial), State(EditedDir(d, k, guids, add), serial))
  {
    hide Next, Edited;
    OpIsNext(State(d, serial), EditMembers(k, guids, add));
  }

  lemma GrantIsNext(d: Dir, serial: nat, k: bytes, list: seq<ACE>)
    requires k in d
    ensures Next(State(d, serial), State(WithAcl(d, k, Granted(d[k].dacl, list)), serial))
  {
    hide Next, Granted;
    OpIsNext(State(d, serial), Grant(k, list));
  }

  lemma RevokeIsNext(d: Dir, serial: nat, k: bytes, list: seq<ACE>)
    requires k in d
    ensures Next(State(d, serial), State(WithAcl(d, k, Revoked(d[k].dacl, list)), serial))
  {
    hide Next, Without;
    OpIsNext(State(d, serial), Revoke(k, list));
  }

  /** `run` are the states of a directory that starts empty, `ops` the changes between them. */
  ghost predicate IsRun(run: seq<State>, ops: seq<Op>) {
    && |run| == |ops| + 1 && run[0] == EMPTY
    && forall i :: 0 <= i < |ops| ==> Allowed(run[i], ops[i]) && run[i + 1] == After(run[i], ops[i])
  }

  lemma AfterKeepsValid(st: State, op: Op)
    requires Directory.Valid(st.d, st.serial) && Allowed(st, op)
    ensures Directory.Valid(After(st, op).d, After(st, op).serial)
  {
    hide Directory.Valid, SpecValid, Occupied, OrderFits, HasChildren, NameOf, Updated, AclValid, Granted, Without;
    match op
    case Create(cls, s) => CreateKeepsValid(st.d, st.serial, cls, s);
    case Update(cls, k, s, order) => UpdateKeepsValid(st.d, st.serial, cls, k, s, order);
    case Delete(k) => DeleteKeepsValid(st.d, st.serial, k);
    case EditMembers(k, guids, add) => EditKeepsValid(st.d, st.serial, k, guids, add);
    case Grant(k, list) =>
      StoredAclValid(st.d, st.serial, k);
      GrantCovers(st.d[k].dacl, list);
      AclKeepsValid(st.d, st.serial, k, Granted(st.d[k].dacl, list));
    case Revoke(k, list) =>
      StoredAclValid(st.d, st.serial, k);
      RevokeKeepsValid(st.d[k].dacl, Keys(list));
      AclKeepsValid(st.d, st.serial, k, Revoked(st.d[k].dacl, list));
  }

  lemma StoredAclValid(d: Dir, serial: nat, k: bytes)
    requires Directory.Valid(d, serial) && k in d
    ensures AclValid(d[k].dacl)
  {
    assert ItemValid(k, d[k], serial);
  }

  /** The store invariant holds after every completed operation of every run. */
  lemma {:induction false} HistoryKeepsValid(run: seq<State>, ops: seq<Op>, i: nat)
    requires IsRun(run, ops) && i < |run|
    ensures Directory.Valid(run[i].d, run[i].serial)
  {
    hide Directory.Valid, Allowed, After;
    if i == 0 {
      EmptyIsValid();
    } else {
      HistoryKeepsValid(run, ops, i - 1);
      AfterKeepsValid(run[i - 1], ops[i - 1]);
    }
  }

  lemma EmptyIsValid()
    ensures Directory.Valid(EMPTY.d, EMPTY.serial)
  {}

  // ----- where an object comes from -----

  /** An object of class `cls` with GUID `g` is stored. */
  ghost predicate Live(d: Dir, g: bytes, cls: Class) {
    exists k :: k in d && d[k].guid == g && d[k].cls == cls
  }

  /** Every object of `d'` is an object of `d`, under whatever name. */
  ghost predicate From(d': Dir, d: Dir) {
    forall g, cls :: Live(d', g, cls) ==> Live(d, g, cls)
  }

  lemma VisitFrom(d: Dir, from: bytes, newDN: bytes, k: bytes)
    requires k in d
    ensures From(Visit(d, from, newDN, k), d)
  {
    hide Follows;
    var d' := Visit(d, from, newDN, k);
    forall g, cls | Live(d', g, cls) ensures Live(d, g, cls) {
      var x :| x in d' && d'[x].guid == g && d'[x].cls == cls;
      assert (d'[x].guid == d[k].guid && d'[x].cls == d[k].cls) || (x in d && d'[x] == d[x]);
    }
  }

  lemma {:induction false} RunFrom(r: Range, from: bytes, newDN: bytes, order: seq<bytes>)
    requires RangeOk(r) && Legal(r, from, newDN, order)
    ensures From(Run(r, from, newDN, order).d, r.d)
    decreases |order|
  {
    if order != [] {
      VisitFrom(r.d, from, newDN, order[0]);
      hide Visit, Live;
      RunFrom(Produce(r, from, newDN, order[0]), from, newDN, order[1..]);
    }
  }

  lemma Same(d: Dir, k: bytes, it: Item)
    requires k in d && it.guid == d[k].guid && it.cls == d[k].cls
    ensures From(d[k := it], d) && From(d, d[k := it])
  {
    var d' := d[k := it];
    forall g, cls ensures Live(d, g, cls) <==> Live(d', g, cls) {
      if Live(d, g, cls) {
        var x :| x in d && d[x].guid == g && d[x].cls == cls;
        assert x in d' && d'[x].guid == g && d'[x].cls == cls;
      }
      if Live(d', g, cls) {
        var x :| x in d' && d'[x].guid == g && d'[x].cls == cls;
        assert x in d && d[x].guid == g && d[x].cls == cls;
      }
    }
  }

  lemma StartFrom(d: Dir, from: bytes, newDN: bytes)
    requires from in d
    ensures From(Start(d, from, newDN), d)
  {
    var d' := Start(d, from, newDN);
    forall g, cls | Live(d', g, cls) ensures Live(d, g, cls) {
      var x :| x in d' && d'[x].guid == g && d'[x].cls == cls;
      assert (d'[x].guid == d[from].guid && d'[x].cls == d[from].cls) || (x in d && d'[x] == d[x]);
    }
  }

  /** An update makes no object and changes the class of none. */
  lemma UpdatedFrom(d: Dir, cls: Class, k: bytes, s: Spec, order: seq<bytes>)
    requires k in d && OrderFits(d, cls, k, s, order)
    ensures From(Updated(d, cls, k, s, order), d)
  {
    hide NameOf, Live, Legal, Run, Start, NeedsMove;
    var d1 := d[k := UpdateFields(d[k], s)];
    Same(d, k, UpdateFields(d[k], s));
    if NeedsMove(d[k], s) {
      var newDN := NameOf(cls, s);
      StartFrom(d1, k, newDN);
      RunFrom(Begin(Start(d1, k, newDN)), k, newDN, order);
      var d2 := Run(Begin(Start(d1, k, newDN)), k, newDN, order).d;
      if newDN in d2 { Same(d2, newDN, MoveModel(d2[newDN], newDN, s)); }
    }
  }

  /** Every operation but `Create` leaves only objects that were there. */
  lemma AfterFrom(st: State, op: Op)
    requires Allowed(st, op)
    ensures !op.Create? ==> From(After(st, op).d, st.d) && After(st, op).serial == st.serial
    ensures op.Create? ==>
              forall g, cls :: Live(After(st, op).d, g, cls) && g != Guid(st.serial + 1) ==> Live(st.d, g, cls)
  {
    hide Guid, NameOf, OrderFits, Updated, SpecValid, Occupied, HasChildren, Granted, Without, Edited;
    match op
    case Create(cls, s) =>
    case Update(cls, k, s, order) => UpdatedFrom(st.d, cls, k, s, order);
    case Delete(k) =>
    case EditMembers(k, guids, add) => Same(st.d, k, EditedDir(st.d, k, guids, add)[k]);
    case Grant(k, list) => Same(st.d, k, WithAcl(st.d, k, Granted(st.d[k].dacl, list))[k]);
    case Revoke(k, list) => Same(st.d, k, WithAcl(st.d, k, Revoked(st.d[k].dacl, list))[k]);
  }

  lemma SerialGrows(st: State, op: Op, g: bytes)
    requires Allowed(st, op) && Issued(g, st.serial)
    ensures Issued(g, After(st, op).serial)
    ensures op.Create? ==> g != Guid(st.serial + 1)
  {
    NextGuidIsNew(g, st.serial);
  }

  lemma {:induction false} IssuedForGood(run: seq<State>, ops: seq<Op>, i: nat, j: nat, g: bytes)
    requires IsRun(run, ops) && i <= j < |run| && Issued(g, run[i].serial)
    ensures Issued(g, run[j].serial)
    decreases j
  {
    hide Allowed, After, Issued;
    if i < j {
      IssuedForGood(run, ops, i, j - 1, g);
      SerialGrows(run[j - 1], ops[j - 1], g);
    }
  }

  /**
   A GUID is never reused: an object stored at any later point of a run with a GUID issued by now is stored
   now, with the same class. So what a delete removed stays absent.
   */
  lemma {:induction false} NoGuidIsReused(run: seq<State>, ops: seq<Op>, i: nat, j: nat, g: bytes, cls: Class)
    requires IsRun(run, ops) && i <= j < |run|
    requires Issued(g, run[i].serial) && Live(run[j].d, g, cls)
    ensures Live(run[i].d, g, cls)
    decreases j
  {
    hide Allowed, After, Issued, Live;
    if i < j {
      IssuedForGood(run, ops, i, j - 1, g);
      SerialGrows(run[j - 1], ops[j - 1], g);
      AfterFrom(run[j - 1], ops[j - 1]);
      NoGuidIsReused(run, ops, i, j - 1, g, cls);
    }
  }

  // ----- nothing is lost -----

  /**
   The operation meets what the store does not check: the key of a created object is free, and an update that
   moves its object is lossless.
   */
  ghost predicate Careful(st: State, op: Op)
    requires Allowed(st, op)
  {
    match op
    case Create(cls, s) => NameOf(cls, s) !in st.d
    case Update(cls, k, s, _) => KeepsAll(st.d, cls, k, s)
    case _ => true
  }

  ghost predicate Stored(d: Dir, g: bytes) { exists k :: k in d && d[k].guid == g }

  /** The operation deletes the object with GUID `g`. */
  predicate Removes(st: State, op: Op, g: bytes) {
    op.Delete? && op.k in st.d && st.d[op.k].guid == g
  }

  lemma SameStored(d: Dir, k: bytes, it: Item)
    requires k in d && it.guid == d[k].guid
    ensures forall g :: Stored(d[k := it], g) <==> Stored(d, g)
  {
    var d' := d[k := it];
    forall g ensures Stored(d, g) <==> Stored(d', g) {
      if Stored(d, g) {
        var x :| x in d && d[x].guid == g;
        assert x in d' && d'[x].guid == g;
      }
      if Stored(d', g) {
        var x :| x in d' && d'[x].guid == g;
        assert x in d && d[x].guid == g;
      }
    }
  }

  lemma CreateStores(d: Dir, k: bytes, it: Item, g: bytes)
    requires k !in d
    ensures Stored(d[k := it], g) <==> Stored(d, g) || g == it.guid
  {
    var d' := d[k := it];
    if Stored(d, g) {
      var x :| x in d && d[x].guid == g;
      assert x in d' && d'[x].guid == g;
    }
    assert k in d' && d'[k].guid == it.guid;
  }

  lemma UpdateStores(d: Dir, cls: Class, k: bytes, s: Spec, order: seq<bytes>, g: bytes)
    requires k in d && OrderFits(d, cls, k, s, order) && KeepsAll(d, cls, k, s)
    ensures Stored(Updated(d, cls, k, s, order), g) <==> Stored(d, g)
  {
    hide KeepsAll, OrderFits, Updated;
    var d' := Updated(d, cls, k, s, order);
    UpdateKeepsAll(d, cls, k, s, order);
    UpdatedFrom(d, cls, k, s, order);
    if Stored(d, g) {
      var l :| l in d && d[l].guid == g;
      var x :| x in d' && SameObject(d[l], d'[x]);
      assert d'[x].guid == g;
    }
    if Stored(d', g) {
      var x :| x in d' && d'[x].guid == g;
      assert Live(d', g, d'[x].cls);
      assert Live(d, g, d'[x].cls);
    }
  }

  lemma DeleteStores(d: Dir, k: bytes, g: bytes)
    requires k in d && DistinctGuids(d)
    ensures Stored(d - {k}, g) <==> Stored(d, g) && g != d[k].guid
  {
    if Stored(d, g) && g != d[k].guid {
      var x :| x in d && d[x].guid == g;
      assert x in d - {k};
    }
  }

  /** An edit of members or access entries stores what was stored. */
  lemma EditStores(st: State, op: Op, g: bytes)
    requires Allowed(st, op) && !op.Create? && !op.Update? && !op.Delete?
    ensures Stored(After(st, op).d, g) <==> Stored(st.d, g)
  {
    hide Granted, Without, Edited, Stored;
    match op
    case EditMembers(k, guids, add) => SameStored(st.d, k, EditedDir(st.d, k, guids, add)[k]);
    case Grant(k, list) => SameStored(st.d, k, WithAcl(st.d, k, Granted(st.d[k].dacl, list))[k]);
    case Revoke(k, list) => SameStored(st.d, k, WithAcl(st.d, k, Revoked(st.d[k].dacl, list))[k]);
  }

  /** One careful operation adds the GUID it issues, removes the one it deletes, and keeps every other. */
  lemma CarefulStep(st: State, op: Op, g: bytes)
    requires Directory.Valid(st.d, st.serial) && Allowed(st, op) && Careful(st, op)
    ensures Stored(After(st, op).d, g) <==>
            (Stored(st.d, g) || (op.Create? && g == Guid(st.serial + 1))) && !Removes(st, op, g)
  {
    hide Guid, NameOf, OrderFits, Updated, SpecValid, Occupied, HasChildren, KeepsAll, Stored;
    if op.Create? || op.Update? || op.Delete? {
      hide Granted, Without, Edited, EditedDir, WithAcl;
      assert DistinctGuids(st.d);
      hide Directory.Valid, DistinctGuids;
      match op
      case Create(cls, s) => CreateStores(st.d, NameOf(cls, s), NewItem(cls, s, Guid(st.serial + 1)), g);
      case Update(cls, k, s, order) => UpdateStores(st.d, cls, k, s, order, g);
      case Delete(k) => DeleteStores(st.d, k, g);
    } else {
      hide After;
      EditStores(st, op, g);
    }
  }

  /** The two are the same call; only what the range of its move produces may differ. */
  predicate SameCall(op: Op, op': Op) {
    op' == op || (op.Update? && op'.Update? && op' == op.(order := op'.order))
  }

  /** What the call is to change about the number of objects. */
  function Change(op: Op): int { if op.Create? then 1 else if op.Delete? then -1 else 0 }

  /** However ranges go, the call adds or removes just the object it is about. */
  ghost predicate LosesNothing(st: State, op: Op) {
    forall op' :: SameCall(op, op') && Allowed(st, op') ==> |After(st, op').d| == |st.d| + Change(op)
  }

  /** Careful is exact: an operation that is not can lose an object. A container that is not blank is enough. */
  lemma CarefulIsExact(st: State, op: Op)
    requires Allowed(st, op)
    ensures Careful(st, op) <==> LosesNothing(st, op)
    ensures op.Create? && Trim(op.s.container) != [] ==> Careful(st, op)
  {
    hide Guid, NameOf, OrderFits, Updated, SpecValid, Occupied, HasChildren, Granted, Without, Edited, KeepsAll;
    hide NewItem, Trim;
    match op
    case Create(cls, s) =>
      CreateReplacesNothing(st.d, cls, s);
      CountCreate(st.d, NameOf(cls, s), NewItem(cls, s, Guid(st.serial + 1)));
      assert SameCall(op, op);
    case Update(cls, k, s, order) => UpdateIsExact(st, op);
    case Delete(k) => CountDelete(st.d, k);
    case EditMembers(k, guids, add) => SameSize(EditedDir(st.d, k, guids, add), st.d);
    case Grant(k, list) => SameSize(WithAcl(st.d, k, Granted(st.d[k].dacl, list)), st.d);
    case Revoke(k, list) => SameSize(WithAcl(st.d, k, Revoked(st.d[k].dacl, list)), st.d);
  }

  lemma CountCreate(d: Dir, k: bytes, it: Item)
    ensures |d[k := it]| == |d| + 1 <==> k !in d
  {
    var e := d[k := it];
    assert e.Keys == d.Keys + {k} && |e| == |e.Keys| && |d| == |d.Keys|;
    ToggleSize(d.Keys, k);
  }

  lemma CountDelete(d: Dir, k: bytes)
    requires k in d
    ensures |d - {k}| == |d| - 1
  {
    var e := d - {k};
    assert e.Keys == d.Keys - {k} && |e| == |e.Keys| && |d| == |d.Keys|;
    ToggleSize(d.Keys, k);
  }

  lemma UpdateIsExact(st: State, op: Op)
    requires Allowed(st, op) && op.Update?
    ensures Careful(st, op) <==> LosesNothing(st, op)
  {
    hide NameOf, OrderFits, Updated, SpecValid, KeepsAll;
    UpdateConserves(st.d, op.cls, op.k, op.s);
    if LosesNothing(st, op) {
      forall order | OrderFits(st.d, op.cls, op.k, op.s, order)
        ensures |Updated(st.d, op.cls, op.k, op.s, order)| == |st.d|
      {
        var op' := Update(op.cls, op.k, op.s, order);
        assert SameCall(op, op') && Allowed(st, op');
      }
    }
  }

  ghost predicate CarefulRun(run: seq<State>, ops: seq<Op>) {
    IsRun(run, ops) && forall i :: 0 <= i < |ops| ==> Careful(run[i], ops[i])
  }

  /** One of the first `i` operations deleted the object with GUID `g`. */
  ghost predicate RemovedBefore(run: seq<State>, ops: seq<Op>, i: nat, g: bytes)
    requires |run| == |ops| + 1 && i < |run|
  {
    exists j :: 0 <= j < i && Removes(run[j], ops[j], g)
  }

  lemma RemovedIsIssued(run: seq<State>, ops: seq<Op>, i: nat, g: bytes)
    requires IsRun(run, ops) && i < |run| && RemovedBefore(run, ops, i, g)
    ensures Issued(g, run[i].serial)
  {
    var j :| 0 <= j < i && Removes(run[j], ops[j], g);
    HistoryKeepsValid(run, ops, j);
    assert ItemValid(ops[j].k, run[j].d[ops[j].k], run[j].serial);
    IssuedForGood(run, ops, j, i, g);
  }

  /**
   Conservation over whole runs: when every operation is careful, the GUIDs stored are exactly those issued
   and not deleted. No sequence of renames, moves and edits loses or duplicates an object.
   */
  lemma {:induction false} NothingIsLost(run: seq<State>, ops: seq<Op>, i: nat, g: bytes)
    requires CarefulRun(run, ops) && i < |run|
    ensures Stored(run[i].d, g) <==> Issued(g, run[i].serial) && !RemovedBefore(run, ops, i, g)
  {
    hide Allowed, Careful, After, Guid;
    if i > 0 {
      var (st, op) := (run[i - 1], ops[i - 1]);
      NothingIsLost(run, ops, i - 1, g);
      HistoryKeepsValid(run, ops, i - 1);
      CarefulStep(st, op, g);
      IssuedNext(st, op, g);
      if RemovedBefore(run, ops, i - 1, g) { RemovedIsIssued(run, ops, i - 1, g); SerialGrows(st, op, g); }
      if Removes(st, op, g) { assert Stored(st.d, g); }
      hide Issued, Stored, Directory.Valid;
      RemovedNext(run, ops, i, g);
    }
  }

  lemma RemovedNext(run: seq<State>, ops: seq<Op>, i: nat, g: bytes)
    requires |run| == |ops| + 1 && 0 < i < |run|
    ensures RemovedBefore(run, ops, i, g) <==> RemovedBefore(run, ops, i - 1, g) || Removes(run[i - 1], ops[i - 1], g)
  {}

  lemma IssuedNext(st: State, op: Op, g: bytes)
    requires Allowed(st, op)
    ensures Issued(g, After(st, op).serial) <==> Issued(g, st.serial) || (op.Create? && g == Guid(st.serial + 1))
  {
    hide Guid;
    if op.Create? { assert Issued(Guid(st.serial + 1), st.serial + 1) by { assert 1 <= st.serial + 1; } }
    if Issued(g, st.serial) { SerialGrows(st, op, g); }
  }

  // ----- the names a run stores, and the orphans a delete leaves -----

  lemma AfterKeepsMade(st: State, op: Op)
    requires Made(st.d) && Allowed(st, op)
    ensures Made(After(st, op).d)
  {
    hide MadeName, NameOf, SpecValid, Occupied, OrderFits, HasChildren, Updated, Granted, Without, Edited;
    match op
    case Create(cls, s) => NameOfIsMade(cls, s);
    case Update(cls, k, s, order) => UpdateKeepsMade(st.d, cls, k, s, order);
    case _ =>
  }

  /** In every run every stored name is `type=name,container`, also after moves. */
  lemma {:induction false} HistoryKeepsMade(run: seq<State>, ops: seq<Op>, i: nat)
    requires IsRun(run, ops) && i < |run|
    ensures Made(run[i].d)
  {
    hide Allowed, After;
    if i > 0 {
      HistoryKeepsMade(run, ops, i - 1);
      AfterKeepsMade(run[i - 1], ops[i - 1]);
    }
  }

  /**
   In every run: `Delete` of a stored, readable unit is allowed and leaves an orphan if and only if some stored
   container names the unit or something below it, and none ends in the unit's own text (but of names that equal
   the unit's, which the count passes over).
   */
  lemma DeleteLeavesOrphanIff(run: seq<State>, ops: seq<Op>, i: nat, dn: bytes)
    requires IsRun(run, ops) && i < |run| && dn in run[i].d && Parse(dn).Some?
    ensures var d := run[i].d;
            LeavesOrphan(d, dn) <==>
            && (forall k, c :: StoredIn(d, k, c) && AtOrBelow(c, dn) ==> EqDN(k, dn))
            && exists k, c :: StoredIn(d, k, c) && Within(c, dn)
  {
    hide IsRun, PlainStart, Parse, StoredIn, AtOrBelow, EqDN, Within, LeavesOrphan, Made;
    HistoryKeepsMade(run, ops, i);
    StoredReads(run[i].d, dn);
    LeavesOrphanIff(run[i].d, dn);
  }

  /** Every allowed delete of it is safe as long as containers below it are spelled with its own text. */
  lemma DeleteIsSafeIff(run: seq<State>, ops: seq<Op>, i: nat, dn: bytes)
    requires IsRun(run, ops) && i < |run| && dn in run[i].d && Parse(dn).Some?
    ensures var d := run[i].d;
            FindsAllBelow(d, dn) <==> forall k, c :: StoredIn(d, k, c) && Within(c, dn) ==> AtOrBelow(c, dn)
    ensures FindsAllBelow(run[i].d, dn) ==> !LeavesOrphan(run[i].d, dn)
  {
    hide IsRun, PlainStart, Parse, StoredIn, AtOrBelow, Within, LeavesOrphan, FindsAllBelow, Made;
    HistoryKeepsMade(run, ops, i);
    StoredReads(run[i].d, dn);
    FindsAllBelowIff(run[i].d, dn);
  }

  // ----- a blank container -----

  /** Two creates in a blank container are both allowed, and the second replaces the first. */
  lemma BlankContainerCollides(cls: Class, s: Spec)
    requires SpecValid(s) && Trim(s.container) == []
    ensures Allowed(EMPTY, Create(cls, s))
    ensures var st := After(EMPTY, Create(cls, s));
            Allowed(st, Create(cls, s)) && |After(st, Create(cls, s)).d| == 1 && After(st, Create(cls, s)).serial == 2
  {
    hide SpecValid, NameOf, NewItem, Trim, Guid, EqDN;
    CreateReplacesNothing(EMPTY.d, cls, s);
    var k := NameOf(cls, s);
    var d := After(After(EMPTY, Create(cls, s)), Create(cls, s)).d;
    assert d.Keys == {k} && |d| == |d.Keys|;
  }

  /** For example two units "x" in the container " ". */
  lemma BlankContainerExample()
    ensures var op := Create(OU, Spec("x", " ", None, None));
            Allowed(EMPTY, op) && Allowed(After(EMPTY, op), op) && |After(After(EMPTY, op), op).d| == 1
  {
    hide Allowed, After;
    BlankIsBlank();
    BlankContainerCollides(OU, Spec("x", " ", None, None));
  }

  lemma BlankIsBlank()
    ensures Trim(" ") == [] && SpecValid(Spec("x", " ", None, None))
  {
    TrimSpaceInFront([]);
    assert [' '] + [] == " ";
    assert Trim([]) == [];
  }
}
