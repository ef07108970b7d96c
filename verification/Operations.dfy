/** What the directory operations do to its contents. */
module Operations {
  import opened Wrappers
  import opened Bytes
  import opened Grammar
  import opened RoundTrip
  import opened Compare
  import opened Components
  import opened Scope
  import opened Directory
  import opened Moves
  import opened Orbits

  datatype ErrorKind = Constraint | AlreadyExists | NotFound | TooManyResults

  datatype Result<+T> = Ok(value: T) | Err(kind: ErrorKind)

  /** The desired state of an object; None leaves an attribute alone. */
  datatype Spec = Spec(name: bytes, container: bytes, description: Option<bytes>, protected: Option<bool>)

  /** `ValidateName` and `ValidateContainer`. */
  predicate SpecValid(s: Spec) { s.name != [] && s.container != [] && Parse(s.container).Some? }

  function TypeOf(cls: Class): bytes { if cls == OU then "OU" else "CN" }

  lemma TypeIsWellFormed(cls: Class)
    ensures WellFormedType(TypeOf(cls))
  {
    PlainIsWellFormed(TypeOf(cls));
  }

  function NameOf(cls: Class, s: Spec): bytes { ChildName(TypeOf(cls), s.name, s.container) }

  function Apply<T>(change: Option<T>, value: T): T { if change.Some? then change.value else value }

  function NewItem(cls: Class, s: Spec, guid: bytes): Item {
    var dn := NameOf(cls, s);
    Item(guid, cls, dn,
         Model(guid, dn, s.name, s.container, Apply(s.description, []), Apply(s.protected, false)), {}, [])
  }

  // ----- create -----

  /** Some stored name equals `dn`: `Create` refuses. */
  predicate Occupied(d: Dir, dn: bytes) { exists k :: k in d && EqDN(k, dn) }

  lemma CreateKeepsValid(d: Dir, serial: nat, cls: Class, s: Spec)
    requires Valid(d, serial)
    ensures Valid(d[NameOf(cls, s) := NewItem(cls, s, Guid(serial + 1))], serial + 1)
  {
    hide NameOf, Guid, EqDN;
    forall k | k in d
      ensures d[k].guid != Guid(serial + 1) && ItemValid(k, d[k], serial + 1)
    {
      NextGuidIsNew(d[k].guid, serial);
    }
    assert Issued(Guid(serial + 1), serial + 1);
  }

  lemma EqDNSelf(k: bytes)
    ensures EqDN(k, k) <==> Parse(k).Some?
  {
    hide Parse;
  }

  /**
   A created object replaces none, provided its container is not blank. A blank one passes validation, and
   the name below it cannot be read, so `Create` never finds it taken.
   */
  lemma CreateReplacesNothing(d: Dir, cls: Class, s: Spec)
    requires SpecValid(s) && !Occupied(d, NameOf(cls, s))
    ensures Trim(s.container) != [] ==> NameOf(cls, s) !in d
    ensures Trim(s.container) == [] ==> forall d': Dir :: !Occupied(d', NameOf(cls, s))
  {
    TypeIsWellFormed(cls);
    ReadChild(TypeOf(cls), s.name, s.container);
    EqDNSelf(NameOf(cls, s));
    if Trim(s.container) == [] { BlankIsNotRead(s.container); }
    hide ReadRDNs, Trim, ChildName, TypeOf;
  }

  /**
   A created object reads back as asked for: whatever bytes its name holds, its distinguished name reads as
   that name directly under the container, and it starts with no members and no access entries.
   */
  lemma CreatedAsAsked(cls: Class, s: Spec, guid: bytes)
    requires SpecValid(s) && Trim(s.container) != []
    ensures var it := NewItem(cls, s, guid);
            && Parse(it.model.dn) == Some([[Attr(if cls == OU then "OU" else "CN", s.name)]] + Parse(s.container).value)
            && it.cls == cls && it.dn == it.model.dn && it.guid == it.model.guid == guid
            && s.name == it.model.name && s.container == it.model.container
            && (s.description.Some? ==> s.description.value == it.model.description)
            && (s.protected.Some? ==> s.protected.value == it.model.protected)
            && (s.description.None? ==> it.model.description == []) && (s.protected.None? ==> !it.model.protected)
            && it.members == {} && it.dacl == []
  {
    hide ReadRDNs, Trim, ChildName, WellFormedType;
    TypeIsWellFormed(cls);
    NoReparenting(Lower, TypeOf(cls), s.name, s.container);
  }

  // ----- update -----

  function UpdateFields(it: Item, s: Spec): Item {
    it.(model := it.model.(description := Apply(s.description, it.model.description),
                           protected := Apply(s.protected, it.model.protected)))
  }

  /** The spec renames or moves the object. */
  predicate NeedsMove(it: Item, s: Spec) {
    s.name != it.model.name || !EqDN(s.container, it.model.container)
  }

  /** `order` is what the range in `moveLocked` produces, if the update of `k` moves anything. */
  predicate OrderFits(d: Dir, cls: Class, k: bytes, s: Spec, order: seq<bytes>)
    requires k in d
  {
    NeedsMove(d[k], s) ==>
      Complete(Begin(Start(d[k := UpdateFields(d[k], s)], k, NameOf(cls, s))), k, NameOf(cls, s), order)
  }

  /** The key of the object after the update. */
  function UpdatedKey(d: Dir, cls: Class, k: bytes, s: Spec): bytes
    requires k in d
  {
    if NeedsMove(d[k], s) then NameOf(cls, s) else k
  }

  function MoveModel(it: Item, dn: bytes, s: Spec): Item {
    it.(model := it.model.(dn := dn, name := s.name, container := s.container))
  }

  function Updated(d: Dir, cls: Class, k: bytes, s: Spec, order: seq<bytes>): Dir
    requires k in d && OrderFits(d, cls, k, s, order)
  {
    var d1 := d[k := UpdateFields(d[k], s)];
    if !NeedsMove(d[k], s) then d1
    else
      var newDN := NameOf(cls, s);
      var d2 := Run(Begin(Start(d1, k, newDN)), k, newDN, order).d;
      if newDN in d2 then d2[newDN := MoveModel(d2[newDN], newDN, s)] else d2
  }

  lemma FieldsKeepValid(d: Dir, serial: nat, k: bytes, s: Spec)
    requires Valid(d, serial) && k in d
    ensures Valid(d[k := UpdateFields(d[k], s)], serial)
  {
    hide Issued, AclValid;
  }

  lemma MoveModelRestores(d: Dir, serial: nat, newDN: bytes, s: Spec)
    requires ValidBut(d, serial, {newDN}) && newDN in d
    ensures Valid(d[newDN := MoveModel(d[newDN], newDN, s)], serial)
  {
    hide Issued, AclValid;
  }

  /**
   An update keeps the invariant for every order of the range, even when it lands on an occupied name, and
   never replaces its object: GUID, class, members and access list stay, under the new name.
   */
  lemma UpdateKeepsValid(d: Dir, serial: nat, cls: Class, k: bytes, s: Spec, order: seq<bytes>)
    requires Valid(d, serial) && k in d && OrderFits(d, cls, k, s, order)
    ensures var d' := Updated(d, cls, k, s, order);
            var key := UpdatedKey(d, cls, k, s);
            && Valid(d', serial) && key in d'
            && d'[key].(dn := d[k].dn, model := d[k].model) == d[k]
            && d'[key].model == d[k].model.(dn := key,
                 name := if NeedsMove(d[k], s) then s.name else d[k].model.name,
                 container := if NeedsMove(d[k], s) then s.container else d[k].model.container,
                 description := Apply(s.description, d[k].model.description),
                 protected := Apply(s.protected, d[k].model.protected))
  {
    hide NameOf, Follows, ItemValid, Issued, AclValid;
    var d1 := d[k := UpdateFields(d[k], s)];
    FieldsKeepValid(d, serial, k, s);
    assert ItemValid(k, d[k], serial) && d[k].dn == k && d[k].model.dn == k by { OwnName(d, serial, k); }
    if NeedsMove(d[k], s) {
      var newDN := NameOf(cls, s);
      var d2 := Start(d1, k, newDN);
      StartKeepsValid(d1, serial, k, newDN);
      RunKeepsValid(Begin(d2), serial, k, newDN, order);
      var d3 := Run(Begin(d2), k, newDN, order).d;
      hide Run, Legal, ValidBut, NeedsMove;
      MoveModelRestores(d3, serial, newDN, s);
    }
  }

  lemma OwnName(d: Dir, serial: nat, k: bytes)
    requires Valid(d, serial) && k in d
    ensures ItemValid(k, d[k], serial) && d[k].dn == k && d[k].model.dn == k && d[k].model.guid == d[k].guid
  {}

  /** The moved object is at its new name when the loop ends, before its model is rewritten. */
  lemma UpdatedPresent(d: Dir, cls: Class, k: bytes, s: Spec, order: seq<bytes>)
    requires k in d && OrderFits(d, cls, k, s, order) && NeedsMove(d[k], s)
    ensures var newDN := NameOf(cls, s);
            newDN in Run(Begin(Start(d[k := UpdateFields(d[k], s)], k, newDN)), k, newDN, order).d
  {
    hide NameOf, Legal, Visit;
    RunKeepsTarget(Begin(Start(d[k := UpdateFields(d[k], s)], k, NameOf(cls, s))), k, NameOf(cls, s), order);
  }

  lemma {:induction false} RunKeepsTarget(r: Range, from: bytes, newDN: bytes, order: seq<bytes>)
    requires RangeOk(r) && Legal(r, from, newDN, order) && newDN in r.d
    ensures newDN in Run(r, from, newDN, order).d
    decreases |order|
  {
    if order != [] {
      assert newDN in Visit(r.d, from, newDN, order[0]);
      RunKeepsTarget(Produce(r, from, newDN, order[0]), from, newDN, order[1..]);
    }
  }

  /** The update renames or moves its object without losing any, or does not move it. */
  ghost predicate KeepsAll(d: Dir, cls: Class, k: bytes, s: Spec)
    requires k in d
  {
    NeedsMove(d[k], s) ==> Lossless(d.Keys, k, NameOf(cls, s))
  }

  predicate SameObject(it: Item, it': Item) {
    it.guid == it'.guid && it.cls == it'.cls && it.members == it'.members && it.dacl == it'.dacl
  }

  /** `d'` holds the object with the GUID, class, members and access list of `it`. */
  ghost predicate Survives(it: Item, d': Dir) { exists x :: x in d' && SameObject(it, d'[x]) }

  /** Such an update keeps every object with its GUID, class, members and access list, whatever the order. */
  lemma UpdateKeepsAll(d: Dir, cls: Class, k: bytes, s: Spec, order: seq<bytes>)
    requires k in d && OrderFits(d, cls, k, s, order) && KeepsAll(d, cls, k, s)
    ensures var d' := Updated(d, cls, k, s, order);
            |d'| == |d| && forall l :: l in d ==> Survives(d[l], d')
  {
    hide NameOf, Lossless, Legal, Run, Start, NeedsMove, Survives, UpdateFields;
    FieldsSurvive(d, k, s);
    if NeedsMove(d[k], s) {
      MoveKeepsAll(d, cls, k, s, order);
    } else {
      SameSize(d[k := UpdateFields(d[k], s)], d);
    }
  }

  lemma MoveKeepsAll(d: Dir, cls: Class, k: bytes, s: Spec, order: seq<bytes>)
    requires k in d && OrderFits(d, cls, k, s, order) && NeedsMove(d[k], s) && Lossless(d.Keys, k, NameOf(cls, s))
    ensures var d' := Updated(d, cls, k, s, order);
            |d'| == |d| && forall l :: l in d ==> Survives(d[l], d')
  {
    hide NameOf, OrbitsApart, Legal, Run, Start, NeedsMove, Survives, UpdateFields, Carried, SameObject, MoveModel;
    var (d1, newDN) := (d[k := UpdateFields(d[k], s)], NameOf(cls, s));
    var d2 := Run(Begin(Start(d1, k, newDN)), k, newDN, order).d;
    var d' := Updated(d, cls, k, s, order);
    assert d1.Keys == d.Keys;
    FieldsSurvive(d, k, s);
    MoveCarries(d1, k, newDN, order);
    UpdatedPresent(d, cls, k, s, order);
    assert d' == d2[newDN := MoveModel(d2[newDN], newDN, s)];
    hide Updated, OrderFits;
    ModelSurvives(d2, newDN, s);
    SameSize(d1, d);
    SameSize(d', d2);
    forall l | l in d ensures Survives(d[l], d') {
      CarriedSurvives(d1, k, newDN, d2, l);
      SurvivesOn(d[l], d1[l], d2);
      SurvivesIn(d[l], d2, d');
    }
  }

  lemma SurvivesOn(it: Item, it': Item, d: Dir)
    requires SameObject(it, it') && Survives(it', d)
    ensures Survives(it, d)
  {}

  lemma SurvivesIn(it: Item, d: Dir, e: Dir)
    requires Survives(it, d) && forall x :: x in d ==> Survives(d[x], e)
    ensures Survives(it, e)
  {
    var x :| x in d && SameObject(it, d[x]);
    SurvivesOn(it, d[x], e);
  }

  lemma FieldsSurvive(d: Dir, k: bytes, s: Spec)
    requires k in d
    ensures var e := d[k := UpdateFields(d[k], s)];
            forall l :: l in d ==> SameObject(d[l], e[l]) && Survives(d[l], e)
  {
    var e := d[k := UpdateFields(d[k], s)];
    forall l | l in d ensures SameObject(d[l], e[l]) && Survives(d[l], e) { assert l in e; }
  }

  lemma ModelSurvives(d: Dir, k: bytes, s: Spec)
    requires k in d
    ensures forall l :: l in d ==> Survives(d[l], d[k := MoveModel(d[k], k, s)])
  {
    var e := d[k := MoveModel(d[k], k, s)];
    forall l | l in d ensures Survives(d[l], e) { assert l in e && SameObject(d[l], e[l]); }
  }

  lemma CarriedSurvives(d: Dir, from: bytes, newDN: bytes, d': Dir, l: bytes)
    requires from in d && l in d && Carried(d', Start(d, from, newDN), from, newDN)
    requires newDN !in d || newDN == from
    ensures Survives(d[l], d')
  {
    hide OneEach, Spot, Kept;
    var k := if l == from then newDN else l;
    var d1 := Start(d, from, newDN);
    assert k in d1 && SameObject(d[l], d1[k]);
    hide Start;
    var x :| Spot(d', d1, from, newDN, k, x);
    SpotSays(d', d1, from, newDN, k, x);
    KeptIsSame(d'[x], d1[k]);
  }

  lemma KeptIsSame(it: Item, was: Item)
    requires Kept(it, was)
    ensures SameObject(was, it)
  {}

  /** However the range in `moveLocked` goes, the update ends with as many objects as it found. */
  ghost predicate UpdateNeverLoses(d: Dir, cls: Class, k: bytes, s: Spec)
    requires k in d
  {
    forall order :: OrderFits(d, cls, k, s, order) ==> |Updated(d, cls, k, s, order)| == |d|
  }

  /** Exactly when an update loses no object. */
  lemma UpdateConserves(d: Dir, cls: Class, k: bytes, s: Spec)
    requires k in d
    ensures UpdateNeverLoses(d, cls, k, s) <==> KeepsAll(d, cls, k, s)
  {
    hide NameOf, Legal, Run, Start, NeedsMove, Lossless, Survives;
    if KeepsAll(d, cls, k, s) {
      forall order | OrderFits(d, cls, k, s, order) ensures |Updated(d, cls, k, s, order)| == |d| {
        UpdateKeepsAll(d, cls, k, s, order);
      }
    } else {
      var (d1, newDN) := (d[k := UpdateFields(d[k], s)], NameOf(cls, s));
      SameSize(d1, d);
      assert d1.Keys == d.Keys;
      var order := SomeLoss(d1, k, newDN);
      UpdatedPresent(d, cls, k, s, order);
      var d2 := Run(Begin(Start(d1, k, newDN)), k, newDN, order).d;
      SameSize(d2[newDN := MoveModel(d2[newDN], newDN, s)], d2);
    }
  }

  /** A complete order for every update there could be; `FakeDirectory.Store.Update` can always be called. */
  ghost function SomeOrder(d: Dir, cls: Class, k: bytes, s: Spec): (order: seq<bytes>)
    requires k in d
    ensures OrderFits(d, cls, k, s, order)
  {
    SomeOrderFits(d, cls, k, s);
    var order :| OrderFits(d, cls, k, s, order);
    order
  }

  lemma SomeOrderFits(d: Dir, cls: Class, k: bytes, s: Spec)
    requires k in d
    ensures exists order :: OrderFits(d, cls, k, s, order)
  {
    hide NameOf, Legal, Run, Start, NeedsMove;
    var order := SomeOrderCompletes(Begin(Start(d[k := UpdateFields(d[k], s)], k, NameOf(cls, s))), k, NameOf(cls, s));
    assert OrderFits(d, cls, k, s, order);
  }

  lemma EveryUpdateHasOrders(d: Dir, cls: Class, s: Spec) returns (orders: bytes -> seq<bytes>)
    ensures forall k :: k in d ==> OrderFits(d, cls, k, s, orders(k))
  {
    hide OrderFits;
    orders := k => if k in d then SomeOrder(d, cls, k, s) else [];
  }

  /** To a free place without twins every object goes where the renaming of names says. */
  lemma FreeUpdateConserves(d: Dir, cls: Class, k: bytes, s: Spec, order: seq<bytes>)
    requires k in d && OrderFits(d, cls, k, s, order) && NeedsMove(d[k], s)
    requires FreeMove(d, k, NameOf(cls, s)) && NoTwins(d, k)
    ensures var d' := Updated(d, cls, k, s, order);
            && |d'| == |d|
            && forall l :: l in d ==>
                 FinalKey(l, k, NameOf(cls, s)) in d' && d'[FinalKey(l, k, NameOf(cls, s))].guid == d[l].guid
  {
    hide NameOf, NeedsMove, AtOrBelow, Below, Twins, Run, Legal, FinalKey, Settled;
    var d1 := d[k := UpdateFields(d[k], s)];
    var newDN := NameOf(cls, s);
    assert d1.Keys == d.Keys;
    SameSize(d1, d);
    FreeMoveByKeys(d, d1, k, newDN);
    FreeMoveConserves(d1, k, newDN, order);
    hide Start, FreeMove, NoTwins;
    var d2 := Run(Begin(Start(d1, k, newDN)), k, newDN, order).d;
    var d' := Updated(d, cls, k, s, order);
    SameSize(d', d2);
    forall l | l in d
      ensures FinalKey(l, k, newDN) in d' && d'[FinalKey(l, k, newDN)].guid == d[l].guid
    {
      FinalGuid(d1, k, newDN, l);
    }
  }

  lemma FreeMoveByKeys(d: Dir, e: Dir, k: bytes, newDN: bytes)
    requires d.Keys == e.Keys && FreeMove(d, k, newDN) && NoTwins(d, k)
    ensures FreeMove(e, k, newDN) && NoTwins(e, k)
  {
    hide AtOrBelow, Below, Twins;
    assert forall l :: l in e ==> l in d;
  }

  lemma FinalGuid(d: Dir, from: bytes, newDN: bytes, k: bytes)
    requires k in d
    ensures FinalItem(d, from, newDN, k).guid == d[k].guid
  {
    hide Below;
  }

  lemma SameSize(d: Dir, e: Dir)
    requires d.Keys == e.Keys
    ensures |d| == |e|
  {
    assert |d| == |d.Keys| && |e| == |e.Keys|;
  }

  /** The object with GUID `g` is stored under `key`, with model `m`. */
  predicate StoredAt(d: Dir, g: bytes, key: bytes, m: Model) { key in d && d[key].guid == g && d[key].model == m }

  /**
   What an update means for its object, found by its GUID: it has the name of the spec and a container that names the
   same as the spec's. A new name or container takes it to the name they make; otherwise it stays where it is.
   */
  lemma UpdateMeetsSpec(d: Dir, serial: nat, cls: Class, k: bytes, s: Spec, order: seq<bytes>, key: bytes, m: Model)
    requires Valid(d, serial) && SpecValid(s) && k in d && OrderFits(d, cls, k, s, order)
    requires StoredAt(Updated(d, cls, k, s, order), d[k].guid, key, m)
    ensures m.name == s.name && EqDN(m.container, s.container)
    ensures s.name != d[k].model.name || !EqDN(s.container, d[k].model.container) ==>
              key == (if cls == OU then "OU" else "CN") + "=" + Escape(s.name) + "," + s.container
              && m.container == s.container
    ensures s.name == d[k].model.name && EqDN(s.container, d[k].model.container) ==>
              && key == k && m.container == d[k].model.container
              && Updated(d, cls, k, s, order) == d[k := d[k].(model := m)]
    ensures m.dn == key && m.guid == d[k].guid
    ensures s.description.Some? ==> m.description == s.description.value
    ensures s.description.None? ==> m.description == d[k].model.description
    ensures s.protected.Some? ==> m.protected == s.protected.value
    ensures s.protected.None? ==> m.protected == d[k].model.protected
  {
    hide Parse, Escape, SameDN, OrderFits, Updated, Issued, AclValid;
    var d' := Updated(d, cls, k, s, order);
    UpdateKeepsValid(d, serial, cls, k, s, order);
    var key' := UpdatedKey(d, cls, k, s);
    assert d'[key'].guid == d[k].guid;
    OwnName(d', serial, key');
    OwnName(d, serial, k);
    assert key == key' by { OneKey(d', serial, key, key'); }
    EqDNSelf(s.container);
    EqDNSymmetric(s.container, d[k].model.container);
    if !NeedsMove(d[k], s) { UpdatedInPlace(d, cls, k, s, order); }
  }

  lemma UpdatedInPlace(d: Dir, cls: Class, k: bytes, s: Spec, order: seq<bytes>)
    requires k in d && OrderFits(d, cls, k, s, order) && !NeedsMove(d[k], s)
    ensures var d' := Updated(d, cls, k, s, order);
            d' == d[k := d[k].(model := d'[k].model)]
  {
    hide NeedsMove;
  }

  /** Where a name goes when `from` becomes `newDN`: its last bytes are replaced if they are `from` after a comma. */
  function NewPlace(l: bytes, from: bytes, newDN: bytes): bytes {
    if |l| > |from| && l[|l| - |from| - 1] == ',' && Lower(l[|l| - |from|..]) == Lower(from)
    then l[..|l| - |from|] + newDN else l
  }

  lemma NewPlaceIsRenamed(l: bytes, from: bytes, newDN: bytes)
    requires l != newDN
    ensures Renamed(l, from, newDN) == NewPlace(l, from, newDN)
  {
    BelowByText(l, from);
  }

  /**
   What an update that moves its object, losing nothing, means for every other object, when no object goes a second
   step: in every order each ends at its new place, unchanged but for its name there.
   */
  lemma UpdateCarriesOthers(d: Dir, serial: nat, cls: Class, k: bytes, s: Spec, order: seq<bytes>, l: bytes)
    requires Valid(d, serial) && k in d && OrderFits(d, cls, k, s, order)
    requires s.name != d[k].model.name || !EqDN(s.container, d[k].model.container)
    requires Lossless(d.Keys, k, NameOf(cls, s)) && Settling(d.Keys - {k} + {NameOf(cls, s)}, k, NameOf(cls, s))
    requires l in d && l != k
    ensures var d', x := Updated(d, cls, k, s, order), NewPlace(l, k, NameOf(cls, s));
            x in d' && d'[x] == d[l].(dn := x, model := d[l].model.(dn := x))
  {
    hide NameOf, EqDN, Valid, Legal, Run, Start, Lossless, Settling, Renamed, Updated, NewPlace, SettledItem;
    assert NeedsMove(d[k], s);
    hide NeedsMove;
    var d1, newDN := d[k := UpdateFields(d[k], s)], NameOf(cls, s);
    FieldsKeepValid(d, serial, k, s);
    assert d1.Keys == d.Keys;
    StartKeys(d1, k, newDN);
    SettledResult(d1, serial, k, newDN, order);
    FreeTarget(d, k, newDN, l);
    NewPlaceIsRenamed(l, k, newDN);
    StartKeepsOther(d, k, s, newDN, l);
    SettledOther(Start(d1, k, newDN), k, newDN, l);
    UpdatedOther(d, cls, k, s, order, NewPlace(l, k, newDN));
  }

  /** Where a lossless move puts its object no other one is or comes. */
  lemma FreeTarget(d: Dir, k: bytes, newDN: bytes, l: bytes)
    requires k in d && l in d && l != k && Lossless(d.Keys, k, newDN)
    ensures l != newDN && Renamed(l, k, newDN) != newDN
  {
    hide Renamed;
    OrbitStart(newDN, k, newDN);
    assert At(l, k, newDN, 1) == Renamed(l, k, newDN);
    assert OnOrbit(l, k, newDN, Renamed(l, k, newDN));
  }

  lemma StartKeepsOther(d: Dir, k: bytes, s: Spec, newDN: bytes, l: bytes)
    requires k in d && l in d && l != k && l != newDN
    ensures var d1 := Start(d[k := UpdateFields(d[k], s)], k, newDN);
            l in d1 && d1[l] == d[l]
  {}

  lemma SettledOther(d: Dir, from: bytes, newDN: bytes, l: bytes)
    requires l in d && l != newDN
    ensures var x := Renamed(l, from, newDN);
            SettledItem(d, from, newDN, l) == d[l].(dn := x, model := d[l].model.(dn := x))
  {
    hide Renamed;
  }

  lemma UpdatedOther(d: Dir, cls: Class, k: bytes, s: Spec, order: seq<bytes>, x: bytes)
    requires k in d && OrderFits(d, cls, k, s, order) && NeedsMove(d[k], s) && x != NameOf(cls, s)
    requires x in Run(Begin(Start(d[k := UpdateFields(d[k], s)], k, NameOf(cls, s))), k, NameOf(cls, s), order).d
    ensures var d1 := d[k := UpdateFields(d[k], s)];
            var d2 := Run(Begin(Start(d1, k, NameOf(cls, s))), k, NameOf(cls, s), order).d;
            var d' := Updated(d, cls, k, s, order);
            x in d' && d'[x] == d2[x]
  {
    hide NameOf, Legal, Run, Start, NeedsMove;
  }

  lemma OneKey(d: Dir, serial: nat, k: bytes, l: bytes)
    requires Valid(d, serial) && k in d && l in d && d[k].guid == d[l].guid
    ensures k == l
  {
    hide ItemValid;
  }

  lemma EqDNSymmetric(a: bytes, b: bytes)
    ensures EqDN(a, b) <==> EqDN(b, a)
  {
    hide Parse, SameDN;
    if Parse(a).Some? && Parse(b).Some? { SameDNIsEquivalence(Lower, Parse(a).value, Parse(b).value, Parse(a).value); }
  }

  /** `d'` and `m` are what `Update` leaves and returns when the object it finds is one of those `id` names. */
  ghost predicate UpdateResult(d: Dir, cls: Class, id: Identity, s: Spec, orders: bytes -> seq<bytes>,
                               d': Dir, m: Model)
  {
    exists k ::
      && Matches(d, id, k) && d[k].cls == cls && OrderFits(d, cls, k, s, orders(k))
      && d' == Updated(d, cls, k, s, orders(k))
      && UpdatedKey(d, cls, k, s) in d' && m == d'[UpdatedKey(d, cls, k, s)].model
  }

  lemma UpdateResultAt(d: Dir, cls: Class, id: Identity, s: Spec, orders: bytes -> seq<bytes>, k: bytes)
    requires Matches(d, id, k) && d[k].cls == cls && OrderFits(d, cls, k, s, orders(k))
    requires UpdatedKey(d, cls, k, s) in Updated(d, cls, k, s, orders(k))
    ensures var d' := Updated(d, cls, k, s, orders(k));
            UpdateResult(d, cls, id, s, orders, d', d'[UpdatedKey(d, cls, k, s)].model)
  {
    hide Matches, OrderFits, Updated, UpdatedKey;
  }

  /** The model that `Update` returns meets the spec. */
  lemma UpdateResultMeetsSpec(d: Dir, serial: nat, cls: Class, id: Identity, s: Spec, orders: bytes -> seq<bytes>,
                              d': Dir, m: Model)
    requires Valid(d, serial) && SpecValid(s) && UpdateResult(d, cls, id, s, orders, d', m)
    ensures m.name == s.name && EqDN(m.container, s.container)
    ensures exists k, key :: Matches(d, id, k) && d[k].cls == cls && StoredAt(d', d[k].guid, key, m)
              && if s.name != d[k].model.name || !EqDN(s.container, d[k].model.container)
                 then key == NameOf(cls, s) && m.container == s.container
                 else key == k && m.container == d[k].model.container
  {
    hide OrderFits, EqDN, SpecValid, Valid, Updated, UpdatedKey, NameOf;
    var k :| Matches(d, id, k) && d[k].cls == cls && OrderFits(d, cls, k, s, orders(k))
      && d' == Updated(d, cls, k, s, orders(k))
      && UpdatedKey(d, cls, k, s) in d' && m == d'[UpdatedKey(d, cls, k, s)].model;
    var key := UpdatedKey(d, cls, k, s);
    UpdatedAt(d, serial, cls, k, s, orders(k));
    assert StoredAt(d', d[k].guid, key, m);
    UpdateMeetsSpec(d, serial, cls, k, s, orders(k), key, m);
    NameText(cls, s);
  }

  lemma NameText(cls: Class, s: Spec)
    ensures NameOf(cls, s) == (if cls == OU then "OU" else "CN") + "=" + Escape(s.name) + "," + s.container
  {
    hide Escape;
  }

  lemma UpdatedAt(d: Dir, serial: nat, cls: Class, k: bytes, s: Spec, order: seq<bytes>)
    requires Valid(d, serial) && k in d && OrderFits(d, cls, k, s, order)
    ensures var (d', key) := (Updated(d, cls, k, s, order), UpdatedKey(d, cls, k, s));
            key in d' && d'[key].guid == d[k].guid
  {
    hide Valid, OrderFits, Updated, UpdatedKey, NeedsMove;
    UpdateKeepsValid(d, serial, cls, k, s, order);
  }

  // ----- delete -----

  /** The keys `childrenLocked` counts: everything below `dn`, at any depth. */
  predicate CountedBelow(k: bytes, dn: bytes) { !EqDN(k, dn) && Below(k, dn) }

  /** The object under `k` is an organizational unit with something below it: `Delete` refuses. */
  predicate HasChildren(d: Dir, k: bytes) {
    k in d && d[k].cls == OU && exists l :: l in d && CountedBelow(l, k)
  }

  /** `dn` names the parent of the object `k` names. */
  predicate ChildOf(k: bytes, dn: bytes) {
    && Parse(k).Some? && Parse(dn).Some?
    && Parent(Parse(k).value).Some? && SameDN(Lower, Parent(Parse(k).value).value, Parse(dn).value)
  }

  /** `dn` names an ancestor above that parent. */
  predicate DeeperBelow(k: bytes, dn: bytes) {
    && Parse(k).Some? && Parse(dn).Some?
    && Parent(Parse(k).value).Some? && Ancestor(Lower, Parse(dn).value, Parent(Parse(k).value).value)
  }

  /** A name in printed form, with one plain-typed attribute an RDN. */
  ghost predicate Printed(k: bytes) { exists e :: Simple(e) && k == Print(e) }

  lemma CountedIsChildOrDeeper(e: DN, b: DN)
    requires Simple(e) && Simple(b) && b != []
    ensures CountedBelow(Print(e), Print(b)) <==> ChildOf(Print(e), Print(b)) || DeeperBelow(Print(e), Print(b))
    ensures !(ChildOf(Print(e), Print(b)) && DeeperBelow(Print(e), Print(b)))
  {
    hide Print, Parse, Simple, EqDN, Below, SameRDN;
    SimpleIsWellFormed(e);
    SimpleIsWellFormed(b);
    hide WellFormed;
    ParsePrint(e);
    ParsePrint(b);
    EqDNOfPrinted(e, b);
    BelowIsAncestor(e, b);
    AncestorIsStrictOrder(Lower, b, e, e);
    SameDNIsEquivalence(Lower, e, b, e);
    if Parent(e).Some? {
      SameDNIsEquivalence(Lower, e[1..], b, e[1..]);
      if |b| < |e| { assert e[1..][|e| - 1 - |b|..] == e[|e| - |b|..]; }
    }
  }

  /** What `childrenLocked` counts under `dn`, and what its comment says it counts. */
  function CountedUnder(names: set<bytes>, dn: bytes): set<bytes> { set k | k in names && CountedBelow(k, dn) }

  function ChildrenOf(names: set<bytes>, dn: bytes): set<bytes> { set k | k in names && ChildOf(k, dn) }

  /** The count is that of the direct children exactly when no stored name lies deeper. */
  lemma ChildrenCountIff(names: set<bytes>, b: DN)
    requires Simple(b) && b != [] && forall k :: k in names ==> Printed(k)
    ensures |CountedUnder(names, Print(b))| == |ChildrenOf(names, Print(b))| <==>
            forall k :: k in names ==> !DeeperBelow(k, Print(b))
  {
    hide Print, Simple, CountedBelow, ChildOf, DeeperBelow;
    var dn := Print(b);
    forall k | k in names
      ensures CountedBelow(k, dn) <==> ChildOf(k, dn) || DeeperBelow(k, dn)
      ensures !(ChildOf(k, dn) && DeeperBelow(k, dn))
    {
      var e :| Simple(e) && k == Print(e);
      CountedIsChildOrDeeper(e, b);
    }
    var deeper := set k | k in names && DeeperBelow(k, dn);
    assert CountedUnder(names, dn) == ChildrenOf(names, dn) + deeper;
    assert ChildrenOf(names, dn) !! deeper;
    assert forall k :: k in deeper <==> k in names && DeeperBelow(k, dn);
    assert deeper == {} <==> |deeper| == 0;
    hide CountedUnder, ChildrenOf;
    assert |ChildrenOf(names, dn) + deeper| == |ChildrenOf(names, dn)| + |deeper|;
  }

  /** A unit without children that `Delete` refuses to delete, because of a stored name two levels below. */
  lemma GrandchildBlocksDelete(d: Dir)
    requires var b := [[Attr("OU", "a")], [Attr("DC", "c")]];
             && d.Keys == {Print(b), Print([[Attr("CN", "x")], [Attr("OU", "b")]] + b)}
             && d[Print(b)].cls == OU
    ensures var dn := Print([[Attr("OU", "a")], [Attr("DC", "c")]]);
            HasChildren(d, dn) && ChildrenOf(d.Keys, dn) == {}
  {
    hide Print, Parse, SameRDN, CountedBelow;
    var b := [[Attr("OU", "a")], [Attr("DC", "c")]];
    var e := [[Attr("CN", "x")], [Attr("OU", "b")]] + b;
    CountedIsChildOrDeeper(e, b);
    CountedIsChildOrDeeper(b, b);
    assert Parse(Print(b)) == Some(b) by { SimpleIsWellFormed(b); ParsePrint(b); }
    assert Parse(Print(e)) == Some(e) by { SimpleIsWellFormed(e); ParsePrint(e); }
    assert e[1..][1..] == b;
    SameDNIsEquivalence(Lower, b, b, b);
    assert DeeperBelow(Print(e), Print(b));
  }

  /** `d'` is what `Delete` leaves when the object it finds is one of those `id` names. */
  ghost predicate DeleteResult(d: Dir, cls: Class, id: Identity, d': Dir) {
    exists k :: Matches(d, id, k) && d[k].cls == cls && !HasChildren(d, k) && d' == d - {k}
  }

  lemma DeleteResultAt(d: Dir, cls: Class, id: Identity, k: bytes)
    requires Matches(d, id, k) && d[k].cls == cls && !HasChildren(d, k)
    ensures DeleteResult(d, cls, id, d - {k})
  {
    hide Matches, HasChildren;
  }

  lemma DeleteKeepsValid(d: Dir, serial: nat, k: bytes)
    requires Valid(d, serial)
    ensures Valid(d - {k}, serial)
  {
    hide ItemValid;
  }

  // ----- reading back -----

  /** What `Get` may return for `id`, given that lookup picks any object that answers to it. */
  ghost predicate GetResult(d: Dir, cls: Class, id: Identity, r: Result<Model>) {
    if r.Ok? then exists k :: Matches(d, id, k) && d[k].cls == cls && r.value == d[k].model
    else r == Err(NotFound) && ((forall k :: !Matches(d, id, k)) || exists k :: Matches(d, id, k) && d[k].cls != cls)
  }

  /** A GUID names one object: `Get` by the GUID of a stored object returns exactly that object's model. */
  lemma GetByGuid(d: Dir, serial: nat, k: bytes, cls: Class, r: Result<Model>)
    requires Valid(d, serial) && k in d && GetResult(d, cls, ByGUID(d[k].guid), r)
    ensures r == if d[k].cls == cls then Ok(d[k].model) else Err(NotFound)
  {
    hide ItemValid;
    assert Matches(d, ByGUID(d[k].guid), k);
  }

  /** A read by GUID finds exactly the object with that very text as its GUID, if it has the class. */
  lemma GetByGuidText(d: Dir, serial: nat, g: bytes, cls: Class, r: Result<Model>)
    requires Valid(d, serial) && GetResult(d, cls, ByGUID(g), r)
    ensures r.Ok? <==> exists k :: k in d && d[k].guid == g && d[k].cls == cls
    ensures r.Ok? ==> r.value.guid == g && r.value.dn in d && d[r.value.dn].model == r.value && d[r.value.dn].cls == cls
    ensures r.Err? ==> r == Err(NotFound)
  {
    hide Issued, AclValid;
    assert forall k :: k in d ==> ItemValid(k, d[k], serial) && d[k].model.dn == k;
    if k :| k in d && d[k].guid == g && d[k].cls == cls { assert Matches(d, ByGUID(g), k); }
  }

  /** A name identifies what it names, however it is spelled. */
  lemma MatchesByName(d: Dir, n: bytes, k: bytes)
    ensures Matches(d, ByDN(n), k) <==>
            k in d && Parse(k).Some? && Parse(n).Some? && SameDN(Lower, Parse(k).value, Parse(n).value)
  {
    hide Parse, SameDN;
  }

  /** A new name is taken exactly when some stored name names the same. */
  lemma OccupiedIff(d: Dir, cls: Class, s: Spec)
    requires SpecValid(s) && Trim(s.container) != []
    ensures var dn := [[Attr(if cls == OU then "OU" else "CN", s.name)]] + Parse(s.container).value;
            Occupied(d, NameOf(cls, s)) <==> exists k :: k in d && Parse(k).Some? && SameDN(Lower, Parse(k).value, dn)
  {
    hide Parse, SameDN, Trim;
    CreatedAsAsked(cls, s, []);
  }

  /**
   Right after an allowed create, a read by any spelling of the new name returns exactly the created model, and a read
   by a text that names no stored object, or no object at all, finds nothing.
   */
  lemma GetByName(d: Dir, cls: Class, s: Spec, g: bytes, n: bytes, r: Result<Model>)
    requires SpecValid(s) && Trim(s.container) != [] && !Occupied(d, NameOf(cls, s))
    requires GetResult(d[NameOf(cls, s) := NewItem(cls, s, g)], cls, ByDN(n), r)
    ensures var dn := [[Attr(if cls == OU then "OU" else "CN", s.name)]] + Parse(s.container).value;
            Parse(n).Some? && SameDN(Lower, Parse(n).value, dn) ==> r == Ok(NewItem(cls, s, g).model)
    ensures Parse(n).None? ==> r == Err(NotFound)
    ensures (forall k :: k in d || k == NameOf(cls, s) ==>
               !(Parse(k).Some? && Parse(n).Some? && SameDN(Lower, Parse(k).value, Parse(n).value))) ==>
              r == Err(NotFound)
  {
    hide Parse, SameDN, Trim, NameOf, NewItem, Matches;
    CreatedAsAsked(cls, s, g);
    var key := NameOf(cls, s);
    var d' := d[key := NewItem(cls, s, g)];
    var dn := [[Attr(if cls == OU then "OU" else "CN", s.name)]] + Parse(s.container).value;
    assert Parse(key) == Some(dn) && NewItem(cls, s, g).cls == cls by { NewItemSays(cls, s, g); }
    forall k ensures Matches(d', ByDN(n), k) <==>
        k in d' && Parse(k).Some? && Parse(n).Some? && SameDN(Lower, Parse(k).value, Parse(n).value) {
      MatchesByName(d', n, k);
    }
    if Parse(n).Some? && SameDN(Lower, Parse(n).value, dn) {
      SameDNIsEquivalence(Lower, dn, Parse(n).value, dn);
      assert Matches(d', ByDN(n), key);
      forall k | Matches(d', ByDN(n), k) ensures k == key {
        SameDNIsEquivalence(Lower, Parse(k).value, Parse(n).value, dn);
        if k != key { OccupiedBy(d, k, key); }
      }
    }
  }

  lemma NewItemSays(cls: Class, s: Spec, g: bytes)
    ensures NewItem(cls, s, g).model.dn == NameOf(cls, s) && NewItem(cls, s, g).cls == cls
  {
    hide NameOf;
  }

  lemma OccupiedBy(d: Dir, k: bytes, key: bytes)
    requires k in d && Parse(k).Some? && Parse(key).Some? && SameDN(Lower, Parse(k).value, Parse(key).value)
    ensures Occupied(d, key)
  {
    hide Parse, SameDN;
  }

  /** Create returns what Get returns. */
  lemma ReadBack(d: Dir, serial: nat, cls: Class, s: Spec, r: Result<Model>)
    requires Valid(d, serial)
    requires var it := NewItem(cls, s, Guid(serial + 1));
             GetResult(d[NameOf(cls, s) := it], cls, ByGUID(it.guid), r)
    ensures r == Ok(NewItem(cls, s, Guid(serial + 1)).model)
  {
    CreateKeepsValid(d, serial, cls, s);
    hide NameOf, Guid, Valid, GetResult;
    var it := NewItem(cls, s, Guid(serial + 1));
    GetByGuid(d[NameOf(cls, s) := it], serial + 1, NameOf(cls, s), cls, r);
  }

  /** After a delete the object is not found by its GUID. */
  lemma DeletedIsAbsent(d: Dir, serial: nat, k: bytes, cls: Class, r: Result<Model>)
    requires Valid(d, serial) && k in d && GetResult(d - {k}, cls, ByGUID(d[k].guid), r)
    ensures r == Err(NotFound)
  {
    hide ItemValid;
  }
}
