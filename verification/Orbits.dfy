/**
 When a move loses nothing, whatever is stored. The loop of `moveLocked` may run on an object several times:
 each time it goes one step along its orbit, and it loses an object exactly when it lands on another one.
 */
module Orbits {
  import opened Bytes
  import opened Scope
  import opened Directory
  import opened Moves

  /** Where the object stored under `k` is after `i` steps. */
  function At(k: bytes, from: bytes, newDN: bytes, i: nat): bytes
    decreases i
  {
    if i == 0 then k else At(Renamed(k, from, newDN), from, newDN, i - 1)
  }

  ghost predicate OnOrbit(k: bytes, from: bytes, newDN: bytes, x: bytes) {
    exists i: nat :: At(k, from, newDN, i) == x
  }

  /** No two keys ever come to one place. */
  ghost predicate OrbitsApart(keys: set<bytes>, from: bytes, newDN: bytes) {
    forall k, l, x :: k in keys && l in keys && OnOrbit(k, from, newDN, x) && OnOrbit(l, from, newDN, x) ==> k == l
  }

  /** The new name is not another object's, and no two objects come to one place during the move. */
  ghost predicate Lossless(keys: set<bytes>, from: bytes, newDN: bytes) {
    (newDN !in keys || newDN == from) && OrbitsApart(keys - {from} + {newDN}, from, newDN)
  }

  lemma {:induction false} AtNext(k: bytes, from: bytes, newDN: bytes, i: nat)
    ensures At(k, from, newDN, i + 1) == Renamed(At(k, from, newDN, i), from, newDN)
    decreases i
  {
    hide Renamed;
    if i > 0 { AtNext(Renamed(k, from, newDN), from, newDN, i - 1); }
  }

  lemma OrbitStart(k: bytes, from: bytes, newDN: bytes)
    ensures OnOrbit(k, from, newDN, k)
  {
    assert At(k, from, newDN, 0) == k;
  }

  lemma OrbitNext(k: bytes, from: bytes, newDN: bytes, x: bytes)
    requires OnOrbit(k, from, newDN, x)
    ensures OnOrbit(k, from, newDN, Renamed(x, from, newDN))
  {
    var i: nat :| At(k, from, newDN, i) == x;
    AtNext(k, from, newDN, i);
  }

  // ----- if: every object stays on its own orbit -----

  /** `it` is `was` under whatever name. */
  predicate Kept(it: Item, was: Item) {
    it == was.(dn := it.dn, model := was.model.(dn := it.model.dn))
  }

  /** `d'` holds under `x` the object that `d` holds under `k`, somewhere on its orbit. */
  ghost predicate Spot(d': Dir, d: Dir, from: bytes, newDN: bytes, k: bytes, x: bytes)
    requires k in d
  {
    x in d' && OnOrbit(k, from, newDN, x) && Kept(d'[x], d[k])
  }

  /** `d'` holds exactly the objects of `d`, each somewhere on its orbit. */
  ghost predicate Carried(d': Dir, d: Dir, from: bytes, newDN: bytes) {
    && (forall x :: x in d' ==> exists k :: k in d && Spot(d', d, from, newDN, k, x))
    && (forall k :: k in d ==> exists x :: Spot(d', d, from, newDN, k, x))
    && OneEach(d'.Keys, d.Keys, from, newDN)
  }

  /** No orbit of `keys` has two of `places` on it. */
  ghost predicate OneEach(places: set<bytes>, keys: set<bytes>, from: bytes, newDN: bytes) {
    forall k, x, y :: k in keys && x in places && y in places ==>
      OnOrbit(k, from, newDN, x) && OnOrbit(k, from, newDN, y) ==> x == y
  }

  lemma OneEachOn(places: set<bytes>, keys: set<bytes>, from: bytes, newDN: bytes, x: bytes, moved: bytes, own: bytes)
    requires OrbitsApart(keys, from, newDN) && OneEach(places, keys, from, newDN)
    requires own in keys && x in places && OnOrbit(own, from, newDN, x) && OnOrbit(own, from, newDN, moved)
    ensures OneEach(places - {x} + {moved}, keys, from, newDN)
  {
    hide OnOrbit;
    var places' := places - {x} + {moved};
    assert forall y :: y in places' && OnOrbit(own, from, newDN, y) ==> y == moved;
    forall k, y, z | k in keys && y in places' && z in places'
                     && OnOrbit(k, from, newDN, y) && OnOrbit(k, from, newDN, z)
      ensures y == z
    {
      assert OnOrbit(k, from, newDN, moved) ==> k == own;
    }
  }

  lemma CarriedStart(d: Dir, from: bytes, newDN: bytes)
    requires OrbitsApart(d.Keys, from, newDN)
    ensures Carried(d, d, from, newDN)
  {
    forall k | k in d ensures Spot(d, d, from, newDN, k, k) { OrbitStart(k, from, newDN); }
    forall k, x | k in d && x in d && OnOrbit(k, from, newDN, x) ensures x == k { OrbitStart(x, from, newDN); }
  }

  lemma VisitCarried(d': Dir, d: Dir, from: bytes, newDN: bytes, x: bytes)
    requires OrbitsApart(d.Keys, from, newDN) && Carried(d', d, from, newDN) && x in d'
    ensures Carried(Visit(d', from, newDN, x), d, from, newDN)
    ensures |Visit(d', from, newDN, x)| == |d'|
  {
    if Follows(x, from, newDN) {
      MovedIsLonger(x, from, newDN);
      var moved := Moved(x, from, newDN);
      var own :| own in d && Spot(d', d, from, newDN, own, x);
      assert OnOrbit(own, from, newDN, moved) by { OrbitNext(own, from, newDN, x); }
      hide OnOrbit, Moved, Follows;
      RekeySize(d', x, moved, Relabel(d'[x], moved));
      CarriedOn(d', Visit(d', from, newDN, x), d, from, newDN, x, moved, own);
    }
  }

  /** The object of `own` goes on from `x` to `moved`; every other stays. */
  lemma CarriedOn(d': Dir, d2: Dir, d: Dir, from: bytes, newDN: bytes, x: bytes, moved: bytes, own: bytes)
    requires OrbitsApart(d.Keys, from, newDN) && Carried(d', d, from, newDN)
    requires own in d && Spot(d', d, from, newDN, own, x) && OnOrbit(own, from, newDN, moved)
    requires d2 == (d' - {x})[moved := Relabel(d'[x], moved)]
    ensures Carried(d2, d, from, newDN)
  {
    hide OnOrbit, OneEach, OrbitsApart, Spot;
    assert x in d' && OnOrbit(own, from, newDN, x) by { SpotSays(d', d, from, newDN, own, x); }
    assert d2.Keys == d'.Keys - {x} + {moved};
    OneEachOn(d'.Keys, d.Keys, from, newDN, x, moved, own);
    SpotMoves(d', d2, d, from, newDN, x, moved, own);
    forall k, y | k in d && k != own && Spot(d', d, from, newDN, k, y) ensures Spot(d2, d, from, newDN, k, y) {
      SpotStays(d', d2, d, from, newDN, x, moved, own, k, y);
    }
    forall y | y in d2 ensures exists k :: k in d && Spot(d2, d, from, newDN, k, y) {
      if y != moved {
        var k :| k in d && Spot(d', d, from, newDN, k, y);
        if k == own { SpotSays(d', d, from, newDN, own, y); OneSpot(d', d, from, newDN, own, x, y); }
      }
    }
    forall k | k in d ensures exists y :: Spot(d2, d, from, newDN, k, y) {
      if k != own { var y :| Spot(d', d, from, newDN, k, y); }
    }
  }

  lemma SpotSays(d': Dir, d: Dir, from: bytes, newDN: bytes, k: bytes, x: bytes)
    requires k in d && Spot(d', d, from, newDN, k, x)
    ensures x in d' && OnOrbit(k, from, newDN, x) && Kept(d'[x], d[k])
  {}

  lemma OneSpot(d': Dir, d: Dir, from: bytes, newDN: bytes, k: bytes, x: bytes, y: bytes)
    requires OneEach(d'.Keys, d.Keys, from, newDN) && k in d && x in d' && y in d'
    requires OnOrbit(k, from, newDN, x) && OnOrbit(k, from, newDN, y)
    ensures x == y
  {}

  lemma SpotMoves(d': Dir, d2: Dir, d: Dir, from: bytes, newDN: bytes, x: bytes, moved: bytes, own: bytes)
    requires own in d && Spot(d', d, from, newDN, own, x) && OnOrbit(own, from, newDN, moved)
    requires d2 == (d' - {x})[moved := Relabel(d'[x], moved)]
    ensures Spot(d2, d, from, newDN, own, moved)
  {
    hide OnOrbit;
  }

  lemma SpotStays(d': Dir, d2: Dir, d: Dir, from: bytes, newDN: bytes, x: bytes, moved: bytes,
                  own: bytes, k: bytes, y: bytes)
    requires OrbitsApart(d.Keys, from, newDN) && own in d && k in d && k != own
    requires OnOrbit(own, from, newDN, x) && OnOrbit(own, from, newDN, moved) && x in d'
    requires d2 == (d' - {x})[moved := Relabel(d'[x], moved)] && Spot(d', d, from, newDN, k, y)
    ensures Spot(d2, d, from, newDN, k, y)
  {
    hide OnOrbit, Kept, Relabel;
    assert y != x && y != moved;
  }

  lemma {:induction false} RunCarried(r: Range, d: Dir, from: bytes, newDN: bytes, order: seq<bytes>)
    requires RangeOk(r) && Legal(r, from, newDN, order)
    requires OrbitsApart(d.Keys, from, newDN) && Carried(r.d, d, from, newDN)
    ensures Carried(Run(r, from, newDN, order).d, d, from, newDN) && |Run(r, from, newDN, order).d| == |r.d|
    decreases |order|
  {
    hide Carried, OrbitsApart;
    if order != [] {
      VisitCarried(r.d, d, from, newDN, order[0]);
      hide Visit;
      RunCarried(Produce(r, from, newDN, order[0]), d, from, newDN, order[1..]);
    }
  }

  /** A lossless move keeps every object, on its own orbit, at every point of every order. */
  lemma MoveCarries(d: Dir, from: bytes, newDN: bytes, order: seq<bytes>)
    requires from in d && Lossless(d.Keys, from, newDN)
    requires Legal(Begin(Start(d, from, newDN)), from, newDN, order)
    ensures var d' := Run(Begin(Start(d, from, newDN)), from, newDN, order).d;
            |d'| == |d| && Carried(d', Start(d, from, newDN), from, newDN)
  {
    hide Carried, OrbitsApart, Run, Legal;
    var d1 := Start(d, from, newDN);
    assert d1.Keys == d.Keys - {from} + {newDN};
    RekeySize(d, from, newDN, d[from].(dn := newDN));
    CarriedStart(d1, from, newDN);
    RunCarried(Begin(d1), d1, from, newDN, order);
  }

  // ----- only if: where two orbits meet, some order brings both objects there -----

  lemma {:induction false} RunOn(r: Range, from: bytes, newDN: bytes, o: seq<bytes>, p: seq<bytes>)
    requires RangeOk(r) && Legal(r, from, newDN, o) && Legal(Run(r, from, newDN, o), from, newDN, p)
    ensures Legal(r, from, newDN, o + p)
    ensures Run(r, from, newDN, o + p) == Run(Run(r, from, newDN, o), from, newDN, p)
    decreases |o|
  {
    hide Produce;
    if o == [] {
      assert o + p == p;
    } else {
      assert (o + p)[1..] == o[1..] + p && (o + p)[0] == o[0];
      RunOn(Produce(r, from, newDN, o[0]), from, newDN, o[1..], p);
    }
  }

  /** The object under `x` goes `i` steps; either one is lost, or it arrives and `other` stays. */
  ghost predicate Climbed(r: Range, r': Range, from: bytes, newDN: bytes, x: bytes, i: nat, other: bytes) {
    || |r'.d| < |r.d|
    || (&& At(x, from, newDN, i) in r'.d && other in r'.d && At(x, from, newDN, i) != other
        && (other in Pending(r) ==> other in Pending(r')))
  }

  lemma {:induction false} Climb(r: Range, from: bytes, newDN: bytes, x: bytes, i: nat, other: bytes)
    returns (order: seq<bytes>)
    requires RangeOk(r) && x in Pending(r) && other in r.d && other != x
    ensures Legal(r, from, newDN, order) && |Run(r, from, newDN, order).d| <= |r.d|
    ensures Climbed(r, Run(r, from, newDN, order), from, newDN, x, i, other)
    decreases i
  {
    hide Moved, Follows;
    var y := Renamed(x, from, newDN);
    if i == 0 {
      order := [];
    } else if y == x {
      order := Climb(r, from, newDN, x, i - 1, other);
    } else {
      ClimbOne(r, from, newDN, x, other);
      hide Produce, Climbed, Renamed;
      if y in r.d {
        order := [x];
        assert order[1..] == [];
        Lost(r, Produce(r, from, newDN, x), from, newDN, x, i, other);
      } else {
        var r1 := Produce(r, from, newDN, x);
        var rest := Climb(r1, from, newDN, y, i - 1, other);
        order := [x] + rest;
        assert order[1..] == rest;
        ClimbedFurther(r, r1, Run(r1, from, newDN, rest), from, newDN, x, i, other);
      }
    }
  }

  lemma Lost(r: Range, r': Range, from: bytes, newDN: bytes, x: bytes, i: nat, other: bytes)
    requires |r'.d| < |r.d|
    ensures Climbed(r, r', from, newDN, x, i, other)
  {}

  /** One step lands on a stored key and loses it, or arrives at a key that the range may produce again. */
  lemma ClimbOne(r: Range, from: bytes, newDN: bytes, x: bytes, other: bytes)
    requires RangeOk(r) && x in Pending(r) && other in r.d && other != x && Renamed(x, from, newDN) != x
    ensures var (r1, y) := (Produce(r, from, newDN, x), Renamed(x, from, newDN));
            if y in r.d then |r1.d| < |r.d|
            else |r1.d| == |r.d| && y in Pending(r1) && other in r1.d && other != y
                 && (other in Pending(r) ==> other in Pending(r1))
  {
    hide Moved, Follows;
    MovedIsLonger(x, from, newDN);
    var y := Renamed(x, from, newDN);
    RekeySize(r.d, x, y, Relabel(r.d[x], y));
  }

  lemma ClimbedFurther(r: Range, r1: Range, r': Range, from: bytes, newDN: bytes, x: bytes, i: nat, other: bytes)
    requires i > 0 && |r1.d| == |r.d| && (other in Pending(r) ==> other in Pending(r1))
    requires Climbed(r1, r', from, newDN, Renamed(x, from, newDN), i - 1, other)
    ensures Climbed(r, r', from, newDN, x, i, other)
  {
    hide Renamed;
  }

  /** Where the orbits of two stored keys meet, some complete order loses an object. */
  lemma MeetingLoses(d: Dir, from: bytes, newDN: bytes, k: bytes, l: bytes, x: bytes) returns (order: seq<bytes>)
    requires k in d && l in d && k != l && OnOrbit(k, from, newDN, x) && OnOrbit(l, from, newDN, x)
    ensures Complete(Begin(d), from, newDN, order) && |Run(Begin(d), from, newDN, order).d| < |d|
  {
    hide Legal, Run, At;
    var i: nat :| At(k, from, newDN, i) == x;
    var j: nat :| At(l, from, newDN, j) == x;
    var o := Climb(Begin(d), from, newDN, k, i, l);
    var r := Run(Begin(d), from, newDN, o);
    if |r.d| < |d| {
      order := LossStays(Begin(d), from, newDN, o);
    } else {
      var p := Climb(r, from, newDN, l, j, x);
      RunOn(Begin(d), from, newDN, o, p);
      order := LossStays(Begin(d), from, newDN, o + p);
    }
  }

  lemma LossStays(r: Range, from: bytes, newDN: bytes, o: seq<bytes>) returns (order: seq<bytes>)
    requires RangeOk(r) && Legal(r, from, newDN, o) && |Run(r, from, newDN, o).d| < |r.d|
    ensures Complete(r, from, newDN, order) && |Run(r, from, newDN, order).d| < |r.d|
  {
    hide Legal, Run;
    var p := SomeOrderCompletes(Run(r, from, newDN, o), from, newDN);
    RunOn(r, from, newDN, o, p);
    RunNeverGrows(Run(r, from, newDN, o), from, newDN, p);
    order := o + p;
  }

  /** However the range goes, the move ends with as many objects as it found. */
  ghost predicate NeverLoses(d: Dir, from: bytes, newDN: bytes)
    requires from in d
  {
    forall order :: Complete(Begin(Start(d, from, newDN)), from, newDN, order)
      ==> |Run(Begin(Start(d, from, newDN)), from, newDN, order).d| == |d|
  }

  /** Exactly when a move loses no object, whatever is stored and whatever the names. */
  lemma MoveConserves(d: Dir, from: bytes, newDN: bytes)
    requires from in d
    ensures NeverLoses(d, from, newDN) <==> Lossless(d.Keys, from, newDN)
  {
    hide Legal, Run, OrbitsApart;
    var d1 := Start(d, from, newDN);
    assert d1.Keys == d.Keys - {from} + {newDN};
    if Lossless(d.Keys, from, newDN) {
      forall order | Complete(Begin(d1), from, newDN, order) ensures |Run(Begin(d1), from, newDN, order).d| == |d| {
        MoveCarries(d, from, newDN, order);
      }
    } else {
      var order := SomeLoss(d, from, newDN);
    }
  }

  lemma SomeLoss(d: Dir, from: bytes, newDN: bytes) returns (order: seq<bytes>)
    requires from in d && !Lossless(d.Keys, from, newDN)
    ensures Complete(Begin(Start(d, from, newDN)), from, newDN, order)
    ensures |Run(Begin(Start(d, from, newDN)), from, newDN, order).d| < |d|
  {
    hide Legal, Run, OnOrbit;
    var d1 := Start(d, from, newDN);
    assert d1.Keys == d.Keys - {from} + {newDN};
    RekeySize(d, from, newDN, d[from].(dn := newDN));
    if newDN in d && newDN != from {
      order := SomeOrderCompletes(Begin(d1), from, newDN);
      RunNeverGrows(Begin(d1), from, newDN, order);
    } else {
      var k, l, x :| k in d1 && l in d1 && OnOrbit(k, from, newDN, x) && OnOrbit(l, from, newDN, x) && k != l;
      order := MeetingLoses(d1, from, newDN, k, l, x);
    }
  }

  // ----- when the order does not matter -----

  /** No object can go a second step. */
  predicate Settling(keys: set<bytes>, from: bytes, newDN: bytes) {
    forall k :: k in keys ==> Renamed(Renamed(k, from, newDN), from, newDN) == Renamed(k, from, newDN)
  }

  lemma {:induction false} SettlingAt(k: bytes, from: bytes, newDN: bytes, i: nat)
    requires Renamed(Renamed(k, from, newDN), from, newDN) == Renamed(k, from, newDN)
    ensures At(k, from, newDN, i) == if i == 0 then k else Renamed(k, from, newDN)
    decreases i
  {
    hide Renamed;
    if i > 0 { SettlingAt(Renamed(k, from, newDN), from, newDN, i - 1); }
  }

  lemma SettlingOrbit(k: bytes, from: bytes, newDN: bytes, x: bytes)
    requires Renamed(Renamed(k, from, newDN), from, newDN) == Renamed(k, from, newDN)
    ensures OnOrbit(k, from, newDN, x) <==> x == k || x == Renamed(k, from, newDN)
  {
    hide Renamed, At;
    SettlingAt(k, from, newDN, 0);
    SettlingAt(k, from, newDN, 1);
    if i: nat :| At(k, from, newDN, i) == x { SettlingAt(k, from, newDN, i); }
  }

  /** A key of `keys` that can go a step and is still there is one the range must produce. */
  ghost predicate Unproduced(r: Range, keys: set<bytes>, from: bytes, newDN: bytes) {
    forall k :: k in keys && k in r.d && Renamed(k, from, newDN) != k ==> k in r.must
  }

  lemma ProduceKeys(r: Range, from: bytes, newDN: bytes, x: bytes)
    requires RangeOk(r) && x in Pending(r)
    ensures var r1 := Produce(r, from, newDN, x);
            r1.must == r.must - {x} && r1.d.Keys == r.d.Keys - {x} + {Renamed(x, from, newDN)}
  {
    hide Moved, Follows, Relabel;
    if Follows(x, from, newDN) { MovedIsLonger(x, from, newDN); }
  }

  lemma ProduceUnproduced(r: Range, d: Dir, from: bytes, newDN: bytes, x: bytes)
    requires RangeOk(r) && x in Pending(r) && Unproduced(r, d.Keys, from, newDN)
    requires OrbitsApart(d.Keys, from, newDN) && Carried(r.d, d, from, newDN) && Settling(d.Keys, from, newDN)
    ensures Unproduced(Produce(r, from, newDN, x), d.Keys, from, newDN)
  {
    hide Produce, Renamed, OrbitsApart, Carried, Settling;
    ProduceKeys(r, from, newDN, x);
    if Renamed(x, from, newDN) in d { NotBack(r.d, d, from, newDN, x); }
  }

  /** No object comes to the place another one started from. */
  lemma NotBack(d': Dir, d: Dir, from: bytes, newDN: bytes, x: bytes)
    requires x in d' && Renamed(x, from, newDN) in d && Settling(d.Keys, from, newDN)
    requires OrbitsApart(d.Keys, from, newDN) && Carried(d', d, from, newDN)
    ensures var y := Renamed(x, from, newDN); Renamed(y, from, newDN) == y
  {
    var y := Renamed(x, from, newDN);
    var own :| own in d && Spot(d', d, from, newDN, own, x);
    OrbitStart(y, from, newDN);
    OrbitNext(own, from, newDN, x);
    assert own == y by { hide OnOrbit, Renamed; }
    SettlingOrbit(y, from, newDN, x);
    hide OnOrbit, Renamed, OrbitsApart;
  }

  lemma {:induction false} RunUnproduced(r: Range, d: Dir, from: bytes, newDN: bytes, order: seq<bytes>)
    requires RangeOk(r) && Legal(r, from, newDN, order) && Unproduced(r, d.Keys, from, newDN)
    requires OrbitsApart(d.Keys, from, newDN) && Carried(r.d, d, from, newDN) && Settling(d.Keys, from, newDN)
    ensures Unproduced(Run(r, from, newDN, order), d.Keys, from, newDN)
    decreases |order|
  {
    hide Carried, OrbitsApart, Unproduced, Settling;
    if order != [] {
      VisitCarried(r.d, d, from, newDN, order[0]);
      ProduceUnproduced(r, d, from, newDN, order[0]);
      hide Visit;
      RunUnproduced(Produce(r, from, newDN, order[0]), d, from, newDN, order[1..]);
    }
  }

  /** When the range ends, every object of a settling move has gone its one step. */
  lemma SettledSpot(r: Range, d: Dir, from: bytes, newDN: bytes, k: bytes, x: bytes)
    requires Unproduced(r, d.Keys, from, newDN) && r.must == {} && Settling(d.Keys, from, newDN)
    requires k in d && x in r.d && OnOrbit(k, from, newDN, x)
    ensures x == Renamed(k, from, newDN)
  {
    SettlingOrbit(k, from, newDN, x);
    hide Renamed, OnOrbit;
  }

  /** What the moved directory holds for the object that `d` holds under `k`, before the caller updates `newDN`. */
  function SettledItem(d: Dir, from: bytes, newDN: bytes, k: bytes): Item
    requires k in d
  {
    if k == newDN then d[k] else Relabel(d[k], Renamed(k, from, newDN))
  }

  /** The range has ended, after a lossless, settling move that began in `d`. */
  ghost predicate Finished(r: Range, d: Dir, serial: nat, from: bytes, newDN: bytes) {
    && Unproduced(r, d.Keys, from, newDN) && r.must == {} && Settling(d.Keys, from, newDN)
    && Carried(r.d, d, from, newDN) && OrbitsApart(d.Keys, from, newDN) && ValidBut(r.d, serial, {newDN})
    && newDN in d && newDN in r.d && r.d[newDN] == d[newDN]
  }

  lemma SettledRange(d: Dir, serial: nat, from: bytes, newDN: bytes, order: seq<bytes>)
    requires Valid(d, serial) && from in d && Lossless(d.Keys, from, newDN)
    requires Settling(Start(d, from, newDN).Keys, from, newDN)
    requires Complete(Begin(Start(d, from, newDN)), from, newDN, order)
    ensures Finished(Run(Begin(Start(d, from, newDN)), from, newDN, order), Start(d, from, newDN), serial, from, newDN)
  {
    hide Legal, Run, Valid, ValidBut, OrbitsApart, Carried, Renamed, Unproduced, Settling;
    var d1 := Start(d, from, newDN);
    StartKeys(d, from, newDN);
    CarriedStart(d1, from, newDN);
    BeginUnproduced(d1, from, newDN);
    RunCarried(Begin(d1), d1, from, newDN, order);
    RunUnproduced(Begin(d1), d1, from, newDN, order);
    StartKeepsValid(d, serial, from, newDN);
    RunKeepsValid(Begin(d1), serial, from, newDN, order);
  }

  /** The result of a lossless, settling move, for every order. */
  lemma SettledResult(d: Dir, serial: nat, from: bytes, newDN: bytes, order: seq<bytes>)
    requires Valid(d, serial) && from in d && Lossless(d.Keys, from, newDN)
    requires Settling(Start(d, from, newDN).Keys, from, newDN)
    requires Complete(Begin(Start(d, from, newDN)), from, newDN, order)
    ensures var d1, d' := Start(d, from, newDN), Run(Begin(Start(d, from, newDN)), from, newDN, order).d;
            && (forall k :: k in d1 ==> Renamed(k, from, newDN) in d'
                                        && d'[Renamed(k, from, newDN)] == SettledItem(d1, from, newDN, k))
            && forall x :: x in d' ==> exists k :: k in d1 && x == Renamed(k, from, newDN)
  {
    hide Legal, Run, Valid, ValidBut, OrbitsApart, Carried, Renamed, Unproduced, Settling, Start, SettledItem, Finished;
    SettledRange(d, serial, from, newDN, order);
    var d1 := Start(d, from, newDN);
    var r := Run(Begin(d1), from, newDN, order);
    forall k | k in d1
      ensures Renamed(k, from, newDN) in r.d && r.d[Renamed(k, from, newDN)] == SettledItem(d1, from, newDN, k)
    {
      SettledAt(r, d1, serial, from, newDN, k);
    }
    forall x | x in r.d ensures exists k :: k in d1 && x == Renamed(k, from, newDN) {
      SettledFrom(r, d1, serial, from, newDN, x);
    }
  }

  lemma BeginUnproduced(d: Dir, from: bytes, newDN: bytes)
    ensures Unproduced(Begin(d), d.Keys, from, newDN)
  {}

  lemma SettledAt(r: Range, d: Dir, serial: nat, from: bytes, newDN: bytes, k: bytes)
    requires Finished(r, d, serial, from, newDN) && k in d
    ensures Renamed(k, from, newDN) in r.d && r.d[Renamed(k, from, newDN)] == SettledItem(d, from, newDN, k)
  {
    hide Unproduced, Settling, OneEach, ValidBut, OrbitsApart, Renamed, Spot, OnOrbit, Kept, Relabel;
    var x :| Spot(r.d, d, from, newDN, k, x);
    SpotSays(r.d, d, from, newDN, k, x);
    SettledSpot(r, d, from, newDN, k, x);
    OwnNames(r.d, serial, newDN, x);
    if k != newDN {
      if x == newDN {
        OrbitStart(newDN, from, newDN);
        Apart(d.Keys, from, newDN, k, newDN, x);
      }
      SameItem(r.d[x], d[k], x);
    } else {
      NewNameStays(from, newDN);
    }
  }

  lemma OwnNames(d: Dir, serial: nat, newDN: bytes, x: bytes)
    requires ValidBut(d, serial, {newDN}) && x in d
    ensures d[x].dn == x && (x != newDN ==> d[x].model.dn == x)
  {
    assert ItemValid(x, d[x], serial);
  }

  lemma SameItem(it: Item, was: Item, x: bytes)
    requires Kept(it, was) && it.dn == x && it.model.dn == x
    ensures it == Relabel(was, x)
  {}

  lemma Apart(keys: set<bytes>, from: bytes, newDN: bytes, k: bytes, l: bytes, x: bytes)
    requires OrbitsApart(keys, from, newDN) && k in keys && l in keys
    requires OnOrbit(k, from, newDN, x) && OnOrbit(l, from, newDN, x)
    ensures k == l
  {
    hide OnOrbit;
  }

  lemma NewNameStays(from: bytes, newDN: bytes)
    ensures Renamed(newDN, from, newDN) == newDN
  {}

  lemma SettledFrom(r: Range, d: Dir, serial: nat, from: bytes, newDN: bytes, x: bytes)
    requires Finished(r, d, serial, from, newDN) && x in r.d
    ensures exists k :: k in d && x == Renamed(k, from, newDN)
  {
    hide Unproduced, Settling, OneEach, ValidBut, OrbitsApart, Renamed, OnOrbit, Kept;
    var k :| k in d && Spot(r.d, d, from, newDN, k, x);
    SettledSpot(r, d, from, newDN, k, x);
  }

  lemma {:induction false} NotProducedStays(r: Range, from: bytes, newDN: bytes, order: seq<bytes>, y: bytes)
    requires RangeOk(r) && Legal(r, from, newDN, order) && y in r.d && y !in order
    ensures y in Run(r, from, newDN, order).d
    decreases |order|
  {
    if order != [] {
      assert y in Visit(r.d, from, newDN, order[0]);
      hide Visit;
      NotProducedStays(Produce(r, from, newDN, order[0]), from, newDN, order[1..], y);
    }
  }

  /** The range may skip the entry an object got by its first step. */
  lemma StopAfterOne(r: Range, from: bytes, newDN: bytes, k: bytes) returns (o: seq<bytes>)
    requires RangeOk(r) && k in Pending(r) && Renamed(k, from, newDN) !in r.d
    ensures Complete(r, from, newDN, o) && Renamed(k, from, newDN) in Run(r, from, newDN, o).d
  {
    hide Renamed;
    var y := Renamed(k, from, newDN);
    var r1 := Produce(r, from, newDN, k);
    ProduceKeys(r, from, newDN, k);
    hide Produce;
    var rest := SomeOrderCompletes(r1, from, newDN);
    assert y !in r1.must;
    NotProducedStays(r1, from, newDN, rest, y);
    o := [k] + rest;
    assert o[1..] == rest;
  }

  /** Or it may produce that entry for a second step. */
  lemma GoOn(r: Range, from: bytes, newDN: bytes, k: bytes) returns (p: seq<bytes>)
    requires RangeOk(r) && k in Pending(r)
    requires var y := Renamed(k, from, newDN);
             && y !in r.d && Renamed(y, from, newDN) != y
             && (Renamed(y, from, newDN) in r.d ==> Renamed(y, from, newDN) == k)
    ensures Complete(r, from, newDN, p) && Renamed(Renamed(k, from, newDN), from, newDN) in Run(r, from, newDN, p).d
  {
    var y := Renamed(k, from, newDN);
    var r1 := Produce(r, from, newDN, k);
    ProduceKeys(r, from, newDN, k);
    assert y in Pending(r1) by { hide Moved; MovedIsLonger(k, from, newDN); }
    hide Produce, Renamed;
    var rest := StopAfterOne(r1, from, newDN, y);
    p := [k] + rest;
    assert p[1..] == rest;
  }

  lemma TwoResults(d: Dir, from: bytes, newDN: bytes, k: bytes) returns (o: seq<bytes>, p: seq<bytes>)
    requires OrbitsApart(d.Keys, from, newDN) && k in d
    requires Renamed(Renamed(k, from, newDN), from, newDN) != Renamed(k, from, newDN)
    ensures Complete(Begin(d), from, newDN, o) && Complete(Begin(d), from, newDN, p)
    ensures Run(Begin(d), from, newDN, o).d != Run(Begin(d), from, newDN, p).d
  {
    hide Renamed, OrbitsApart, Carried, OnOrbit, Run, Legal;
    var y := Renamed(k, from, newDN);
    var z := Renamed(y, from, newDN);
    OrbitStart(k, from, newDN);
    OrbitNext(k, from, newDN, k);
    OrbitNext(k, from, newDN, y);
    OnlyOwn(d.Keys, from, newDN, k, y);
    OnlyOwn(d.Keys, from, newDN, k, z);
    o := StopAfterOne(Begin(d), from, newDN, k);
    p := GoOn(Begin(d), from, newDN, k);
    CarriedStart(d, from, newDN);
    RunCarried(Begin(d), d, from, newDN, o);
    var d' := Run(Begin(d), from, newDN, o).d;
    if d' == Run(Begin(d), from, newDN, p).d {
      OneOfOrbit(d', d, from, newDN, k, y, z);
    }
  }

  lemma OnlyOwn(keys: set<bytes>, from: bytes, newDN: bytes, k: bytes, y: bytes)
    requires OrbitsApart(keys, from, newDN) && k in keys && OnOrbit(k, from, newDN, y)
    ensures y in keys ==> y == k
  {
    hide OnOrbit;
    OrbitStart(y, from, newDN);
  }

  lemma OneOfOrbit(d': Dir, d: Dir, from: bytes, newDN: bytes, k: bytes, y: bytes, z: bytes)
    requires Carried(d', d, from, newDN) && k in d && y in d' && z in d'
    requires OnOrbit(k, from, newDN, y) && OnOrbit(k, from, newDN, z)
    ensures y == z
  {
    hide Spot, OnOrbit;
  }

  /** Every order of the range ends in `result`. */
  ghost predicate AlwaysEndsIn(d: Dir, from: bytes, newDN: bytes, result: Dir)
    requires from in d
  {
    forall order :: Complete(Begin(Start(d, from, newDN)), from, newDN, order)
      ==> Run(Begin(Start(d, from, newDN)), from, newDN, order).d == result
  }

  /** The result of a lossless move depends on the order exactly when some object can go a second step. */
  lemma OrderIndependentIff(d: Dir, serial: nat, from: bytes, newDN: bytes)
    requires Valid(d, serial) && from in d && Lossless(d.Keys, from, newDN)
    ensures (exists result :: AlwaysEndsIn(d, from, newDN, result)) <==>
            Settling(Start(d, from, newDN).Keys, from, newDN)
  {
    hide Legal, Run, Valid, OrbitsApart, Renamed, Start;
    var d1 := Start(d, from, newDN);
    assert d1.Keys == d.Keys - {from} + {newDN} by { StartKeys(d, from, newDN); }
    if Settling(d1.Keys, from, newDN) {
      var o := SomeOrderCompletes(Begin(d1), from, newDN);
      var result := Run(Begin(d1), from, newDN, o).d;
      SettledResult(d, serial, from, newDN, o);
      forall order | Complete(Begin(d1), from, newDN, order) ensures Run(Begin(d1), from, newDN, order).d == result {
        SettledResult(d, serial, from, newDN, order);
        hide Settling, SettledItem;
      }
      assert AlwaysEndsIn(d, from, newDN, result);
    } else {
      var k :| k in d1 && Renamed(Renamed(k, from, newDN), from, newDN) != Renamed(k, from, newDN);
      var o, p := TwoResults(d1, from, newDN, k);
    }
  }

  lemma StartKeys(d: Dir, from: bytes, newDN: bytes)
    requires from in d
    ensures Start(d, from, newDN).Keys == d.Keys - {from} + {newDN}
  {}

  // ----- a free place, and a place that only looks free -----

  /** On a move to a free place every object goes at most one step, and orbits meet exactly at twins. */
  lemma FreeMoveLossless(d: Dir, from: bytes, newDN: bytes)
    requires FreeMove(d, from, newDN)
    ensures Settling(d.Keys - {from} + {newDN}, from, newDN)
    ensures Lossless(d.Keys, from, newDN) <==> NoTwins(d, from)
  {
    hide Below, Twins, Moved, OnOrbit;
    var d1 := Start(d, from, newDN);
    assert d1.Keys == d.Keys - {from} + {newDN};
    FreeMoveSettles(d, from, newDN);
    assert newDN !in d by { SelfAt(newDN); }
    hide FreeMove;
    if NoTwins(d, from) {
      forall k, l, x | k in d1 && l in d1 && OnOrbit(k, from, newDN, x) && OnOrbit(l, from, newDN, x)
        ensures k == l
      {
        SettlingOrbit(k, from, newDN, x);
        SettlingOrbit(l, from, newDN, x);
        if k != l { MeetAtTwins(d, from, newDN, k, l); }
      }
    }
    if Lossless(d.Keys, from, newDN) {
      forall k, l | k in d && l in d ensures !Twins(k, l, from) {
        if Twins(k, l, from) { TwinsMeet(d, from, newDN, k, l); }
      }
    }
  }

  lemma MeetAtTwins(d: Dir, from: bytes, newDN: bytes, k: bytes, l: bytes)
    requires FreeMove(d, from, newDN) && k != l && k in Start(d, from, newDN) && l in Start(d, from, newDN)
    requires Renamed(k, from, newDN) == Renamed(l, from, newDN)
    ensures !NoTwins(d, from)
  {
    hide Below, Twins, Moved;
    var (k0, l0) := (if k == newDN then from else k, if l == newDN then from else l);
    assert FinalKey(k0, from, newDN) == Renamed(k, from, newDN);
    assert FinalKey(l0, from, newDN) == Renamed(l, from, newDN);
    SameFinalKey(d, from, newDN, k0, l0);
  }

  lemma TwinsMeet(d: Dir, from: bytes, newDN: bytes, k: bytes, l: bytes)
    requires FreeMove(d, from, newDN) && k in d && l in d && Twins(k, l, from) && newDN !in d
    ensures !OrbitsApart(d.Keys - {from} + {newDN}, from, newDN)
  {
    hide Moved;
    SelfNotBelow(from);
    SameFinalKey(d, from, newDN, k, l);
    hide Below;
    var x := Renamed(k, from, newDN);
    OrbitStart(k, from, newDN);
    OrbitNext(k, from, newDN, k);
    OrbitStart(l, from, newDN);
    OrbitNext(l, from, newDN, l);
    assert x == Renamed(l, from, newDN);
  }

  /** An object that must move onto one that stays is lost, or loses the other, in every order. */
  lemma {:induction false} LandsOnStored(r: Range, from: bytes, newDN: bytes, order: seq<bytes>, k: bytes, l: bytes)
    requires RangeOk(r) && Complete(r, from, newDN, order)
    requires k in r.must && l in r.d && k != l && Renamed(k, from, newDN) == l && Renamed(l, from, newDN) == l
    ensures |Run(r, from, newDN, order).d| < |r.d|
    decreases |order|
  {
    hide Moved, Follows;
    var x := order[0];
    var r1 := Produce(r, from, newDN, x);
    if x == k {
      MovedIsLonger(x, from, newDN);
      RekeySize(r.d, k, l, Relabel(r.d[k], l));
      RunNeverGrows(r1, from, newDN, order[1..]);
    } else {
      VisitNeverGrows(r.d, from, newDN, x);
      if Follows(x, from, newDN) { MovedIsLonger(x, from, newDN); }
      LandsOnStored(r1, from, newDN, order[1..], k, l);
    }
  }

  /** Moving an object below the old name onto one that stays loses an object, whatever the order. */
  lemma OntoStoredLoses(d: Dir, from: bytes, newDN: bytes, order: seq<bytes>, k: bytes, l: bytes)
    requires from in d && Complete(Begin(Start(d, from, newDN)), from, newDN, order)
    requires k in d && l in d && k != l && k != from && l != from
    requires Renamed(k, from, newDN) == l && Renamed(l, from, newDN) == l
    ensures |Run(Begin(Start(d, from, newDN)), from, newDN, order).d| < |d|
  {
    hide Legal, Run, Renamed;
    RekeySize(d, from, newDN, d[from].(dn := newDN));
    LandsOnStored(Begin(Start(d, from, newDN)), from, newDN, order, k, l);
  }

  /**
   The new name is free, no two names differ in letter case only, and still every order loses an object: one
   stored below the new name, where no object is, gives way to the moved one.
   */
  lemma OrphanIsLost(d: Dir, order: seq<bytes>)
    requires d.Keys == {"OU=A,DC=c", "CN=x,OU=A,DC=c", "CN=x,OU=B,DC=c"}
    requires Complete(Begin(Start(d, "OU=A,DC=c", "OU=B,DC=c")), "OU=A,DC=c", "OU=B,DC=c", order)
    ensures "OU=B,DC=c" !in d && !AtOrBelow("OU=B,DC=c", "OU=A,DC=c") && NoTwins(d, "OU=A,DC=c")
    ensures |Run(Begin(Start(d, "OU=A,DC=c", "OU=B,DC=c")), "OU=A,DC=c", "OU=B,DC=c", order).d| < |d|
  {
    hide Start, Complete, Run, Below, Renamed, AtOrBelow;
    OrphanNames();
    OntoStoredLoses(d, "OU=A,DC=c", "OU=B,DC=c", order, "CN=x,OU=A,DC=c", "CN=x,OU=B,DC=c");
  }

  lemma OrphanNames()
    ensures var a: bytes, b: bytes := "OU=A,DC=c", "OU=B,DC=c";
            var k: bytes, l: bytes := "CN=x,OU=A,DC=c", "CN=x,OU=B,DC=c";
            && !AtOrBelow(b, a) && !Below(a, a) && !Below(l, a)
            && Renamed(k, a, b) == l && Renamed(l, a, b) == l
  {
    hide Below, AtOrBelow, Renamed, Moved;
    var a: bytes, b: bytes := "OU=A,DC=c", "OU=B,DC=c";
    assert Lower(a)[3] == 'a' && Lower(b)[3] == 'b';
    hide Lower;
    SideBySide("CN=x,", a, b);
    assert "CN=x," + a == "CN=x,OU=A,DC=c" && "CN=x," + b == "CN=x,OU=B,DC=c";
  }

  lemma SideBySide(front: bytes, a: bytes, b: bytes)
    requires front != [] && front[|front| - 1] == ',' && |a| == |b| && Lower(a) != Lower(b)
    ensures !AtOrBelow(b, a) && !Below(a, a) && !Below(front + b, a)
    ensures Renamed(front + a, a, b) == front + b && Renamed(front + b, a, b) == front + b
  {
    hide Lower;
    var k, l, n := front + a, front + b, |front|;
    SelfNotBelow(a);
    BelowByText(b, a);
    BelowByText(k, a);
    BelowByText(l, a);
    assert k[n..] == a && l[n..] == b;
    hide Below;
    assert Moved(k, a, b) == l by { assert k[..n] == front; }
  }

  // ----- a move below itself -----

  lemma {:induction false} OrbitHead(x: bytes, from: bytes, newDN: bytes, i: nat)
    requires |x| > |from| && |newDN| >= |from|
    ensures |At(x, from, newDN, i)| > |from| && At(x, from, newDN, i)[0] == x[0]
    decreases i
  {
    hide Below;
    if i > 0 {
      assert |Renamed(x, from, newDN)| >= |x|;
      OrbitHead(Renamed(x, from, newDN), from, newDN, i - 1);
    }
  }

  lemma NewNameOrbit(from: bytes, newDN: bytes, x: bytes)
    ensures OnOrbit(newDN, from, newDN, x) ==> x == newDN
  {
    hide Renamed;
    NewNameStays(from, newDN);
    SettlingOrbit(newDN, from, newDN, x);
  }

  lemma NestedNames(from: bytes, newDN: bytes, front: bytes, g: bytes)
    requires front != [] && g != [] && front[|front| - 1] == ',' == g[|g| - 1] && newDN == g + from
    requires front[0] != newDN[0]
    ensures Below(newDN, from) && Below(front + from, from) && front + from != newDN
    ensures Renamed(front + from, from, newDN) == front + newDN
    ensures Renamed(front + newDN, from, newDN) != front + newDN
  {
    var k, m := front + from, front + newDN;
    assert k[|front|..] == from && k[..|front|] == front && newDN[|g|..] == from;
    assert m == front + g + from && m[|front| + |g|..] == from;
    BelowByText(newDN, from);
    BelowByText(k, from);
    BelowByText(m, from);
    assert m[|front| + |g| - 1] == g[|g| - 1];
    hide Below;
    assert k[0] == m[0] == front[0];
  }

  /** A unit with one object in it, moved below itself: lossless, with no bound and no one result. */
  lemma NestedMove(d: Dir, serial: nat, from: bytes, newDN: bytes, front: bytes, g: bytes)
    requires Valid(d, serial) && d.Keys == {from, front + from}
    requires front != [] && g != [] && front[|front| - 1] == ',' == g[|g| - 1] && newDN == g + from
    requires front[0] != newDN[0]
    ensures Lossless(d.Keys, from, newDN) && !Settling(Start(d, from, newDN).Keys, from, newDN)
    ensures forall n :: !EndsWithin(d, from, newDN, n)
    ensures forall result :: !AlwaysEndsIn(d, from, newDN, result)
  {
    hide Below, Renamed, Start, Valid, EndsWithin, AlwaysEndsIn, OnOrbit;
    var k := front + from;
    NestedNames(from, newDN, front, g);
    StartKeys(d, from, newDN);
    assert newDN != from && newDN !in d;
    assert d.Keys - {from} + {newDN} == {k, newDN};
    ApartFromNewName(k, from, newDN);
    MoveTerminatesIff(d, from, newDN);
    assert k in Start(d, from, newDN).Keys;
    OrderIndependentIff(d, serial, from, newDN);
  }

  lemma ApartFromNewName(k: bytes, from: bytes, newDN: bytes)
    requires |k| > |from| && |newDN| > |from| && k[0] != newDN[0]
    ensures OrbitsApart({k, newDN}, from, newDN)
  {
    forall x | OnOrbit(k, from, newDN, x) && OnOrbit(newDN, from, newDN, x) ensures false {
      NewNameOrbit(from, newDN, x);
      var i: nat :| At(k, from, newDN, i) == x;
      OrbitHead(k, from, newDN, i);
    }
    hide OnOrbit;
  }

  /** Moving "OU=A,DC=c", with "CN=x" in it, below itself as "OU=B,OU=A,DC=c". */
  lemma NestedMoveExample(d: Dir, serial: nat)
    requires Valid(d, serial) && d.Keys == {"OU=A,DC=c", "CN=x,OU=A,DC=c"}
    ensures Lossless(d.Keys, "OU=A,DC=c", "OU=B,OU=A,DC=c")
    ensures forall n :: !EndsWithin(d, "OU=A,DC=c", "OU=B,OU=A,DC=c", n)
    ensures forall result :: !AlwaysEndsIn(d, "OU=A,DC=c", "OU=B,OU=A,DC=c", result)
  {
    hide Valid, Lossless, EndsWithin, AlwaysEndsIn, Settling, Start;
    assert "CN=x," + "OU=A,DC=c" == "CN=x,OU=A,DC=c" && "OU=B," + "OU=A,DC=c" == "OU=B,OU=A,DC=c";
    NestedMove(d, serial, "OU=A,DC=c", "OU=B,OU=A,DC=c", "CN=x,", "OU=B,");
  }
}
