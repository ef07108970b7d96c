/**
 `moveLocked`: a subtree renamed while the map that holds it is being ranged over. Go fixes neither the
 order in which `range` produces entries nor whether it produces an entry that the loop body creates, so
 every result here is about every order a range statement may choose.
 */
module Moves {
  import opened Wrappers
  import opened Bytes
  import opened Scope
  import opened Directory

  /** The object at `from` takes the key `newDN`; its model is updated by the caller. */
  function Start(d: Dir, from: bytes, newDN: bytes): Dir
    requires from in d
  {
    (d - {from})[newDN := d[from].(dn := newDN)]
  }

  /** The loop moves the entry under `k`. */
  predicate Follows(k: bytes, from: bytes, newDN: bytes) { k != newDN && Below(k, from) }

  lemma BelowByText(k: bytes, from: bytes)
    ensures Below(k, from) <==>
            |k| > |from| && k[|k| - |from| - 1] == ',' && Lower(k[|k| - |from|..]) == Lower(from)
  {
    var lk := Lower(k);
    if |k| > |from| {
      var n := |k| - |from|;
      assert lk[n - 1..] == [LowerByte(k[n - 1])] + Lower(k[n..]);
      assert ("," + Lower(from))[1..] == Lower(from);
    }
  }

  /** The key with its last `|from|` bytes replaced. */
  function Moved(k: bytes, from: bytes, newDN: bytes): bytes
    requires |from| <= |k|
  {
    k[..|k| - |from|] + newDN
  }

  function Relabel(it: Item, dn: bytes): Item { it.(dn := dn, model := it.model.(dn := dn)) }

  /** One execution of the loop body. */
  function Visit(d: Dir, from: bytes, newDN: bytes, k: bytes): Dir
    requires k in d
  {
    if !Follows(k, from, newDN) then d
    else
      var moved := Moved(k, from, newDN);
      (d - {k})[moved := Relabel(d[k], moved)]
  }

  // ----- the range statement -----

  /**
   The entries a range statement still must produce, and those it may produce or skip because they were
   created while it ran.
   */
  datatype Range = Range(d: Dir, must: set<bytes>, may: set<bytes>)

  function Begin(d: Dir): Range { Range(d, d.Keys, {}) }

  function Pending(r: Range): set<bytes> { r.must + r.may }

  ghost predicate RangeOk(r: Range) { Pending(r) <= r.d.Keys }

  /** The range produces `k` and the body runs: entries it deletes are not produced, new ones may be. */
  function Produce(r: Range, from: bytes, newDN: bytes, k: bytes): (r': Range)
    requires RangeOk(r) && k in Pending(r)
    ensures RangeOk(r')
  {
    var d' := Visit(r.d, from, newDN, k);
    if !Follows(k, from, newDN) then Range(d', r.must - {k}, r.may - {k})
    else
      var moved := Moved(k, from, newDN);
      var created := if moved == k || moved !in r.d then {moved} else {};
      Range(d', r.must - {k}, r.may - {k} + created)
  }

  /** `order` is the start of a production order the range may choose. */
  predicate Legal(r: Range, from: bytes, newDN: bytes, order: seq<bytes>)
    requires RangeOk(r)
    decreases |order|
  {
    order == [] || (order[0] in Pending(r) && Legal(Produce(r, from, newDN, order[0]), from, newDN, order[1..]))
  }

  function Run(r: Range, from: bytes, newDN: bytes, order: seq<bytes>): (r': Range)
    requires RangeOk(r) && Legal(r, from, newDN, order)
    ensures RangeOk(r')
    decreases |order|
  {
    if order == [] then r else Run(Produce(r, from, newDN, order[0]), from, newDN, order[1..])
  }

  /** The range may end here: nothing it must produce is left. */
  predicate Complete(r: Range, from: bytes, newDN: bytes, order: seq<bytes>)
    requires RangeOk(r)
  {
    Legal(r, from, newDN, order) && Run(r, from, newDN, order).must == {}
  }

  /** Some order always fits: the range may skip everything it may skip. */
  lemma {:induction false} SomeOrderCompletes(r: Range, from: bytes, newDN: bytes) returns (order: seq<bytes>)
    requires RangeOk(r)
    ensures Complete(r, from, newDN, order)
    ensures forall x :: x in order ==> x in r.must
    decreases |r.must|
  {
    if r.must == {} {
      order := [];
    } else {
      var k :| k in r.must;
      var r' := Produce(r, from, newDN, k);
      assert r'.must == r.must - {k};
      var rest := SomeOrderCompletes(r', from, newDN);
      order := [k] + rest;
      assert order[1..] == rest;
    }
  }

  // ----- the store invariant -----

  lemma StartKeepsValid(d: Dir, serial: nat, from: bytes, newDN: bytes)
    requires Valid(d, serial) && from in d
    ensures ValidBut(Start(d, from, newDN), serial, {newDN})
  {
    hide Issued, AclValid;
  }

  lemma VisitKeepsValid(d: Dir, serial: nat, from: bytes, newDN: bytes, k: bytes)
    requires ValidBut(d, serial, {newDN}) && k in d
    ensures ValidBut(Visit(d, from, newDN, k), serial, {newDN})
  {
    hide Issued, AclValid, Moved, Follows, Below;
    if Follows(k, from, newDN) {
      MovedIsLonger(k, from, newDN);
    }
  }

  lemma VisitKeepsTarget(d: Dir, from: bytes, newDN: bytes, k: bytes)
    requires k in d && newDN in d
    ensures newDN in Visit(d, from, newDN, k) && Visit(d, from, newDN, k)[newDN] == d[newDN]
  {
    hide Moved, Follows;
    if Follows(k, from, newDN) {
      MovedIsLonger(k, from, newDN);
    }
  }

  lemma MovedIsLonger(k: bytes, from: bytes, newDN: bytes)
    requires Follows(k, from, newDN)
    ensures k != newDN && |from| <= |k| && |Moved(k, from, newDN)| > |newDN|
  {
    BelowByText(k, from);
  }

  /** The invariant survives every order, also when a move lands on an occupied key. */
  lemma {:induction false} RunKeepsValid(r: Range, serial: nat, from: bytes, newDN: bytes, order: seq<bytes>)
    requires RangeOk(r) && Legal(r, from, newDN, order) && ValidBut(r.d, serial, {newDN}) && newDN in r.d
    ensures var d := Run(r, from, newDN, order).d;
            ValidBut(d, serial, {newDN}) && newDN in d && d[newDN] == r.d[newDN]
    decreases |order|
  {
    if order != [] {
      VisitKeepsValid(r.d, serial, from, newDN, order[0]);
      VisitKeepsTarget(r.d, from, newDN, order[0]);
      hide ValidBut, Visit;
      RunKeepsValid(Produce(r, from, newDN, order[0]), serial, from, newDN, order[1..]);
    }
  }

  // ----- the result of a move to a free place -----

  predicate AtOrBelow(k: bytes, n: bytes) { Lower(k) == Lower(n) || Below(k, n) }

  /** Nothing is stored at or below `newDN`, and `newDN` is not below the old name. */
  predicate FreeMove(d: Dir, from: bytes, newDN: bytes) {
    && from in d
    && (forall k :: k in d ==> !AtOrBelow(k, newDN))
    && !Below(newDN, from)
  }

  /** What can end the text of a name spliced together behind a comma. */
  lemma SpliceBelow(front: bytes, newDN: bytes, from: bytes)
    requires front != [] && front[|front| - 1] == ',' && Below(front + newDN, from)
    ensures Below(newDN, from) || Lower(newDN) == Lower(from) || Below(from, newDN)
  {
    var s := front + newDN;
    var (m, n) := (|s| - |from|, |front|);
    BelowByText(s, from);
    if m > n {
      assert s[m..] == newDN[m - n..] && s[m - 1] == newDN[m - n - 1];
      BelowByText(newDN, from);
    } else if m == n {
      assert s[m..] == newDN;
    } else {
      LowerSuffix(s[m..], from, |newDN|);
      assert s[m..][|from| - |newDN|..] == newDN;
      assert s[m..][|from| - |newDN| - 1] == s[n - 1] == ',';
      BelowByText(from, newDN);
    }
  }

  /** A moved key is below the new name, and no longer below the old one. */
  lemma MovedIsSettled(d: Dir, from: bytes, newDN: bytes, k: bytes)
    requires FreeMove(d, from, newDN) && k in Start(d, from, newDN) && Follows(k, from, newDN)
    ensures var moved := Moved(k, from, newDN);
            !Follows(moved, from, newDN) && moved !in Start(d, from, newDN)
  {
    var moved := Moved(k, from, newDN);
    BelowByText(k, from);
    var n := |k| - |from|;
    assert moved[n..] == newDN && moved[n - 1] == ',';
    BelowByText(moved, newDN);
    assert |moved| > |newDN|;
    assert !AtOrBelow(from, newDN);
    hide Below;
    if Below(moved, from) { SpliceBelow(k[..n], newDN, from); }
  }

  lemma LowerSuffix(s: bytes, t: bytes, n: nat)
    requires Lower(s) == Lower(t) && n <= |s|
    ensures Lower(s[|s| - n..]) == Lower(t[|s| - n..])
    ensures forall i :: 0 <= i < |s| && s[i] == ',' ==> t[i] == ','
  {
    forall i | 0 <= i < |s| ensures LowerByte(s[i]) == LowerByte(t[i]) {
      assert Lower(s)[i] == Lower(t)[i];
    }
  }

  // Below, `d` is the map when the range begins: `Start(d0, from, newDN)` for a free move in `d0`.

  /** The move settles: moved keys are new, and the loop would not move them again. */
  ghost predicate Settles(d: Dir, from: bytes, newDN: bytes) {
    forall k :: k in d && Follows(k, from, newDN) ==>
                  !Follows(Moved(k, from, newDN), from, newDN) && Moved(k, from, newDN) !in d
  }

  /** Where the entry first stored under `k` is once the loop has run on it. */
  function Renamed(k: bytes, from: bytes, newDN: bytes): bytes {
    if Follows(k, from, newDN) then Moved(k, from, newDN) else k
  }

  function Settled(d: Dir, from: bytes, newDN: bytes, k: bytes): Item
    requires k in d
  {
    if Follows(k, from, newDN) then Relabel(d[k], Moved(k, from, newDN)) else d[k]
  }

  /** Where the entry of `k` is when the range has produced the original keys `done`. */
  function Place(k: bytes, from: bytes, newDN: bytes, done: set<bytes>): bytes {
    if k in done then Renamed(k, from, newDN) else k
  }

  /** What that entry holds by then. */
  function Held(d: Dir, from: bytes, newDN: bytes, k: bytes, done: set<bytes>): Item
    requires k in d
  {
    if k in done then Settled(d, from, newDN, k) else d[k]
  }

  /** The entry `d'` holds under `x` is the one that `d` holds under `k`. */
  predicate Source(d': Dir, d: Dir, from: bytes, newDN: bytes, done: set<bytes>, x: bytes, k: bytes)
    requires x in d'
  {
    k in d && Place(k, from, newDN, done) == x && d'[x] == Held(d, from, newDN, k, done)
  }

  /** `d'` is `d` with the entries of `done` moved; entries that moved to one key have overwritten each other. */
  ghost predicate Image(d': Dir, d: Dir, from: bytes, newDN: bytes, done: set<bytes>) {
    && (forall k :: k in d ==> Place(k, from, newDN, done) in d')
    && (forall x :: x in d' ==> exists k :: Source(d', d, from, newDN, done, x, k))
  }

  /** The state of the range after it has produced the original keys `done`. */
  ghost predicate Progress(r: Range, d: Dir, from: bytes, newDN: bytes, done: set<bytes>) {
    && done <= d.Keys && r.must == d.Keys - done
    && (forall x :: x in r.may ==> !Follows(x, from, newDN) && x !in d)
    && Image(r.d, d, from, newDN, done)
  }

  lemma ProgressBegin(d: Dir, from: bytes, newDN: bytes)
    ensures Progress(Begin(d), d, from, newDN, {})
  {
    hide Follows;
    forall x | x in d ensures exists k :: Source(d, d, from, newDN, {}, x, k) {
      assert Source(d, d, from, newDN, {}, x, x);
    }
  }

  lemma ImageSkip(d': Dir, d: Dir, from: bytes, newDN: bytes, done: set<bytes>, k: bytes)
    requires Image(d', d, from, newDN, done) && k in d && !Follows(k, from, newDN)
    ensures Image(d', d, from, newDN, done + {k})
  {
    hide Follows, Moved, Relabel;
    forall l | l in d
      ensures Place(l, from, newDN, done + {k}) == Place(l, from, newDN, done)
      ensures Held(d, from, newDN, l, done + {k}) == Held(d, from, newDN, l, done)
    {}
    hide Place, Held;
    forall x | x in d' ensures exists l :: Source(d', d, from, newDN, done + {k}, x, l) {
      var l :| Source(d', d, from, newDN, done, x, l);
      assert Source(d', d, from, newDN, done + {k}, x, l);
    }
  }

  lemma ProgressSkip(r: Range, d: Dir, from: bytes, newDN: bytes, done: set<bytes>, k: bytes)
    requires RangeOk(r) && Progress(r, d, from, newDN, done) && k in Pending(r) && !Follows(k, from, newDN)
    ensures Progress(Produce(r, from, newDN, k), d, from, newDN, if k in d then done + {k} else done)
  {
    hide Image, Follows, Moved, Relabel;
    if k in d { ImageSkip(r.d, d, from, newDN, done, k); }
    assert Visit(r.d, from, newDN, k) == r.d;
  }

  /** A key the range has not produced still holds its own entry. */
  lemma OwnEntry(d': Dir, d: Dir, from: bytes, newDN: bytes, done: set<bytes>, k: bytes)
    requires Image(d', d, from, newDN, done) && Settles(d, from, newDN)
    requires k in d && k !in done
    ensures k in d' && d'[k] == d[k]
  {
    assert Place(k, from, newDN, done) in d';
    var l :| Source(d', d, from, newDN, done, k, l);
    hide Follows, Moved, Relabel;
  }

  lemma ImageMove(d': Dir, d: Dir, from: bytes, newDN: bytes, done: set<bytes>, k: bytes)
    requires Image(d', d, from, newDN, done) && Settles(d, from, newDN)
    requires k in d && k !in done && k in d' && Follows(k, from, newDN)
    ensures Image(Visit(d', from, newDN, k), d, from, newDN, done + {k})
  {
    OwnEntry(d', d, from, newDN, done, k);
    var (d2, done2) := (Visit(d', from, newDN, k), done + {k});
    var moved := Moved(k, from, newDN);
    hide Follows, Moved, Relabel;
    forall l | l in d && l != k
      ensures Place(l, from, newDN, done2) == Place(l, from, newDN, done) != k
      ensures Held(d, from, newDN, l, done2) == Held(d, from, newDN, l, done)
    {}
    assert Place(k, from, newDN, done2) == moved && Held(d, from, newDN, k, done2) == d2[moved];
    hide Place, Held, Visit;
    forall x | x in d2 ensures exists l :: Source(d2, d, from, newDN, done2, x, l) {
      if x == moved {
        assert Source(d2, d, from, newDN, done2, x, k);
      } else {
        var l :| Source(d', d, from, newDN, done, x, l);
        assert l != k;
        assert Source(d2, d, from, newDN, done2, x, l);
      }
    }
  }

  lemma ProgressMove(r: Range, d: Dir, from: bytes, newDN: bytes, done: set<bytes>, k: bytes)
    requires RangeOk(r) && Progress(r, d, from, newDN, done) && Settles(d, from, newDN)
    requires k in Pending(r) && Follows(k, from, newDN)
    ensures k in d && k !in done
    ensures Progress(Produce(r, from, newDN, k), d, from, newDN, done + {k})
  {
    hide Image, Follows, Moved, Visit;
    ImageMove(r.d, d, from, newDN, done, k);
  }

  /** After any legal order the map is the image of the original under the keys produced so far. */
  lemma {:induction false} RunProgress(r: Range, d: Dir, from: bytes, newDN: bytes, done: set<bytes>, order: seq<bytes>)
    requires RangeOk(r) && Progress(r, d, from, newDN, done) && Settles(d, from, newDN)
    requires Legal(r, from, newDN, order)
    ensures exists done' :: Progress(Run(r, from, newDN, order), d, from, newDN, done')
    decreases |order|
  {
    hide Progress, Settles;
    if order == [] {
      assert Progress(Run(r, from, newDN, order), d, from, newDN, done);
    } else {
      var k := order[0];
      var r' := Produce(r, from, newDN, k);
      var done' := if k in d then done + {k} else done;
      if Follows(k, from, newDN) {
        ProgressMove(r, d, from, newDN, done, k);
      } else {
        ProgressSkip(r, d, from, newDN, done, k);
      }
      RunProgress(r', d, from, newDN, done', order[1..]);
      var last :| Progress(Run(r', from, newDN, order[1..]), d, from, newDN, last);
      assert Progress(Run(r, from, newDN, order), d, from, newDN, last);
    }
  }

  lemma {:induction false} SubsetSize<T>(a: set<T>, b: set<T>)
    requires a <= b
    ensures |a| <= |b|
  {
    assert b == a + (b - a);
  }

  lemma FreeMoveSettles(d: Dir, from: bytes, newDN: bytes)
    requires FreeMove(d, from, newDN)
    ensures Settles(Start(d, from, newDN), from, newDN)
  {
    forall k | k in Start(d, from, newDN) && Follows(k, from, newDN)
      ensures !Follows(Moved(k, from, newDN), from, newDN)
      ensures Moved(k, from, newDN) !in Start(d, from, newDN)
    {
      MovedIsSettled(d, from, newDN, k);
    }
  }

  /** The key an object has after the whole move. */
  function FinalKey(k: bytes, from: bytes, newDN: bytes): bytes {
    if k == from then newDN else Renamed(k, from, newDN)
  }

  /** The object stored under `k` after the whole move, before the caller updates the model of the moved object. */
  function FinalItem(d: Dir, from: bytes, newDN: bytes, k: bytes): Item
    requires k in d
  {
    if k == from then d[k].(dn := newDN) else Settled(d, from, newDN, k)
  }

  /**
   The result of a move to a free place, for every order the range may choose: the keys at or below the old
   name have that suffix replaced, every other entry is untouched, and no other key appears.
   */
  lemma MoveResult(d: Dir, from: bytes, newDN: bytes, order: seq<bytes>)
    requires FreeMove(d, from, newDN) && Complete(Begin(Start(d, from, newDN)), from, newDN, order)
    ensures var d' := Run(Begin(Start(d, from, newDN)), from, newDN, order).d;
            && d'.Keys == (set k | k in d :: FinalKey(k, from, newDN))
            && forall x :: x in d' ==> exists k :: k in d && FinalKey(k, from, newDN) == x
                                               && d'[x] == FinalItem(d, from, newDN, k)
  {
    var d1 := Start(d, from, newDN);
    FreeMoveSettles(d, from, newDN);
    ProgressBegin(d1, from, newDN);
    RunProgress(Begin(d1), d1, from, newDN, {}, order);
    var r := Run(Begin(d1), from, newDN, order);
    var done :| Progress(r, d1, from, newDN, done);
    hide Run, Legal, Settles, Start, Image;
    assert done == d1.Keys;
    SelfNotBelow(from);
    assert newDN !in d by { SelfAt(newDN); }
    FinalImage(r.d, d, from, newDN);
  }

  lemma SelfAt(k: bytes)
    ensures AtOrBelow(k, k)
  {}

  lemma FinalImage(d': Dir, d: Dir, from: bytes, newDN: bytes)
    requires from in d && newDN !in d && !Below(from, from)
    requires Image(d', Start(d, from, newDN), from, newDN, Start(d, from, newDN).Keys)
    ensures d'.Keys == (set k | k in d :: FinalKey(k, from, newDN))
    ensures forall x :: x in d' ==>
              exists k :: k in d && FinalKey(k, from, newDN) == x && d'[x] == FinalItem(d, from, newDN, k)
  {
    hide Below, Moved, Relabel;
    var d1 := Start(d, from, newDN);
    forall k | k in d ensures FinalKey(k, from, newDN) in d' {
      assert Place(if k == from then newDN else k, from, newDN, d1.Keys) in d';
    }
    forall x | x in d'
      ensures exists k :: k in d && FinalKey(k, from, newDN) == x && d'[x] == FinalItem(d, from, newDN, k)
    {
      var l :| Source(d', d1, from, newDN, d1.Keys, x, l);
      var k := if l == newDN then from else l;
      assert FinalKey(k, from, newDN) == x;
    }
  }

  lemma SelfNotBelow(k: bytes)
    ensures !Below(k, k)
  {
    BelowByText(k, k);
  }

  // ----- when nothing is lost -----

  /** Two keys below `from` that the move sends to one key: they differ only in the letter case of that part. */
  predicate Twins(k: bytes, l: bytes, from: bytes) {
    k != l && Below(k, from) && Below(l, from) && |k| >= |from| && |l| >= |from|
    && k[..|k| - |from|] == l[..|l| - |from|]
  }

  lemma SameFinalKey(d: Dir, from: bytes, newDN: bytes, k: bytes, l: bytes)
    requires FreeMove(d, from, newDN) && k in d && l in d && k != l
    ensures FinalKey(k, from, newDN) == FinalKey(l, from, newDN) <==> Twins(k, l, from)
  {
    SelfNotBelow(from);
    BelowByText(k, from);
    BelowByText(l, from);
    if Below(k, from) && !Below(l, from) { SettledApart(d, from, newDN, k, l); }
    if Below(l, from) && !Below(k, from) { SettledApart(d, from, newDN, l, k); }
    hide Below;
    if Below(k, from) && Below(l, from) && FinalKey(k, from, newDN) == FinalKey(l, from, newDN) {
      var (p, q) := (k[..|k| - |from|], l[..|l| - |from|]);
      assert |p| == |q|;
      assert p == (p + newDN)[..|p|] == (q + newDN)[..|q|] == q;
    }
  }

  /** A moved key meets no key that stays, and not the new name. */
  lemma SettledApart(d: Dir, from: bytes, newDN: bytes, k: bytes, l: bytes)
    requires FreeMove(d, from, newDN) && k in d && l in d && Below(k, from) && !Below(l, from)
    ensures FinalKey(k, from, newDN) != FinalKey(l, from, newDN)
  {
    SelfNotBelow(from);
    SelfNotBelow(newDN);
    BelowByText(k, from);
    MovedIsSettled(d, from, newDN, k);
    assert |Moved(k, from, newDN)| > |newDN|;
    hide Below;
  }

  lemma {:induction false} ImageSize(keys: set<bytes>, from: bytes, newDN: bytes)
    ensures var image := set k | k in keys :: FinalKey(k, from, newDN);
            |image| <= |keys|
            && (|image| == |keys| <==>
                forall k, l :: k in keys && l in keys ==>
                  FinalKey(k, from, newDN) == FinalKey(l, from, newDN) ==> k == l)
  {
    hide FinalKey;
    if keys != {} {
      var k :| k in keys;
      var rest := keys - {k};
      var image := set l | l in rest :: FinalKey(l, from, newDN);
      ImageSize(rest, from, newDN);
      var x := FinalKey(k, from, newDN);
      ToggleSize(keys, k);
      ToggleSize(image, x);
      assert (set l | l in keys :: FinalKey(l, from, newDN)) == image + {x};
      assert x in image <==> exists l :: l in rest && FinalKey(l, from, newDN) == x;
    }
  }

  /** No two stored keys below the old name differ only in the letter case of the old name. */
  predicate NoTwins(d: Dir, from: bytes) {
    forall k, l :: k in d && l in d ==> !Twins(k, l, from)
  }

  lemma NoTwinsMeansNoMeeting(d: Dir, from: bytes, newDN: bytes)
    requires FreeMove(d, from, newDN)
    ensures NoTwins(d, from) <==>
            forall k, l :: k in d && l in d ==> FinalKey(k, from, newDN) == FinalKey(l, from, newDN) ==> k == l
  {
    hide Twins, FinalKey, FreeMove;
    forall k, l | k in d && l in d && k != l
      ensures FinalKey(k, from, newDN) == FinalKey(l, from, newDN) <==> Twins(k, l, from)
    {
      SameFinalKey(d, from, newDN, k, l);
    }
    assert forall k :: !Twins(k, k, from) by { NotOwnTwin(from); }
  }

  /** A move to a free place loses no object, in any order, exactly when there are no twins below the old name. */
  lemma FreeMoveConserves(d: Dir, from: bytes, newDN: bytes, order: seq<bytes>)
    requires FreeMove(d, from, newDN) && Complete(Begin(Start(d, from, newDN)), from, newDN, order)
    ensures var d' := Run(Begin(Start(d, from, newDN)), from, newDN, order).d;
            && |d'| <= |d|
            && (|d'| == |d| <==> NoTwins(d, from))
            && (NoTwins(d, from) ==> forall k :: k in d ==>
                  FinalKey(k, from, newDN) in d' && d'[FinalKey(k, from, newDN)] == FinalItem(d, from, newDN, k))
  {
    hide Start, NoTwins, AtOrBelow, Below, FinalItem, FinalKey, Run, Legal;
    MoveResult(d, from, newDN, order);
    ImageSize(d.Keys, from, newDN);
    NoTwinsMeansNoMeeting(d, from, newDN);
    var d' := Run(Begin(Start(d, from, newDN)), from, newDN, order).d;
    assert |d'| == |d'.Keys| && |d| == |d.Keys|;
  }

  lemma NotOwnTwin(from: bytes)
    ensures forall k :: !Twins(k, k, from)
  {}

  /** Then the result does not depend on the order either. */
  lemma MoveOrderIndependent(d: Dir, from: bytes, newDN: bytes, order: seq<bytes>, order': seq<bytes>)
    requires FreeMove(d, from, newDN) && NoTwins(d, from)
    requires Complete(Begin(Start(d, from, newDN)), from, newDN, order)
    requires Complete(Begin(Start(d, from, newDN)), from, newDN, order')
    ensures Run(Begin(Start(d, from, newDN)), from, newDN, order).d ==
            Run(Begin(Start(d, from, newDN)), from, newDN, order').d
  {
    hide Start, NoTwins, FinalItem, FinalKey, Legal, FreeMove;
    MoveResult(d, from, newDN, order);
    MoveResult(d, from, newDN, order');
    FreeMoveConserves(d, from, newDN, order);
    FreeMoveConserves(d, from, newDN, order');
    hide Run;
  }

  // ----- when the move ends -----

  /** A move below itself carries a descendant ever deeper: the range may produce it again each time. */
  lemma {:induction false} NestedMoveGoesOn(r: Range, from: bytes, newDN: bytes, k: bytes, n: nat)
    returns (order: seq<bytes>)
    requires RangeOk(r) && Below(newDN, from) && k in Pending(r) && Follows(k, from, newDN)
    requires forall x :: x in r.d && |x| >= |k| ==> x in Pending(r)
    ensures Legal(r, from, newDN, order) && |order| == n
    decreases n
  {
    if n == 0 {
      order := [];
    } else {
      var moved := Moved(k, from, newDN);
      BelowByText(k, from);
      BelowByText(newDN, from);
      var front := k[..|k| - |from|];
      assert moved == front + newDN && |newDN| > |from| && |moved| > |k|;
      var (m, m') := (|moved| - |from|, |newDN| - |from|);
      assert moved[m..] == newDN[m'..] && moved[m - 1] == newDN[m' - 1];
      BelowByText(moved, from);
      hide Below;
      var rest := NestedMoveGoesOn(Produce(r, from, newDN, k), from, newDN, moved, n - 1);
      order := [k] + rest;
      assert order[1..] == rest;
    }
  }

  /** Spelled as the new name already, a descendant is deleted and stored again under its own key. */
  lemma {:induction false} RestoredGoesOn(r: Range, from: bytes, newDN: bytes, k: bytes, n: nat)
    returns (order: seq<bytes>)
    requires RangeOk(r) && k in Pending(r) && Follows(k, from, newDN) && |from| <= |k| && Moved(k, from, newDN) == k
    ensures Legal(r, from, newDN, order) && |order| == n
    decreases n
  {
    hide Moved, Follows;
    if n == 0 {
      order := [];
    } else {
      var rest := RestoredGoesOn(Produce(r, from, newDN, k), from, newDN, k, n - 1);
      order := [k] + rest;
      assert order[1..] == rest;
    }
  }

  /** A rename that changes letter case only leaves the descendants below the old name. */
  lemma CaseRenameGoesOn(r: Range, from: bytes, newDN: bytes, k: bytes, n: nat) returns (order: seq<bytes>)
    requires RangeOk(r) && Pending(r) == r.d.Keys && Lower(newDN) == Lower(from)
    requires k in r.d && Follows(k, from, newDN)
    ensures Legal(r, from, newDN, order) && |order| >= n
  {
    BelowByText(k, from);
    var moved := Moved(k, from, newDN);
    assert |newDN| == |from| && |moved| == |k|;
    assert moved[|k| - |from|..] == newDN && moved[..|k| - |from|] == k[..|k| - |from|];
    BelowByText(moved, from);
    assert Moved(moved, from, newDN) == moved;
    hide Below, Moved;
    if moved in r.d {
      order := RestoredGoesOn(r, from, newDN, moved, n);
    } else {
      var rest := RestoredGoesOn(Produce(r, from, newDN, k), from, newDN, moved, n);
      order := [k] + rest;
      assert order[1..] == rest;
    }
  }

  /** What is left to do for a pending key: a key that moves gets shorter or settles. */
  function Load(k: bytes, from: bytes, newDN: bytes): nat { if Follows(k, from, newDN) then |k| + 2 else 1 }

  ghost function Weight(keys: set<bytes>, from: bytes, newDN: bytes): nat {
    if keys == {} then 0
    else
      var k := Pick(keys);
      Load(k, from, newDN) + Weight(keys - {k}, from, newDN)
  }

  lemma {:induction false} WeightWithout(keys: set<bytes>, from: bytes, newDN: bytes, k: bytes)
    requires k in keys
    ensures Weight(keys, from, newDN) == Load(k, from, newDN) + Weight(keys - {k}, from, newDN)
    decreases |keys|
  {
    hide Load;
    var x := Pick(keys);
    if x != k {
      WeightWithout(keys - {x}, from, newDN, k);
      WeightWithout(keys - {k}, from, newDN, x);
      assert keys - {x} - {k} == keys - {k} - {x};
    }
  }

  lemma WeightWith(keys: set<bytes>, from: bytes, newDN: bytes, k: bytes)
    ensures Weight(keys + {k}, from, newDN) <= Weight(keys, from, newDN) + Load(k, from, newDN)
  {
    hide Load, Weight;
    if k in keys {
      assert keys + {k} == keys;
    } else {
      WeightWithout(keys + {k}, from, newDN, k);
      assert keys + {k} - {k} == keys;
    }
  }

  lemma MovedLoadFalls(k: bytes, from: bytes, newDN: bytes)
    requires Follows(k, from, newDN) && !AtOrBelow(newDN, from)
    ensures |from| <= |k| && Load(Moved(k, from, newDN), from, newDN) < Load(k, from, newDN)
  {
    BelowByText(k, from);
    var front := k[..|k| - |from|];
    BelowByText(from, newDN);
    hide Below;
    if Below(front + newDN, from) { SpliceBelow(front, newDN, from); }
  }

  lemma ProduceShrinks(r: Range, from: bytes, newDN: bytes, k: bytes)
    requires RangeOk(r) && k in Pending(r) && !AtOrBelow(newDN, from)
    ensures Weight(Pending(Produce(r, from, newDN, k)), from, newDN) < Weight(Pending(r), from, newDN)
  {
    hide Weight, Visit, Moved, AtOrBelow;
    var (p, p') := (Pending(r), Pending(Produce(r, from, newDN, k)));
    WeightWithout(p, from, newDN, k);
    if Follows(k, from, newDN) {
      MovedLoadFalls(k, from, newDN);
      WeightWith(p - {k}, from, newDN, Moved(k, from, newDN));
      assert p' == p - {k} || p' == p - {k} + {Moved(k, from, newDN)};
    } else {
      assert p' == p - {k};
    }
  }

  lemma {:induction false} OrderIsBounded(r: Range, from: bytes, newDN: bytes, order: seq<bytes>)
    requires RangeOk(r) && Legal(r, from, newDN, order) && !AtOrBelow(newDN, from)
    ensures |order| <= Weight(Pending(r), from, newDN)
    decreases |order|
  {
    if order != [] {
      ProduceShrinks(r, from, newDN, order[0]);
      hide Weight, Produce, AtOrBelow;
      OrderIsBounded(Produce(r, from, newDN, order[0]), from, newDN, order[1..]);
    }
  }

  /** No order of the range of a move is longer than `n`. */
  ghost predicate EndsWithin(d: Dir, from: bytes, newDN: bytes, n: nat)
    requires from in d
  {
    forall order :: Legal(Begin(Start(d, from, newDN)), from, newDN, order) ==> |order| <= n
  }

  /**
   Whatever is stored, the loop ends for every order the range may choose, unless the new name is at or below
   the old one and the object has something below it: then no bound on its length holds.
   */
  lemma MoveTerminatesIff(d: Dir, from: bytes, newDN: bytes)
    requires from in d
    ensures (exists n :: EndsWithin(d, from, newDN, n)) <==>
            !(AtOrBelow(newDN, from) && exists k :: k in d && k != newDN && Below(k, from))
  {
    var d1 := Start(d, from, newDN);
    SelfNotBelow(from);
    if AtOrBelow(newDN, from) {
      if k :| k in d && k != newDN && Below(k, from) {
        forall n: nat ensures !EndsWithin(d, from, newDN, n) {
          var order;
          if Below(newDN, from) {
            order := NestedMoveGoesOn(Begin(d1), from, newDN, k, n + 1);
          } else {
            order := CaseRenameGoesOn(Begin(d1), from, newDN, k, n + 1);
          }
        }
      } else {
        NothingToMove(d, from, newDN);
      }
    } else {
      BoundedMove(d, from, newDN);
    }
  }

  lemma BoundedMove(d: Dir, from: bytes, newDN: bytes)
    requires from in d && !AtOrBelow(newDN, from)
    ensures EndsWithin(d, from, newDN, Weight(Start(d, from, newDN).Keys, from, newDN))
  {
    var d1 := Start(d, from, newDN);
    assert Pending(Begin(d1)) == d1.Keys;
    forall order | Legal(Begin(d1), from, newDN, order)
      ensures |order| <= Weight(d1.Keys, from, newDN)
    {
      OrderIsBounded(Begin(d1), from, newDN, order);
    }
  }

  lemma NothingToMove(d: Dir, from: bytes, newDN: bytes)
    requires from in d && forall k :: k in d && k != newDN ==> !Below(k, from)
    ensures EndsWithin(d, from, newDN, |Start(d, from, newDN)|)
  {
    var d1 := Start(d, from, newDN);
    hide Below;
    forall order | Legal(Begin(d1), from, newDN, order)
      ensures |order| <= |d1|
    {
      IdleRangeEnds(Begin(d1), from, newDN, order);
    }
    assert |d1| == |d1.Keys|;
  }

  lemma {:induction false} IdleRangeEnds(r: Range, from: bytes, newDN: bytes, order: seq<bytes>)
    requires RangeOk(r) && Legal(r, from, newDN, order) && r.may == {}
    requires forall k :: k in r.d ==> !Follows(k, from, newDN)
    ensures |order| <= |r.must|
    decreases |order|
  {
    hide Follows, Moved;
    if order != [] {
      ToggleSize(r.must, order[0]);
      IdleRangeEnds(Produce(r, from, newDN, order[0]), from, newDN, order[1..]);
    }
  }

  // ----- a move onto an occupied name -----

  lemma {:induction false} RunNeverGrows(r: Range, from: bytes, newDN: bytes, order: seq<bytes>)
    requires RangeOk(r) && Legal(r, from, newDN, order)
    ensures |Run(r, from, newDN, order).d| <= |r.d|
    decreases |order|
  {
    if order != [] {
      VisitNeverGrows(r.d, from, newDN, order[0]);
      hide Visit;
      RunNeverGrows(Produce(r, from, newDN, order[0]), from, newDN, order[1..]);
    }
  }

  lemma VisitNeverGrows(d: Dir, from: bytes, newDN: bytes, k: bytes)
    requires k in d
    ensures |Visit(d, from, newDN, k)| <= |d|
  {
    hide Moved, Follows;
    if Follows(k, from, newDN) {
      MovedIsLonger(k, from, newDN);
      RekeySize(d, k, Moved(k, from, newDN), Relabel(d[k], Moved(k, from, newDN)));
    }
  }

  lemma RekeySize(d: Dir, k: bytes, l: bytes, it: Item)
    requires k in d
    ensures |(d - {k})[l := it]| == |d| - if l != k && l in d then 1 else 0
  {
    var d' := (d - {k})[l := it];
    assert d'.Keys == d.Keys - {k} + {l};
    ToggleSize(d.Keys, k);
    ToggleSize(d.Keys - {k}, l);
    assert |d'| == |d'.Keys| && |d| == |d.Keys|;
  }

  /**
   A move makes no object, whatever is stored and whatever the order; and moving onto the name of another
   object, which `Update` does not refuse, always loses one.
   */
  lemma MoveOntoOccupiedLoses(d: Dir, from: bytes, newDN: bytes, order: seq<bytes>)
    requires from in d && Legal(Begin(Start(d, from, newDN)), from, newDN, order)
    ensures |Run(Begin(Start(d, from, newDN)), from, newDN, order).d| <= |d|
    ensures newDN in d && newDN != from ==> |Run(Begin(Start(d, from, newDN)), from, newDN, order).d| < |d|
  {
    hide Run, Legal;
    RekeySize(d, from, newDN, d[from].(dn := newDN));
    RunNeverGrows(Begin(Start(d, from, newDN)), from, newDN, order);
  }
}
