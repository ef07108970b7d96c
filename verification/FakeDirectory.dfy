/**
 The in-memory directory (`adcorefake`). Every operation runs under the store's mutex, so its methods are
 sequential. Where Go ranges over a map it does not change, a method takes the keys in any order.
 */
module FakeDirectory {
  import opened Bytes
  import Grammar
  import opened Scope
  import opened AceKey
  import opened Directory
  import opened Moves
  import opened Operations
  import opened Acl
  import opened Membership
  import History
  import Automaton
  import Printer

  class Object {
    const guid: bytes
    const cls: Class
    var dn: bytes
    var model: Model
    var members: set<bytes>
    var dacl: seq<ACE>

    constructor (guid: bytes, cls: Class, dn: bytes, model: Model)
      ensures View() == Item(guid, cls, dn, model, {}, [])
    {
      this.guid, this.cls, this.dn, this.model := guid, cls, dn, model;
      members, dacl := {}, [];
    }

    ghost function View(): Item
      reads this
    {
      Item(guid, cls, dn, model, members, dacl)
    }
  }

  datatype Query = Query(searchBase: bytes, scope: SearchScope, sizeLimit: nat)

  ghost function Elements<T>(s: seq<T>): set<T> { set x | x in s }

  lemma ElementsSnoc<T>(s: seq<T>, x: T)
    ensures Elements(s + [x]) == Elements(s) + {x}
  {
    assert forall y :: y in s + [x] <==> y in s || y == x;
  }

  class Store {
    var byDN: map<bytes, Object>
    var serial: nat

    ghost function Contents(): (d: Dir)
      reads this`byDN, byDN.Values
      ensures d.Keys == byDN.Keys
    {
      map k | k in byDN :: byDN[k].View()
    }

    /** Every object is stored under its own name. */
    ghost predicate Named()
      reads this`byDN, byDN.Values
    {
      forall k :: k in byDN ==> byDN[k].dn == k
    }

    ghost predicate Valid()
      reads this, byDN.Values
    {
      Named() && Directory.Valid(Contents(), serial)
    }

    ghost function Now(): History.State
      reads this, byDN.Values
    {
      History.State(Contents(), serial)
    }

    /** An empty directory. */
    constructor ()
      ensures Valid() && Now() == History.EMPTY
    {
      byDN, serial := map[], 0;
    }

    /** Some object that answers to `id`, or null if none does. */
    method FindLocked(id: Identity) returns (o: Object?)
      ensures o == null ==> forall k :: !Matches(Contents(), id, k)
      ensures o != null ==> exists k :: k in byDN && byDN[k] == o && Matches(Contents(), id, k)
    {
      hide EqDN;
      var pending := byDN.Keys;
      while pending != {}
        invariant pending <= byDN.Keys
        invariant forall k :: k in byDN && k !in pending ==> !Matches(Contents(), id, k)
      {
        var k :| k in pending;
        var found := match id
          case ByGUID(g) => byDN[k].guid == g
          case ByDN(n) => EqDN(k, n);
        if found {
          assert Matches(Contents(), id, k);
          return byDN[k];
        }
        pending := pending - {k};
      }
      return null;
    }

    // ----- create, get, search -----

    /** Some stored name equals `dn`. */
    method Taken(dn: bytes) returns (taken: bool)
      ensures taken <==> Occupied(Contents(), dn)
    {
      hide EqDN;
      var pending := byDN.Keys;
      while pending != {}
        invariant pending <= byDN.Keys
        invariant forall k :: k in byDN && k !in pending ==> !EqDN(k, dn)
      {
        var have :| have in pending;
        if EqDN(have, dn) {
          return true;
        }
        pending := pending - {have};
      }
      return false;
    }

    method ValidateSpec(s: Spec) returns (ok: bool)
      ensures ok <==> SpecValid(s)
      ensures ok <==> s.name != [] && s.container != [] && Grammar.Parse(s.container).Some?
    {
      if s.name == [] || s.container == [] {
        return false;
      }
      var container := Automaton.ParseDN(s.container);
      return container.Some?;
    }

    method NewName(cls: Class, s: Spec) returns (dn: bytes)
      ensures dn == NameOf(cls, s)
    {
      var name := Printer.EscapeValue(s.name);
      return TypeOf(cls) + "=" + name + "," + s.container;
    }

    method Create(cls: Class, s: Spec) returns (r: Result<Model>)
      requires Valid()
      modifies this
      ensures Valid()
      ensures r.Err? ==> Contents() == old(Contents()) && serial == old(serial)
      ensures r == Err(Constraint) <==> s.name == [] || s.container == [] || Grammar.Parse(s.container).None?
      ensures !SpecValid(s) ==> r == Err(Constraint)
      ensures SpecValid(s) && Occupied(old(Contents()), NameOf(cls, s)) ==> r == Err(AlreadyExists)
      ensures SpecValid(s) && !Occupied(old(Contents()), NameOf(cls, s)) ==>
                var it := NewItem(cls, s, Guid(old(serial) + 1));
                && r == Ok(it.model) && serial == old(serial) + 1
                && Contents() == old(Contents())[NameOf(cls, s) := it]
      ensures History.Next(old(Now()), Now())
    {
      hide NameOf, SpecValid, Occupied, Guid, Directory.Valid, Contents, Named, History.Next;
      History.NothingIsNext(Now());
      var ok := ValidateSpec(s);
      if !ok {
        return Err(Constraint);
      }
      var dn := NewName(cls, s);
      var taken := Taken(dn);
      if taken {
        return Err(AlreadyExists);
      }
      History.CreateIsNext(Contents(), serial, cls, s);
      var m := Admit(cls, s);
      return Ok(m);
    }

    /** The next GUID goes to a new object under its name. */
    method Admit(cls: Class, s: Spec) returns (m: Model)
      requires Valid()
      modifies this
      ensures Valid() && serial == old(serial) + 1
      ensures var it := NewItem(cls, s, Guid(old(serial) + 1));
              m == it.model && Contents() == old(Contents())[NameOf(cls, s) := it]
    {
      hide NameOf, Guid, Directory.Valid;
      CreateKeepsValid(Contents(), serial, cls, s);
      var it := NewItem(cls, s, Guid(serial + 1));
      serial := serial + 1;
      Insert(it);
      return it.model;
    }

    /** Stores a new object under its name; whatever had that very name is no longer stored. */
    method Insert(it: Item)
      requires Named() && it.members == {} && it.dacl == []
      modifies this`byDN
      ensures Named() && Contents() == old(Contents())[it.dn := it]
      ensures forall o :: o in byDN.Values ==> o in old(byDN.Values) || fresh(o)
    {
      var o := new Object(it.guid, it.cls, it.dn, it.model);
      byDN := byDN[it.dn := o];
    }

    method Get(cls: Class, id: Identity) returns (r: Result<Model>)
      ensures GetResult(Contents(), cls, id, r)
    {
      hide Matches;
      var o := FindLocked(id);
      if o == null || o.cls != cls {
        return Err(NotFound);
      }
      return Ok(o.model);
    }

    ghost function Hits(cls: Class, q: Query): set<bytes>
      reads this`byDN, byDN.Values
    {
      set k | k in byDN && byDN[k].cls == cls && InScope(k, q.searchBase, q.scope)
    }

    ghost function Models(keys: set<bytes>): set<Model>
      reads this, byDN.Values
    {
      set k | k in keys && k in byDN :: byDN[k].model
    }

    /** A search returns every hit once, or fails when there are more than its limit: it never truncates. */
    method Search(cls: Class, q: Query) returns (r: Result<seq<Model>>)
      ensures r.Ok? ==> forall m :: m in r.value <==> exists k ::
                && k in Contents() && Contents()[k].cls == cls && InScope(k, q.searchBase, q.scope)
                && m == Contents()[k].model
      ensures r == Err(TooManyResults) <==> |Hits(cls, q)| > q.sizeLimit
      ensures r.Ok? <==> |Hits(cls, q)| <= q.sizeLimit
      ensures r.Ok? ==> |r.value| == |Hits(cls, q)| && Elements(r.value) == Models(Hits(cls, q))
    {
      hide InScope, Elements, Hits, Models;
      var pending, out := byDN.Keys, [];
      NoModels(cls, q);
      while pending != {}
        invariant pending <= byDN.Keys
        invariant |out| == |Hits(cls, q) - pending| && Elements(out) == Models(Hits(cls, q) - pending)
      {
        var k :| k in pending;
        SearchStep(cls, q, pending, k, out);
        pending := pending - {k};
        if byDN[k].cls == cls && InScope(k, q.searchBase, q.scope) {
          out := out + [byDN[k].model];
        }
      }
      assert Hits(cls, q) - {} == Hits(cls, q);
      SearchSays(cls, q, out);
      if |out| > q.sizeLimit {
        return Err(TooManyResults);
      }
      return Ok(out);
    }

    lemma SearchSays(cls: Class, q: Query, out: seq<Model>)
      requires Elements(out) == Models(Hits(cls, q))
      ensures forall m :: m in out <==> exists k ::
                && k in Contents() && Contents()[k].cls == cls && InScope(k, q.searchBase, q.scope)
                && m == Contents()[k].model
    {
      hide InScope;
      forall m ensures m in out <==> exists k ::
          k in Contents() && Contents()[k].cls == cls && InScope(k, q.searchBase, q.scope) && m == Contents()[k].model {
        assert m in out <==> m in Elements(out);
        if k :|
          && k in Contents() && Contents()[k].cls == cls && InScope(k, q.searchBase, q.scope)
          && m == Contents()[k].model {
          assert k in Hits(cls, q);
        }
      }
    }

    lemma SearchStep(cls: Class, q: Query, pending: set<bytes>, k: bytes, out: seq<Model>)
      requires k in pending && pending <= byDN.Keys
      requires |out| == |Hits(cls, q) - pending| && Elements(out) == Models(Hits(cls, q) - pending)
      ensures var hit := byDN[k].cls == cls && InScope(k, q.searchBase, q.scope);
              var out' := if hit then out + [byDN[k].model] else out;
              |out'| == |Hits(cls, q) - (pending - {k})| && Elements(out') == Models(Hits(cls, q) - (pending - {k}))
    {
      hide InScope, Elements, Models;
      var hits := Hits(cls, q) - pending;
      if byDN[k].cls == cls && InScope(k, q.searchBase, q.scope) {
        assert Hits(cls, q) - (pending - {k}) == hits + {k};
        AddModel(hits, k, out);
      } else {
        assert Hits(cls, q) - (pending - {k}) == hits;
      }
    }

    lemma NoModels(cls: Class, q: Query)
      ensures Elements<Model>([]) == Models(Hits(cls, q) - byDN.Keys) && Hits(cls, q) - byDN.Keys == {}
    {}

    lemma AddModel(keys: set<bytes>, k: bytes, out: seq<Model>)
      requires k in byDN && Elements(out) == Models(keys)
      ensures Elements(out + [byDN[k].model]) == Models(keys + {k})
    {
      ElementsSnoc(out, byDN[k].model);
      assert Models(keys + {k}) == Models(keys) + {byDN[k].model};
    }

    // ----- move, update, delete -----

    /** Gives the object stored under `dn` the name `to`: delete, rename, store again. */
    method Rekey(dn: bytes, to: bytes)
      requires Named() && dn in byDN
      modifies this`byDN, byDN[dn]
      ensures Named() && byDN.Values <= old(byDN.Values) && to in byDN && byDN[to] == old(byDN[dn])
      ensures Contents() == (old(Contents()) - {dn})[to := old(Contents())[dn].(dn := to)]
    {
      var o := byDN[dn];
      byDN := byDN - {dn};
      o.dn := to;
      byDN := byDN[to := o];
    }

    method SetModel(dn: bytes, model: Model)
      requires Named() && dn in byDN
      modifies byDN[dn]
      ensures Named() && Contents() == old(Contents())[dn := old(Contents())[dn].(model := model)]
    {
      byDN[dn].model := model;
    }

    /** The body of the loop of `moveLocked`, for the key the range produced. */
    method Carry(from: bytes, newDN: bytes, dn: bytes)
      requires Named() && dn in byDN
      modifies this`byDN, byDN.Values
      ensures Named() && byDN.Values <= old(byDN.Values)
      ensures Contents() == Visit(old(Contents()), from, newDN, dn)
    {
      hide Moved, Follows, Visit;
      VisitSays(Contents(), from, newDN, dn);
      if !Follows(dn, from, newDN) {
        return;
      }
      var moved := Moved(dn, from, newDN);
      Rekey(dn, moved);
      SetModel(moved, byDN[moved].model.(dn := moved));
    }

    lemma VisitSays(d: Dir, from: bytes, newDN: bytes, k: bytes)
      requires k in d
      ensures !Follows(k, from, newDN) ==> Visit(d, from, newDN, k) == d
      ensures Follows(k, from, newDN) ==>
                && |from| <= |k|
                && var moved := Moved(k, from, newDN);
                   var d1 := (d - {k})[moved := d[k].(dn := moved)];
                   Visit(d, from, newDN, k) == d1[moved := d1[moved].(model := d[k].model.(dn := moved))]
    {
      BelowByText(k, from);
    }

    /** `moveLocked`; `order` is what its range statement produces. */
    method MoveLocked(o: Object, newDN: bytes, order: seq<bytes>)
      requires Named() && o.dn in byDN && byDN[o.dn] == o
      requires Complete(Begin(Start(Contents(), o.dn, newDN)), o.dn, newDN, order)
      modifies this`byDN, byDN.Values
      ensures Named() && byDN.Values <= old(byDN.Values)
      ensures Contents() == Run(Begin(Start(old(Contents()), old(o.dn), newDN)), old(o.dn), newDN, order).d
    {
      var from := o.dn;
      Rekey(from, newDN);
      CarryAll(from, newDN, order);
    }

    /** The loop of `moveLocked`. */
    method CarryAll(from: bytes, newDN: bytes, order: seq<bytes>)
      requires Named() && Legal(Begin(Contents()), from, newDN, order)
      modifies this`byDN, byDN.Values
      ensures Named() && byDN.Values <= old(byDN.Values)
      ensures Contents() == Run(Begin(old(Contents())), from, newDN, order).d
    {
      hide Follows, Visit;
      ghost var r := Begin(Contents());
      ghost var final := Run(r, from, newDN, order);
      assert order[0..] == order;
      for i := 0 to |order|
        invariant Named() && byDN.Values <= old(byDN.Values)
        invariant RangeOk(r) && r.d == Contents() && Legal(r, from, newDN, order[i..])
        invariant Run(r, from, newDN, order[i..]) == final
      {
        assert order[i..][0] == order[i] && order[i..][1..] == order[i + 1..];
        r := Produce(r, from, newDN, order[i]);
        Carry(from, newDN, order[i]);
      }
      assert order[|order|..] == [];
    }

    /** Writes the fields the spec names; the others stay. */
    method SetFields(k: bytes, s: Spec)
      requires Named() && k in byDN
      modifies byDN[k]
      ensures Named() && Contents() == old(Contents())[k := UpdateFields(old(Contents())[k], s)]
    {
      var m := byDN[k].model;
      if s.description.Some? {
        m := m.(description := s.description.value);
      }
      if s.protected.Some? {
        m := m.(protected := s.protected.value);
      }
      SetModel(k, m);
    }

    /** The read-modify-write of `Update` on the object found. */
    method UpdateAt(cls: Class, k: bytes, s: Spec, order: seq<bytes>) returns (m: Model)
      requires Valid() && k in byDN && OrderFits(Contents(), cls, k, s, order)
      modifies this`byDN, byDN.Values
      ensures Valid() && byDN.Values <= old(byDN.Values)
      ensures Contents() == Updated(old(Contents()), cls, k, s, order)
      ensures UpdatedKey(old(Contents()), cls, k, s) in Contents()
      ensures m == Contents()[UpdatedKey(old(Contents()), cls, k, s)].model
    {
      hide NameOf, Directory.Valid, EqDN, Legal, Run, Start;
      UpdateKeepsValid(Contents(), serial, cls, k, s, order);
      if NeedsMove(Contents()[k], s) { UpdatedPresent(Contents(), cls, k, s, order); }
      var o := byDN[k];
      var moves := s.name != o.model.name || !EqDN(s.container, o.model.container);
      SetFields(k, s);
      if !moves {
        return o.model;
      }
      var newDN := NewName(cls, s);
      m := MoveTo(k, newDN, s, order);
    }

    /** The move of an update and the rewriting of the model after it. */
    method MoveTo(k: bytes, newDN: bytes, s: Spec, order: seq<bytes>) returns (m: Model)
      requires Named() && k in byDN
      requires Complete(Begin(Start(Contents(), k, newDN)), k, newDN, order)
      requires newDN in Run(Begin(Start(Contents(), k, newDN)), k, newDN, order).d
      modifies this`byDN, byDN.Values
      ensures Named() && byDN.Values <= old(byDN.Values) && newDN in byDN
      ensures var d := Run(Begin(Start(old(Contents()), k, newDN)), k, newDN, order).d;
              Contents() == d[newDN := MoveModel(d[newDN], newDN, s)]
      ensures m == Contents()[newDN].model
    {
      hide Legal, Run, Start;
      MoveLocked(byDN[k], newDN, order);
      SetModel(newDN, byDN[newDN].model.(dn := newDN, name := s.name, container := s.container));
      return byDN[newDN].model;
    }

    /** `Update`; `orders(k)` is what the range in `moveLocked` produces if it is the object under `k` that moves. */
    method Update(cls: Class, id: Identity, s: Spec, orders: bytes -> seq<bytes>) returns (r: Result<Model>)
      requires Valid()
      requires forall k :: Matches(Contents(), id, k) && Contents()[k].cls == cls ==>
                 OrderFits(Contents(), cls, k, s, orders(k))
      modifies this`byDN, byDN.Values
      ensures Valid() && byDN.Values <= old(byDN.Values)
      ensures r.Err? ==> Contents() == old(Contents())
      ensures r == Err(Constraint) <==> s.name == [] || s.container == [] || Grammar.Parse(s.container).None?
      ensures !SpecValid(s) ==> r == Err(Constraint)
      ensures SpecValid(s) && r.Err? ==> GetResult(old(Contents()), cls, id, r)
      ensures r.Ok? ==> SpecValid(s) && UpdateResult(old(Contents()), cls, id, s, orders, Contents(), r.value)
      ensures History.Next(old(Now()), Now())
    {
      hide Directory.Valid, Matches, OrderFits, SpecValid, History.Next, UpdateResult;
      History.NothingIsNext(Now());
      var ok := ValidateSpec(s);
      if !ok {
        return Err(Constraint);
      }
      var o := FindLocked(id);
      if o == null || o.cls != cls {
        return Err(NotFound);
      }
      var m := UpdateFound(cls, id, o.dn, s, orders);
      return Ok(m);
    }

    /** The rest of `Update` once the object under `k` is found. */
    method UpdateFound(cls: Class, id: Identity, k: bytes, s: Spec, orders: bytes -> seq<bytes>) returns (m: Model)
      requires Valid() && SpecValid(s) && k in byDN && Matches(Contents(), id, k) && Contents()[k].cls == cls
      requires OrderFits(Contents(), cls, k, s, orders(k))
      modifies this`byDN, byDN.Values
      ensures Valid() && byDN.Values <= old(byDN.Values)
      ensures UpdateResult(old(Contents()), cls, id, s, orders, Contents(), m)
      ensures History.Next(old(Now()), Now())
    {
      hide Directory.Valid, Matches, OrderFits, Updated, UpdatedKey, SpecValid, History.Next, UpdateResult;
      ghost var before := Contents();
      History.UpdateIsNext(before, serial, cls, k, s, orders(k));
      m := UpdateAt(cls, k, s, orders(k));
      UpdateResultAt(before, cls, id, s, orders, k);
    }

    /** `childrenLocked`: everything below `dn`, not only its direct children. */
    method ChildrenLocked(dn: bytes) returns (n: nat)
      ensures n == |set k | k in byDN && CountedBelow(k, dn)|
    {
      hide EqDN, Below;
      var pending := byDN.Keys;
      n := 0;
      ghost var counted: set<bytes> := {};
      while pending != {}
        invariant pending <= byDN.Keys
        invariant counted == (set k | k in byDN && CountedBelow(k, dn)) - pending && n == |counted|
      {
        var other :| other in pending;
        pending := pending - {other};
        if !EqDN(other, dn) && Below(other, dn) {
          n := n + 1;
          counted := counted + {other};
        }
      }
    }

    /** `Delete`: an absent object is a success; an organizational unit with anything below it is refused. */
    method Delete(cls: Class, id: Identity) returns (r: Result<()>)
      requires Valid()
      modifies this`byDN
      ensures Valid() && byDN.Values <= old(byDN.Values)
      ensures r.Err? ==> r == Err(Constraint) && Contents() == old(Contents())
      ensures r.Err? ==> cls == OU && exists k :: Matches(old(Contents()), id, k) && HasChildren(old(Contents()), k)
      ensures r.Ok? ==>
                || (Contents() == old(Contents()) && GetResult(old(Contents()), cls, id, Err(NotFound)))
                || DeleteResult(old(Contents()), cls, id, Contents())
      ensures r.Ok? && Contents() != old(Contents()) ==>
                exists k :: Matches(old(Contents()), id, k) && old(Contents())[k].cls == cls
                            && Contents() == old(Contents()) - {k}
                            && (cls == OU ==> forall l :: l in old(Contents()) ==> !CountedBelow(l, k))
      ensures r.Err? ==>
                exists k :: Matches(old(Contents()), id, k) && old(Contents())[k].cls == OU
                            && exists l :: l in old(Contents()) && CountedBelow(l, k)
      ensures History.Next(old(Now()), Now())
    {
      hide Directory.Valid, Matches, HasChildren, History.Next, DeleteResult;
      History.NothingIsNext(Now());
      var o := FindLocked(id);
      if o == null || o.cls != cls {
        assert GetResult(Contents(), cls, id, Err(NotFound));
        return Ok(());
      }
      if cls == OU {
        var n := ChildrenLocked(o.dn);
        CountedChildren(o.dn);
        if n > 0 {
          return Err(Constraint);
        }
      }
      assert !HasChildren(Contents(), o.dn) by { OnlyUnitsHaveChildren(o.dn); }
      NoneCountedBelow(o.dn);
      History.DeleteIsNext(Contents(), serial, o.dn);
      DeleteResultAt(Contents(), cls, id, o.dn);
      Remove(o.dn);
      return Ok(());
    }

    lemma CountedChildren(k: bytes)
      requires k in byDN && byDN[k].cls == OU
      ensures |set l | l in byDN && CountedBelow(l, k)| > 0 <==> HasChildren(Contents(), k)
    {
      hide CountedBelow;
      var below := set l | l in byDN && CountedBelow(l, k);
      if below != {} {
        var l :| l in below;
        assert l in Contents();
      } else {
        assert forall l :: l in Contents() && CountedBelow(l, k) ==> l in below;
      }
    }

    lemma OnlyUnitsHaveChildren(k: bytes)
      requires k in byDN
      ensures HasChildren(Contents(), k) ==> byDN[k].cls == OU
    {}

    lemma NoneCountedBelow(k: bytes)
      requires k in byDN && !HasChildren(Contents(), k)
      ensures byDN[k].cls == OU ==> forall l :: l in Contents() ==> !CountedBelow(l, k)
    {
      hide CountedBelow;
    }

    method Remove(k: bytes)
      requires Valid() && k in byDN
      modifies this`byDN
      ensures Valid() && byDN.Values <= old(byDN.Values) && Contents() == old(Contents()) - {k}
    {
      hide Directory.Valid;
      ghost var before := Contents();
      DeleteKeepsValid(before, serial, k);
      byDN := byDN - {k};
      assert Contents() == before - {k};
    }

    // ----- groups -----

    /** The loop over the members of `o`, going into the groups among them (`walk`). */
    method Walk(o: Object, seen: set<bytes>, out: seq<Member>, ghost start: set<bytes>)
      returns (seen': set<bytes>, out': seq<Member>)
      requires Valid() && o.dn in byDN && byDN[o.dn] == o && o.cls == Group
      requires Walked(Contents(), start, seen, out)
      requires forall g :: g in o.members ==> Reachable(Contents(), start, g)
      ensures Walked(Contents(), start, seen', out')
      ensures seen + o.members <= seen'
      ensures ClosedSince(Contents(), seen, seen')
      decreases |Listed(Contents()) - seen|, 1
    {
      hide Walked, Reachable, ClosedSince, Directory.Valid;
      ghost var d := Contents();
      seen', out' := seen, out;
      ClosedSinceStart(d, seen);
      var pending := o.members;
      while pending != {}
        invariant pending <= o.members && seen <= seen' && o.members - pending <= seen'
        invariant Walked(d, start, seen', out')
        invariant ClosedSince(d, seen, seen')
      {
        var guid :| guid in pending;
        pending := pending - {guid};
        if guid !in seen' {
          assert guid in d[o.dn].members;
          assert guid in Listed(d);
          ListedShrinks(d, seen, seen', guid);
          ghost var was := seen';
          seen', out' := Enter(guid, seen', out', start);
          ClosedSinceThen(d, seen, was, seen');
        }
      }
    }

    lemma ListedShrinks(d: Dir, seen: set<bytes>, now: set<bytes>, guid: bytes)
      requires seen <= now && guid !in now && guid in Listed(d)
      ensures |Listed(d) - (now + {guid})| < |Listed(d) - seen|
    {
      hide Listed;
      assert Listed(d) - (now + {guid}) <= Listed(d) - seen - {guid};
      SubsetSize(Listed(d) - (now + {guid}), Listed(d) - seen - {guid});
    }

    /** Marks `guid` and handles the objects with that GUID: collects an account, goes into a group. */
    method Enter(guid: bytes, seen: set<bytes>, out: seq<Member>, ghost start: set<bytes>)
      returns (seen': set<bytes>, out': seq<Member>)
      requires Valid() && Walked(Contents(), start, seen, out)
      requires guid !in seen && Reachable(Contents(), start, guid)
      ensures Walked(Contents(), start, seen', out')
      ensures seen + {guid} <= seen'
      ensures ClosedSince(Contents(), seen, seen')
      decreases |Listed(Contents()) - (seen + {guid})|, 3
    {
      hide Walked, Reachable, ClosedSince, Directory.Valid, Listed;
      ghost var d := Contents();
      seen', out' := seen + {guid}, out;
      var pending := byDN.Keys;
      ghost var met := false;
      while pending != {}
        invariant pending <= byDN.Keys && seen + {guid} <= seen'
        invariant !met ==> seen' == seen + {guid} && out' == out
        invariant !met ==> forall k :: k in byDN && byDN[k].guid == guid ==> k in pending
        invariant met ==> forall k :: k in pending ==> byDN[k].guid != guid
        invariant met ==> Walked(d, start, seen', out')
        invariant met ==> ClosedSince(d, seen, seen')
      {
        var k :| k in pending;
        pending := pending - {k};
        if byDN[k].guid == guid {
          SameObject(k);
          met := true;
          seen', out' := Handle(k, seen, out, start);
        }
      }
      if !met {
        assert forall k :: k in d ==> d[k].guid != guid;
        WalkedMark(d, start, seen, out, guid);
        ClosedSinceDead(d, seen, guid);
      }
    }

    lemma SameObject(k: bytes)
      requires Valid() && k in byDN
      ensures forall l :: l in byDN && byDN[l].guid == byDN[k].guid ==> l == k
    {
      hide ItemValid;
      forall l | l in byDN && byDN[l].guid == byDN[k].guid ensures l == k {
        assert Contents()[l].guid == Contents()[k].guid;
      }
    }

    /** Collects the account under `k`, or goes into the group, its GUID being marked. */
    method Handle(k: bytes, seen: set<bytes>, out: seq<Member>, ghost start: set<bytes>)
      returns (seen': set<bytes>, out': seq<Member>)
      requires Valid() && k in byDN && Walked(Contents(), start, seen, out)
      requires byDN[k].guid !in seen && Reachable(Contents(), start, byDN[k].guid)
      ensures Walked(Contents(), start, seen', out')
      ensures seen + {byDN[k].guid} <= seen'
      ensures ClosedSince(Contents(), seen, seen')
      decreases |Listed(Contents()) - (seen + {byDN[k].guid})|, 2
    {
      hide Walked, Reachable, Lists, ItemValid, Listed;
      ghost var d := Contents();
      var guid := byDN[k].guid;
      SameObject(k);
      forall h ensures Lists(d, guid, h) <==> d[k].cls == Group && h in d[k].members { ListsOwn(d, k, h); }
      if byDN[k].cls == Group {
        WalkedMark(d, start, seen, out, guid);
        forall g | g in d[k].members ensures Reachable(d, start, g) {
          ReachableNext(d, start, guid, g);
        }
        seen', out' := Walk(byDN[k], seen + {guid}, out, start);
      } else {
        WalkedAppend(d, start, seen, out, k);
        seen', out' := seen + {guid}, out + [Member(guid, byDN[k].dn, byDN[k].cls)];
      }
    }

    /**
     `MembersRecursive`: on any membership graph, cyclic or with dangling GUIDs, each live account reachable
     through live groups, once, and nothing else.
     */
    method MembersRecursive(id: Identity) returns (r: Result<seq<Member>>)
      requires Valid()
      ensures r.Err? ==> r == Err(NotFound) && GetResult(Contents(), Group, id, Err(NotFound))
      ensures r.Ok? ==> exists k :: Matches(Contents(), id, k) && Contents()[k].cls == Group
                                    && RecursiveMembers(Contents(), Contents()[k].members, r.value)
    {
      hide Matches, Directory.Valid, RecursiveMembers, Walked;
      var root := FindLocked(id);
      if root == null || root.cls != Group {
        return Err(NotFound);
      }
      ghost var d := Contents();
      NothingWalked(d, root.members);
      forall g | g in root.members ensures Reachable(d, root.members, g) { ReachableStart(d, root.members, g); }
      var seen, out := Walk(root, {}, [], root.members);
      ClosedSinceStart(d, seen);
      WalkIsComplete(d, root.members, seen, out);
      return Ok(out);
    }

    /** `Members`: the direct members that are live. */
    method Members(id: Identity) returns (r: Result<seq<Member>>)
      requires Valid()
      ensures r.Err? ==> r == Err(NotFound) && GetResult(Contents(), Group, id, Err(NotFound))
      ensures r.Ok? ==> exists k :: Matches(Contents(), id, k) && Contents()[k].cls == Group
                                    && DirectMembers(Contents(), Contents()[k].members, r.value)
    {
      hide Matches, Directory.Valid, DirectMembers;
      var o := FindLocked(id);
      if o == null || o.cls != Group {
        return Err(NotFound);
      }
      ghost var d := Contents();
      var pending, out := o.members, [];
      NoDirectMembers(d);
      assert o.members - o.members == {};
      while pending != {}
        invariant pending <= o.members && DirectMembers(d, o.members - pending, out)
      {
        var guid :| guid in pending;
        out := AppendByGuid(guid, out, o.members - pending);
        assert o.members - pending + {guid} == o.members - (pending - {guid});
        pending := pending - {guid};
      }
      assert o.members - pending == o.members == d[o.dn].members;
      ghost var k := o.dn;
      assert Matches(Contents(), id, k) && Contents()[k].cls == Group;
      assert DirectMembers(Contents(), Contents()[k].members, out);
      return Ok(out);
    }

    lemma NoDirectMembers(d: Dir)
      ensures DirectMembers(d, {}, [])
    {}

    /** The inner loop of `memberModelsLocked`. */
    method AppendByGuid(guid: bytes, out: seq<Member>, ghost done: set<bytes>) returns (out': seq<Member>)
      requires Valid() && guid !in done && DirectMembers(Contents(), done, out)
      ensures DirectMembers(Contents(), done + {guid}, out')
    {
      hide ItemValid, DirectMembers;
      ghost var d := Contents();
      ghost var met := false;
      var pending := byDN.Keys;
      out' := out;
      while pending != {}
        invariant pending <= byDN.Keys
        invariant !met ==> out' == out && forall k :: k in byDN && byDN[k].guid == guid ==> k in pending
        invariant met ==> DirectMembers(d, done + {guid}, out') && forall k :: k in pending ==> byDN[k].guid != guid
      {
        var k :| k in pending;
        pending := pending - {k};
        if byDN[k].guid == guid {
          SameObject(k);
          DirectAppend(d, done, out, k);
          met := true;
          out' := out' + [Member(byDN[k].guid, byDN[k].dn, byDN[k].cls)];
        }
      }
      if !met {
        assert forall k :: k in d ==> d[k].guid != guid;
        DirectSkip(d, done, out, guid);
      }
    }

    method IsMember(id: Identity, member: Identity) returns (r: Result<bool>)
      requires Valid()
      ensures r.Err? ==> r == Err(NotFound)
      ensures r.Err? ==> GetResult(Contents(), Group, id, Err(NotFound)) || forall k :: !Matches(Contents(), member, k)
      ensures r.Ok? ==> exists k, l :: Matches(Contents(), id, k) && Contents()[k].cls == Group
                          && Matches(Contents(), member, l) && r.value == (Contents()[l].guid in Contents()[k].members)
    {
      hide Matches, Directory.Valid;
      var o := FindLocked(id);
      if o == null || o.cls != Group {
        return Err(NotFound);
      }
      var target := FindLocked(member);
      if target == null {
        return Err(NotFound);
      }
      ghost var k, l := o.dn, target.dn;
      assert Matches(Contents(), id, k) && Matches(Contents(), member, l);
      return Ok(target.guid in o.members);
    }

    method SetMembers(k: bytes, members: set<bytes>)
      requires Named() && k in byDN
      modifies byDN[k]
      ensures Named() && Contents() == old(Contents())[k := old(Contents())[k].(members := members)]
    {
      byDN[k].members := members;
    }

    /**
     `editMembers`: adds or removes the members one by one and stops at the first that does not resolve,
     keeping what it has done by then.
     */
    method EditMembers(id: Identity, members: seq<Identity>, add: bool) returns (r: Result<()>)
      requires Valid()
      modifies byDN.Values
      ensures Valid()
      ensures members == [] ==> r == Ok(()) && Contents() == old(Contents())
      ensures members != [] ==>
                || (r == Err(NotFound) && Contents() == old(Contents())
                    && GetResult(old(Contents()), Group, id, Err(NotFound)))
                || exists k, guids ::
                     && Matches(old(Contents()), id, k) && old(Contents())[k].cls == Group
                     && Resolved(old(Contents()), members, guids)
                     && Contents() == EditedDir(old(Contents()), k, guids, add)
                     && if r.Ok? then |guids| == |members|
                        else r == Err(NotFound) && |guids| < |members|
                             && forall l :: !Matches(old(Contents()), members[|guids|], l)
      ensures History.Next(old(Now()), Now())
    {
      hide Matches, Directory.Valid, Edited, History.Next;
      History.NothingIsNext(Now());
      if |members| == 0 {
        return Ok(());
      }
      var o := FindLocked(id);
      if o == null || o.cls != Group {
        return Err(NotFound);
      }
      ghost var (before, k) := (Contents(), o.dn);
      var ok;
      ghost var guids;
      ok, guids := EditAll(o.dn, members, add);
      History.EditIsNext(before, serial, k, guids, add);
      return if ok then Ok(()) else Err(NotFound);
    }

    /** The loop of `editMembers` over the group under `k`; `guids` are those resolved. */
    method EditAll(k: bytes, members: seq<Identity>, add: bool) returns (ok: bool, ghost guids: seq<bytes>)
      requires Valid() && k in byDN
      modifies byDN.Values
      ensures Valid() && Resolved(old(Contents()), members, guids)
      ensures Contents() == EditedDir(old(Contents()), k, guids, add)
      ensures if ok then |guids| == |members|
              else |guids| < |members| && forall l :: !Matches(old(Contents()), members[|guids|], l)
    {
      hide Matches, Directory.Valid, EditedDir, Resolved;
      ghost var before := Contents();
      guids := [];
      NothingEdited(before, k, members, add);
      for i := 0 to |members|
        invariant Named() && k in byDN && |guids| == i && Resolved(before, members, guids)
        invariant Contents() == EditedDir(before, k, guids, add)
      {
        var target := FindLocked(members[i]);
        MatchesEdited(before, k, guids, add, members[i]);
        if target == null {
          EditKeepsValid(before, serial, k, guids, add);
          return false, guids;
        }
        EditOne(before, k, members, guids, target.guid, add);
        guids := guids + [target.guid];
        SetMembers(k, if add then byDN[k].members + {target.guid} else byDN[k].members - {target.guid});
      }
      EditKeepsValid(before, serial, k, guids, add);
      return true, guids;
    }

    lemma NothingEdited(d: Dir, k: bytes, ids: seq<Identity>, add: bool)
      requires k in d
      ensures EditedDir(d, k, [], add) == d && Resolved(d, ids, [])
    {
      assert Edited(d[k].members, [], add) == d[k].members;
    }

    /** Resolving and applying one more member. */
    lemma EditOne(d: Dir, k: bytes, ids: seq<Identity>, guids: seq<bytes>, g: bytes, add: bool)
      requires k in d && Resolved(d, ids, guids) && |guids| < |ids|
      requires exists l :: Matches(d, ids[|guids|], l) && d[l].guid == g
      ensures Resolved(d, ids, guids + [g])
      ensures var e := EditedDir(d, k, guids, add);
              EditedDir(d, k, guids + [g], add) ==
              e[k := e[k].(members := if add then e[k].members + {g} else e[k].members - {g})]
    {
      hide Matches;
      assert forall x :: x in guids + [g] <==> x in guids || x == g;
      var m := d[k].members;
      assert Edited(m, guids + [g], add) == if add then Edited(m, guids, add) + {g} else Edited(m, guids, add) - {g};
    }

    /** Who answers to an identity does not depend on memberships. */
    lemma MatchesEdited(d: Dir, k: bytes, guids: seq<bytes>, add: bool, id: Identity)
      requires k in d
      ensures forall l :: Matches(d, id, l) <==> Matches(EditedDir(d, k, guids, add), id, l)
      ensures EditedDir(d, k, guids, add).Keys == d.Keys
      ensures forall l :: l in d ==> EditedDir(d, k, guids, add)[l].guid == d[l].guid
    {
      hide EqDN;
    }

    // ----- access lists -----

    method GetAcl(id: Identity) returns (r: Result<seq<ACE>>)
      ensures r.Err? ==> r == Err(NotFound) && forall k :: !Matches(Contents(), id, k)
      ensures r.Ok? ==> exists k :: Matches(Contents(), id, k) && r.value == Contents()[k].dacl
    {
      hide Matches;
      var o := FindLocked(id);
      if o == null {
        return Err(NotFound);
      }
      return Ok(o.dacl);
    }

    method SetAcl(k: bytes, dacl: seq<ACE>)
      requires Valid() && k in byDN && AclValid(dacl)
      modifies byDN[k]
      ensures Valid() && Contents() == WithAcl(old(Contents()), k, dacl)
      ensures Contents() == old(Contents())[k := old(Contents())[k].(dacl := dacl)]
    {
      hide Directory.Valid, AclValid;
      AclKeepsValid(Contents(), serial, k, dacl);
      ghost var before := Contents();
      byDN[k].dacl := dacl;
      assert Contents() == WithAcl(before, k, dacl);
    }

    method Grant(id: Identity, list: seq<ACE>) returns (r: Result<()>)
      requires Valid()
      modifies byDN.Values
      ensures Valid()
      ensures r.Err? ==> r == Err(NotFound) && list != [] && Contents() == old(Contents())
                         && forall k :: !Matches(old(Contents()), id, k)
      ensures r.Ok? && list == [] ==> Contents() == old(Contents())
      ensures r.Ok? && list != [] ==>
                exists k :: Matches(old(Contents()), id, k)
                            && var it := old(Contents())[k];
                               Contents() == old(Contents())[k := it.(dacl := Granted(it.dacl, list))]
      ensures History.Next(old(Now()), Now())
    {
      hide Matches, Directory.Valid, Granted, AclValid, History.Next;
      History.NothingIsNext(Now());
      if |list| == 0 {
        return Ok(());
      }
      var o := FindLocked(id);
      if o == null {
        return Err(NotFound);
      }
      var dacl := Append(o.dacl, list);
      History.StoredAclValid(Contents(), serial, o.dn);
      GrantCovers(o.dacl, list);
      History.GrantIsNext(Contents(), serial, o.dn, list);
      SetAcl(o.dn, dacl);
      return Ok(());
    }

    method Revoke(id: Identity, list: seq<ACE>) returns (r: Result<()>)
      requires Valid()
      modifies byDN.Values
      ensures Valid()
      ensures r.Err? ==> r == Err(NotFound) && list != [] && Contents() == old(Contents())
                         && forall k :: !Matches(old(Contents()), id, k)
      ensures r.Ok? && list == [] ==> Contents() == old(Contents())
      ensures r.Ok? && list != [] ==>
                exists k :: Matches(old(Contents()), id, k)
                            && var it := old(Contents())[k];
                               Contents() == old(Contents())[k := it.(dacl := Revoked(it.dacl, list))]
      ensures History.Next(old(Now()), Now())
    {
      hide Matches, Directory.Valid, Revoked, AclValid, History.Next;
      History.NothingIsNext(Now());
      if |list| == 0 {
        return Ok(());
      }
      var o := FindLocked(id);
      if o == null {
        return Err(NotFound);
      }
      var kept := Keep(o.dacl, list);
      History.StoredAclValid(Contents(), serial, o.dn);
      RevokedValid(o.dacl, list);
      History.RevokeIsNext(Contents(), serial, o.dn, list);
      SetAcl(o.dn, kept);
      return Ok(());
    }

    lemma RevokedValid(dacl: seq<ACE>, list: seq<ACE>)
      requires AclValid(dacl)
      ensures AclValid(Revoked(dacl, list))
    {
      RevokeKeepsValid(dacl, Acl.Keys(list));
    }
  }

  /** The canonical keys of a list. */
  method KeySet(list: seq<ACE>) returns (keys: set<bytes>)
    ensures keys == Acl.Keys(list)
  {
    hide Key, Acl.Keys;
    keys := {};
    assert Acl.Keys(list[..0]) == {} by { NoKeys(); }
    for i := 0 to |list|
      invariant keys == Acl.Keys(list[..i])
    {
      var key := CanonicalACEKey(Lower, list[i]);
      assert list[..i + 1] == list[..i] + [list[i]];
      KeysSnoc(list[..i], list[i]);
      keys := keys + {key};
    }
    assert list[..|list|] == list;
  }

  /** The loop of `Grant`: appends the entries whose key is new, as explicit ones. */
  method Append(dacl: seq<ACE>, list: seq<ACE>) returns (r: seq<ACE>)
    ensures r == Granted(dacl, list)
  {
    hide Key, Acl.Keys;
    var seen := KeySet(dacl);
    r := dacl;
    assert list[0..] == list;
    for i := 0 to |list|
      invariant seen == Acl.Keys(r)
      invariant Granted(r, list[i..]) == Granted(dacl, list)
    {
      assert list[i..][0] == list[i] && list[i..][1..] == list[i + 1..];
      var key := CanonicalACEKey(Lower, list[i]);
      if key !in seen {
        var a := list[i].(inherited := false);
        KeysSnoc(r, list[i]);
        KeysSnoc(r, a);
        r, seen := r + [a], seen + {key};
      }
    }
  }

  /** The loop of `Revoke`: keeps all but the explicit entries with a listed key. */
  method Keep(dacl: seq<ACE>, list: seq<ACE>) returns (kept: seq<ACE>)
    ensures kept == Revoked(dacl, list)
  {
    hide Key, Acl.Keys, Without;
    var drop := KeySet(list);
    kept := [];
    assert dacl[0..] == dacl;
    assert dacl[|dacl|..] == [];
    NoSurvivor(drop);
    for i := 0 to |dacl|
      invariant kept + Without(dacl[i..], drop) == Revoked(dacl, list)
    {
      NextSurvivor(dacl, i, drop, kept);
      var key := CanonicalACEKey(Lower, dacl[i]);
      if !(key in drop && !dacl[i].inherited) {
        kept := kept + [dacl[i]];
      }
    }
  }

  lemma NoSurvivor(keys: set<bytes>)
    ensures Without([], keys) == []
  {}

  lemma NextSurvivor(dacl: seq<ACE>, i: nat, keys: set<bytes>, kept: seq<ACE>)
    requires i < |dacl|
    ensures kept + Without(dacl[i..], keys) ==
            (if Dropped(dacl[i], keys) then kept else kept + [dacl[i]]) + Without(dacl[i + 1..], keys)
  {
    hide KeyOf;
    assert dacl[i..][0] == dacl[i] && dacl[i..][1..] == dacl[i + 1..];
    assert kept + ([dacl[i]] + Without(dacl[i + 1..], keys)) == kept + [dacl[i]] + Without(dacl[i + 1..], keys);
  }
}
