/** What it means to be a member of a group through other groups. */
module Membership {
  import opened Bytes
  import opened Directory

  /** A live group with GUID `g` lists `h`. */
  ghost predicate Lists(d: Dir, g: bytes, h: bytes) {
    exists k :: k in d && d[k].guid == g && d[k].cls == Group && h in d[k].members
  }

  /** `path` leads from a member in `start` through live groups, each listing the next. */
  ghost predicate IsPath(d: Dir, start: set<bytes>, path: seq<bytes>) {
    path != [] && path[0] in start && forall i :: 0 <= i < |path| - 1 ==> Lists(d, path[i], path[i + 1])
  }

  ghost predicate Reachable(d: Dir, start: set<bytes>, g: bytes) {
    exists path :: IsPath(d, start, path) && path[|path| - 1] == g
  }

  lemma ReachableStart(d: Dir, start: set<bytes>, g: bytes)
    requires g in start
    ensures Reachable(d, start, g)
  {
    assert IsPath(d, start, [g]) && [g][|[g]| - 1] == g;
  }

  lemma ReachableNext(d: Dir, start: set<bytes>, g: bytes, h: bytes)
    requires Reachable(d, start, g) && Lists(d, g, h)
    ensures Reachable(d, start, h)
  {
    var path :| IsPath(d, start, path) && path[|path| - 1] == g;
    var longer := path + [h];
    assert IsPath(d, start, longer) && longer[|longer| - 1] == h;
  }

  /** `s` lists with every live group in it all its members. */
  ghost predicate Closed(d: Dir, s: set<bytes>) {
    forall g, h :: g in s && Lists(d, g, h) ==> h in s
  }

  /** What was marked after `since` has all its members marked. */
  ghost predicate ClosedSince(d: Dir, since: set<bytes>, now: set<bytes>) {
    forall g, h :: g in now - since && Lists(d, g, h) ==> h in now
  }

  lemma ClosedSinceThen(d: Dir, a: set<bytes>, b: set<bytes>, c: set<bytes>)
    requires ClosedSince(d, a, b) && ClosedSince(d, b, c) && b <= c
    ensures ClosedSince(d, a, c)
  {}

  lemma ClosedSinceStart(d: Dir, s: set<bytes>)
    ensures ClosedSince(d, s, s)
    ensures ClosedSince(d, {}, s) ==> Closed(d, s)
  {
    assert s - {} == s;
  }

  /** A GUID no live object has lists nothing. */
  lemma ClosedSinceDead(d: Dir, s: set<bytes>, g: bytes)
    requires forall k :: k in d ==> d[k].guid != g
    ensures ClosedSince(d, s, s + {g})
  {}

  lemma ClosedHoldsReachable(d: Dir, start: set<bytes>, s: set<bytes>, g: bytes)
    requires start <= s && Closed(d, s) && Reachable(d, start, g)
    ensures g in s
  {
    var path :| IsPath(d, start, path) && path[|path| - 1] == g;
    ClosedHoldsPath(d, start, s, path, |path| - 1);
  }

  lemma {:induction false} ClosedHoldsPath(d: Dir, start: set<bytes>, s: set<bytes>, path: seq<bytes>, i: nat)
    requires start <= s && Closed(d, s) && IsPath(d, start, path) && i < |path|
    ensures path[i] in s
  {
    if i > 0 {
      ClosedHoldsPath(d, start, s, path, i - 1);
      assert Lists(d, path[i - 1], path[i - 1 + 1]);
    }
  }

  // ----- what a walk over the groups has found -----

  datatype Member = Member(guid: bytes, dn: bytes, cls: Class)

  function MemberOf(it: Item): Member { Member(it.guid, it.dn, it.cls) }

  /** `m` describes the live account under `k`, whose GUID is in `seen`. */
  predicate Describes(d: Dir, seen: set<bytes>, m: Member, k: bytes) {
    k in d && d[k].cls != Group && d[k].guid in seen && m == MemberOf(d[k])
  }

  ghost predicate DescribesOne(d: Dir, seen: set<bytes>, m: Member) { exists k :: Describes(d, seen, m, k) }

  /** `out` holds each live non-group object whose GUID is in `seen` once, and nothing else. */
  ghost predicate Collected(d: Dir, seen: set<bytes>, out: seq<Member>) {
    && (forall i :: 0 <= i < |out| ==> DescribesOne(d, seen, out[i]))
    && (forall k :: k in d && d[k].cls != Group && d[k].guid in seen ==> MemberOf(d[k]) in out)
    && (forall i, j :: 0 <= i < j < |out| ==> out[i].guid != out[j].guid)
  }

  /** `out` holds each live non-group object reachable from `start` once, and nothing else. */
  ghost predicate RecursiveMembers(d: Dir, start: set<bytes>, out: seq<Member>) {
    && (forall m :: m in out <==>
          exists k :: k in d && d[k].cls != Group && Reachable(d, start, d[k].guid) && m == MemberOf(d[k]))
    && (forall i, j :: 0 <= i < j < |out| ==> out[i].guid != out[j].guid)
  }

  /** The walk has marked only reachable GUIDs, and collected what it has marked. */
  ghost predicate Walked(d: Dir, start: set<bytes>, seen: set<bytes>, out: seq<Member>) {
    (forall g :: g in seen ==> Reachable(d, start, g)) && Collected(d, seen, out)
  }

  /** Marking a GUID that no live non-group object has collects nothing. */
  lemma WalkedMark(d: Dir, start: set<bytes>, seen: set<bytes>, out: seq<Member>, g: bytes)
    requires Walked(d, start, seen, out) && Reachable(d, start, g)
    requires forall k :: k in d && d[k].guid == g ==> d[k].cls == Group
    ensures Walked(d, start, seen + {g}, out)
  {
    hide Reachable;
    forall i | 0 <= i < |out|
      ensures DescribesOne(d, seen + {g}, out[i])
    {
      var k :| Describes(d, seen, out[i], k);
      assert Describes(d, seen + {g}, out[i], k);
    }
    forall l | l in d && d[l].cls != Group && d[l].guid in seen + {g}
      ensures MemberOf(d[l]) in out
    {
      assert d[l].guid in seen;
    }
  }

  /** Marking the GUID of a live account collects that account. */
  lemma WalkedAppend(d: Dir, start: set<bytes>, seen: set<bytes>, out: seq<Member>, k: bytes)
    requires Walked(d, start, seen, out) && DistinctGuids(d)
    requires k in d && d[k].cls != Group && d[k].guid !in seen && Reachable(d, start, d[k].guid)
    ensures Walked(d, start, seen + {d[k].guid}, out + [MemberOf(d[k])])
  {
    hide Reachable;
    var g := d[k].guid;
    var (seen', out') := (seen + {g}, out + [MemberOf(d[k])]);
    forall i | 0 <= i < |out'|
      ensures DescribesOne(d, seen', out'[i])
    {
      if i == |out| {
        assert Describes(d, seen', out'[i], k);
      } else {
        var l :| Describes(d, seen, out[i], l);
        assert Describes(d, seen', out'[i], l);
      }
    }
    forall i | 0 <= i < |out| ensures out[i].guid in seen {
      var l :| Describes(d, seen, out[i], l);
    }
    forall l | l in d && d[l].cls != Group && d[l].guid in seen'
      ensures MemberOf(d[l]) in out'
    {
      if l == k {
        assert out'[|out|] == MemberOf(d[l]);
      } else {
        assert d[l].guid in seen && MemberOf(d[l]) in out;
      }
    }
  }

  /** What the members found say about the directory: GUID, name and class of a live account, or object. */
  lemma MembersSay(d: Dir, serial: nat, start: set<bytes>, out: seq<Member>)
    requires Valid(d, serial)
    ensures RecursiveMembers(d, start, out) ==> forall m :: m in out <==>
              && m.dn in d && d[m.dn].guid == m.guid && d[m.dn].cls == m.cls && m.cls != Group
              && Reachable(d, start, m.guid)
    ensures DirectMembers(d, start, out) ==> forall m :: m in out <==>
              m.dn in d && d[m.dn].guid == m.guid && d[m.dn].cls == m.cls && m.guid in start
  {
    hide Reachable, Issued, AclValid;
    assert forall k :: k in d ==> ItemValid(k, d[k], serial);
  }

  lemma NothingWalked(d: Dir, start: set<bytes>)
    ensures Walked(d, start, {}, [])
  {}

  /** A walk that started from `start` and left nothing open has found exactly the recursive members. */
  lemma WalkIsComplete(d: Dir, start: set<bytes>, seen: set<bytes>, out: seq<Member>)
    requires Walked(d, start, seen, out) && start <= seen && Closed(d, seen)
    ensures RecursiveMembers(d, start, out)
  {
    forall g ensures g in seen <==> Reachable(d, start, g) {
      if Reachable(d, start, g) { ClosedHoldsReachable(d, start, seen, g); }
    }
    hide Reachable, Closed;
    forall m ensures m in out <==>
        exists k :: k in d && d[k].cls != Group && Reachable(d, start, d[k].guid) && m == MemberOf(d[k])
    {
      if m in out {
        var i :| 0 <= i < |out| && out[i] == m;
        var k :| Describes(d, seen, out[i], k);
        assert Reachable(d, start, d[k].guid);
      }
    }
  }

  /** Every GUID some stored object lists: what a walk can still mark. */
  ghost function Listed(d: Dir): set<bytes> {
    set k, g | k in d && g in d[k].members :: g
  }

  /** With distinct GUIDs, what a GUID lists is what its one object lists. */
  lemma ListsOwn(d: Dir, k: bytes, h: bytes)
    requires DistinctGuids(d) && k in d
    ensures Lists(d, d[k].guid, h) <==> d[k].cls == Group && h in d[k].members
  {}

  /** `out` holds each live object with a GUID in `guids` once, and nothing else. */
  ghost predicate DirectMembers(d: Dir, guids: set<bytes>, out: seq<Member>) {
    && (forall m :: m in out <==> exists k :: k in d && d[k].guid in guids && m == MemberOf(d[k]))
    && (forall i, j :: 0 <= i < j < |out| ==> out[i].guid != out[j].guid)
  }

  lemma DirectSkip(d: Dir, guids: set<bytes>, out: seq<Member>, g: bytes)
    requires DirectMembers(d, guids, out) && forall k :: k in d ==> d[k].guid != g
    ensures DirectMembers(d, guids + {g}, out)
  {}

  lemma DirectAppend(d: Dir, guids: set<bytes>, out: seq<Member>, k: bytes)
    requires DirectMembers(d, guids, out) && DistinctGuids(d) && k in d && d[k].guid !in guids
    ensures DirectMembers(d, guids + {d[k].guid}, out + [MemberOf(d[k])])
  {
    var (guids', out') := (guids + {d[k].guid}, out + [MemberOf(d[k])]);
    forall m ensures m in out' <==> exists l :: l in d && d[l].guid in guids' && m == MemberOf(d[l]) {
      if m == MemberOf(d[k]) {
        assert d[k].guid in guids' && out'[|out|] == m;
      } else if m in out {
        var l :| l in d && d[l].guid in guids && m == MemberOf(d[l]);
        assert d[l].guid in guids';
      }
    }
    forall i | 0 <= i < |out| ensures out[i].guid != d[k].guid {
      assert out[i] in out;
    }
  }

  /** The member set after the resolved GUIDs are added or removed. */
  function Edited(members: set<bytes>, guids: seq<bytes>, add: bool): set<bytes> {
    var listed := set g | g in guids;
    if add then members + listed else members - listed
  }

  /** The directory after the group under `k` is edited. */
  function EditedDir(d: Dir, k: bytes, guids: seq<bytes>, add: bool): Dir
    requires k in d
  {
    d[k := d[k].(members := Edited(d[k].members, guids, add))]
  }

  lemma EditKeepsValid(d: Dir, serial: nat, k: bytes, guids: seq<bytes>, add: bool)
    requires Valid(d, serial) && k in d
    ensures Valid(EditedDir(d, k, guids, add), serial)
  {
    hide Issued, AclValid, Edited;
  }

  /** `guids` are GUIDs that the first identities of `ids` resolve to. */
  ghost predicate Resolved(d: Dir, ids: seq<Identity>, guids: seq<bytes>) {
    |guids| <= |ids| && forall i :: 0 <= i < |guids| ==> exists k :: Matches(d, ids[i], k) && d[k].guid == guids[i]
  }

  /** An edit adds or removes exactly the resolved GUIDs, in this one group. */
  lemma EditSays(d: Dir, k: bytes, guids: seq<bytes>, add: bool)
    requires k in d
    ensures var d' := EditedDir(d, k, guids, add);
            && (forall g :: g in d'[k].members <==> if add then g in d[k].members || g in guids
                                                    else g in d[k].members && g !in guids)
            && d' == d[k := d[k].(members := d'[k].members)]
  {}

  /** An edit changes nothing exactly when every GUID it resolved is already in, or already out. */
  lemma EditChangesNothingIff(d: Dir, k: bytes, guids: seq<bytes>, add: bool)
    requires k in d
    ensures EditedDir(d, k, guids, add) == d <==> forall g :: g in guids ==> (g in d[k].members <==> add)
  {
    var (members, e) := (d[k].members, EditedDir(d, k, guids, add));
    assert Edited(members, guids, add) == members <==> forall g :: g in guids ==> (g in members <==> add);
    assert e[k] == d[k].(members := Edited(members, guids, add));
    hide Edited;
    if e[k] == d[k] { assert e == d; }
  }

  /** Adding a user and a GUID that nobody has fails, and leaves the user in the group all the same. */
  lemma FailedEditStays(d: Dir, guids: seq<bytes>)
    requires d.Keys == {"CN=g,DC=c", "CN=u,DC=c"} && d["CN=g,DC=c"].members == {}
    requires d["CN=g,DC=c"].guid == Guid(1) && d["CN=u,DC=c"].guid == Guid(2)
    requires var ids := [ByGUID(Guid(2)), ByGUID(Guid(3))];
             Resolved(d, ids, guids) && |guids| < |ids| && forall l :: !Matches(d, ids[|guids|], l)
    ensures EditedDir(d, "CN=g,DC=c", guids, true) != d
    ensures guids == [Guid(2)] && forall l :: !Matches(d, ByGUID(Guid(3)), l)
  {
    hide Guid;
    var ids := [ByGUID(Guid(2)), ByGUID(Guid(3))];
    assert Matches(d, ids[0], "CN=u,DC=c");
    assert |guids| == 1;
    var k :| Matches(d, ids[0], k) && d[k].guid == guids[0];
    assert guids == [Guid(2)] && ids[|guids|] == ByGUID(Guid(3)) && guids[0] in guids;
    EditChangesNothingIff(d, "CN=g,DC=c", guids, true);
  }
}
