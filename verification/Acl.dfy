/** `Grant` and `Revoke` on one access-control list (`adcorefake/acl.go`). */
module Acl {
  import opened Bytes
  import opened AceKey
  import opened Directory

  function KeyOf(a: ACE): bytes { Key(Lower, a) }

  function Keys(list: seq<ACE>): set<bytes> { set a | a in list :: KeyOf(a) }

  /** The list after every entry of `list` whose key is not yet there is appended as an explicit one. */
  function Granted(dacl: seq<ACE>, list: seq<ACE>): seq<ACE>
    decreases |list|
  {
    if list == [] then dacl
    else if KeyOf(list[0]) in Keys(dacl) then Granted(dacl, list[1..])
    else Granted(dacl + [list[0].(inherited := false)], list[1..])
  }

  predicate Dropped(a: ACE, keys: set<bytes>) { KeyOf(a) in keys && !a.inherited }

  /** The list without the explicit entries whose key is in `keys`. */
  function Without(dacl: seq<ACE>, keys: set<bytes>): seq<ACE> {
    if dacl == [] then []
    else (if Dropped(dacl[0], keys) then [] else [dacl[0]]) + Without(dacl[1..], keys)
  }

  function Revoked(dacl: seq<ACE>, list: seq<ACE>): seq<ACE> { Without(dacl, Keys(list)) }

  lemma KeysConcat(a: seq<ACE>, b: seq<ACE>)
    ensures Keys(a + b) == Keys(a) + Keys(b)
  {
    forall k | k in Keys(a) + Keys(b) ensures k in Keys(a + b) {
      if k in Keys(a) {
        var x :| x in a && KeyOf(x) == k;
        assert x in a + b;
      } else {
        var x :| x in b && KeyOf(x) == k;
        assert x in a + b;
      }
    }
  }

  lemma KeysSnoc(dacl: seq<ACE>, a: ACE)
    ensures Keys(dacl + [a]) == Keys(dacl) + {KeyOf(a)}
    ensures KeyOf(a.(inherited := false)) == KeyOf(a)
  {
    KeysConcat(dacl, [a]);
    assert Keys([a]) == {KeyOf(a)};
  }

  /**
   Granting keeps the old list as a prefix, covers every requested key and no other, and keeps the list
   valid: keys distinct, entries explicit.
   */
  lemma {:induction false} GrantCovers(dacl: seq<ACE>, list: seq<ACE>)
    ensures dacl <= Granted(dacl, list)
    ensures Keys(Granted(dacl, list)) == Keys(dacl) + Keys(list)
    ensures AclValid(dacl) ==> AclValid(Granted(dacl, list))
    decreases |list|
  {
    hide KeyOf, Key, Keys, AclValid;
    if list == [] {
      NoKeys();
    } else {
      var a := list[0].(inherited := false);
      KeysHead(list);
      if KeyOf(list[0]) in Keys(dacl) {
        GrantCovers(dacl, list[1..]);
      } else {
        KeysSnoc(dacl, list[0]);
        KeysSnoc(dacl, a);
        AppendKeepsValid(dacl, a);
        GrantCovers(dacl + [a], list[1..]);
        assert dacl <= dacl + [a];
      }
    }
  }

  /**
   What granting appends, entry by entry: a requested entry whose key is neither in the list nor requested before is
   appended at the end, as it is but explicit; every other is passed over.
   */
  lemma {:induction false} GrantAppends(dacl: seq<ACE>, list: seq<ACE>, a: ACE)
    ensures Granted(dacl, []) == dacl
    ensures Granted(dacl, list + [a]) ==
            if KeyOf(a) in Keys(dacl) || KeyOf(a) in Keys(list) then Granted(dacl, list)
            else Granted(dacl, list) + [ACE(a.trustee, a.aceType, a.rights, a.objectType, a.inheritedObjectType,
                                            a.inheritance, false)]
    decreases |list|
  {
    hide KeyOf, Keys;
    if list == [] {
      assert list + [a] == [a] && [a][1..] == [];
      NoKeys();
    } else {
      assert (list + [a])[1..] == list[1..] + [a];
      KeysHead(list);
      var b := list[0].(inherited := false);
      if KeyOf(list[0]) in Keys(dacl) {
        GrantAppends(dacl, list[1..], a);
      } else {
        KeysSnoc(dacl, list[0]);
        KeysSnoc(dacl, b);
        GrantAppends(dacl + [b], list[1..], a);
      }
    }
  }

  lemma NoKeys()
    ensures Keys([]) == {}
  {}

  lemma KeysHead(list: seq<ACE>)
    requires list != []
    ensures Keys(list) == {KeyOf(list[0])} + Keys(list[1..])
  {
    assert list == [list[0]] + list[1..];
    KeysConcat([list[0]], list[1..]);
    assert Keys([list[0]]) == {KeyOf(list[0])};
  }

  lemma AppendKeepsValid(dacl: seq<ACE>, a: ACE)
    requires KeyOf(a) !in Keys(dacl) && !a.inherited
    ensures AclValid(dacl) ==> AclValid(dacl + [a])
  {
    hide Key;
    forall i | 0 <= i < |dacl| ensures KeyOf(dacl[i]) != KeyOf(a) { assert dacl[i] in dacl; }
  }

  /** Granting what is there changes nothing. */
  lemma {:induction false} GrantNothingNew(dacl: seq<ACE>, list: seq<ACE>)
    requires Keys(list) <= Keys(dacl)
    ensures Granted(dacl, list) == dacl
    decreases |list|
  {
    if list != [] {
      assert list[0] in list;
      assert KeyOf(list[0]) in Keys(list);
      assert Keys(list[1..]) <= Keys(list);
      GrantNothingNew(dacl, list[1..]);
    }
  }

  lemma GrantIdempotent(dacl: seq<ACE>, list: seq<ACE>)
    ensures Granted(Granted(dacl, list), list) == Granted(dacl, list)
  {
    GrantCovers(dacl, list);
    GrantNothingNew(Granted(dacl, list), list);
  }

  /** Dropping works entry by entry and keeps the order of the rest. */
  lemma {:induction false} WithoutConcat(a: seq<ACE>, b: seq<ACE>, keys: set<bytes>)
    ensures Without(a + b, keys) == Without(a, keys) + Without(b, keys)
  {
    if a == [] {
      assert a + b == b;
    } else {
      assert (a + b)[1..] == a[1..] + b;
      WithoutConcat(a[1..], b, keys);
    }
  }

  /** Exactly the explicit entries with a listed key go; a list with none of them is untouched. */
  lemma {:induction false} RevokeRemovesExactly(dacl: seq<ACE>, keys: set<bytes>)
    ensures forall a :: a in Without(dacl, keys) <==> a in dacl && (KeyOf(a) !in keys || a.inherited)
    ensures |Without(dacl, keys)| <= |dacl|
    ensures (forall a :: a in dacl ==> !Dropped(a, keys)) <==> Without(dacl, keys) == dacl
  {
    hide KeyOf;
    if dacl != [] {
      RevokeRemovesExactly(dacl[1..], keys);
      assert dacl == [dacl[0]] + dacl[1..];
      if Dropped(dacl[0], keys) { assert |Without(dacl, keys)| < |dacl|; }
    }
  }

  lemma {:induction false} RevokeKeepsValid(dacl: seq<ACE>, keys: set<bytes>)
    requires AclValid(dacl)
    ensures AclValid(Without(dacl, keys))
  {
    hide Dropped, Key;
    if dacl != [] {
      var rest := Without(dacl[1..], keys);
      RevokeKeepsValid(dacl[1..], keys);
      RevokeRemovesExactly(dacl[1..], keys);
      if !Dropped(dacl[0], keys) {
        forall j | 0 <= j < |rest| ensures Key(Lower, dacl[0]) != Key(Lower, rest[j]) {
          assert rest[j] in dacl[1..];
        }
        assert Without(dacl, keys) == [dacl[0]] + rest;
      }
    }
  }

  /** The directory after the access list under `k` is replaced. */
  function WithAcl(d: Dir, k: bytes, dacl: seq<ACE>): Dir
    requires k in d
  {
    d[k := d[k].(dacl := dacl)]
  }

  lemma AclKeepsValid(d: Dir, serial: nat, k: bytes, dacl: seq<ACE>)
    requires Valid(d, serial) && k in d && AclValid(dacl)
    ensures Valid(WithAcl(d, k, dacl), serial)
  {
    hide Issued, AclValid;
  }

  lemma {:induction false} GrantedAdds(dacl: seq<ACE>, list: seq<ACE>, keys: set<bytes>)
    requires Keys(list) <= keys
    ensures Without(Granted(dacl, list), keys) == Without(dacl, keys)
    decreases |list|
  {
    hide KeyOf;
    if list != [] {
      var a := list[0].(inherited := false);
      assert list[0] in list && KeyOf(list[0]) in Keys(list);
      assert Keys(list[1..]) <= Keys(list);
      if KeyOf(list[0]) in Keys(dacl) {
        GrantedAdds(dacl, list[1..], keys);
      } else {
        GrantedAdds(dacl + [a], list[1..], keys);
        WithoutConcat(dacl, [a], keys);
        KeysSnoc(dacl, list[0]);
        assert Without([a], keys) == [];
      }
    }
  }

  /** Revoking what was granted undoes it: nothing of the grant stays, whatever else the list holds. */
  lemma RevokeUndoesGrant(dacl: seq<ACE>, list: seq<ACE>)
    ensures Revoked(Granted(dacl, list), list) == Revoked(dacl, list)
    ensures Keys(dacl) !! Keys(list) ==> Revoked(Granted(dacl, list), list) == dacl
  {
    GrantedAdds(dacl, list, Keys(list));
    RevokeRemovesExactly(dacl, Keys(list));
    hide KeyOf;
    if Keys(dacl) !! Keys(list) {
      forall a | a in dacl ensures !Dropped(a, Keys(list)) { assert KeyOf(a) in Keys(dacl); }
    }
  }
}
