/** `CanonicalACEKey` (`acl.go`). `lower` stands for `strings.ToLower`. */
module AceKey {
  import opened Bytes

  type Lowering = bytes -> bytes

  datatype ACE = ACE(
    trustee: bytes, aceType: bytes, rights: seq<bytes>, objectType: bytes,
    inheritedObjectType: bytes, inheritance: bytes, inherited: bool)

  const US: byte := '\U{1f}'
  const RS: byte := '\U{1e}'

  // ----- sort.Strings -----

  /** Byte-wise lexicographic order. */
  predicate LexLess(s: bytes, t: bytes) {
    t != [] && (s == [] || s[0] < t[0] || (s[0] == t[0] && LexLess(s[1..], t[1..])))
  }

  lemma {:induction false} LexTotal(s: bytes, t: bytes)
    ensures LexLess(s, t) || LexLess(t, s) || s == t
    ensures !(LexLess(s, t) && LexLess(t, s)) && !LexLess(s, s)
  {
    if s != [] && t != [] {
      LexTotal(s[1..], t[1..]);
      LexTotal(s[1..], s[1..]);
      assert [s[0]] + s[1..] == s && [t[0]] + t[1..] == t;
    } else if s != [] {
      LexTotal(s[1..], s[1..]);
    }
  }

  lemma {:induction false} LexTransitive(s: bytes, t: bytes, u: bytes)
    requires !LexLess(t, s) && !LexLess(u, t)
    ensures !LexLess(u, s)
    decreases |t|
  {
    if s != [] && t != [] && u != [] && s[0] == t[0] == u[0] {
      LexTransitive(s[1..], t[1..], u[1..]);
    }
  }

  /** It is the order by the first byte that differs, a proper prefix coming first. */
  lemma {:induction false} LexLessIff(s: bytes, t: bytes)
    ensures LexLess(s, t) <==> exists i: nat :: FirstDifference(s, t, i) && (i == |s| || s[i] < t[i])
  {
    if s != [] && t != [] && s[0] == t[0] {
      LexLessIff(s[1..], t[1..]);
      forall i: nat | FirstDifference(s[1..], t[1..], i) ensures FirstDifference(s, t, i + 1) {
        DifferenceShifts(s, t, i);
      }
      forall i: nat | FirstDifference(s, t, i) ensures i > 0 && FirstDifference(s[1..], t[1..], i - 1) {
        if i > 0 { DifferenceShifts(s, t, i - 1); }
      }
      if i: nat :| FirstDifference(s[1..], t[1..], i) && (i == |s[1..]| || s[1..][i] < t[1..][i]) {
        assert FirstDifference(s, t, i + 1) && (i + 1 == |s| || s[i + 1] < t[i + 1]);
      }
      if i: nat :| FirstDifference(s, t, i) && (i == |s| || s[i] < t[i]) {
        assert FirstDifference(s[1..], t[1..], i - 1) && (i - 1 == |s[1..]| || s[1..][i - 1] < t[1..][i - 1]);
      }
    } else if t != [] {
      assert FirstDifference(s, t, 0);
    }
  }

  lemma DifferenceShifts(s: bytes, t: bytes, i: nat)
    requires s != [] && t != [] && s[0] == t[0]
    ensures FirstDifference(s[1..], t[1..], i) <==> FirstDifference(s, t, i + 1)
  {
    if i <= |s| - 1 && i < |t| - 1 {
      assert s[..i + 1] == [s[0]] + s[1..][..i] && t[..i + 1] == [t[0]] + t[1..][..i];
      if s[..i + 1] == t[..i + 1] { assert s[..i + 1][1..] == s[1..][..i] && t[..i + 1][1..] == t[1..][..i]; }
    }
  }

  /** `t` goes on at `i`, where `s` ends or has another byte, after a common start. */
  predicate FirstDifference(s: bytes, t: bytes, i: nat) {
    i <= |s| && i < |t| && s[..i] == t[..i] && (i < |s| ==> s[i] != t[i])
  }

  predicate Sorted(ss: seq<bytes>) {
    forall i, j :: 0 <= i < j < |ss| ==> !LexLess(ss[j], ss[i])
  }

  /** Inserts `x` behind the last element that is not greater. */
  function Insert(ss: seq<bytes>, x: bytes): (r: seq<bytes>)
    ensures |r| == |ss| + 1
  {
    if ss == [] || !LexLess(x, ss[|ss| - 1]) then ss + [x]
    else Insert(ss[..|ss| - 1], x) + [ss[|ss| - 1]]
  }

  function Sort(ss: seq<bytes>): (r: seq<bytes>)
    ensures |r| == |ss|
  {
    if ss == [] then [] else Insert(Sort(ss[..|ss| - 1]), ss[|ss| - 1])
  }

  lemma {:induction false} InsertSorts(ss: seq<bytes>, x: bytes)
    requires Sorted(ss)
    ensures Sorted(Insert(ss, x))
    ensures multiset(Insert(ss, x)) == multiset(ss) + multiset{x}
  {
    hide LexLess;
    if ss != [] {
      var (front, last) := (ss[..|ss| - 1], ss[|ss| - 1]);
      assert ss == front + [last];
      if LexLess(x, last) {
        InsertSorts(front, x);
        var r := Insert(front, x);
        LexTotal(x, last);
        assert Insert(ss, x) == r + [last];
        hide Insert;
        forall i | 0 <= i < |r| ensures !LexLess(last, r[i]) {
          assert r[i] in multiset(r);
          if r[i] != x { assert r[i] in multiset(front); }
        }
      } else {
        forall i | 0 <= i < |ss| ensures !LexLess(x, ss[i]) {
          if i < |ss| - 1 { LexTransitive(ss[i], last, x); }
        }
      }
    }
  }

  lemma {:induction false} SortSorts(ss: seq<bytes>)
    ensures Sorted(Sort(ss))
    ensures multiset(Sort(ss)) == multiset(ss)
  {
    if ss != [] {
      SortSorts(ss[..|ss| - 1]);
      InsertSorts(Sort(ss[..|ss| - 1]), ss[|ss| - 1]);
      assert ss == ss[..|ss| - 1] + [ss[|ss| - 1]];
    }
  }

  /** There is only one sorted arrangement. */
  lemma {:induction false} SortedUnique(ss: seq<bytes>, tt: seq<bytes>)
    requires Sorted(ss) && Sorted(tt) && multiset(ss) == multiset(tt)
    ensures ss == tt
  {
    hide LexLess;
    assert |ss| == |multiset(ss)| == |multiset(tt)| == |tt|;
    if ss != [] {
      HeadIsLeast(ss, tt);
      HeadIsLeast(tt, ss);
      LexTotal(ss[0], tt[0]);
      TailBag(ss);
      TailBag(tt);
      SortedUnique(ss[1..], tt[1..]);
      assert ss == [ss[0]] + ss[1..] && tt == [tt[0]] + tt[1..];
    }
  }

  lemma HeadIsLeast(ss: seq<bytes>, tt: seq<bytes>)
    requires ss != [] && tt != [] && Sorted(ss) && multiset(ss) == multiset(tt)
    ensures !LexLess(tt[0], ss[0])
  {
    LexTotal(ss[0], ss[0]);
    hide LexLess;
    assert tt[0] in multiset(ss);
  }

  lemma TailBag(ss: seq<bytes>)
    requires ss != []
    ensures multiset(ss[1..]) == multiset(ss) - multiset{ss[0]}
  {
    assert ss == [ss[0]] + ss[1..];
  }

  lemma SortIsCanonical(ss: seq<bytes>, tt: seq<bytes>)
    ensures Sort(ss) == Sort(tt) <==> multiset(ss) == multiset(tt)
  {
    SortSorts(ss);
    SortSorts(tt);
    if multiset(ss) == multiset(tt) { SortedUnique(Sort(ss), Sort(tt)); }
  }

  /** `sort.Strings`, in place. */
  method SortStrings(a: array<bytes>)
    modifies a
    ensures a[..] == Sort(old(a[..]))
  {
    hide LexLess, Insert;
    ghost var was := a[..];
    assert a[..0] == Sort(was[..0]);
    for i := 0 to a.Length
      invariant a[..i] == Sort(was[..i])
      invariant a[i..] == was[i..]
    {
      InsertAt(a, i);
      assert was[..i + 1][..i] == was[..i];
    }
    assert a[..] == a[..a.Length] && was[..a.Length] == was;
  }

  /** Moves `a[i]` down to its place among the sorted `a[..i]`. */
  method InsertAt(a: array<bytes>, i: nat)
    requires i < a.Length
    modifies a
    ensures a[..i + 1] == Insert(old(a[..i]), old(a[i]))
    ensures a[i + 1..] == old(a[i + 1..])
  {
    hide LexLess, Insert;
    ghost var (before, tail) := (a[..i], a[i + 1..]);
    var x := a[i];
    var j := i;
    assert Insert(before, x) == Insert(before[..j], x) + before[j..] by { InsertEnd(before, x); }
    while j > 0 && LexLess(x, a[j - 1])
      invariant j <= i && a[j] == x
      invariant forall m :: 0 <= m < j ==> a[m] == before[m]
      invariant forall m :: j < m <= i ==> a[m] == before[m - 1]
      invariant a[i + 1..] == tail
      invariant Insert(before, x) == Insert(before[..j], x) + before[j..]
    {
      InsertShift(before, x, j);
      a[j], a[j - 1] := a[j - 1], x;
      j := j - 1;
    }
    InsertStop(before, x, j);
    assert a[..i + 1] == before[..j] + [x] + before[j..];
  }

  lemma InsertEnd(ss: seq<bytes>, x: bytes)
    ensures Insert(ss, x) == Insert(ss[..|ss|], x) + ss[|ss|..]
  {
    hide Insert;
    assert ss[..|ss|] == ss && ss[|ss|..] == [];
  }

  lemma InsertShift(ss: seq<bytes>, x: bytes, j: nat)
    requires 0 < j <= |ss| && LexLess(x, ss[j - 1])
    ensures Insert(ss[..j], x) + ss[j..] == Insert(ss[..j - 1], x) + ss[j - 1..]
  {
    hide LexLess;
    assert ss[..j][..j - 1] == ss[..j - 1];
    assert Insert(ss[..j], x) == Insert(ss[..j - 1], x) + [ss[j - 1]];
    hide Insert;
    assert [ss[j - 1]] + ss[j..] == ss[j - 1..];
  }

  lemma InsertStop(ss: seq<bytes>, x: bytes, j: nat)
    requires j <= |ss| && (j == 0 || !LexLess(x, ss[j - 1]))
    ensures Insert(ss[..j], x) + ss[j..] == ss[..j] + [x] + ss[j..]
  {
    hide LexLess;
  }

  // ----- the key -----

  function LowerAll(lower: Lowering, rights: seq<bytes>): (r: seq<bytes>)
    ensures |r| == |rights|
  {
    seq(|rights|, i requires 0 <= i < |rights| => lower(rights[i]))
  }

  function Scalars(lower: Lowering, a: ACE): (bytes, bytes, bytes, bytes, bytes) {
    (lower(a.trustee), lower(a.aceType), lower(a.objectType), lower(a.inheritedObjectType), lower(a.inheritance))
  }

  function Parts(lower: Lowering, a: ACE): seq<bytes> {
    [lower(a.trustee), lower(a.aceType), Join(Sort(LowerAll(lower, a.rights)), [RS]),
     lower(a.objectType), lower(a.inheritedObjectType), lower(a.inheritance)]
  }

  function Key(lower: Lowering, a: ACE): bytes { Join(Parts(lower, a), [US]) }

  method CanonicalACEKey(lower: Lowering, a: ACE) returns (key: bytes)
    ensures key == Key(lower, a)
  {
    hide Sort, Join;
    var rights := new bytes[|a.rights|];
    for i := 0 to |a.rights|
      invariant rights[..i] == LowerAll(lower, a.rights)[..i]
    {
      rights[i] := lower(a.rights[i]);
    }
    assert rights[..] == LowerAll(lower, a.rights);
    SortStrings(rights);
    var parts := [
      lower(a.trustee), lower(a.aceType), Join(rights[..], [RS]),
      lower(a.objectType), lower(a.inheritedObjectType), lower(a.inheritance)];
    return Join(parts, [US]);
  }

  // ----- what the key identifies -----

  predicate Lacks(c: byte, s: bytes) { forall i :: 0 <= i < |s| ==> s[i] != c }

  predicate AllLack(c: byte, parts: seq<bytes>) { forall i :: 0 <= i < |parts| ==> Lacks(c, parts[i]) }

  /** `strings.Split` on one byte: undoes `Join`. */
  function Split(s: bytes, c: byte): (parts: seq<bytes>)
    ensures parts != []
    decreases |s|
  {
    var q := IndexOf(s, c);
    if q == |s| then [s] else [s[..q]] + Split(s[q + 1..], c)
  }

  lemma IndexOfAbsent(s: bytes, c: byte)
    requires Lacks(c, s)
    ensures IndexOf(s, c) == |s|
  {}

  lemma {:induction false} SplitJoin(parts: seq<bytes>, c: byte)
    requires parts != [] && AllLack(c, parts)
    ensures Split(Join(parts, [c]), c) == parts
  {
    hide IndexOf;
    if |parts| == 1 {
      IndexOfAbsent(parts[0], c);
    } else {
      var rest := Join(parts[1..], [c]);
      var s := Join(parts, [c]);
      assert s == parts[0] + ([c] + rest);
      IndexOfFirst(parts[0], c, rest);
      assert s[..|parts[0]|] == parts[0] && s[|parts[0]| + 1..] == rest;
      SplitJoin(parts[1..], c);
    }
  }

  /** Joined lists of separator-free parts differ, but for the empty list and the list of one empty part. */
  lemma JoinInjective(p: seq<bytes>, q: seq<bytes>, c: byte)
    requires AllLack(c, p) && AllLack(c, q)
    ensures Join(p, [c]) == Join(q, [c]) <==> p == q || (p == [] && q == [[]]) || (p == [[]] && q == [])
  {
    if p != [] { SplitJoin(p, c); }
    if q != [] { SplitJoin(q, c); }
    if Join(p, [c]) == Join(q, [c]) {
      if p == [] && q != [] { assert Split([], c) == [[]]; }
      if q == [] && p != [] { assert Split([], c) == [[]]; }
    }
  }

  lemma {:induction false} JoinLacks(parts: seq<bytes>, sep: byte, c: byte)
    requires AllLack(c, parts) && sep != c
    ensures Lacks(c, Join(parts, [sep]))
  {
    if |parts| >= 2 { JoinLacks(parts[1..], sep, c); }
  }

  /** The lower-cased fields hold neither separator. */
  predicate Clean(lower: Lowering, a: ACE) {
    var (t, ty, o, io, inh) := Scalars(lower, a);
    && Lacks(US, t) && Lacks(US, ty) && Lacks(US, o) && Lacks(US, io) && Lacks(US, inh)
    && AllLack(US, LowerAll(lower, a.rights)) && AllLack(RS, LowerAll(lower, a.rights))
  }

  /** The two lists of rights that the key cannot tell apart: none, and one with an empty name. */
  predicate NoRight(rights: seq<bytes>) { rights == [] || rights == [[]] }

  lemma SortKeepsLack(ss: seq<bytes>, c: byte)
    requires AllLack(c, ss)
    ensures AllLack(c, Sort(ss))
  {
    SortSorts(ss);
    forall i | 0 <= i < |ss| ensures Lacks(c, Sort(ss)[i]) {
      assert Sort(ss)[i] in multiset(ss);
    }
  }

  lemma PartsLackUS(lower: Lowering, a: ACE)
    requires Clean(lower, a)
    ensures AllLack(US, Parts(lower, a))
  {
    SortKeepsLack(LowerAll(lower, a.rights), US);
    JoinLacks(Sort(LowerAll(lower, a.rights)), RS, US);
  }

  /**
   The key is a complete invariant: equal exactly when the lower-cased scalar fields agree and the
   lower-cased rights agree as multisets. Only a nameless right is lost.
   */
  lemma KeyIsComplete(lower: Lowering, a: ACE, b: ACE)
    requires Clean(lower, a) && Clean(lower, b)
    ensures Key(lower, a) == Key(lower, b) <==>
            && Scalars(lower, a) == Scalars(lower, b)
            && var (ra, rb) := (LowerAll(lower, a.rights), LowerAll(lower, b.rights));
               multiset(ra) == multiset(rb) || (NoRight(ra) && NoRight(rb))
  {
    var (ra, rb) := (LowerAll(lower, a.rights), LowerAll(lower, b.rights));
    PartsLackUS(lower, a);
    PartsLackUS(lower, b);
    SortKeepsLack(ra, RS);
    SortKeepsLack(rb, RS);
    hide Sort, Join, LowerAll;
    JoinInjective(Parts(lower, a), Parts(lower, b), US);
    JoinInjective(Sort(ra), Sort(rb), RS);
    SortIsCanonical(ra, rb);
    SortOfNone(ra);
    SortOfNone(rb);
  }

  lemma SortOfNone(ss: seq<bytes>)
    ensures Sort(ss) == [] <==> ss == []
    ensures Sort(ss) == [[]] <==> ss == [[]]
  {
    var one: seq<bytes> := [[]];
    assert Sort(one) == one;
    SortSorts(ss);
    if Sort(ss) == one {
      assert ss[0] in multiset(ss) && |ss| == 1;
    }
  }

  /** The text of a key: the fields in their order, the rights sorted, 0x1f between fields and 0x1e between rights. */
  lemma KeyText(lower: Lowering, a: ACE)
    ensures var rights := Join(Sort(LowerAll(lower, a.rights)), ['\U{1e}']);
            Key(lower, a) ==
            lower(a.trustee) + ['\U{1f}'] + lower(a.aceType) + ['\U{1f}'] + rights + ['\U{1f}']
            + lower(a.objectType) + ['\U{1f}'] + lower(a.inheritedObjectType) + ['\U{1f}'] + lower(a.inheritance)
  {
    hide Join, Sort;
    JoinSix(Parts(lower, a), [US]);
  }

  lemma JoinTwo(a: bytes, b: bytes, sep: bytes)
    ensures Join([a, b], sep) == a + sep + b
  {
    assert [a, b][1..] == [b];
  }

  lemma JoinSix(ps: seq<bytes>, sep: bytes)
    requires |ps| == 6
    ensures Join(ps, sep) == ps[0] + sep + ps[1] + sep + ps[2] + sep + ps[3] + sep + ps[4] + sep + ps[5]
  {
    assert ps[4..] == [ps[4], ps[5]];
    JoinTwo(ps[4], ps[5], sep);
    JoinHead(ps, 3, sep);
    JoinHead(ps, 2, sep);
    JoinHead(ps, 1, sep);
    JoinHead(ps, 0, sep);
    assert ps[0..] == ps;
  }

  lemma JoinHead(ps: seq<bytes>, i: nat, sep: bytes)
    requires i + 1 < |ps|
    ensures Join(ps[i..], sep) == ps[i] + sep + Join(ps[i + 1..], sep)
  {
    assert ps[i..][1..] == ps[i + 1..];
  }

  /** ASCII lower-casing brings in no separator. */
  lemma LowerKeepsLack(s: bytes, c: byte)
    requires Lacks(c, s) && !('a' <= c <= 'z')
    ensures Lacks(c, Lower(s))
  {}
}
