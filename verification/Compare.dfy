/**
 Case-insensitive comparison. `fold` stands for Unicode case folding: `strings.EqualFold(a, b)` is
 `fold(a) == fold(b)`. Nothing else about it is used, so the results hold for every folding.
 */
module Compare {
  import opened Wrappers
  import opened Bytes
  import opened Grammar

  type Folding = bytes -> bytes

  type Pair = (bytes, bytes)

  function FoldAttr(fold: Folding, a: Attr): Pair { (fold(a.typ), fold(a.value)) }

  function FoldAll(fold: Folding, r: RDN): (s: seq<Pair>)
    ensures |s| == |r|
  {
    seq(|r|, i requires 0 <= i < |r| => FoldAttr(fold, r[i]))
  }

  /** The RDNs hold the same attributes, in any order and letter case. */
  predicate SameRDN(fold: Folding, r: RDN, o: RDN) {
    multiset(FoldAll(fold, r)) == multiset(FoldAll(fold, o))
  }

  predicate SameDN(fold: Folding, d: DN, o: DN) {
    |d| == |o| && forall i :: 0 <= i < |d| ==> SameRDN(fold, d[i], o[i])
  }

  /** `d` names a strict ancestor of `o`. */
  predicate Ancestor(fold: Folding, d: DN, o: DN) {
    |d| < |o| && SameDN(fold, d, o[|o| - |d|..])
  }

  /** The pairs of `s` not yet marked as used. */
  ghost function Unused(s: seq<Pair>, used: seq<bool>): multiset<Pair>
    requires |used| == |s|
  {
    if s == [] then multiset{}
    else (if used[0] then multiset{} else multiset{s[0]}) + Unused(s[1..], used[1..])
  }

  lemma {:induction false} UnusedAll(s: seq<Pair>, used: seq<bool>)
    requires |used| == |s| && forall j :: 0 <= j < |s| ==> !used[j]
    ensures Unused(s, used) == multiset(s)
  {
    if s != [] {
      UnusedAll(s[1..], used[1..]);
      assert s == [s[0]] + s[1..];
    }
  }

  lemma {:induction false} UnusedMark(s: seq<Pair>, used: seq<bool>, j: nat)
    requires |used| == |s| && j < |s| && !used[j]
    ensures Unused(s, used) == Unused(s, used[j := true]) + multiset{s[j]}
  {
    if j == 0 {
      assert used[j := true][1..] == used[1..];
    } else {
      assert used[j := true][1..] == used[1..][j - 1 := true];
      UnusedMark(s[1..], used[1..], j - 1);
    }
  }

  lemma {:induction false} UnusedWithout(s: seq<Pair>, used: seq<bool>, p: Pair)
    requires |used| == |s| && forall j :: 0 <= j < |s| && !used[j] ==> s[j] != p
    ensures Unused(s, used)[p] == 0
  {
    if s != [] { UnusedWithout(s[1..], used[1..], p); }
  }

  lemma FoldPrefix(fold: Folding, r: RDN, i: nat)
    requires i < |r|
    ensures multiset(FoldAll(fold, r[..i + 1])) == multiset(FoldAll(fold, r[..i])) + multiset{FoldAttr(fold, r[i])}
    ensures multiset(FoldAll(fold, r[..i + 1])) <= multiset(FoldAll(fold, r))
  {
    assert FoldAll(fold, r[..i + 1]) == FoldAll(fold, r[..i]) + [FoldAttr(fold, r[i])];
    assert FoldAll(fold, r) == FoldAll(fold, r[..i + 1]) + FoldAll(fold, r)[i + 1..];
  }

  /** The first `i` attributes are matched and the used flags mark their partners. */
  ghost predicate Matched(fold: Folding, r: RDN, i: nat, goal: seq<Pair>, used: seq<bool>)
    requires i <= |r| && |used| == |goal|
  {
    multiset(FoldAll(fold, r[..i])) + Unused(goal, used) == multiset(goal)
  }

  lemma MatchedStart(fold: Folding, r: RDN, goal: seq<Pair>, used: seq<bool>)
    requires |used| == |goal| && forall j :: 0 <= j < |goal| ==> !used[j]
    ensures Matched(fold, r, 0, goal, used)
  {
    UnusedAll(goal, used);
  }

  lemma MatchedNext(fold: Folding, r: RDN, i: nat, goal: seq<Pair>, used: seq<bool>, j: nat)
    requires i < |r| && |used| == |goal| && Matched(fold, r, i, goal, used)
    requires j < |goal| && !used[j] && goal[j] == FoldAttr(fold, r[i])
    ensures Matched(fold, r, i + 1, goal, used[j := true])
  {
    hide FoldAll, Unused;
    UnusedMark(goal, used, j);
    FoldPrefix(fold, r, i);
  }

  lemma MatchedAll(fold: Folding, r: RDN, goal: seq<Pair>, used: seq<bool>)
    requires |r| == |goal| == |used| && Matched(fold, r, |r|, goal, used)
    ensures multiset(FoldAll(fold, r)) == multiset(goal)
  {
    assert r[..|r|] == r;
    hide FoldAll, Unused;
    var (m, u) := (multiset(FoldAll(fold, r)), Unused(goal, used));
    assert |m + u| == |m| + |u| && |m| == |multiset(goal)|;
    assert u == multiset{};
  }

  lemma NoPartner(fold: Folding, r: RDN, i: nat, goal: seq<Pair>, used: seq<bool>)
    requires i < |r| && |used| == |goal| && Matched(fold, r, i, goal, used)
    requires forall j :: 0 <= j < |goal| && !used[j] ==> goal[j] != FoldAttr(fold, r[i])
    ensures multiset(FoldAll(fold, r)) != multiset(goal)
  {
    hide FoldAll, Unused;
    var p := FoldAttr(fold, r[i]);
    FoldPrefix(fold, r, i);
    UnusedWithout(goal, used, p);
    assert multiset(FoldAll(fold, r[..i + 1]))[p] == multiset(goal)[p] + 1;
  }

  /** `RelativeDN.equalFold`: taking the first unused match never misses a matching. */
  method RdnEqualFold(fold: Folding, r: RDN, other: RDN) returns (eq: bool)
    ensures eq <==> SameRDN(fold, r, other)
  {
    ghost var goal := FoldAll(fold, other);
    if |r| != |other| {
      assert |multiset(FoldAll(fold, r))| != |multiset(goal)|;
      return false;
    }
    var used := new bool[|other|](_ => false);
    MatchedStart(fold, r, goal, used[..]);
    for i := 0 to |r|
      invariant Matched(fold, r, i, goal, used[..])
    {
      var matched := false;
      for j := 0 to |other|
        invariant !matched && Matched(fold, r, i, goal, used[..])
        invariant forall m :: 0 <= m < j && !used[m] ==> goal[m] != FoldAttr(fold, r[i])
      {
        if used[j] {
          continue;
        }
        if fold(r[i].typ) == fold(other[j].typ) && fold(r[i].value) == fold(other[j].value) {
          MatchedNext(fold, r, i, goal, used[..], j);
          ghost var before := used[..];
          used[j], matched := true, true;
          assert used[..] == before[j := true];
          break;
        }
      }
      if !matched {
        NoPartner(fold, r, i, goal, used[..]);
        return false;
      }
    }
    MatchedAll(fold, r, goal, used[..]);
    return true;
  }

  /** `DN.EqualFold`; a nil `other` is None. */
  method EqualFold(fold: Folding, d: DN, other: Option<DN>) returns (eq: bool)
    ensures eq <==> other.Some? && SameDN(fold, d, other.value)
  {
    if other.None? || |d| != |other.value| {
      return false;
    }
    for i := 0 to |d|
      invariant forall j :: 0 <= j < i ==> SameRDN(fold, d[j], other.value[j])
    {
      var same := RdnEqualFold(fold, d[i], other.value[i]);
      if !same {
        return false;
      }
    }
    return true;
  }

  /** `DN.AncestorOfFold`. */
  method AncestorOfFold(fold: Folding, d: DN, other: Option<DN>) returns (above: bool)
    ensures above <==> other.Some? && Ancestor(fold, d, other.value)
  {
    if other.None? || |d| >= |other.value| {
      return false;
    }
    var offset := |other.value| - |d|;
    for i := 0 to |d|
      invariant forall j :: 0 <= j < i ==> SameRDN(fold, d[j], other.value[j + offset])
    {
      var same := RdnEqualFold(fold, d[i], other.value[i + offset]);
      if !same {
        assert !SameRDN(fold, d[i], other.value[offset..][i]);
        return false;
      }
    }
    return true;
  }

  lemma SameDNIsEquivalence(fold: Folding, a: DN, b: DN, c: DN)
    ensures SameDN(fold, a, a)
    ensures SameDN(fold, a, b) <==> SameDN(fold, b, a)
    ensures SameDN(fold, a, b) && SameDN(fold, b, c) ==> SameDN(fold, a, c)
  {}

  lemma SameTail(fold: Folding, a: DN, b: DN, k: nat)
    requires SameDN(fold, a, b) && k <= |a|
    ensures SameDN(fold, a[k..], b[k..])
  {}

  /** Strict partial order on DNs taken up to letter case and attribute order. */
  lemma AncestorIsStrictOrder(fold: Folding, a: DN, b: DN, c: DN)
    ensures !Ancestor(fold, a, a)
    ensures Ancestor(fold, a, b) ==> !Ancestor(fold, b, a) && !SameDN(fold, a, b)
    ensures Ancestor(fold, a, b) && Ancestor(fold, b, c) ==> Ancestor(fold, a, c)
    ensures SameDN(fold, a, b) ==> (Ancestor(fold, a, c) <==> Ancestor(fold, b, c))
    ensures SameDN(fold, a, b) ==> (Ancestor(fold, c, a) <==> Ancestor(fold, c, b))
  {
    if Ancestor(fold, a, b) && Ancestor(fold, b, c) {
      var k := |b| - |a|;
      SameTail(fold, b, c[|c| - |b|..], k);
      assert c[|c| - |b|..][k..] == c[|c| - |a|..];
      SameDNIsEquivalence(fold, a, b[k..], c[|c| - |a|..]);
    }
    if SameDN(fold, a, b) {
      if |a| < |c| { SameDNIsEquivalence(fold, a, b, c[|c| - |a|..]); SameDNIsEquivalence(fold, b, a, c[|c| - |a|..]); }
      if |c| < |a| {
        SameTail(fold, a, b, |a| - |c|);
        SameDNIsEquivalence(fold, c, a[|a| - |c|..], b[|a| - |c|..]);
        SameDNIsEquivalence(fold, c, b[|a| - |c|..], a[|a| - |c|..]);
      }
    }
  }

  /** `DN.Parent`; nil is None. */
  function Parent(d: DN): Option<DN> {
    if |d| <= 1 then None else Some(d[1..])
  }

  /** `k` applications of `Parent`. */
  function Up(d: DN, k: nat): Option<DN>
    decreases k
  {
    if k == 0 then Some(d)
    else
      var p :- Parent(d);
      Up(p, k - 1)
  }

  lemma {:induction false} UpDrops(d: DN, k: nat)
    ensures Up(d, k) == if k == 0 then Some(d) else if k < |d| then Some(d[k..]) else None
    decreases k
  {
    if k != 0 && Parent(d).Some? {
      UpDrops(d[1..], k - 1);
    }
  }

  /**
   For a non-empty `d`, being an ancestor is being reached by `Parent`. The empty DN is the exception:
   it is an ancestor of every non-empty DN, and `Parent` never reaches it.
   */
  lemma AncestorIsIteratedParent(fold: Folding, d: DN, o: DN)
    ensures Ancestor(fold, d, o) <==>
            (d == [] && o != [])
            || exists k :: k >= 1 && Up(o, k).Some? && SameDN(fold, d, Up(o, k).value)
  {
    if Ancestor(fold, d, o) && d != [] {
      var k := |o| - |d|;
      UpDrops(o, k);
      assert Up(o, k).Some? && SameDN(fold, d, Up(o, k).value);
    }
    forall k | k >= 1 && Up(o, k).Some? && SameDN(fold, d, Up(o, k).value)
      ensures Ancestor(fold, d, o)
    {
      UpDrops(o, k);
    }
  }
}
