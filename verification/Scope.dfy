/** The lexical search scope of the in-memory directory against the structure of the names. */
module Scope {
  import opened Wrappers
  import opened Bytes
  import opened Grammar
  import opened RoundTrip
  import opened Compare

  /** `eqDN`, with ASCII case folding. */
  predicate EqDN(a: bytes, b: bytes) {
    var pa, pb := Parse(a), Parse(b);
    pa.Some? && pb.Some? && SameDN(Lower, pa.value, pb.value)
  }

  datatype SearchScope = Base | OneLevel | Subtree

  /** `dn` lies below `base` by the text of the two names. */
  predicate Below(dn: bytes, base: bytes) {
    HasSuffix(Lower(dn), "," + Lower(base))
  }

  function TrimSuffix(s: bytes, suffix: bytes): bytes {
    if HasSuffix(s, suffix) then s[..|s| - |suffix|] else s
  }

  predicate InScope(dn: bytes, base: bytes, scope: SearchScope) {
    match scope
    case Base => EqDN(dn, base)
    case OneLevel =>
      var rest := TrimSuffix(Lower(dn), "," + Lower(base));
      !EqDN(dn, base) && rest != Lower(dn) && ',' !in rest
    case Subtree => EqDN(dn, base) || Below(dn, base)
  }

  // ----- names with one plain-typed attribute an RDN -----

  predicate PlainByte(c: byte) {
    'a' <= c <= 'z' || 'A' <= c <= 'Z' || '0' <= c <= '9' || c == '-' || c == '.'
  }

  predicate PlainType(t: bytes) { t != [] && forall i :: 0 <= i < |t| ==> PlainByte(t[i]) }

  /** One attribute in every RDN, its type a keyword or a dotted number. */
  predicate Simple(d: DN) {
    forall i :: 0 <= i < |d| ==> |d[i]| == 1 && PlainType(d[i][0].typ)
  }

  lemma PlainIsWellFormed(t: bytes)
    requires PlainType(t)
    ensures WellFormedType(t)
  {
    assert SkipSpace(t, 0) == 0;
    assert SpaceLenBack(t, 0, |t|) == 0;
    assert t[0..|t|] == t;
  }

  lemma SimpleIsWellFormed(d: DN)
    requires Simple(d)
    ensures WellFormed(d)
  {
    forall i | 0 <= i < |d| ensures WellFormedRDN(d[i]) { PlainIsWellFormed(d[i][0].typ); }
  }

  // ----- lower-casing a name and lower-casing its text -----

  function LowerAttr(a: Attr): Attr { Attr(Lower(a.typ), Lower(a.value)) }

  function LowerDN(d: DN): (r: DN)
    requires Simple(d)
    ensures |r| == |d| && Simple(r)
    ensures forall i :: 0 <= i < |d| ==> r[i] == [LowerAttr(d[i][0])]
  {
    seq(|d|, i requires 0 <= i < |d| => [LowerAttr(d[i][0])])
  }

  lemma {:induction false} LowerEscape(v: bytes, i: nat)
    requires i <= |v|
    ensures Lower(EscapeFrom(v, i)) == EscapeFrom(Lower(v), i)
    decreases |v| - i
  {
    if i < |v| {
      LowerEscape(v, i + 1);
      assert Lower(EscapeByte(v, i)) == EscapeByte(Lower(v), i);
      LowerConcat(EscapeByte(v, i), EscapeFrom(v, i + 1));
    }
  }

  lemma LowerPrintAttrs(r: RDN)
    requires |r| == 1
    ensures Lower(PrintAttrs(r)) == PrintAttrs([LowerAttr(r[0])])
  {
    hide EscapeFrom;
    LowerEscape(r[0].value, 0);
    LowerConcat(r[0].typ + "=", Escape(r[0].value));
    LowerConcat(r[0].typ, "=");
  }

  lemma {:induction false} LowerPrint(d: DN)
    requires Simple(d)
    ensures Lower(Print(d)) == Print(LowerDN(d))
  {
    hide PrintAttrs, PlainType;
    if |d| == 1 {
      LowerPrintAttrs(d[0]);
      assert LowerDN(d) == [[LowerAttr(d[0][0])]];
    } else if |d| >= 2 {
      PrintStep(d);
      PrintStep(LowerDN(d));
      LowerPrintAttrs(d[0]);
      LowerPrint(d[1..]);
      assert LowerDN(d)[1..] == LowerDN(d[1..]);
      LowerConcat(PrintAttrs(d[0]) + ",", Print(d[1..]));
      LowerConcat(PrintAttrs(d[0]), ",");
    }
  }

  lemma SameIsEqualLowered(d: DN, e: DN)
    requires Simple(d) && Simple(e)
    ensures SameDN(Lower, d, e) <==> LowerDN(d) == LowerDN(e)
  {
    if |d| == |e| {
      forall i | 0 <= i < |d|
        ensures SameRDN(Lower, d[i], e[i]) <==> LowerDN(d)[i] == LowerDN(e)[i]
      {
        var p: Pair := FoldAttr(Lower, d[i][0]);
        var q: Pair := FoldAttr(Lower, e[i][0]);
        assert FoldAll(Lower, d[i]) == [p] && FoldAll(Lower, e[i]) == [q];
        assert multiset([p]) == multiset([q]) <==> p == q by {
          assert p in multiset([p]);
          assert p in multiset([q]) <==> p == q;
        }
      }
    }
  }

  predicate ProperTail(d: DN, tail: DN) { |tail| < |d| && d[|d| - |tail|..] == tail }

  lemma AncestorIsLoweredTail(d: DN, b: DN)
    requires Simple(d) && Simple(b)
    ensures Ancestor(Lower, b, d) <==> ProperTail(LowerDN(d), LowerDN(b))
  {
    hide PlainType;
    if |b| < |d| {
      var k := |d| - |b|;
      SameIsEqualLowered(b, d[k..]);
      assert LowerDN(d)[k..] == LowerDN(d[k..]);
    }
  }

  // ----- where commas and equals signs can stand in a printed name -----

  lemma {:induction false} EqualsIsEscaped(v: bytes, i: nat, k: nat)
    requires i <= |v| && k < |EscapeFrom(v, i)| && EscapeFrom(v, i)[k] == '='
    ensures k >= 1 && EscapeFrom(v, i)[k - 1] == '\\'
    decreases |v| - i
  {
    var e := EscapeByte(v, i);
    if k >= |e| { EqualsIsEscaped(v, i + 1, k - |e|); }
  }

  lemma {:induction false} CommaIsKept(v: bytes, i: nat)
    requires i <= |v|
    ensures ',' in EscapeFrom(v, i) <==> ',' in v[i..]
    decreases |v| - i
  {
    if i < |v| {
      CommaIsKept(v, i + 1);
      assert v[i..] == [v[i]] + v[i + 1..];
      assert ',' in EscapeByte(v, i) <==> v[i] == ',';
    }
  }

  /** After a comma inside a printed RDN every '=' follows a backslash. */
  lemma EqualsAfterComma(r: RDN, j: nat, e: nat)
    requires |r| == 1 && PlainType(r[0].typ)
    requires j < e < |PrintAttrs(r)| && PrintAttrs(r)[j] == ',' && PrintAttrs(r)[e] == '='
    ensures PrintAttrs(r)[e - 1] == '\\'
  {
    hide EscapeFrom;
    var t := r[0].typ;
    var v := EscapeFrom(r[0].value, 0);
    assert PrintAttrs(r) == t + "=" + v;
    assert forall m :: 0 <= m < |t| ==> PrintAttrs(r)[m] == t[m];
    EqualsIsEscaped(r[0].value, 0, e - |t| - 1);
  }

  /**
   A comma inside a printed RDN never starts the rest of a name: it would be an escaped comma, and the
   '=' that ends the next type would have to be an escaped one too.
   */
  lemma CommaNotInside(r: RDN, more: bytes, j: nat, s: bytes, t: bytes)
    requires |r| == 1 && PlainType(r[0].typ) && PlainType(t)
    requires more == [] || more[0] == ','
    requires j < |PrintAttrs(r)| && |s| == |PrintAttrs(r) + more| - j
    requires |s| > |t| + 1 && s[0] == ',' && s[1..|t| + 1] == t && s[|t| + 1] == '='
    ensures (PrintAttrs(r) + more)[j..] != s
  {
    var line := PrintAttrs(r);
    hide PrintAttrs;
    var (e, m) := (j + |t| + 1, |line| - j);
    if e < |line| && line[j] == ',' && line[e] == '=' { EqualsAfterComma(r, j, e); }
    assert forall k :: 0 <= k < |t| ==> t[k] == s[1..|t| + 1][k];
    assert s[|t|] == t[|t| - 1];
    assert 1 <= m <= |t| ==> s[m] == t[m - 1];
    if (line + more)[j..] == s {
      assert false;
    }
  }

  lemma PrintStarts(d: DN)
    requires d != [] && Simple(d)
    ensures exists rest :: Print(d) == d[0][0].typ + "=" + rest
  {
    hide Escape;
    var e := Escape(d[0][0].value);
    assert PrintAttrs(d[0]) == d[0][0].typ + "=" + e;
    if |d| == 1 {
      assert Print(d) == d[0][0].typ + "=" + e;
    } else {
      PrintStep(d);
      assert Print(d) == d[0][0].typ + "=" + (e + "," + Print(d[1..]));
    }
  }

  lemma AfterComma(t: bytes, m: nat)
    requires 0 < m <= |t| + 1
    ensures ("," + t)[m..] == t[m - 1..]
  {}

  lemma {:induction false} SuffixIsTail(d: DN, b: DN)
    requires Simple(d) && Simple(b) && b != []
    requires HasSuffix(Print(d), "," + Print(b))
    ensures ProperTail(d, b)
  {
    hide PrintAttrs, PlainType, WellFormedRDN;
    var s := "," + Print(b);
    assert d != [];
    var line := PrintAttrs(d[0]);
    var more := if |d| == 1 then [] else "," + Print(d[1..]);
    var p := line + more;
    assert Print(d) == p by {
      if |d| == 1 { assert d == [d[0]]; } else { PrintStep(d); }
    }
    var j := |p| - |s|;
    if j >= |line| && |d| >= 2 {
      assert p[j..] == more[j - |line|..];
      if j == |line| {
        assert Print(b) == s[1..] == more[1..] == Print(d[1..]);
        SimpleIsWellFormed(b);
        SimpleIsWellFormed(d[1..]);
        PrintInjective(b, d[1..]);
      } else {
        AfterComma(Print(d[1..]), j - |line|);
        SuffixIsTail(d[1..], b);
        assert d[1..][|d| - 1 - |b|..] == d[|d| - |b|..];
      }
    } else {
      var t := b[0][0].typ;
      PrintStarts(b);
      var rest :| Print(b) == t + "=" + rest;
      assert s[1..|t| + 1] == t;
      CommaNotInside(d[0], more, j, s, t);
    }
  }

  lemma {:induction false} PrintSplit(d: DN, k: nat)
    requires 0 < k < |d|
    ensures Print(d) == Print(d[..k]) + "," + Print(d[k..])
  {
    PrintStep(d);
    if k == 1 {
      assert d[..1] == [d[0]];
    } else {
      PrintStep(d[..k]);
      assert d[..k][1..] == d[1..][..k - 1];
      assert d[1..][k - 1..] == d[k..];
      PrintSplit(d[1..], k - 1);
    }
  }

  /** The text of `b` after a comma ends the text of `d` exactly when `b` is a proper tail of `d`. */
  lemma SuffixIffTail(d: DN, b: DN)
    requires Simple(d) && Simple(b) && b != []
    ensures HasSuffix(Print(d), "," + Print(b)) <==> ProperTail(d, b)
  {
    if HasSuffix(Print(d), "," + Print(b)) { SuffixIsTail(d, b); }
    if ProperTail(d, b) { PrintSplit(d, |d| - |b|); }
  }

  lemma EqDNOfPrinted(d: DN, b: DN)
    requires Simple(d) && Simple(b)
    ensures EqDN(Print(d), Print(b)) <==> SameDN(Lower, d, b)
  {
    hide Parse, Print, SameDN, PlainType, WellFormedRDN;
    SimpleIsWellFormed(d);
    SimpleIsWellFormed(b);
    ParsePrint(d);
    ParsePrint(b);
  }

  lemma BelowIsAncestor(d: DN, b: DN)
    requires Simple(d) && Simple(b) && b != []
    ensures Below(Print(d), Print(b)) <==> Ancestor(Lower, b, d)
  {
    hide Print, PlainType;
    LowerPrint(d);
    LowerPrint(b);
    SuffixIffTail(LowerDN(d), LowerDN(b));
    AncestorIsLoweredTail(d, b);
  }

  /** Subtree scope is exactly: the base itself or anything it is an ancestor of. */
  lemma SubtreeScope(d: DN, b: DN)
    requires Simple(d) && Simple(b) && b != []
    ensures InScope(Print(d), Print(b), Subtree) <==> SameDN(Lower, d, b) || Ancestor(Lower, b, d)
  {
    hide Print, PlainType, EqDN, Below, SameDN;
    EqDNOfPrinted(d, b);
    BelowIsAncestor(d, b);
  }

  /** Base scope is exactly the base itself. */
  lemma BaseScope(d: DN, b: DN)
    requires Simple(d) && Simple(b)
    ensures InScope(Print(d), Print(b), Base) <==> SameDN(Lower, d, b)
  {
    hide Print, PlainType, EqDN, Below, SameDN;
    EqDNOfPrinted(d, b);
  }

  /** On any texts base and one-level scope exclude each other, and both lie within subtree scope. */
  lemma ScopesNest(dn: bytes, base: bytes)
    ensures !(InScope(dn, base, Base) && InScope(dn, base, OneLevel))
    ensures InScope(dn, base, Base) || InScope(dn, base, OneLevel) ==> InScope(dn, base, Subtree)
    ensures InScope(dn, base, Base) <==>
            Parse(dn).Some? && Parse(base).Some? && SameDN(Lower, Parse(dn).value, Parse(base).value)
  {
    hide Parse, Lower, SameRDN;
  }

  lemma CommaInFront(d: DN)
    requires d != [] && Simple(d)
    ensures ',' in Print(d) <==> |d| >= 2 || ',' in d[0][0].value
  {
    hide EscapeFrom;
    if |d| == 1 {
      var a := d[0][0];
      assert d == [d[0]];
      assert Print(d) == a.typ + "=" + Escape(a.value);
      assert a.value[0..] == a.value;
      CommaIsKept(a.value, 0);
    } else {
      PrintStep(d);
    }
  }

  /**
   One-level scope is exactly: the base is the parent, and the object's own value holds no comma. The
   second half is where the code falls short of its name: a child whose value has a comma is left out.
   */
  lemma OneLevelScope(d: DN, b: DN)
    requires Simple(d) && Simple(b) && b != []
    ensures InScope(Print(d), Print(b), OneLevel) <==>
            Parent(d).Some? && SameDN(Lower, Parent(d).value, b) && ',' !in d[0][0].value
  {
    hide Print, PlainType, EqDN, LowerByte;
    EqDNOfPrinted(d, b);
    BelowIsAncestor(d, b);
    if Ancestor(Lower, b, d) {
      var k := |d| - |b|;
      var ld := LowerDN(d);
      LowerPrint(d);
      LowerPrint(b);
      AncestorIsLoweredTail(d, b);
      PrintSplit(ld, k);
      assert Lower(Print(d))[..|Print(d)| - |Print(b)| - 1] == Print(ld[..k]);
      CommaInFront(ld[..k]);
      LowerKeepsComma(d[0][0].value);
    }
  }

  /** A child named "a,b" is not found one level below its parent. */
  lemma CommaChildIsMissed()
    ensures var b := [[Attr("DC", "corp")]];
            var d := [[Attr("OU", "a,b")]] + b;
            Parent(d) == Some(b) && InScope(Print(d), Print(b), Subtree) && !InScope(Print(d), Print(b), OneLevel)
  {
    hide Print, InScope, SameRDN;
    var b := [[Attr("DC", "corp")]];
    var d := [[Attr("OU", "a,b")]] + b;
    assert d[1..] == b;
    assert d[0][0].value[1] == ',';
    SameDNIsEquivalence(Lower, b, b, b);
    SubtreeScope(d, b);
    OneLevelScope(d, b);
  }

  lemma LowerKeepsComma(s: bytes)
    ensures ',' in Lower(s) <==> ',' in s
  {
    forall i | 0 <= i < |s| ensures Lower(s)[i] == ',' <==> s[i] == ',' {}
  }
}
