/**
 Names as the store spells them: a new object is stored under `type=name,container` with the container's text as it
 was given. The store compares such names by their text; here that is held against what the names mean.
 */
module StoredNames {
  import opened Wrappers
  import opened Bytes
  import opened Grammar
  import opened RoundTrip
  import opened Compare
  import opened Components
  import opened Scope
  import opened Directory
  import opened Moves
  import opened Orbits
  import opened LetterCase
  import opened Operations

  // ----- what a suffix match on a stored name can mean -----

  /** The text up to the first '=' has no comma and does not end in a backslash. */
  predicate PlainStart(b: bytes) {
    var q := IndexOf(b, '=');
    q < |b| && ',' !in b[..q] && (q > 0 ==> b[q - 1] != '\\')
  }

  lemma ChildParts(typ: bytes, name: bytes, c: bytes)
    ensures var head := typ + "=" + Escape(name);
            && ChildName(typ, name, c) == head + ("," + c)
            && head == PrintAttrs([Attr(typ, name)])
            && ChildName(typ, name, c) == typ + (['='] + (Escape(name) + "," + c))
            && ChildName(typ, name, c)[..|typ|] == typ
  {
    hide Escape;
    PrintAttrsOne([Attr(typ, name)]);
    hide PrintAttrs;
  }

  /** Stored names start plainly, and so does every readable name whose first type is plain. */
  lemma ChildStartsPlainly(typ: bytes, name: bytes, c: bytes)
    requires PlainType(typ)
    ensures PlainStart(ChildName(typ, name, c))
  {
    hide Escape, ChildName, IndexOf;
    ChildParts(typ, name, c);
    IndexOfFirst(typ, '=', Escape(name) + "," + c);
  }

  lemma ReadableStartsPlainly(b: bytes)
    requires Parse(b).Some? && Parse(b).value != [] && Parse(b).value[0] != []
    requires PlainType(Parse(b).value[0][0].typ)
    ensures PlainStart(b)
  {
    hide ScanValue, Trim, IsBer, ValueOf, IndexOf;
    var q := IndexOf(b, '=');
    var t := Trim(b[..q]);
    assert t == Parse(b).value[0][0].typ;
    forall i | 0 <= i < q ensures b[i] != ',' && b[i] != '\\' {
      if b[i] == ',' || b[i] == '\\' { TrimKeeps(b[..q], i); }
    }
  }

  lemma SameLowered(s: bytes, t: bytes, i: nat)
    requires Lower(s) == Lower(t) && i < |s|
    ensures |s| == |t| && (s[i] == ',' <==> t[i] == ',') && (s[i] == '=' <==> t[i] == '=')
    ensures s[i] == '\\' <==> t[i] == '\\'
  {
    assert Lower(s)[i] == Lower(t)[i];
  }

  lemma NoCommaBefore(b: bytes)
    requires PlainStart(b)
    ensures forall i :: 0 <= i < IndexOf(b, '=') ==> b[i] != ','
  {
    forall i | 0 <= i < IndexOf(b, '=') ensures b[i] != ',' { assert b[..IndexOf(b, '=')][i] == b[i]; }
  }

  /** What follows a comma inside the first RDN of a stored name is never the text of a name. */
  lemma InnerCommaIsNotFollowed(typ: bytes, name: bytes, c: bytes, b: bytes, j: nat)
    requires PlainType(typ) && PlainStart(b)
    requires j < |PrintAttrs([Attr(typ, name)])| && ChildName(typ, name, c)[j] == ','
    ensures j < |ChildName(typ, name, c)| && Lower(ChildName(typ, name, c)[j + 1..]) != Lower(b)
  {
    hide PrintAttrs, Escape, ChildName, Lower;
    ChildParts(typ, name, c);
    var r := [Attr(typ, name)];
    var (k, h, q) := (ChildName(typ, name, c), |PrintAttrs(r)|, IndexOf(b, '='));
    var s := k[j + 1..];
    NoCommaBefore(b);
    if Lower(s) == Lower(b) {
      SameLowered(s, b, q);
      var p := j + 1 + q;
      assert k[p] == s[q] == '=';
      if p < h {
        EqualsAfterComma(r, j, p);
        if q > 0 { SameLowered(s, b, q - 1); }
      } else {
        assert k[h] == ',' && s[h - j - 1] == ',';
        SameLowered(s, b, h - j - 1);
      }
    }
  }

  /** A stored name lies textually below `b` exactly when its container is `b` or lies below it, up to letter case. */
  lemma BelowChild(typ: bytes, name: bytes, c: bytes, b: bytes)
    requires PlainType(typ) && PlainStart(b)
    ensures Below(ChildName(typ, name, c), b) <==> AtOrBelow(c, b)
  {
    hide PrintAttrs, Escape, ChildName, Lower, PlainStart, Below;
    ChildParts(typ, name, c);
    var (k, h) := (ChildName(typ, name, c), |PrintAttrs([Attr(typ, name)])|);
    BelowByText(k, b);
    BelowByText(c, b);
    LowerLength(c, b);
    var m := |k| - |b|;
    if m >= 1 {
      if m - 1 < h {
        if k[m - 1] == ',' { InnerCommaIsNotFollowed(typ, name, c, b, m - 1); }
      } else {
        assert k[m..] == c[m - h - 1..];
        if m - 1 == h { assert c[0..] == c; } else { assert k[m - 1] == c[m - h - 2]; }
      }
    }
  }

  lemma LowerLength(s: bytes, t: bytes)
    ensures Lower(s) == Lower(t) ==> |s| == |t|
  {}

  // ----- what it should mean -----

  /** `b` names a strict ancestor of the object `k` names. */
  predicate UnderName(k: bytes, b: bytes) {
    Parse(k).Some? && Parse(b).Some? && Ancestor(Lower, Parse(b).value, Parse(k).value)
  }

  lemma ReadChildName(typ: bytes, name: bytes, c: bytes)
    requires PlainType(typ)
    ensures Parse(ChildName(typ, name, c)) ==
            if Parse(c).Some? && Parse(c).value != [] then Some([[Attr(typ, name)]] + Parse(c).value) else None
  {
    PlainIsWellFormed(typ);
    ReadChild(typ, name, c);
    if Trim(c) == [] { BlankIsNotRead(c); } else { ReadIsNotEmpty(c); }
    hide ReadRDNs, Trim, ChildName, WellFormedType;
  }

  lemma ReadIsNotEmpty(c: bytes)
    requires Trim(c) != []
    ensures Parse(c) == ReadRDNs(c) && (Parse(c).Some? ==> Parse(c).value != [])
  {}

  /** A stored name is a child of `b` when its container names `b`, and deeper when that is below `b`. */
  lemma UnderChild(typ: bytes, name: bytes, c: bytes, b: bytes)
    requires PlainType(typ) && Parse(b).Some? && Parse(b).value != []
    ensures ChildOf(ChildName(typ, name, c), b) <==> EqDN(c, b)
    ensures DeeperBelow(ChildName(typ, name, c), b) <==> UnderName(c, b)
    ensures UnderName(ChildName(typ, name, c), b) <==> EqDN(c, b) || UnderName(c, b)
  {
    hide Parse, ChildName, SameRDN, PlainType;
    ReadChildName(typ, name, c);
    var (pb, pc) := (Parse(b).value, Parse(c));
    if pc.Some? && pc.value != [] {
      var k := [[Attr(typ, name)]] + pc.value;
      assert k[1..] == pc.value;
      SameDNIsEquivalence(Lower, pc.value, pb, pb);
      if |pb| < |pc.value| {
        assert k[|k| - |pb|..] == pc.value[|pc.value| - |pb|..];
      }
    }
  }

  lemma UnderIsNotEqual(k: bytes, b: bytes)
    requires UnderName(k, b)
    ensures !EqDN(k, b)
  {}

  // ----- search scope on stored names -----

  /** Base scope holds of a stored name exactly when its name and its container name the base. */
  lemma BaseOfChild(typ: bytes, name: bytes, c: bytes, base: bytes)
    requires PlainType(typ)
    ensures InScope(ChildName(typ, name, c), base, Base) <==>
            && Parse(base).Some? && Parse(c).Some? && Parse(c).value != []
            && SameDN(Lower, [[Attr(typ, name)]] + Parse(c).value, Parse(base).value)
  {
    hide Parse, ChildName, SameDN, PlainType;
    ReadChildName(typ, name, c);
  }

  /** Subtree scope goes by the text of the container. */
  lemma SubtreeOfChild(typ: bytes, name: bytes, c: bytes, base: bytes)
    requires PlainType(typ) && PlainStart(base)
    ensures InScope(ChildName(typ, name, c), base, Subtree) <==>
            EqDN(ChildName(typ, name, c), base) || AtOrBelow(c, base)
  {
    hide EqDN, ChildName, Below, PlainStart;
    BelowChild(typ, name, c, base);
  }

  /** One-level scope asks that the container be the base's own text, up to letter case, and the name have no comma. */
  lemma OneLevelOfChild(typ: bytes, name: bytes, c: bytes, base: bytes)
    requires PlainType(typ) && PlainStart(base)
    ensures InScope(ChildName(typ, name, c), base, OneLevel) <==>
            !EqDN(ChildName(typ, name, c), base) && Alike(c, base) && ',' !in name
  {
    hide EqDN, ChildName, PlainStart, PlainType, Escape, Below, Lower;
    var k := ChildName(typ, name, c);
    BelowChild(typ, name, c, base);
    OneLevelText(k, base);
    if Below(k, base) {
      BelowLength(k, base);
      var rest := k[..|k| - |base| - 1];
      ChildParts(typ, name, c);
      var head := PrintAttrs([Attr(typ, name)]);
      LowerLength(c, base);
      HeadComma(typ, name);
      if Lower(c) == Lower(base) {
        assert rest == head;
      } else {
        BelowLength(c, base);
        assert rest[|head|] == ',';
      }
    }
  }

  /** On a readable base it finds only children: those whose container has the base's own text, without a comma. */
  lemma OneLevelFindsChildren(typ: bytes, name: bytes, c: bytes, base: bytes)
    requires PlainType(typ) && PlainStart(base) && Parse(base).Some? && Parse(base).value != []
    ensures InScope(ChildName(typ, name, c), base, OneLevel) <==>
            ChildOf(ChildName(typ, name, c), base) && Alike(c, base) && ',' !in name
  {
    hide InScope, ChildName, PlainStart, PlainType, Alike, Parse, UnderName, EqDN, ChildOf;
    var k := ChildName(typ, name, c);
    OneLevelOfChild(typ, name, c, base);
    UnderChild(typ, name, c, base);
    if UnderName(k, base) { UnderIsNotEqual(k, base); }
    if Alike(c, base) { AlikeNames(c, base); }
  }

  lemma BelowLength(k: bytes, b: bytes)
    requires Below(k, b)
    ensures |k| > |b|
  {}

  lemma HeadComma(typ: bytes, name: bytes)
    requires PlainType(typ)
    ensures ',' in PrintAttrs([Attr(typ, name)]) <==> ',' in name
  {
    hide EscapeFrom;
    PrintAttrsOne([Attr(typ, name)]);
    assert name[0..] == name;
    CommaIsKept(name, 0);
    hide PrintAttrs;
  }

  lemma OneLevelText(k: bytes, base: bytes)
    ensures InScope(k, base, OneLevel) <==>
            !EqDN(k, base) && Below(k, base) && |k| > |base| && ',' !in k[..|k| - |base| - 1]
  {
    hide EqDN, LowerByte;
    if Below(k, base) {
      var n := |k| - |base| - 1;
      assert Lower(k)[..n] == Lower(k[..n]);
      LowerKeepsComma(k[..n]);
    }
  }

  // ----- what a move does to stored names -----

  /** A move renames the container of a stored name below the old one, and nothing else of it. */
  lemma MovedChild(typ: bytes, name: bytes, c: bytes, from: bytes, newDN: bytes)
    requires PlainType(typ) && PlainStart(from) && Below(ChildName(typ, name, c), from)
    ensures |from| <= |c| < |ChildName(typ, name, c)| && AtOrBelow(c, from)
    ensures Moved(ChildName(typ, name, c), from, newDN) == ChildName(typ, name, Moved(c, from, newDN))
    ensures Lower(c) == Lower(from) ==> Moved(c, from, newDN) == newDN
  {
    hide Escape, ChildName, Lower, Below, PlainStart, PrintAttrs;
    BelowChild(typ, name, c, from);
    LowerLength(c, from);
    if Below(c, from) { BelowLength(c, from); }
    ChildParts(typ, name, c);
    ChildParts(typ, name, Moved(c, from, newDN));
    var (k, head, n) := (ChildName(typ, name, c), PrintAttrs([Attr(typ, name)]), |c| - |from|);
    assert k[..|k| - |from|] == head + "," + c[..n];
  }

  /** The key has the form that `Create` and `Update` give it. */
  ghost predicate MadeName(k: bytes) {
    exists typ, name, c :: PlainType(typ) && k == ChildName(typ, name, c)
  }

  ghost predicate Made(d: Dir) { forall k :: k in d ==> MadeName(k) }

  lemma MadeStartsPlainly(k: bytes)
    requires MadeName(k)
    ensures PlainStart(k)
  {
    hide ChildName, PlainType;
    var typ, name, c :| PlainType(typ) && k == ChildName(typ, name, c);
    ChildStartsPlainly(typ, name, c);
  }

  lemma StoredReads(d: Dir, dn: bytes)
    requires Made(d) && dn in d
    ensures PlainStart(dn) && (Parse(dn).Some? ==> Parse(dn).value != [])
  {
    MadeStartsPlainly(dn);
    hide PlainStart, ChildName, Parse;
    var typ, name, c :| PlainType(typ) && dn == ChildName(typ, name, c);
    ReadChildName(typ, name, c);
  }

  lemma VisitKeepsMade(d: Dir, from: bytes, newDN: bytes, k: bytes)
    requires Made(d) && PlainStart(from) && k in d
    ensures Made(Visit(d, from, newDN, k))
  {
    hide ChildName, PlainType, PlainStart, Moved, Below;
    if Follows(k, from, newDN) {
      var typ, name, c :| PlainType(typ) && k == ChildName(typ, name, c);
      MovedChild(typ, name, c, from, newDN);
    }
  }

  lemma {:induction false} RunKeepsMade(r: Range, from: bytes, newDN: bytes, order: seq<bytes>)
    requires RangeOk(r) && Legal(r, from, newDN, order) && Made(r.d) && PlainStart(from)
    ensures Made(Run(r, from, newDN, order).d)
    decreases |order|
  {
    hide Made, PlainStart;
    if order != [] {
      VisitKeepsMade(r.d, from, newDN, order[0]);
      hide Visit;
      RunKeepsMade(Produce(r, from, newDN, order[0]), from, newDN, order[1..]);
    }
  }

  lemma NameOfIsMade(cls: Class, s: Spec)
    ensures MadeName(NameOf(cls, s))
  {
    assert PlainType(TypeOf(cls));
    hide ChildName;
  }

  /** An update keeps the form of every stored name, whatever the order. */
  lemma UpdateKeepsMade(d: Dir, cls: Class, k: bytes, s: Spec, order: seq<bytes>)
    requires Made(d) && k in d && OrderFits(d, cls, k, s, order)
    ensures Made(Updated(d, cls, k, s, order))
  {
    hide NameOf, MadeName, NeedsMove, Legal, Run, UpdateFields, MoveModel, PlainStart;
    if NeedsMove(d[k], s) {
      var (d1, newDN) := (d[k := UpdateFields(d[k], s)], NameOf(cls, s));
      NameOfIsMade(cls, s);
      MadeStartsPlainly(k);
      assert Made(Start(d1, k, newDN));
      RunKeepsMade(Begin(Start(d1, k, newDN)), k, newDN, order);
    }
  }

  // ----- what `childrenLocked` counts and what `Delete` leaves behind -----

  /** The store finds the stored name below `dn`, by the container's text. */
  lemma CountedChild(typ: bytes, name: bytes, c: bytes, dn: bytes)
    requires PlainType(typ) && PlainStart(dn)
    ensures var k := ChildName(typ, name, c);
            CountedBelow(k, dn) <==> AtOrBelow(c, dn) && !EqDN(k, dn)
  {
    hide EqDN, ChildName, Below, PlainStart;
    BelowChild(typ, name, c, dn);
  }

  /** The container names `dn` or something below it. */
  predicate Within(c: bytes, dn: bytes) { EqDN(c, dn) || UnderName(c, dn) }

  /** `k` is the stored name with container `c`. */
  ghost predicate StoredIn(d: Dir, k: bytes, c: bytes) {
    k in d && exists typ, name :: PlainType(typ) && k == ChildName(typ, name, c)
  }

  lemma StoredInSays(d: Dir, k: bytes, c: bytes, dn: bytes)
    requires StoredIn(d, k, c) && PlainStart(dn) && Parse(dn).Some? && Parse(dn).value != []
    ensures CountedBelow(k, dn) <==> AtOrBelow(c, dn) && !EqDN(k, dn)
    ensures UnderName(k, dn) <==> Within(c, dn)
    ensures ChildOf(k, dn) <==> EqDN(c, dn)
    ensures UnderName(k, dn) ==> !EqDN(k, dn)
  {
    hide EqDN, ChildName, Below, PlainStart, PlainType, UnderName, ChildOf, AtOrBelow, CountedBelow;
    var typ, name :| PlainType(typ) && k == ChildName(typ, name, c);
    CountedChild(typ, name, c, dn);
    UnderChild(typ, name, c, dn);
    if UnderName(k, dn) { UnderIsNotEqual(k, dn); }
  }

  lemma MadeIsStoredIn(d: Dir, k: bytes) returns (c: bytes)
    requires Made(d) && k in d
    ensures StoredIn(d, k, c)
  {
    hide ChildName, PlainType;
    var typ, name, c' :| PlainType(typ) && k == ChildName(typ, name, c');
    c := c';
  }

  /** Deleting the unit `dn` is allowed, and something stored is still below it. */
  ghost predicate LeavesOrphan(d: Dir, dn: bytes) {
    CountedUnder(d.Keys, dn) == {} && exists k :: k in d && UnderName(k, dn)
  }

  /** The store finds everything that is below `dn`. */
  ghost predicate FindsAllBelow(d: Dir, dn: bytes) {
    forall k :: k in d && UnderName(k, dn) ==> CountedBelow(k, dn)
  }

  /**
   The store finds everything below a unit exactly when every stored container that names the unit, or something
   below it, ends in the unit's own text up to letter case. Then no allowed delete leaves an orphan.
   */
  lemma FindsAllBelowIff(d: Dir, dn: bytes)
    requires Made(d) && PlainStart(dn) && Parse(dn).Some? && Parse(dn).value != []
    ensures FindsAllBelow(d, dn) <==> forall k, c :: StoredIn(d, k, c) && Within(c, dn) ==> AtOrBelow(c, dn)
    ensures FindsAllBelow(d, dn) ==> !LeavesOrphan(d, dn)
  {
    hide Made, StoredIn, PlainStart, Parse, UnderName, CountedBelow, Within, AtOrBelow, EqDN;
    forall k, c | StoredIn(d, k, c)
      ensures k in d && (UnderName(k, dn) <==> Within(c, dn))
      ensures UnderName(k, dn) ==> (CountedBelow(k, dn) <==> AtOrBelow(c, dn))
    {
      StoredInKey(d, k, c);
      StoredInSays(d, k, c, dn);
    }
    forall k | k in d ensures exists c :: StoredIn(d, k, c) { var c := MadeIsStoredIn(d, k); }
    if k :| k in d && UnderName(k, dn) && CountedBelow(k, dn) { assert k in CountedUnder(d.Keys, dn); }
  }

  lemma StoredInKey(d: Dir, k: bytes, c: bytes)
    requires StoredIn(d, k, c)
    ensures k in d
  {}

  /** Exactly when an allowed delete leaves an orphan. */
  lemma LeavesOrphanIff(d: Dir, dn: bytes)
    requires Made(d) && PlainStart(dn) && Parse(dn).Some? && Parse(dn).value != []
    ensures LeavesOrphan(d, dn) <==>
            && (forall k, c :: StoredIn(d, k, c) && AtOrBelow(c, dn) ==> EqDN(k, dn))
            && exists k, c :: StoredIn(d, k, c) && Within(c, dn)
  {
    hide Made, StoredIn, PlainStart, Parse, UnderName, CountedBelow, Within, AtOrBelow, EqDN;
    forall k, c | StoredIn(d, k, c)
      ensures k in d && (UnderName(k, dn) <==> Within(c, dn))
      ensures CountedBelow(k, dn) <==> AtOrBelow(c, dn) && !EqDN(k, dn)
    {
      StoredInKey(d, k, c);
      StoredInSays(d, k, c, dn);
    }
    forall k | k in d ensures exists c :: StoredIn(d, k, c) { var c := MadeIsStoredIn(d, k); }
    assert CountedUnder(d.Keys, dn) == {} <==> forall k :: k in d ==> !CountedBelow(k, dn) by {
      assert forall k :: k in CountedUnder(d.Keys, dn) <==> k in d && CountedBelow(k, dn);
    }
  }

  /** It counts just the direct children when stored containers end in the unit's text just if they name the unit. */
  lemma CountsChildrenIff(d: Dir, dn: bytes)
    requires Made(d) && PlainStart(dn) && Parse(dn).Some? && Parse(dn).value != []
    ensures CountedUnder(d.Keys, dn) == ChildrenOf(d.Keys, dn) <==>
            forall k, c :: StoredIn(d, k, c) ==> (AtOrBelow(c, dn) && !EqDN(k, dn) <==> EqDN(c, dn))
  {
    hide Made, StoredIn, PlainStart, Parse, CountedBelow, ChildOf, AtOrBelow, EqDN;
    forall k, c | StoredIn(d, k, c)
      ensures k in d && (ChildOf(k, dn) <==> EqDN(c, dn))
      ensures CountedBelow(k, dn) <==> AtOrBelow(c, dn) && !EqDN(k, dn)
    {
      StoredInKey(d, k, c);
      StoredInSays(d, k, c, dn);
    }
    forall k | k in d ensures exists c :: StoredIn(d, k, c) { var c := MadeIsStoredIn(d, k); }
    assert forall k :: k in CountedUnder(d.Keys, dn) <==> k in d && CountedBelow(k, dn);
    assert forall k :: k in ChildrenOf(d.Keys, dn) <==> k in d && ChildOf(k, dn);
    if forall k :: k in d ==> (CountedBelow(k, dn) <==> ChildOf(k, dn)) {
      assert CountedUnder(d.Keys, dn) == ChildrenOf(d.Keys, dn);
    }
  }

  // ----- a container spelled with a blank after a comma -----

  lemma ReadAfterBlank(s: bytes)
    ensures ReadAttr([' '] + s) == ReadAttr(s)
  {
    hide ScanValue, Trim, IsBer, ValueOf;
    var w: bytes, q := [' '] + s, IndexOf(s, '=');
    assert w[1..] == s;
    assert IndexOf(w, '=') == q + 1;
    hide IndexOf;
    if q < |s| {
      assert w[..q + 1] == [' '] + s[..q] && w[q + 2..] == s[q + 1..];
      TrimSpaceInFront(s[..q]);
    }
  }

  lemma ReadRDNsAfterBlank(s: bytes)
    ensures ReadRDNs([' '] + s) == ReadRDNs(s)
  {
    ReadAfterBlank(s);
    hide ReadAttr;
  }

  /** A blank after the comma names the same object. */
  lemma BlankNamesTheSame(typ: bytes, name: bytes, c: bytes)
    requires PlainType(typ)
    ensures Parse(ChildName(typ, name, [' '] + c)) == Parse(ChildName(typ, name, c))
  {
    PlainIsWellFormed(typ);
    ReadChild(typ, name, c);
    ReadChild(typ, name, [' '] + c);
    ReadRDNsAfterBlank(c);
    hide ReadRDNs, Parse, ChildName, WellFormedType;
  }

  /**
   A child whose container is the unit's name, spelled with one blank more, is a child that the store never finds:
   not as a child, not in any scope of the unit, not in a move of the unit.
   */
  lemma RespelledChildIsMissed(cls: bytes, name: bytes, typ: bytes, unit: bytes, c: bytes)
    requires PlainType(cls) && PlainType(typ) && Parse(c).Some? && Parse(c).value != []
    ensures var dn := ChildName(typ, unit, c);
            var k := ChildName(cls, name, ChildName(typ, unit, [' '] + c));
            && ChildOf(k, dn) && UnderName(k, dn) && !DeeperBelow(k, dn)
            && !CountedBelow(k, dn) && !Below(k, dn)
            && !InScope(k, dn, OneLevel) && !InScope(k, dn, Subtree)
  {
    hide ChildName, Parse, Below, EqDN, Lower, PlainType, UnderName, SameRDN;
    var (dn, dn') := (ChildName(typ, unit, c), ChildName(typ, unit, [' '] + c));
    var k := ChildName(cls, name, dn');
    BlankNamesTheSame(typ, unit, c);
    ReadChildName(typ, unit, c);
    assert EqDN(dn', dn) by { EqDNOfSame(dn', dn); }
    ChildStartsPlainly(typ, unit, c);
    UnderChild(cls, name, dn', dn);
    UnderIsNotEqual(k, dn);
    BelowChild(cls, name, dn', dn);
    BelowChild(typ, unit, [' '] + c, dn);
    OneLevelOfChild(cls, name, dn', dn);
    SubtreeOfChild(cls, name, dn', dn);
    SpelledLonger(typ, unit, c);
    assert !DeeperBelow(k, dn) by { NotUnderItself(dn', dn); }
  }

  lemma EqDNOfSame(a: bytes, b: bytes)
    requires Parse(a) == Parse(b) && Parse(a).Some?
    ensures EqDN(a, b)
  {
    hide Parse;
  }

  lemma NotUnderItself(a: bytes, b: bytes)
    requires Parse(a) == Parse(b)
    ensures !UnderName(a, b)
  {
    hide Parse;
  }

  lemma SpelledLonger(typ: bytes, unit: bytes, c: bytes)
    requires PlainType(typ)
    ensures var (dn, dn') := (ChildName(typ, unit, c), ChildName(typ, unit, [' '] + c));
            !AtOrBelow(dn', dn)
  {
    hide Escape;
    var (dn, dn') := (ChildName(typ, unit, c), ChildName(typ, unit, [' '] + c));
    LowerLength(dn', dn);
    BelowByText(dn', dn);
    assert dn'[0] == typ[0];
  }

  /** The unit "OU=x,DC=c" has the child "CN=u,OU=x, DC=c"; deleting the unit is allowed and leaves the child behind. */
  lemma DeleteCanOrphan(d: Dir)
    requires d.Keys == {"OU=x,DC=c", "CN=u,OU=x, DC=c"} && d["OU=x,DC=c"].cls == OU
    ensures !HasChildren(d, "OU=x,DC=c") && LeavesOrphan(d, "OU=x,DC=c")
    ensures ChildrenOf(d.Keys, "OU=x,DC=c") == {"CN=u,OU=x, DC=c"}
  {
    hide ChildName, Parse, Below, EqDN, Lower, UnderName, ChildOf, CountedBelow, ChildrenOf;
    var dn: bytes, k: bytes := "OU=x,DC=c", "CN=u,OU=x, DC=c";
    TopLevelReads();
    OrphanSpelling();
    RespelledChildIsMissed("CN", "u", "OU", "x", "DC=c");
    SelfNotBelow(dn);
    assert !CountedBelow(dn, dn) && !ChildOf(dn, dn) by { NoOwnChild(dn); }
    OrphanSets(d, dn, k);
  }

  lemma TopLevelReads()
    ensures Parse("DC=c") == Some([[Attr("DC", "c")]])
  {
    assert PlainType("DC");
    var d := [[Attr("DC", "c")]];
    assert Print(d) == "DC=c";
    SimpleIsWellFormed(d);
    hide Parse, Print;
    ParsePrint(d);
  }

  lemma OrphanSpelling()
    ensures ChildName("OU", "x", "DC=c") == "OU=x,DC=c"
    ensures ChildName("OU", "x", [' '] + "DC=c") == "OU=x, DC=c"
    ensures ChildName("CN", "u", "OU=x, DC=c") == "CN=u,OU=x, DC=c"
    ensures PlainType("OU") && PlainType("CN")
  {
    hide Escape;
    EscapeLetter('x');
    EscapeLetter('u');
  }

  lemma EscapeLetter(c: byte)
    requires 'a' <= c <= 'z'
    ensures Escape([c]) == [c]
  {
    assert EscapeFrom([c], 1) == [];
    assert EscapeByte([c], 0) == [c];
  }

  lemma NoOwnChild(dn: bytes)
    ensures !CountedBelow(dn, dn) && !ChildOf(dn, dn)
  {
    hide Parse, Below;
    SelfNotBelow(dn);
  }

  lemma OrphanSets(d: Dir, dn: bytes, k: bytes)
    requires d.Keys == {dn, k} && ChildOf(k, dn) && UnderName(k, dn) && !CountedBelow(k, dn)
    requires !CountedBelow(dn, dn) && !ChildOf(dn, dn)
    ensures !HasChildren(d, dn) && LeavesOrphan(d, dn) && ChildrenOf(d.Keys, dn) == {k}
  {
    hide CountedBelow, ChildOf, UnderName;
    assert forall l :: l in ChildrenOf(d.Keys, dn) <==> l == k;
  }

  // ----- a container that only ends like the unit -----

  lemma {:induction false} ScanText(w: bytes)
    requires forall i :: 0 <= i < |w| ==> w[i] != '\\' && !IsSeparator(w[i])
    ensures ScanValue(w).Some? && ScanValue(w).value.sep == End && ScanValue(w).value.rest == []
  {
    if w != [] { ScanText(w[1..]); }
  }

  lemma EscapedCommaReads(w: bytes)
    requires forall i :: 0 <= i < |w| ==> w[i] != '\\' && !IsSeparator(w[i])
    ensures var c := "CN=x\\," + w;
            Parse(c).Some? && |Parse(c).value| == 1 && |Parse(c).value[0]| == 1 && Parse(c).value[0][0].typ == "CN"
  {
    hide ScanValue, IndexOf, Trim, IsBer, ValueOf, PlainType;
    var typ: bytes, tail: bytes, c: bytes := "CN", "x\\," + w, "CN=x\\," + w;
    ScanText(w);
    EscapedCommaScans(w);
    assert c == typ + (['='] + tail);
    IndexOfFirst(typ, '=', tail);
    UnitType();
    PlainIsWellFormed(typ);
    assert c[..2] == typ && c[3..] == tail;
    ReadAttrAt(c, typ, tail, ScanValue(tail).value);
    OneAttrReads(c);
  }

  lemma OneAttrReads(c: bytes)
    requires ReadAttr(c).Some? && ReadAttr(c).value.1 == End
    ensures Parse(c) == Some([[ReadAttr(c).value.0]])
  {
    hide ReadAttr;
    ReadNeedsEquals(c);
  }

  lemma EscapedCommaScans(w: bytes)
    ensures ScanValue("x\\," + w) == Push(Token('x', false), Push(Token(',', true), ScanValue(w)))
    ensures var r := ScanValue("x\\," + w); r.Some? ==> !IsBer(r.value.toks)
  {
    var s: bytes := "x\\," + w;
    var t: bytes := "," + w;
    assert s[1..] == ['\\'] + t;
    assert t[1..] == w;
    ScanEscapedComma(t);
  }

  lemma ScanEscapedComma(t: bytes)
    requires t != [] && t[0] == ','
    ensures ScanValue(['\\'] + t) == Push(Token(',', true), ScanValue(t[1..]))
  {
    var s: bytes := ['\\'] + t;
    assert s[1..] == t && s[2..] == t[1..];
    assert ReadEscape(t) == Some((',', 1));
  }

  /**
   The container "CN=x\\,OU=b" is one RDN whose value ends like the unit "OU=b". What it holds is counted below the
   unit, and blocks its deletion, though it is not.
   */
  lemma EscapedCommaIsCounted(typ: bytes, name: bytes)
    requires PlainType(typ)
    ensures var k := ChildName(typ, name, "CN=x\\,OU=b");
            CountedBelow(k, "OU=b") && Parse(k).Some? && Parse("OU=b").Some? && !UnderName(k, "OU=b")
  {
    hide ChildName, Print, Parse, PlainType, EqDN, Below, PlainStart, UnderName;
    var c: bytes, b: bytes := "CN=x\\,OU=b", "OU=b";
    EscapedCommaReads(b);
    assert "CN=x\\," + b == c;
    UnitReads();
    assert PlainStart(b) by { assert PlainType("OU") by { UnitType(); } ReadableStartsPlainly(b); }
    ReadChildName(typ, name, c);
    CountedChild(typ, name, c, b);
    UnderChild(typ, name, c, b);
    assert AtOrBelow(c, b) by { BelowByText(c, b); assert c[6..] == b && c[5] == ','; }
    NotTheUnit(c, b);
    SizesDiffer(ChildName(typ, name, c), b);
  }

  lemma SizesDiffer(k: bytes, b: bytes)
    requires Parse(k).Some? && Parse(b).Some? && |Parse(k).value| != |Parse(b).value|
    ensures !EqDN(k, b)
  {
    hide Parse;
  }

  lemma UnitType()
    ensures PlainType("OU") && PlainType("CN")
  {}

  lemma UnitReads()
    ensures Parse("OU=b") == Some([[Attr("OU", "b")]])
  {
    UnitType();
    var d := [[Attr("OU", "b")]];
    EscapeLetter('b');
    assert Print(d) == "OU=b";
    SimpleIsWellFormed(d);
    hide Parse, Print;
    ParsePrint(d);
  }

  lemma NotTheUnit(c: bytes, b: bytes)
    requires Parse(c).Some? && Parse(b).Some? && |Parse(c).value| == 1 == |Parse(b).value|
    requires |Parse(c).value[0]| == 1 == |Parse(b).value[0]|
    requires Parse(c).value[0][0].typ == "CN" && Parse(b).value[0][0].typ == "OU"
    ensures !EqDN(c, b) && !UnderName(c, b)
  {
    hide Parse;
    UnitType();
    SameIsEqualLowered(Parse(c).value, Parse(b).value);
    assert Lower("CN")[0] == 'c' && Lower("OU")[0] == 'o';
  }

  // ----- a move on names in printed form -----

  /** The suffix that is replaced is the name of the moved object, RDN by RDN. */
  lemma MovedName(e: DN, b: DN, n: DN)
    requires Simple(e) && Simple(b) && Simple(n) && b != [] && n != [] && Ancestor(Lower, b, e)
    ensures |Print(b)| <= |Print(e)|
    ensures Moved(Print(e), Print(b), Print(n)) == Print(e[..|e| - |b|] + n)
    ensures Ancestor(Lower, n, e[..|e| - |b|] + n)
  {
    hide Print, PlainType, Lower, SameRDN;
    var (k, f) := (|e| - |b|, e[..|e| - |b|] + n);
    SameIsEqualLowered(b, e[k..]);
    LowerPrint(b);
    LowerPrint(e[k..]);
    LowerLength(Print(b), Print(e[k..]));
    PrintSplit(e, k);
    assert f[..k] == e[..k] && f[k..] == n;
    PrintSplit(f, k);
    SameDNIsEquivalence(Lower, n, n, n);
    assert Print(e)[..|Print(e)| - |Print(b)|] == Print(e[..k]) + ",";
  }

  /** The name of the object after `b` is renamed to `n`. */
  function RenamedDN(e: DN, b: DN, n: DN): DN {
    if e == b then n else if Ancestor(Lower, b, e) then e[..|e| - |b|] + n else e
  }

  lemma RenamedName(e: DN, b: DN, n: DN)
    requires Simple(e) && Simple(b) && Simple(n) && b != [] && n != [] && e != b && e != n
    ensures Renamed(Print(e), Print(b), Print(n)) == Print(RenamedDN(e, b, n))
  {
    hide Print, PlainType, Below;
    BelowIsAncestor(e, b);
    SimpleIsWellFormed(e);
    SimpleIsWellFormed(n);
    hide WellFormed;
    if Print(e) == Print(n) { PrintInjective(e, n); }
    if Ancestor(Lower, b, e) { MovedName(e, b, n); }
  }

  /**
   A lossless, settling move on names: the moved object gets the new name, exactly its descendants are carried below
   it under the rest of their names, and every other object keeps its name, whatever the order of the range.
   */
  lemma MoveOnNames(d: Dir, serial: nat, b: DN, n: DN, order: seq<bytes>, e: DN)
    requires Valid(d, serial) && Simple(b) && Simple(n) && Simple(e) && b != [] && n != []
    requires Print(b) in d && Lossless(d.Keys, Print(b), Print(n))
    requires Settling(Start(d, Print(b), Print(n)).Keys, Print(b), Print(n))
    requires Complete(Begin(Start(d, Print(b), Print(n))), Print(b), Print(n), order)
    requires Print(e) in d
    ensures var d' := Run(Begin(Start(d, Print(b), Print(n))), Print(b), Print(n), order).d;
            var key := Print(RenamedDN(e, b, n));
            key in d' && d'[key].guid == d[Print(e)].guid && d'[key].cls == d[Print(e)].cls
    ensures Ancestor(Lower, b, e) ==> Ancestor(Lower, n, RenamedDN(e, b, n))
  {
    hide Print, PlainType, Valid, OrbitsApart, Settling, Legal, Run, Renamed, SameRDN;
    var (from, newDN) := (Print(b), Print(n));
    SettledResult(d, serial, from, newDN, order);
    var d1 := Start(d, from, newDN);
    if e == b {
      NewNameStays(from, newDN);
      assert newDN in d1 && d1[newDN].guid == d[from].guid && d1[newDN].cls == d[from].cls;
      AncestorIsStrictOrder(Lower, b, e, e);
    } else {
      SimpleIsWellFormed(b);
      SimpleIsWellFormed(e);
      SimpleIsWellFormed(n);
      hide WellFormed;
      if e == n { PrintInjective(b, n); }
      if Print(e) == from { PrintInjective(e, b); }
      RenamedName(e, b, n);
      if Ancestor(Lower, b, e) { MovedName(e, b, n); }
      assert Print(e) in d1 && d1[Print(e)] == d[Print(e)];
    }
  }
}
