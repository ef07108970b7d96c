/** The string-level operations of `dn.go`. */
module Components {
  import opened Wrappers
  import opened Bytes
  import opened Grammar
  import opened RoundTrip
  import opened Compare
  import Automaton
  import Printer

  lemma PrintOne(r: RDN)
    ensures Print([r]) == PrintAttrs(r)
  {}

  lemma ComponentsSnoc(d: DN, i: nat)
    requires i < |d|
    ensures Components(d[..i + 1]) == Components(d[..i]) + [Print(d[i..i + 1])]
  {
    assert d[i..i + 1] == [d[i]];
    PrintOne(d[i]);
  }

  /** `SplitDN`. */
  method SplitDN(dn: bytes) returns (r: Option<seq<bytes>>)
    ensures r.Some? <==> Parse(dn).Some?
    ensures r.Some? ==> r.value == Components(Parse(dn).value)
  {
    hide Parse, Components, Print;
    var parsed := Automaton.ParseDN(dn);
    if parsed.None? {
      return None;
    }
    var d, out := parsed.value, [];
    assert Components(d[..0]) == [] by { NoComponents(d); }
    for i := 0 to |d|
      invariant out == Components(d[..i])
    {
      var part := Printer.String(d[i..i + 1]);
      ComponentsSnoc(d, i);
      out := out + [part];
    }
    assert d[..|d|] == d;
    return Some(out);
  }

  lemma NoComponents(d: DN)
    ensures Components(d[..0]) == []
  {}

  /** The package function `Parent`: None on an error, "" when there is no parent. */
  method ParentOf(dn: bytes) returns (r: Option<bytes>)
    ensures r.Some? <==> Parse(dn).Some?
    ensures r.Some? && |Parse(dn).value| >= 2 ==> Parse(r.value) == Some(Parse(dn).value[1..])
    ensures r.Some? && |Parse(dn).value| >= 2 ==> r.value == Print(Parse(dn).value[1..])
    ensures r.Some? && |Parse(dn).value| < 2 ==> r.value == []
  {
    hide Parse, Print;
    var parsed := Automaton.ParseDN(dn);
    if parsed.None? {
      return None;
    }
    var p := Parent(parsed.value);
    if p.None? {
      return Some([]);
    }
    TailReparses(dn);
    var s := Printer.String(p.value);
    return Some(s);
  }

  /** `ContainerOf`: None on an error or at the root. */
  method ContainerOf(dn: bytes) returns (r: Option<bytes>)
    ensures r.Some? <==> Parse(dn).Some? && |Parse(dn).value| >= 2
    ensures r.Some? ==> Parse(r.value) == Some(Parse(dn).value[1..])
    ensures r.Some? ==> r.value == Join(Components(Parse(dn).value)[1..], ",")
  {
    hide Parse, Print, Components, Join;
    var parsed := Automaton.ParseDN(dn);
    if parsed.None? {
      return None;
    }
    var p := Parent(parsed.value);
    if p.None? {
      return None;
    }
    TailReparses(dn);
    var s := Printer.String(p.value);
    return Some(s);
  }

  /** `EqualFoldDN`; None on an error. */
  method EqualFoldDN(fold: Folding, a: bytes, b: bytes) returns (r: Option<bool>)
    ensures r.Some? <==> Parse(a).Some? && Parse(b).Some?
    ensures r.Some? ==> (r.value <==> SameDN(fold, Parse(a).value, Parse(b).value))
  {
    hide Parse, SameDN;
    var pa := Automaton.ParseDN(a);
    if pa.None? {
      return None;
    }
    var pb := Automaton.ParseDN(b);
    if pb.None? {
      return None;
    }
    var eq := EqualFold(fold, pa.value, pb);
    return Some(eq);
  }

  lemma TailReparses(dn: bytes)
    requires Parse(dn).Some? && |Parse(dn).value| >= 2
    ensures var tail := Parse(dn).value[1..];
            Parse(Print(tail)) == Some(tail) && Print(tail) == Join(Components(Parse(dn).value)[1..], ",")
  {
    hide Parse, WellFormedRDN, Join, PrintAttrs;
    var d := Parse(dn).value;
    ParsedIsWellFormed(dn);
    ParsePrint(d[1..]);
    assert Components(d[1..]) == Components(d)[1..];
  }

  /** The components of an accepted string join to its normal form, and each re-reads as its own RDN. */
  lemma ComponentsReassemble(dn: bytes)
    requires Parse(dn).Some?
    ensures var d := Parse(dn).value;
            && Normalize(dn) == Some(Join(Components(d), ","))
            && forall i :: 0 <= i < |d| ==> Parse(Components(d)[i]) == Some([d[i]])
  {
    var d := Parse(dn).value;
    ParsedIsWellFormed(dn);
    hide Parse, WellFormedRDN, PrintAttrs;
    forall i | 0 <= i < |d|
      ensures Parse(Components(d)[i]) == Some([d[i]])
    {
      PrintOne(d[i]);
      ParsePrint([d[i]]);
    }
  }

  /** Every accepted string names the same object as its normal form. */
  lemma NormalFormIsEqual(fold: Folding, dn: bytes)
    requires Normalize(dn).Some?
    ensures Parse(Normalize(dn).value).Some?
    ensures SameDN(fold, Parse(dn).value, Parse(Normalize(dn).value).value)
  {
    hide Parse;
    NormalizeIdempotent(dn);
  }

  /** The name the directories give a new object: `typ` is "OU" or "CN". */
  function ChildName(typ: bytes, name: bytes, parent: bytes): bytes {
    typ + "=" + Escape(name) + "," + parent
  }

  lemma ReadChild(typ: bytes, name: bytes, parent: bytes)
    requires WellFormedType(typ)
    ensures Parse(ChildName(typ, name, parent)) == Prepend([Attr(typ, name)], ReadRDNs(parent))
  {
    hide ReadRDNs, Escape, Trim, Join;
    var r := [Attr(typ, name)];
    var rest := "," + parent;
    assert rest[1..] == parent;
    assert PrintAttrs(r) == typ + "=" + Escape(name) by { PrintAttrsOne(r); }
    assert ChildName(typ, name, parent) == PrintAttrs(r) + rest;
    ReadPrintedRDN(r, rest);
    assert ChildName(typ, name, parent)[|typ|] == '=';
    EqualsSignIsNotBlank(ChildName(typ, name, parent));
  }

  lemma PrintAttrsOne(r: RDN)
    requires |r| == 1
    ensures PrintAttrs(r) == r[0].typ + "=" + Escape(r[0].value)
  {}

  lemma BlankIsNotRead(s: bytes)
    requires Trim(s) == []
    ensures ReadRDNs(s) == None
  {
    if ReadRDNs(s).Some? { ReadNeedsEquals(s); }
  }

  /**
   No silent reparenting: whatever bytes `name` holds, the child of a container that reads as `p` reads
   as the RDN `typ=name` above `p`. A blank container reads as the empty DN and has no readable child.
   */
  lemma NoReparenting(fold: Folding, typ: bytes, name: bytes, parent: bytes)
    requires WellFormedType(typ) && Parse(parent).Some?
    ensures var p, child := Parse(parent).value, Parse(ChildName(typ, name, parent));
            if Trim(parent) == [] then child == None
            else
              && child == Some([[Attr(typ, name)]] + p)
              && Parent(child.value) == Some(p)
              && Ancestor(fold, p, child.value)
  {
    ReadChild(typ, name, parent);
    if Trim(parent) == [] {
      BlankIsNotRead(parent);
    } else {
      hide ReadRDNs, Trim, ChildName, WellFormedType;
      var p := Parse(parent).value;
      var child := [[Attr(typ, name)]] + p;
      assert child[1..] == p;
    }
  }
}
