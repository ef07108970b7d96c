/** The loops of `escapeValue` and `DN.String`. */
module Printer {
  import opened Bytes
  import opened Grammar

  lemma EscapeStep(v: bytes, i: nat, before: bytes, after: bytes)
    requires i < |v| && before + EscapeFrom(v, i) == Escape(v) && after == before + EscapeByte(v, i)
    ensures after + EscapeFrom(v, i + 1) == Escape(v)
  {
    hide EscapeByte;
    assert after + EscapeFrom(v, i + 1) == before + EscapeFrom(v, i);
  }

  lemma EscapeStart(v: bytes)
    ensures [] + EscapeFrom(v, 0) == Escape(v)
    ensures EscapeFrom(v, |v|) == []
  {}

  method EscapeValue(v: bytes) returns (r: bytes)
    ensures r == Escape(v)
  {
    hide EscapeFrom, Escape;
    r := [];
    assert r + EscapeFrom(v, 0) == Escape(v) by { EscapeStart(v); }
    for i := 0 to |v|
      invariant r + EscapeFrom(v, i) == Escape(v)
    {
      var c := v[i];
      ghost var before := r;
      if c == '\0' {
        r := r + "\\00";
      } else if MustEscape(c) {
        r := r + ['\\', c];
      } else if c == ' ' && (i == 0 || i == |v| - 1) {
        r := r + "\\ ";
      } else if c == '#' && i == 0 {
        r := r + "\\#";
      } else {
        r := r + [c];
      }
      EscapeStep(v, i, before, r);
    }
    EscapeStart(v);
  }

  lemma {:induction false} JoinSnoc(parts: seq<bytes>, part: bytes, sep: bytes)
    ensures Join(parts + [part], sep) == if parts == [] then part else Join(parts, sep) + sep + part
  {
    if |parts| >= 1 {
      assert (parts + [part])[1..] == parts[1..] + [part];
      JoinSnoc(parts[1..], part, sep);
    }
  }

  /** `DN.String`. */
  method String(d: DN) returns (r: bytes)
    ensures r == Print(d)
  {
    hide Join, Escape, PrintAttrs, Print, Components;
    r := [];
    assert r == Print([]) by { JoinEmpty(); }
    for i := 0 to |d|
      invariant r == Print(d[..i])
    {
      ghost var before := r;
      if i > 0 {
        r := r + ",";
      }
      ghost var prefix := r;
      assert r == prefix + PrintAttrs([]) by { JoinEmpty(); }
      for j := 0 to |d[i]|
        invariant r == prefix + PrintAttrs(d[i][..j])
      {
        AttrStep(prefix, d[i], j);
        if j > 0 {
          r := r + "+";
        }
        var value := EscapeValue(d[i][j].value);
        r := r + d[i][j].typ + "=" + value;
      }
      assert d[i][..|d[i]|] == d[i];
      PrintSnoc(d, i);
    }
    assert d[..|d|] == d;
  }

  lemma JoinEmpty()
    ensures Print([]) == [] && PrintAttrs([]) == []
  {}

  lemma PrintAttrsSnoc(r: RDN, j: nat)
    requires j < |r|
    ensures PrintAttrs(r[..j + 1]) ==
            if j == 0 then PrintAttr(r[j]) else PrintAttrs(r[..j]) + "+" + PrintAttr(r[j])
  {
    hide PrintAttr, Join;
    assert AttrTexts(r[..j + 1]) == AttrTexts(r[..j]) + [PrintAttr(r[j])];
    JoinSnoc(AttrTexts(r[..j]), PrintAttr(r[j]), "+");
  }

  lemma AttrStep(prefix: bytes, r: RDN, j: nat)
    requires j < |r|
    ensures prefix + PrintAttrs(r[..j + 1]) ==
            (if j == 0 then prefix + PrintAttrs(r[..j]) else prefix + PrintAttrs(r[..j]) + "+")
            + r[j].typ + "=" + Escape(r[j].value)
  {
    PrintAttrsSnoc(r, j);
    if j == 0 { JoinEmpty(); }
    hide PrintAttrs, Escape;
    assert PrintAttr(r[j]) == r[j].typ + "=" + Escape(r[j].value);
  }

  lemma PrintSnoc(d: DN, i: nat)
    requires i < |d|
    ensures Print(d[..i + 1]) ==
            if i == 0 then PrintAttrs(d[i]) else Print(d[..i]) + "," + PrintAttrs(d[i])
  {
    hide PrintAttrs, Join;
    assert Components(d[..i + 1]) == Components(d[..i]) + [PrintAttrs(d[i])];
    JoinSnoc(Components(d[..i]), PrintAttrs(d[i]), ",");
  }
}
