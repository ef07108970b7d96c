/** Printing and reading undo each other. */
module RoundTrip {
  import opened Wrappers
  import opened Bytes
  import opened Grammar

  /** The tokens `Escape` writes for `v[i..]`. */
  function Tokens(v: bytes, i: nat): (r: seq<Token>)
    requires i <= |v|
    ensures |r| == |v| - i
    ensures forall k :: 0 <= k < |r| ==> r[k] == Token(v[i + k], |EscapeByte(v, i + k)| > 1)
    decreases |v| - i
  {
    if i == |v| then [] else [Token(v[i], |EscapeByte(v, i)| > 1)] + Tokens(v, i + 1)
  }

  /** `rest` starts with a separator or is empty. */
  predicate Stops(rest: bytes) { rest == [] || IsSeparator(rest[0]) }

  function Stopped(toks: seq<Token>, rest: bytes): Scan
    requires Stops(rest)
  {
    if rest == [] then Scan(toks, End, []) else Scan(toks, SepOf(rest[0]), rest[1..])
  }

  lemma ScanByte(v: bytes, i: nat, s: bytes)
    requires i < |v|
    ensures ScanValue(EscapeByte(v, i) + s) == Push(Token(v[i], |EscapeByte(v, i)| > 1), ScanValue(s))
  {
    var e := EscapeByte(v, i);
    var w := e + s;
    if e == [v[i]] {
      assert w[1..] == s;
    } else {
      assert w[1..] == e[1..] + s;
      if v[i] == '\0' {
        assert HexByte('0', '0') == '\0';
        assert ReadEscape(w[1..]) == Some(('\0', 2));
        assert w[3..] == s;
      } else {
        assert e == ['\\', v[i]];
        assert ReadEscape(w[1..]) == Some((v[i], 1));
        assert w[2..] == s;
      }
    }
  }

  lemma {:induction false} ScanEscaped(v: bytes, i: nat, rest: bytes)
    requires i <= |v| && Stops(rest)
    ensures ScanValue(EscapeFrom(v, i) + rest) == Some(Stopped(Tokens(v, i), rest))
    decreases |v| - i
  {
    hide EscapeByte, ReadEscape;
    if i == |v| {
      assert EscapeFrom(v, i) + rest == rest;
    } else {
      assert EscapeFrom(v, i) + rest == EscapeByte(v, i) + (EscapeFrom(v, i + 1) + rest);
      ScanByte(v, i, EscapeFrom(v, i + 1) + rest);
      ScanEscaped(v, i + 1, rest);
    }
  }

  lemma ValueOfTokens(v: bytes)
    ensures !IsBer(Tokens(v, 0)) && ValueOf(Tokens(v, 0)) == v
  {
    var t := Tokens(v, 0);
    assert StripLeading(t) == t;
    assert TrailingBlanks(t) == 0;
    assert t[..|t|] == t;
  }

  lemma ReadAttrAt(s: bytes, typ: bytes, tail: bytes, sc: Scan)
    requires WellFormedType(typ) && ScanValue(tail) == Some(sc) && !IsBer(sc.toks)
    requires |typ| < |s| && IndexOf(s, '=') == |typ| && s[..|typ|] == typ && s[|typ| + 1..] == tail
    ensures ReadAttr(s) == Some((Attr(typ, ValueOf(sc.toks)), sc.sep, sc.rest))
  {
    hide Trim, ScanValue, IndexOf, IsBer, ValueOf;
  }

  lemma PrintedAttrParts(a: Attr, rest: bytes)
    ensures PrintAttr(a) + rest == a.typ + (['='] + (Escape(a.value) + rest))
    ensures (PrintAttr(a) + rest)[..|a.typ|] == a.typ
    ensures (PrintAttr(a) + rest)[|a.typ| + 1..] == Escape(a.value) + rest
  {}

  /** A printed attribute is read back whatever separator follows it. */
  lemma ReadPrintedAttr(a: Attr, rest: bytes)
    requires WellFormedType(a.typ) && Stops(rest)
    ensures ReadAttr(PrintAttr(a) + rest) ==
            Some((a, Stopped([], rest).sep, Stopped([], rest).rest))
  {
    var sc := Stopped(Tokens(a.value, 0), rest);
    assert ScanValue(Escape(a.value) + rest) == Some(sc) by { ScanEscaped(a.value, 0, rest); }
    assert IndexOf(PrintAttr(a) + rest, '=') == |a.typ| by {
      PrintedAttrParts(a, rest);
      IndexOfFirst(a.typ, '=', Escape(a.value) + rest);
    }
    PrintedAttrParts(a, rest);
    ValueOfTokens(a.value);
    ReadAttrAt(PrintAttr(a) + rest, a.typ, Escape(a.value) + rest, sc);
  }

  lemma PrintAttrsStep(r: RDN)
    requires |r| >= 2
    ensures PrintAttrs(r) == PrintAttr(r[0]) + "+" + PrintAttrs(r[1..])
  {
    hide PrintAttr;
    assert AttrTexts(r)[1..] == AttrTexts(r[1..]);
  }

  lemma PrintStep(d: DN)
    requires |d| >= 2
    ensures Print(d) == PrintAttrs(d[0]) + "," + Print(d[1..])
  {
    assert Components(d)[1..] == Components(d[1..]);
  }

  /** The DN read after the separator `rest` starts with; nothing is left to read when `rest` is empty. */
  function After(rest: bytes): Option<DN> {
    if rest == [] then Some([]) else ReadRDNs(rest[1..])
  }

  function Prepend(r: RDN, tail: Option<DN>): Option<DN> {
    match tail
    case None => None
    case Some(d) => Some([r] + d)
  }

  /** A printed RDN is read back as itself, in front of whatever `rest` holds. */
  lemma {:induction false} ReadPrintedRDN(r: RDN, rest: bytes)
    requires WellFormedRDN(r)
    requires rest == [] || rest[0] == ',' || rest[0] == ';'
    ensures ReadRDNs(PrintAttrs(r) + rest) == Prepend(r, After(rest))
  {
    hide ReadAttr, ScanValue, Escape, PrintAttr, Trim;
    if |r| == 1 {
      assert PrintAttrs(r) == PrintAttr(r[0]);
      ReadPrintedAttr(r[0], rest);
      assert r == [r[0]];
      assert [r] + [] == [r];
    } else {
      PrintAttrsStep(r);
      var rest' := "+" + PrintAttrs(r[1..]) + rest;
      assert PrintAttrs(r) + rest == PrintAttr(r[0]) + rest';
      assert rest'[1..] == PrintAttrs(r[1..]) + rest;
      ReadPrintedAttr(r[0], rest');
      ReadPrintedRDN(r[1..], rest);
      assert r == [r[0]] + r[1..];
      var tail := After(rest);
      if tail.Some? {
        assert ([r[1..]] + tail.value)[1..] == tail.value;
      }
    }
  }

  lemma {:induction false} ReadPrinted(d: DN)
    requires d != [] && WellFormed(d)
    ensures ReadRDNs(Print(d)) == Some(d)
  {
    hide ReadAttr, ScanValue, Escape, PrintAttr, Trim;
    if |d| == 1 {
      assert Print(d) == PrintAttrs(d[0]) + [];
      ReadPrintedRDN(d[0], []);
      assert d == [d[0]] + [];
    } else {
      PrintStep(d);
      var rest := "," + Print(d[1..]);
      assert Print(d) == PrintAttrs(d[0]) + rest;
      assert rest[1..] == Print(d[1..]);
      ReadPrintedRDN(d[0], rest);
      ReadPrinted(d[1..]);
      assert d == [d[0]] + d[1..];
    }
  }

  lemma ReadNeedsEquals(s: bytes)
    requires ReadRDNs(s).Some?
    ensures Trim(s) != []
  {
    EqualsSignIsNotBlank(s);
  }

  lemma ReadTypeIsWellFormed(s: bytes)
    requires ReadAttr(s).Some?
    ensures WellFormedType(ReadAttr(s).value.0.typ)
  {
    hide ScanValue, IsBer, ValueOf, Trim, IndexOf;
    TrimIdempotent(s[..IndexOf(s, '=')]);
    TrimAddsNothing(s[..IndexOf(s, '=')], '=');
  }

  lemma {:induction false} ReadIsWellFormed(s: bytes)
    requires ReadRDNs(s).Some?
    ensures WellFormed(ReadRDNs(s).value)
    decreases |s|
  {
    hide ReadAttr, ScanValue, Escape, PrintAttr, Trim;
    var (a, sep, rest) := ReadAttr(s).value;
    ReadTypeIsWellFormed(s);
    if sep != End {
      ReadIsWellFormed(rest);
    }
  }

  /** Exactly the well-formed DNs survive printing and reading. */
  lemma ParsePrint(d: DN)
    ensures Parse(Print(d)) == Some(d) <==> WellFormed(d)
  {
    if WellFormed(d) && d != [] {
      ReadPrinted(d);
      ReadNeedsEquals(Print(d));
    }
    if Parse(Print(d)) == Some(d) && d != [] {
      ReadIsWellFormed(Print(d));
    }
  }

  lemma ParsedIsWellFormed(s: bytes)
    requires Parse(s).Some?
    ensures WellFormed(Parse(s).value)
    ensures Parse(s).value == [] <==> Trim(s) == []
  {
    if Trim(s) != [] {
      ReadIsWellFormed(s);
    }
  }

  /** The normal form of a DN string. */
  function Normalize(s: bytes): Option<bytes> {
    var d :- Parse(s);
    Some(Print(d))
  }

  /** Normalising keeps the DN, and a normal form is its own normal form. */
  lemma NormalizeIdempotent(s: bytes)
    requires Normalize(s).Some?
    ensures Parse(Normalize(s).value) == Parse(s)
    ensures Normalize(Normalize(s).value) == Normalize(s)
  {
    ParsedIsWellFormed(s);
    ParsePrint(Parse(s).value);
  }

  lemma PrintInjective(d: DN, e: DN)
    requires WellFormed(d) && WellFormed(e) && Print(d) == Print(e)
    ensures d == e
  {
    ParsePrint(d);
    ParsePrint(e);
  }
}
