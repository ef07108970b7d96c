/**
 The strings `ParseDN` accepts and what they spell, as a grammar: the slice of section 3 of RFC 4514 with its
 characters written out, and the leniencies of `ParseDN` (';' for ',', white space around types, spaces around values).
 */
module Spelling {
  import opened Wrappers
  import opened Bytes
  import opened Grammar
  import opened RoundTrip

  // ----- the grammar -----

  const LOWER_DIGITS: bytes := "0123456789abcdef"
  const UPPER_DIGITS: bytes := "0123456789ABCDEF"

  predicate IsDigit(c: byte, n: nat) { n < 16 && (c == LOWER_DIGITS[n] || c == UPPER_DIGITS[n]) }

  /** One byte of a value: bare, as a backslash and the character, or as a backslash and two hexadecimal digits. */
  datatype Piece = Bare(c: byte) | Pair(c: byte) | Hex(hi: byte, m: nat, lo: byte, n: nat)
  {
    predicate Ok() {
      match this
      case Bare(c) => c != '\\' && c != ',' && c != ';' && c != '+'
      case Pair(c) =>
        || c == '\\' || c == '"' || c == '+' || c == ',' || c == ';'
        || c == '<' || c == '>' || c == '=' || c == ' ' || c == '#'
      case Hex(hi, m, lo, n) => IsDigit(hi, m) && IsDigit(lo, n)
    }

    function Text(): bytes {
      match this
      case Bare(c) => [c]
      case Pair(c) => ['\\', c]
      case Hex(hi, _, lo, _) => ['\\', hi, lo]
    }

    function Byte(): byte
      requires Ok()
    {
      match this
      case Bare(c) => c
      case Pair(c) => c
      case Hex(_, m, _, n) => (16 * m + n) as char
    }
  }

  predicate AllOk(ps: seq<Piece>) { forall i :: 0 <= i < |ps| ==> ps[i].Ok() }

  function Text(ps: seq<Piece>): bytes {
    if ps == [] then [] else ps[0].Text() + Text(ps[1..])
  }

  function Value(ps: seq<Piece>): (v: bytes)
    requires AllOk(ps)
    ensures |v| == |ps|
  {
    seq(|ps|, i requires 0 <= i < |ps| => ps[i].Byte())
  }

  function Spaces(n: nat): (s: bytes)
    ensures |s| == n
  {
    seq(n, _ => ' ')
  }

  /** No bare space at either end, and no bare '#' in front. */
  predicate GoodEnds(ps: seq<Piece>) {
    ps != [] ==> ps[0] != Bare(' ') && ps[0] != Bare('#') && ps[|ps| - 1] != Bare(' ')
  }

  ghost predicate SpellsValue(text: bytes, v: bytes) {
    exists n, ps, m :: AllOk(ps) && GoodEnds(ps) && text == Spaces(n) + Text(ps) + Spaces(m) && v == Value(ps)
  }

  ghost predicate SpellsAttr(text: bytes, a: Attr) {
    exists t: bytes, v: bytes ::
      text == t + "=" + v && '=' !in t && Trim(t) == a.typ && a.typ != [] && SpellsValue(v, a.value)
  }

  ghost predicate SpellsRDN(text: bytes, r: RDN)
    decreases |r|
  {
    if |r| == 0 then false
    else if |r| == 1 then SpellsAttr(text, r[0])
    else exists x: bytes, y: bytes :: text == x + "+" + y && SpellsAttr(x, r[0]) && SpellsRDN(y, r[1..])
  }

  ghost predicate SpellsRDNs(text: bytes, d: DN)
    decreases |d|
  {
    if |d| == 0 then false
    else if |d| == 1 then SpellsRDN(text, d[0])
    else exists x: bytes, c: bytes, y: bytes ::
        (c == "," || c == ";") && text == x + c + y && SpellsRDN(x, d[0]) && SpellsRDNs(y, d[1..])
  }

  /** `s` is a spelling of `d`. A blank string spells the empty DN. */
  ghost predicate Spells(s: bytes, d: DN) {
    if Trim(s) == [] then d == [] else SpellsRDNs(s, d)
  }

  // ----- hexadecimal digits -----

  /** The digits of the reader are those of the grammar. */
  lemma DigitIsHex(c: byte)
    ensures IsHexDigit(c) <==> exists n :: IsDigit(c, n)
    ensures forall n :: IsDigit(c, n) ==> HexValue(c) == n
    ensures IsHexDigit(c) ==> IsDigit(c, HexValue(c))
  {
    forall n | IsDigit(c, n) ensures IsHexDigit(c) && HexValue(c) == n {}
    if IsHexDigit(c) { assert IsDigit(c, HexValue(c)); }
  }

  // ----- what a spelled value scans to -----

  function TokenOf(p: Piece): Token
    requires p.Ok()
  {
    Token(p.Byte(), !p.Bare?)
  }

  function TokensOf(ps: seq<Piece>): (r: seq<Token>)
    requires AllOk(ps)
    ensures |r| == |ps|
  {
    seq(|ps|, i requires 0 <= i < |ps| => TokenOf(ps[i]))
  }

  function PushTokens(toks: seq<Token>, r: Option<Scan>): Option<Scan> {
    match r
    case None => None
    case Some(sc) => Some(sc.(toks := toks + sc.toks))
  }

  lemma ScanPiece(p: Piece, s: bytes)
    requires p.Ok()
    ensures ScanValue(p.Text() + s) == Push(TokenOf(p), ScanValue(s))
  {
    var w := p.Text() + s;
    match p
    case Bare(c) => assert w[1..] == s;
    case Pair(c) =>
      assert w[1..] == [c] + s && w[2..] == s;
      assert ReadEscape(w[1..]) == Some((c, 1)) by { NoPairIsHex(c); }
    case Hex(hi, m, lo, n) =>
      assert w[1..] == [hi, lo] + s && w[3..] == s;
      DigitIsHex(hi);
      DigitIsHex(lo);
      assert ReadEscape(w[1..]) == Some((HexByte(hi, lo), 2));
  }

  lemma NoPairIsHex(c: byte)
    requires Pair(c).Ok()
    ensures !IsHexDigit(c) && IsEscapable(c)
  {}

  lemma {:induction false} ScanPieces(ps: seq<Piece>, s: bytes)
    requires AllOk(ps)
    ensures ScanValue(Text(ps) + s) == PushTokens(TokensOf(ps), ScanValue(s))
    decreases |ps|
  {
    hide ScanValue, Piece.Ok, Piece.Text, Piece.Byte;
    if ps == [] {
      assert Text(ps) + s == s;
      var r := ScanValue(s);
      if r.Some? { assert [] + r.value.toks == r.value.toks; }
    } else {
      assert Text(ps) + s == ps[0].Text() + (Text(ps[1..]) + s);
      ScanPiece(ps[0], Text(ps[1..]) + s);
      ScanPieces(ps[1..], s);
      assert TokensOf(ps) == [TokenOf(ps[0])] + TokensOf(ps[1..]);
      var r := ScanValue(s);
      if r.Some? {
        assert [TokenOf(ps[0])] + (TokensOf(ps[1..]) + r.value.toks) == TokensOf(ps) + r.value.toks;
      }
    }
  }

  /** Conversely what is scanned was spelled by pieces, up to a separator or the end. */
  lemma {:induction false} ScannedPieces(s: bytes) returns (ps: seq<Piece>, tail: bytes)
    requires ScanValue(s).Some?
    ensures AllOk(ps) && Stops(tail) && s == Text(ps) + tail
    ensures ScanValue(s) == Some(Stopped(TokensOf(ps), tail))
    decreases |s|
  {
    hide ReadEscape, Piece.Ok, Piece.Text, Piece.Byte, IsSeparator;
    if s == [] || IsSeparator(s[0]) {
      ps, tail := [], s;
      ScanAtStop(s);
    } else {
      var p, n := FirstPiece(s);
      ps, tail := ScannedPieces(s[n..]);
      PieceFirst(p, ps);
      assert s == p.Text() + s[n..];
      ScanPiece(p, s[n..]);
      ps := [p] + ps;
      hide ScanValue;
      assert s == Text(ps) + tail;
    }
  }

  lemma ScanAtStop(s: bytes)
    requires Stops(s)
    ensures ScanValue(s) == Some(Stopped([], s))
  {}

  lemma FirstPiece(s: bytes) returns (p: Piece, n: nat)
    requires ScanValue(s).Some? && s != [] && !IsSeparator(s[0])
    ensures p.Ok() && 1 <= n <= |s| && p.Text() == s[..n] && ScanValue(s[n..]).Some?
  {
    if s[0] == '\\' {
      p := EscapePiece(s[1..]);
      n := 1 + ReadEscape(s[1..]).value.1;
      hide ReadEscape;
      assert s[..n] == ['\\'] + s[1..][..n - 1];
    } else {
      p, n := Bare(s[0]), 1;
    }
  }

  lemma PieceFirst(p: Piece, rest: seq<Piece>)
    requires p.Ok() && AllOk(rest)
    ensures AllOk([p] + rest) && Text([p] + rest) == p.Text() + Text(rest)
    ensures TokensOf([p] + rest) == [TokenOf(p)] + TokensOf(rest)
  {
    assert ([p] + rest)[1..] == rest;
  }

  lemma EscapePiece(s: bytes) returns (p: Piece)
    requires ReadEscape(s).Some?
    ensures p.Ok() && TokenOf(p) == Token(ReadEscape(s).value.0, true)
    ensures p.Text() == ['\\'] + s[..ReadEscape(s).value.1]
  {
    if |s| >= 2 && IsHexDigit(s[0]) && IsHexDigit(s[1]) {
      DigitIsHex(s[0]);
      DigitIsHex(s[1]);
      p := Hex(s[0], HexValue(s[0]), s[1], HexValue(s[1]));
    } else {
      p := Pair(s[0]);
    }
  }

  // ----- spaces around a value -----

  function Blanks(n: nat): (ps: seq<Piece>)
    ensures |ps| == n && AllOk(ps)
  {
    seq(n, _ => Bare(' '))
  }

  lemma {:induction false} TextConcat(ps: seq<Piece>, qs: seq<Piece>)
    ensures Text(ps + qs) == Text(ps) + Text(qs)
  {
    if ps == [] {
      assert ps + qs == qs;
    } else {
      assert (ps + qs)[1..] == ps[1..] + qs;
      TextConcat(ps[1..], qs);
    }
  }

  lemma {:induction false} TextOfBlanks(n: nat)
    ensures Text(Blanks(n)) == Spaces(n)
  {
    if n > 0 {
      assert Blanks(n)[1..] == Blanks(n - 1);
      TextOfBlanks(n - 1);
      assert Spaces(n) == [' '] + Spaces(n - 1);
    }
  }

  predicate NoEdgeSpaces(ps: seq<Piece>) { ps != [] ==> ps[0] != Bare(' ') && ps[|ps| - 1] != Bare(' ') }

  lemma BlankToken(p: Piece)
    requires p.Ok()
    ensures Blank(TokenOf(p)) <==> p == Bare(' ')
    ensures TokenOf(p) == Token('#', false) <==> p == Bare('#')
  {}

  lemma {:induction false} StripBlanks(n: nat, qs: seq<Piece>)
    requires AllOk(qs) && (qs == [] || qs[0] != Bare(' '))
    ensures AllOk(Blanks(n) + qs) && StripLeading(TokensOf(Blanks(n) + qs)) == TokensOf(qs)
    decreases n
  {
    hide Piece.Ok, Piece.Byte;
    if n == 0 {
      assert Blanks(n) + qs == qs;
      if qs != [] { BlankToken(qs[0]); }
    } else {
      var ps := Blanks(n) + qs;
      assert ps[1..] == Blanks(n - 1) + qs;
      StripBlanks(n - 1, qs);
      BlankToken(ps[0]);
      assert TokensOf(ps)[1..] == TokensOf(ps[1..]);
    }
  }

  lemma {:induction false} TrailBlanks(qs: seq<Piece>, m: nat)
    requires AllOk(qs) && (qs == [] || qs[|qs| - 1] != Bare(' '))
    ensures AllOk(qs + Blanks(m)) && TrailingBlanks(TokensOf(qs + Blanks(m))) == m
    decreases m
  {
    hide Piece.Ok, Piece.Byte;
    var ps := qs + Blanks(m);
    if m == 0 {
      assert ps == qs;
      if qs != [] { BlankToken(qs[|qs| - 1]); }
    } else {
      assert ps[..|ps| - 1] == qs + Blanks(m - 1);
      TrailBlanks(qs, m - 1);
      BlankToken(ps[|ps| - 1]);
      assert TokensOf(ps)[..|ps| - 1] == TokensOf(ps[..|ps| - 1]);
    }
  }

  /** Spaces around a value are not part of it, and it is a BER value when what is between starts with a bare '#'. */
  lemma SpacedValue(n: nat, core: seq<Piece>, m: nat)
    requires AllOk(core) && NoEdgeSpaces(core)
    ensures var ps := Blanks(n) + core + Blanks(m);
            && AllOk(ps) && Text(ps) == Spaces(n) + Text(core) + Spaces(m)
            && ValueOf(TokensOf(ps)) == Value(core)
            && (IsBer(TokensOf(ps)) <==> core != [] && core[0] == Bare('#'))
  {
    hide Piece.Ok, Piece.Byte, StripLeading, TrailingBlanks, Text;
    var ps := Blanks(n) + core + Blanks(m);
    TextConcat(Blanks(n) + core, Blanks(m));
    TextConcat(Blanks(n), core);
    TextOfBlanks(n);
    TextOfBlanks(m);
    if core == [] {
      assert ps == Blanks(n + m) + [];
      StripBlanks(n + m, []);
      assert TrailingBlanks([]) == 0 by { NoneTrails(); }
    } else {
      assert ps == Blanks(n) + (core + Blanks(m));
      StripBlanks(n, core + Blanks(m));
      TrailBlanks(core, m);
      BlankToken(core[0]);
      assert TokensOf(core + Blanks(m))[..|core|] == TokensOf(core);
      assert BytesOf(TokensOf(core)) == Value(core);
    }
  }

  lemma NoneTrails()
    ensures TrailingBlanks([]) == 0
  {}

  lemma {:induction false} SplitBlanks(ps: seq<Piece>) returns (n: nat, core: seq<Piece>, m: nat)
    requires AllOk(ps)
    ensures AllOk(core) && NoEdgeSpaces(core) && ps == Blanks(n) + core + Blanks(m)
    decreases |ps|
  {
    hide Piece.Ok;
    if ps != [] && ps[0] == Bare(' ') {
      n, core, m := SplitBlanks(ps[1..]);
      assert Blanks(n + 1) == [Bare(' ')] + Blanks(n);
      n := n + 1;
    } else if ps != [] && ps[|ps| - 1] == Bare(' ') {
      n, core, m := SplitBlanks(ps[..|ps| - 1]);
      assert Blanks(m + 1) == Blanks(m) + [Bare(' ')];
      m := m + 1;
    } else {
      n, core, m := 0, ps, 0;
    }
  }

  // ----- attributes -----

  lemma AttrParts(text: bytes, a: Attr) returns (t: bytes, v: bytes)
    requires SpellsAttr(text, a)
    ensures text == t + "=" + v && '=' !in t && Trim(t) == a.typ && a.typ != [] && SpellsValue(v, a.value)
  {
    hide Trim, SpellsValue;
    t, v :| text == t + "=" + v && '=' !in t && Trim(t) == a.typ && a.typ != [] && SpellsValue(v, a.value);
  }

  /** A spelled value scans to tokens that stand for it, in front of any separator. */
  lemma SpelledValueScans(v: bytes, value: bytes, rest: bytes) returns (sc: Scan)
    requires SpellsValue(v, value) && Stops(rest)
    ensures ScanValue(v + rest) == Some(sc) && !IsBer(sc.toks) && ValueOf(sc.toks) == value
    ensures sc == Stopped(sc.toks, rest)
  {
    hide ScanValue, IsBer, ValueOf, Text, Piece.Ok, Piece.Byte, Spaces;
    var n, core, m :| AllOk(core) && GoodEnds(core) && v == Spaces(n) + Text(core) + Spaces(m) && value == Value(core);
    var ps := Blanks(n) + core + Blanks(m);
    SpacedValue(n, core, m);
    ScanPieces(ps, rest);
    ScanAtStop(rest);
    assert TokensOf(ps) + [] == TokensOf(ps);
    sc := Stopped(TokensOf(ps), rest);
  }

  lemma ReadAttrWith(s: bytes, t: bytes, tail: bytes, sc: Scan)
    requires IndexOf(s, '=') == |t| < |s| && s[..|t|] == t && s[|t| + 1..] == tail
    requires Trim(t) != [] && ScanValue(tail) == Some(sc) && !IsBer(sc.toks)
    ensures ReadAttr(s) == Some((Attr(Trim(t), ValueOf(sc.toks)), sc.sep, sc.rest))
  {
    hide Trim, ScanValue, IndexOf, IsBer, ValueOf;
  }

  /** A spelled attribute is read as what it spells, in front of any separator. */
  lemma SpelledAttrIsRead(text: bytes, a: Attr, rest: bytes)
    requires SpellsAttr(text, a) && Stops(rest)
    ensures ReadAttr(text + rest) == Some((a, Stopped([], rest).sep, Stopped([], rest).rest))
  {
    hide Trim, ScanValue, IndexOf, IsBer, ValueOf, SpellsAttr, SpellsValue, ReadAttr, IsSeparator;
    var t, v := AttrParts(text, a);
    var sc := SpelledValueScans(v, a.value, rest);
    var s := text + rest;
    assert s == t + (['='] + (v + rest));
    IndexOfFirst(t, '=', v + rest);
    assert s[..|t|] == t && s[|t| + 1..] == v + rest;
    ReadAttrWith(s, t, v + rest, sc);
  }

  lemma ValueBy(n: nat, core: seq<Piece>, m: nat)
    requires AllOk(core) && GoodEnds(core)
    ensures SpellsValue(Spaces(n) + Text(core) + Spaces(m), Value(core))
  {
    hide Piece.Ok, Piece.Byte, Text, Spaces;
  }

  lemma AttrBy(t: bytes, v: bytes, a: Attr)
    requires '=' !in t && Trim(t) == a.typ && a.typ != [] && SpellsValue(v, a.value)
    ensures SpellsAttr(t + "=" + v, a)
  {
    hide Trim, SpellsValue;
  }

  lemma TypePart(s: bytes, q: nat, v: bytes)
    requires q == IndexOf(s, '=') < |s| && s[q + 1..] == v
    ensures '=' !in s[..q] && s == s[..q] + "=" + v
  {
    hide IndexOf;
    assert s == s[..q] + [s[q]] + s[q + 1..];
    forall i | 0 <= i < q ensures s[..q][i] != '=' {}
  }

  /** What is read as an attribute was spelled, up to the separator that ended it. */
  lemma ReadAttrIsSpelled(s: bytes) returns (text: bytes, rest: bytes)
    requires ReadAttr(s).Some?
    ensures s == text + rest && Stops(rest) && SpellsAttr(text, ReadAttr(s).value.0)
    ensures ReadAttr(s).value.1 == Stopped([], rest).sep && ReadAttr(s).value.2 == Stopped([], rest).rest
  {
    hide Trim, ScanValue, IndexOf, IsBer, ValueOf, Text, Piece.Ok, Piece.Byte, SpellsAttr, SpellsValue, Spaces;
    hide IsSeparator;
    var q := IndexOf(s, '=');
    var ps, tail := ScannedPieces(s[q + 1..]);
    var n, core, m := SplitBlanks(ps);
    SpacedValue(n, core, m);
    var a := ReadAttr(s).value.0;
    ValueBy(n, core, m);
    TypePart(s, q, Text(ps) + tail);
    AttrBy(s[..q], Text(ps), a);
    text, rest := s[..q] + "=" + Text(ps), tail;
    assert s[..q] + "=" + (Text(ps) + tail) == text + tail;
  }

  // ----- names -----

  lemma ReadLastAttr(s: bytes, a: Attr, rest: bytes)
    requires rest == [] || rest[0] == ',' || rest[0] == ';'
    requires ReadAttr(s) == Some((a, Stopped([], rest).sep, Stopped([], rest).rest))
    ensures ReadRDNs(s) == Prepend([a], After(rest))
  {
    hide ReadAttr;
    assert [[a]] + [] == [[a]];
  }

  lemma ReadAttrAndMore(s: bytes, a: Attr, rest: bytes, r: RDN, tail: Option<DN>)
    requires ReadAttr(s) == Some((a, NextAttr, rest)) && ReadRDNs(rest) == Prepend(r, tail)
    ensures ReadRDNs(s) == Prepend([a] + r, tail)
  {
    hide ReadAttr;
    if tail.Some? { assert ([r] + tail.value)[1..] == tail.value; }
  }

  /** A spelled RDN is read as itself, in front of whatever `rest` holds. */
  lemma {:induction false} SpelledRDNIsRead(text: bytes, r: RDN, rest: bytes)
    requires SpellsRDN(text, r) && (rest == [] || rest[0] == ',' || rest[0] == ';')
    ensures ReadRDNs(text + rest) == Prepend(r, After(rest))
    decreases |r|
  {
    hide SpellsAttr, ReadAttr, ReadRDNs, Prepend, After;
    if |r| == 1 {
      SpelledAttrIsRead(text, r[0], rest);
      ReadLastAttr(text + rest, r[0], rest);
      assert r == [r[0]];
    } else {
      var x: bytes, y: bytes :| text == x + "+" + y && SpellsAttr(x, r[0]) && SpellsRDN(y, r[1..]);
      var rest' := "+" + y + rest;
      assert text + rest == x + rest' && rest'[1..] == y + rest;
      SpelledAttrIsRead(x, r[0], rest');
      SpelledRDNIsRead(y, r[1..], rest);
      ReadAttrAndMore(text + rest, r[0], y + rest, r[1..], After(rest));
      assert r == [r[0]] + r[1..];
    }
  }

  lemma {:induction false} SpelledIsRead(text: bytes, d: DN)
    requires SpellsRDNs(text, d)
    ensures ReadRDNs(text) == Some(d)
    decreases |d|
  {
    hide SpellsRDN, ReadRDNs;
    if |d| == 1 {
      SpelledRDNIsRead(text, d[0], []);
      assert text + [] == text && [d[0]] + [] == d;
    } else {
      var x: bytes, c: bytes, y: bytes :|
        (c == "," || c == ";") && text == x + c + y && SpellsRDN(x, d[0]) && SpellsRDNs(y, d[1..]);
      assert text == x + (c + y) && (c + y)[1..] == y;
      SpelledRDNIsRead(x, d[0], c + y);
      SpelledIsRead(y, d[1..]);
      assert [d[0]] + d[1..] == d;
    }
  }

  lemma RDNBy(x: bytes, a: Attr, y: bytes, r: RDN)
    requires SpellsAttr(x, a) && SpellsRDN(y, r)
    ensures SpellsRDN(x + "+" + y, [a] + r)
  {
    hide SpellsAttr;
    assert ([a] + r)[1..] == r;
  }

  lemma OneRDNBy(x: bytes, a: Attr)
    requires SpellsAttr(x, a)
    ensures SpellsRDN(x, [a])
  {
    hide SpellsAttr;
  }

  lemma DNBy(x: bytes, r: RDN, c: bytes, y: bytes, d: DN)
    requires SpellsRDN(x, r) && SpellsRDNs(y, d) && (c == "," || c == ";")
    ensures SpellsRDNs(x + c + y, [r] + d)
  {
    hide SpellsRDN;
    assert ([r] + d)[1..] == d;
  }

  lemma OneDNBy(x: bytes, r: RDN)
    requires SpellsRDN(x, r)
    ensures SpellsRDNs(x, [r])
  {
    hide SpellsRDN;
  }

  /** An attribute in front of a spelled DN joins its first RDN behind a '+'. */
  lemma PlusBy(x: bytes, a: Attr, y: bytes, d: DN)
    requires SpellsAttr(x, a) && SpellsRDNs(y, d)
    ensures SpellsRDNs(x + "+" + y, [[a] + d[0]] + d[1..])
  {
    hide SpellsAttr, SpellsRDN;
    if |d| == 1 {
      RDNBy(x, a, y, d[0]);
      OneDNBy(x + "+" + y, [a] + d[0]);
      assert [[a] + d[0]] + d[1..] == [[a] + d[0]];
    } else {
      var u: bytes, c: bytes, v: bytes :|
        (c == "," || c == ";") && y == u + c + v && SpellsRDN(u, d[0]) && SpellsRDNs(v, d[1..]);
      RDNBy(x, a, u, d[0]);
      DNBy(x + "+" + u, [a] + d[0], c, v, d[1..]);
      assert x + "+" + y == x + "+" + u + c + v;
    }
  }

  lemma {:induction false} ReadIsSpelled(s: bytes)
    requires ReadRDNs(s).Some?
    ensures SpellsRDNs(s, ReadRDNs(s).value)
    decreases |s|
  {
    hide SpellsAttr, ReadAttr, SpellsRDN, SpellsRDNs;
    var text, rest := ReadAttrIsSpelled(s);
    var (a, sep, more) := ReadAttr(s).value;
    if sep == End {
      assert rest == [] && s == text;
      OneRDNBy(text, a);
      OneDNBy(text, [a]);
    } else {
      ReadIsSpelled(more);
      var d := ReadRDNs(more).value;
      assert rest == [rest[0]] + more;
      if sep == NextAttr {
        PlusBy(text, a, more, d);
        assert s == text + "+" + more;
      } else {
        OneRDNBy(text, a);
        DNBy(text, [a], [rest[0]], more, d);
        assert s == text + [rest[0]] + more;
      }
    }
  }

  /** `ParseDN` accepts exactly the spellings of the grammar, and returns what they spell. */
  lemma ParseIffSpells(s: bytes, d: DN)
    ensures Parse(s) == Some(d) <==> Spells(s, d)
  {
    hide ReadRDNs, SpellsRDNs, Trim;
    if Trim(s) != [] {
      if SpellsRDNs(s, d) { SpelledIsRead(s, d); }
      if ReadRDNs(s) == Some(d) { ReadIsSpelled(s); }
    }
  }

  // ----- how names are written -----

  /** The bytes that are written with a backslash wherever they stand. */
  predicate Special(c: byte) {
    c == ',' || c == '+' || c == '"' || c == '\\' || c == '<' || c == '>' || c == ';' || c == '='
  }

  /** How byte `i` of the value `v` is written. */
  function Written(v: bytes, i: nat): (p: Piece)
    requires i < |v|
    ensures p.Ok() && p.Byte() == v[i]
  {
    assert LOWER_DIGITS[0] == '0';
    if v[i] == '\0' then Hex('0', 0, '0', 0)
    else if Special(v[i]) || (v[i] == ' ' && (i == 0 || i == |v| - 1)) || (v[i] == '#' && i == 0) then Pair(v[i])
    else Bare(v[i])
  }

  lemma EscapeByteText(v: bytes, i: nat)
    requires i < |v|
    ensures EscapeByte(v, i) == Written(v, i).Text()
  {}

  lemma {:induction false} EscapeFromPieces(v: bytes, i: nat) returns (ps: seq<Piece>)
    requires i <= |v|
    ensures |ps| == |v| - i && AllOk(ps) && EscapeFrom(v, i) == Text(ps)
    ensures forall k :: 0 <= k < |ps| ==> ps[k] == Written(v, i + k)
    decreases |v| - i
  {
    hide EscapeByte, Written, Piece.Text, Piece.Ok;
    if i == |v| {
      ps := [];
    } else {
      EscapeByteText(v, i);
      var rest := EscapeFromPieces(v, i + 1);
      ps := [Written(v, i)] + rest;
      PieceFirst(Written(v, i), rest);
      forall k | 0 <= k < |ps| ensures ps[k] == Written(v, i + k) {
        if k > 0 { assert ps[k] == rest[k - 1]; }
      }
    }
  }

  lemma WrittenValue(v: bytes, ps: seq<Piece>)
    requires |ps| == |v| && AllOk(ps) && forall i :: 0 <= i < |v| ==> ps[i] == Written(v, i)
    ensures Value(ps) == v
  {
    hide Written, Piece.Ok, Piece.Byte;
    assert forall i :: 0 <= i < |v| ==> Value(ps)[i] == v[i];
  }

  lemma WrittenEnds(v: bytes, ps: seq<Piece>)
    requires |ps| == |v| && forall i :: 0 <= i < |v| ==> ps[i] == Written(v, i)
    ensures GoodEnds(ps)
  {
    if ps != [] {
      assert ps[0] == Written(v, 0) && ps[|v| - 1] == Written(v, |v| - 1);
    }
  }

  /**
   `escapeValue` writes every byte as itself, but NUL as \00 and with a backslash exactly the specials, a space at
   either end, and a leading '#'. What it writes spells the value.
   */
  lemma EscapesExactly(v: bytes) returns (ps: seq<Piece>)
    ensures |ps| == |v| && AllOk(ps) && GoodEnds(ps) && Escape(v) == Text(ps) && Value(ps) == v
    ensures forall i :: 0 <= i < |v| ==> ps[i] == Written(v, i)
  {
    hide EscapeFrom, Text, Written, GoodEnds, Piece.Ok, Piece.Byte, Value;
    ps := EscapeFromPieces(v, 0);
    forall i | 0 <= i < |v| ensures ps[i] == Written(v, i) { assert ps[i] == Written(v, 0 + i); }
    WrittenValue(v, ps);
    WrittenEnds(v, ps);
  }

  // ----- what may follow a backslash -----

  lemma {:induction false} ScanEscapedText(v: bytes, s: bytes) returns (ps: seq<Piece>)
    ensures AllOk(ps) && ScanValue(Escape(v) + s) == PushTokens(TokensOf(ps), ScanValue(s))
  {
    ps := EscapesExactly(v);
    hide Escape, ScanValue, Text;
    ScanPieces(ps, s);
  }

  lemma BadEscapeScansToNone(c: byte, rest: bytes)
    requires !('0' <= c <= '9') && !('a' <= c <= 'f') && !('A' <= c <= 'F') && !Pair(c).Ok()
    ensures ScanValue(['\\', c] + rest) == None
  {
    var s: bytes := ['\\', c] + rest;
    assert s[1..] == [c] + rest;
    assert ReadEscape([c] + rest) == None;
  }

  lemma NoAttr(s: bytes, typ: bytes, tail: bytes)
    requires '=' !in typ && s == typ + (['='] + tail) && ScanValue(tail) == None
    ensures Parse(s) == None
  {
    hide ScanValue, Trim, IndexOf;
    IndexOfFirst(typ, '=', tail);
    assert s[|typ| + 1..] == tail && s[|typ|] == '=';
    EqualsSignIsNotBlank(s);
  }

  /** A backslash before anything but a hexadecimal digit or one of the ten characters is an error anywhere. */
  lemma BadPairIsRejected(typ: bytes, v: bytes, c: byte, rest: bytes)
    requires WellFormedType(typ)
    requires !('0' <= c <= '9') && !('a' <= c <= 'f') && !('A' <= c <= 'F')
    requires c != '\\' && c != '"' && c != '+' && c != ',' && c != ';' && c != '<' && c != '>' && c != '='
    requires c != ' ' && c != '#'
    ensures Parse(typ + "=" + Escape(v) + ['\\', c] + rest) == None
  {
    hide ScanValue, Escape, Parse, Trim;
    BadEscapeScansToNone(c, rest);
    var ps := ScanEscapedText(v, ['\\', c] + rest);
    var tail := Escape(v) + (['\\', c] + rest);
    assert typ + "=" + Escape(v) + ['\\', c] + rest == typ + (['='] + tail);
    NoAttr(typ + (['='] + tail), typ, tail);
  }

  /** A backslash before one of the ten stands for exactly that character, and the value goes on after it. */
  lemma GoodPairIsRead(typ: bytes, v: bytes, c: byte, w: bytes)
    requires WellFormedType(typ)
    requires || c == '\\' || c == '"' || c == '+' || c == ',' || c == ';' || c == '<' || c == '>' || c == '='
             || c == ' ' || c == '#'
    ensures Parse(typ + "=" + Escape(v) + ['\\', c] + Escape(w)) == Some([[Attr(typ, v + [c] + w)]])
  {
    hide Escape, Parse, Trim, Text, Value;
    var ps := PairBetween(v, c, w);
    SpellsByPieces(typ, ps);
    assert typ + "=" + Text(ps) == typ + "=" + Escape(v) + ['\\', c] + Escape(w);
  }

  lemma PairBetween(v: bytes, c: byte, w: bytes) returns (ps: seq<Piece>)
    requires Pair(c).Ok()
    ensures AllOk(ps) && GoodEnds(ps) && Value(ps) == v + [c] + w
    ensures Text(ps) == Escape(v) + ['\\', c] + Escape(w)
  {
    hide Escape, Text, Piece.Ok, Piece.Byte, Written;
    var before := EscapesExactly(v);
    var after := EscapesExactly(w);
    ps := before + [Pair(c)] + after;
    TextConcat(before + [Pair(c)], after);
    TextConcat(before, [Pair(c)]);
    OneText(Pair(c));
    ThreeValues(before, c, after);
  }

  lemma OneText(p: Piece)
    ensures Text([p]) == p.Text()
  {
    assert [p][1..] == [];
  }

  lemma ThreeValues(ps: seq<Piece>, c: byte, qs: seq<Piece>)
    requires AllOk(ps) && AllOk(qs) && Pair(c).Ok()
    ensures AllOk(ps + [Pair(c)] + qs) && Value(ps + [Pair(c)] + qs) == Value(ps) + [c] + Value(qs)
  {
    assert Pair(c).Byte() == c;
    hide Piece.Ok, Piece.Byte;
  }

  lemma SpellsByPieces(typ: bytes, ps: seq<Piece>)
    requires WellFormedType(typ) && AllOk(ps) && GoodEnds(ps)
    ensures Parse(typ + "=" + Text(ps)) == Some([[Attr(typ, Value(ps))]])
  {
    hide Parse, Trim, Text, Piece.Ok, Piece.Byte, SpellsAttr, SpellsValue, SpellsRDN, SpellsRDNs;
    var s := typ + "=" + Text(ps);
    ValueBy(0, ps, 0);
    assert Spaces(0) + Text(ps) + Spaces(0) == Text(ps);
    AttrBy(typ, Text(ps), Attr(typ, Value(ps)));
    OneRDNBy(s, Attr(typ, Value(ps)));
    OneDNBy(s, [Attr(typ, Value(ps))]);
    assert s[|typ|] == '=';
    EqualsSignIsNotBlank(s);
    ParseIffSpells(s, [[Attr(typ, Value(ps))]]);
  }
}
