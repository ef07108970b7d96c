/** Names whose texts differ in ASCII letter case only are read alike, and name the same object. */
module LetterCase {
  import opened Wrappers
  import opened Bytes
  import opened Grammar
  import opened Compare
  import opened Scope
  import opened Moves

  /** The texts differ in letter case only. */
  predicate Alike(s: bytes, t: bytes) { Lower(s) == Lower(t) }

  lemma AlikeBytes(s: bytes, t: bytes)
    ensures Alike(s, t) <==> |s| == |t| && forall i :: 0 <= i < |s| ==> LowerByte(s[i]) == LowerByte(t[i])
  {
    if |s| == |t| && forall i :: 0 <= i < |s| ==> LowerByte(s[i]) == LowerByte(t[i]) {
      assert Lower(s) == Lower(t);
    }
    if Lower(s) == Lower(t) {
      forall i | 0 <= i < |s| ensures LowerByte(s[i]) == LowerByte(t[i]) { assert Lower(s)[i] == Lower(t)[i]; }
    }
  }

  lemma AlikeSlice(s: bytes, t: bytes, i: nat, j: nat)
    requires Alike(s, t) && i <= j <= |s|
    ensures |s| == |t| && Alike(s[i..j], t[i..j]) && Alike(s[i..], t[i..])
  {
    hide LowerByte, Alike;
    AlikeBytes(s, t);
    AlikeBytes(s[i..j], t[i..j]);
    AlikeBytes(s[i..], t[i..]);
  }

  lemma AlikeSpace(s: bytes, t: bytes, i: nat, end: nat)
    requires Alike(s, t) && i <= end <= |s| == |t|
    ensures SpaceLen(s, i, end) == SpaceLen(t, i, end)
  {
    AlikeBytes(s, t);
    hide Alike;
  }

  lemma {:induction false} AlikeSkip(s: bytes, t: bytes, i: nat)
    requires Alike(s, t) && i <= |s| == |t|
    ensures SkipSpace(s, i) == SkipSpace(t, i)
    decreases |s| - i
  {
    hide SpaceLen, Alike;
    AlikeSpace(s, t, i, |s|);
    if SpaceLen(s, i, |s|) != 0 { AlikeSkip(s, t, i + SpaceLen(s, i, |s|)); }
  }

  lemma {:induction false} AlikeSkipBack(s: bytes, t: bytes, start: nat, end: nat)
    requires Alike(s, t) && start <= end <= |s| == |t|
    ensures SkipSpaceBack(s, start, end) == SkipSpaceBack(t, start, end)
    decreases end
  {
    hide SpaceLen, Alike;
    if end >= start + 1 { AlikeSpace(s, t, end - 1, end); }
    if end >= start + 2 { AlikeSpace(s, t, end - 2, end); }
    if end >= start + 3 { AlikeSpace(s, t, end - 3, end); }
    assert SpaceLenBack(s, start, end) == SpaceLenBack(t, start, end);
    hide SpaceLenBack;
    if SpaceLenBack(s, start, end) != 0 { AlikeSkipBack(s, t, start, end - SpaceLenBack(s, start, end)); }
  }

  lemma AlikeTrim(s: bytes, t: bytes)
    requires Alike(s, t)
    ensures Alike(Trim(s), Trim(t))
  {
    hide SkipSpace, SkipSpaceBack, Alike;
    AlikeBytes(s, t);
    AlikeSkip(s, t, 0);
    var start := SkipSpace(s, 0);
    AlikeSkipBack(s, t, start, |s|);
    AlikeSlice(s, t, start, SkipSpaceBack(s, start, |s|));
  }

  lemma AlikeEmpty(s: bytes, t: bytes)
    requires Alike(s, t)
    ensures |s| == |t|
  {
    AlikeBytes(s, t);
  }

  lemma {:induction false} AlikeIndexOf(s: bytes, t: bytes)
    requires Alike(s, t)
    ensures IndexOf(s, '=') == IndexOf(t, '=')
  {
    hide Alike, LowerByte;
    AlikeBytes(s, t);
    if s != [] {
      AlikeSlice(s, t, 1, |s|);
      AlikeFirst(s, t);
      AlikeIndexOf(s[1..], t[1..]);
    }
  }

  /** Bytes that are no letters agree. */
  lemma AlikeFirst(s: bytes, t: bytes)
    requires Alike(s, t) && s != []
    ensures t != [] && LowerByte(s[0]) == LowerByte(t[0])
    ensures s[0] == t[0] || (s[0] != '=' && t[0] != '=' && s[0] != '\\' && t[0] != '\\'
                             && !IsSeparator(s[0]) && !IsSeparator(t[0]) && !IsEscapable(s[0]) && !IsEscapable(t[0]))
    ensures IsHexDigit(s[0]) <==> IsHexDigit(t[0])
    ensures IsHexDigit(s[0]) ==> HexValue(s[0]) == HexValue(t[0])
  {
    AlikeBytes(s, t);
  }

  // ----- tokens -----

  predicate SameToken(x: Token, y: Token) { LowerByte(x.b) == LowerByte(y.b) && x.escaped == y.escaped }

  predicate SameTokens(xs: seq<Token>, ys: seq<Token>) {
    |xs| == |ys| && forall i :: 0 <= i < |xs| ==> SameToken(xs[i], ys[i])
  }

  predicate SameScan(x: Option<Scan>, y: Option<Scan>) {
    (x.Some? <==> y.Some?) &&
    (x.Some? ==>
       SameTokens(x.value.toks, y.value.toks) && x.value.sep == y.value.sep && Alike(x.value.rest, y.value.rest))
  }

  lemma SamePush(a: Token, b: Token, x: Option<Scan>, y: Option<Scan>)
    requires SameToken(a, b) && SameScan(x, y)
    ensures SameScan(Push(a, x), Push(b, y))
  {
    hide Alike, SameToken;
  }

  predicate SameEscape(e: Option<(byte, nat)>, f: Option<(byte, nat)>) {
    (e.Some? <==> f.Some?) && (e.Some? ==> e.value.1 == f.value.1 && LowerByte(e.value.0) == LowerByte(f.value.0))
  }

  lemma AlikeEscape(s: bytes, t: bytes)
    requires Alike(s, t)
    ensures SameEscape(ReadEscape(s), ReadEscape(t))
  {
    hide Alike, LowerByte;
    AlikeEmpty(s, t);
    if s != [] {
      AlikeFirst(s, t);
      if |s| >= 2 {
        AlikeSlice(s, t, 1, |s|);
        AlikeFirst(s[1..], t[1..]);
      }
    }
  }

  lemma {:induction false} AlikeScan(s: bytes, t: bytes)
    requires Alike(s, t)
    ensures SameScan(ScanValue(s), ScanValue(t))
    decreases |s|
  {
    hide Alike, LowerByte, ReadEscape, SameScan;
    AlikeEmpty(s, t);
    if s == [] {
      SameEnd(t);
    } else {
      AlikeFirst(s, t);
      AlikeSlice(s, t, 1, |s|);
      if s[0] == '\\' {
        AlikeEscape(s[1..], t[1..]);
        AlikeAfterEscape(s, t);
      } else if IsSeparator(s[0]) {
        SameStop(s, t);
      } else {
        AlikeScan(s[1..], t[1..]);
        assert SameToken(Token(s[0], false), Token(t[0], false));
        SamePush(Token(s[0], false), Token(t[0], false), ScanValue(s[1..]), ScanValue(t[1..]));
      }
    }
  }

  lemma SameEnd(t: bytes)
    requires |t| == 0
    ensures SameScan(ScanValue([]), ScanValue(t))
  {}

  lemma SameStop(s: bytes, t: bytes)
    requires s != [] && t != [] && s[0] == t[0] && IsSeparator(s[0]) && Alike(s[1..], t[1..])
    ensures SameScan(ScanValue(s), ScanValue(t))
  {
    hide Alike;
  }

  lemma {:induction false} AlikeAfterEscape(s: bytes, t: bytes)
    requires Alike(s, t) && s != [] && t != [] && s[0] == t[0] == '\\' && |s| == |t|
    requires SameEscape(ReadEscape(s[1..]), ReadEscape(t[1..]))
    ensures SameScan(ScanValue(s), ScanValue(t))
    decreases |s|, 0
  {
    hide Alike, LowerByte, ReadEscape, SameScan;
    var (e, f) := (ReadEscape(s[1..]), ReadEscape(t[1..]));
    if e.Some? {
      var n := e.value.1;
      AlikeSlice(s, t, 1 + n, |s|);
      AlikeScan(s[1 + n..], t[1 + n..]);
      assert SameToken(Token(e.value.0, true), Token(f.value.0, true));
      SamePush(Token(e.value.0, true), Token(f.value.0, true), ScanValue(s[1 + n..]), ScanValue(t[1 + n..]));
    } else {
      SameNone();
    }
  }

  lemma SameNone()
    ensures SameScan(None, None)
  {}

  lemma {:induction false} SameStrip(xs: seq<Token>, ys: seq<Token>)
    requires SameTokens(xs, ys)
    ensures SameTokens(StripLeading(xs), StripLeading(ys))
  {
    if xs != [] {
      assert SameToken(xs[0], ys[0]);
      if Blank(xs[0]) { SameStrip(xs[1..], ys[1..]); }
    }
  }

  lemma {:induction false} SameTrailing(xs: seq<Token>, ys: seq<Token>)
    requires SameTokens(xs, ys)
    ensures TrailingBlanks(xs) == TrailingBlanks(ys)
  {
    if xs != [] {
      assert SameToken(xs[|xs| - 1], ys[|ys| - 1]);
      if Blank(xs[|xs| - 1]) { SameTrailing(xs[..|xs| - 1], ys[..|ys| - 1]); }
    }
  }

  lemma SameValue(xs: seq<Token>, ys: seq<Token>)
    requires SameTokens(xs, ys)
    ensures IsBer(xs) <==> IsBer(ys)
    ensures Alike(ValueOf(xs), ValueOf(ys))
  {
    SameStrip(xs, ys);
    var (u, v) := (StripLeading(xs), StripLeading(ys));
    SameTrailing(u, v);
    hide StripLeading, TrailingBlanks, Alike;
    assert u != [] ==> SameToken(u[0], v[0]);
    var n := |u| - TrailingBlanks(u);
    AlikeBytes(BytesOf(u[..n]), BytesOf(v[..n]));
  }

  // ----- names -----

  predicate SameAttr(a: Attr, b: Attr) { Alike(a.typ, b.typ) && Alike(a.value, b.value) }

  predicate SameReadAttr(x: Option<(Attr, Sep, bytes)>, y: Option<(Attr, Sep, bytes)>) {
    (x.Some? <==> y.Some?) &&
    (x.Some? ==> SameAttr(x.value.0, y.value.0) && x.value.1 == y.value.1 && Alike(x.value.2, y.value.2))
  }

  lemma AlikeReadAttr(s: bytes, t: bytes)
    requires Alike(s, t)
    ensures SameReadAttr(ReadAttr(s), ReadAttr(t))
  {
    hide Alike, IndexOf, Trim, ScanValue, IsBer, ValueOf, SameTokens;
    AlikeEmpty(s, t);
    AlikeIndexOf(s, t);
    var q := IndexOf(s, '=');
    if q < |s| {
      AlikeSlice(s, t, 0, q);
      assert s[0..q] == s[..q] && t[0..q] == t[..q];
      AlikeTrim(s[..q], t[..q]);
      AlikeEmpty(Trim(s[..q]), Trim(t[..q]));
      AlikeSlice(s, t, q + 1, |s|);
      AlikeScan(s[q + 1..], t[q + 1..]);
      var (x, y) := (ScanValue(s[q + 1..]), ScanValue(t[q + 1..]));
      if x.Some? { SameValue(x.value.toks, y.value.toks); }
    }
  }

  predicate SameAttrs(r: RDN, o: RDN) { |r| == |o| && forall i :: 0 <= i < |r| ==> SameAttr(r[i], o[i]) }

  predicate SameRDNs(d: DN, e: DN) { |d| == |e| && forall i :: 0 <= i < |d| ==> SameAttrs(d[i], e[i]) }

  lemma SameCons(a: Attr, b: Attr, sep: Sep, d: DN, e: DN)
    requires SameAttr(a, b) && d != [] && SameRDNs(d, e)
    ensures e != [] && SameRDNs(Cons(a, sep, d), Cons(b, sep, e))
  {
    hide SameAttr;
    assert SameAttrs(d[0], e[0]);
  }

  lemma SameOne(a: Attr, b: Attr)
    requires SameAttr(a, b)
    ensures SameRDNs([[a]], [[b]])
  {
    hide SameAttr;
  }

  lemma {:induction false} AlikeReadRDNs(s: bytes, t: bytes)
    requires Alike(s, t)
    ensures ReadRDNs(s).Some? <==> ReadRDNs(t).Some?
    ensures ReadRDNs(s).Some? ==> SameRDNs(ReadRDNs(s).value, ReadRDNs(t).value)
    decreases |s|
  {
    hide Alike, ReadAttr, SameAttr, SameRDNs, Cons;
    AlikeReadAttr(s, t);
    if ReadAttr(s).Some? {
      var ((a, sep, rest), (b, _, rest')) := (ReadAttr(s).value, ReadAttr(t).value);
      if sep == End {
        SameOne(a, b);
      } else {
        AlikeReadRDNs(rest, rest');
        if ReadRDNs(rest).Some? { SameCons(a, b, sep, ReadRDNs(rest).value, ReadRDNs(rest').value); }
      }
    }
  }

  lemma SameAttrsFold(r: RDN, o: RDN)
    requires SameAttrs(r, o)
    ensures SameRDN(Lower, r, o)
  {
    assert FoldAll(Lower, r) == FoldAll(Lower, o);
  }

  /** Names whose texts differ in letter case only are both unreadable, or name the same object. */
  lemma AlikeNames(s: bytes, t: bytes)
    requires Alike(s, t)
    ensures Parse(s).Some? <==> Parse(t).Some?
    ensures Parse(s).Some? ==> EqDN(s, t)
  {
    hide Alike, ReadRDNs, Trim, SameRDN;
    AlikeTrim(s, t);
    AlikeEmpty(Trim(s), Trim(t));
    AlikeReadRDNs(s, t);
    if Trim(s) != [] && ReadRDNs(s).Some? {
      var (d, e) := (ReadRDNs(s).value, ReadRDNs(t).value);
      forall i | 0 <= i < |d| ensures SameRDN(Lower, d[i], e[i]) { SameAttrsFold(d[i], e[i]); }
    }
  }

  /** Readable twins are two keys of one name, so `Create` never makes the second. */
  lemma TwinsAreOneName(k: bytes, l: bytes, from: bytes)
    requires Twins(k, l, from)
    ensures Alike(k, l) && (Parse(k).Some? <==> Parse(l).Some?)
    ensures Parse(k).Some? ==> EqDN(k, l)
  {
    hide Parse, EqDN;
    BelowByText(k, from);
    BelowByText(l, from);
    hide Below;
    var (n, m) := (|k| - |from|, |l| - |from|);
    assert k == k[..n] + k[n..] && l == l[..m] + l[m..];
    LowerConcat(k[..n], k[n..]);
    LowerConcat(l[..m], l[m..]);
    AlikeNames(k, l);
  }
}
