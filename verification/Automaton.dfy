/** The one-pass byte automaton of `ParseDN`, proved to compute `Grammar.Parse`. */
module Automaton {
  import opened Wrappers
  import opened Bytes
  import opened Grammar

  /** The buffers and flags of the loop while it reads one attribute. */
  datatype Lex = Lex(
    typeBuf: bytes, valBuf: bytes, hexBuf: bytes,
    hasEq: bool, escaping: bool, leading: bool, trailWS: nat)
  {
    predicate Sane() {
      && trailWS <= |valBuf|
      && |hexBuf| <= 1 && (hexBuf != [] ==> escaping && IsHexDigit(hexBuf[0]))
    }

    /** `appendVal`, which every caller follows by clearing `leading`. */
    function Append(b: byte, escaped: bool): Lex {
      this.(valBuf := valBuf + [b],
            trailWS := if b == ' ' && !escaped then trailWS + 1 else 0,
            leading := false)
    }

    /** `endAttr`: the attribute the buffers hold, or None where it returns an error. */
    function EndAttr(): Option<Attr>
      requires Sane()
    {
      if !hasEq || Trim(typeBuf) == [] then None
      else Some(Attr(Trim(typeBuf), valBuf[..|valBuf| - trailWS]))
    }

    /** The byte `c` ends the attribute. */
    predicate EndsAt(c: byte) { hasEq && !escaping && IsSeparator(c) }

    /** The switch of the loop for every other byte; None where it returns an error. */
    function Step(c: byte): Option<Lex>
      requires Sane() && !EndsAt(c)
    {
      if escaping then
        if IsHexDigit(c) then
          if hexBuf == [] then Some(this.(hexBuf := hexBuf + [c]))
          else Some(Append(HexByte(hexBuf[0], c), true).(hexBuf := [], escaping := false))
        else if hexBuf != [] || !IsEscapable(c) then None
        else Some(Append(c, true).(escaping := false))
      else if !hasEq then
        if c == '=' then Some(this.(hasEq := true, leading := true))
        else Some(this.(typeBuf := typeBuf + [c]))
      else if c == '\\' then Some(this.(escaping := true))
      else if c == ' ' && leading then Some(this)
      else if c == '#' && valBuf == [] then None
      else Some(Append(c, false))
    }

    /** The value tokens that `Step(c)` completes. */
    function NewTokens(c: byte): seq<Token>
      requires Sane()
    {
      if escaping then
        if !IsHexDigit(c) then [Token(c, true)]
        else if hexBuf == [] then []
        else [Token(HexByte(hexBuf[0], c), true)]
      else if !hasEq || c == '\\' then []
      else [Token(c, false)]
    }

    /** Bytes of an escape read so far, its backslash included. */
    function Pending(): nat { if escaping then 1 + |hexBuf| else 0 }
  }

  const START := Lex([], [], [], false, false, false, 0)

  function PushAll(toks: seq<Token>, r: Option<Scan>): Option<Scan> {
    match r
    case None => None
    case Some(sc) => Some(sc.(toks := toks + sc.toks))
  }

  /** `lx` holds the type bytes `s[..i]` and has seen no '='. */
  ghost predicate InType(s: bytes, i: nat, lx: Lex) {
    && i <= |s| && lx.typeBuf == s[..i] && '=' !in s[..i]
    && !lx.hasEq && !lx.escaping && lx.hexBuf == [] && lx.valBuf == [] && lx.trailWS == 0
  }

  /** The value buffer holds the tokens `toks`, less the leading blanks. */
  ghost predicate Buffered(lx: Lex, toks: seq<Token>) {
    var kept := StripLeading(toks);
    && lx.valBuf == BytesOf(kept)
    && lx.trailWS == TrailingBlanks(kept)
    && (lx.leading <==> kept == [])
    && !IsBer(toks)
  }

  /** `lx` has read the value tokens `toks` of attribute `s`, and an escape in progress, up to `i`. */
  ghost predicate InValue(s: bytes, i: nat, lx: Lex, toks: seq<Token>) {
    var q := |lx.typeBuf|;
    && lx.hasEq && q + 1 + lx.Pending() <= i <= |s|
    && IndexOf(s, '=') == q && lx.typeBuf == s[..q]
    && |lx.hexBuf| <= 1 && (lx.hexBuf != [] ==> lx.escaping && IsHexDigit(lx.hexBuf[0]))
    && (lx.escaping ==> s[i - lx.Pending()] == '\\' && lx.hexBuf == s[i - |lx.hexBuf|..i])
    && ScanValue(s[q + 1..]) == PushAll(toks, ScanValue(s[i - lx.Pending()..]))
    && Buffered(lx, toks)
  }

  lemma EnterValue(s: bytes, i: nat, lx: Lex)
    requires InType(s, i, lx) && i < |s| && s[i] == '='
    ensures InValue(s, i + 1, lx.(hasEq := true, leading := true), [])
  {
    IndexOfFirst(s[..i], '=', s[i + 1..]);
    assert s == s[..i] + (['='] + s[i + 1..]);
    var r := ScanValue(s[i + 1..]);
    if r.Some? { assert [] + r.value.toks == r.value.toks; }
  }

  lemma {:induction false} StripLeadingSnoc(toks: seq<Token>, t: Token)
    ensures StripLeading(toks + [t]) ==
            if StripLeading(toks) == [] && Blank(t) then [] else StripLeading(toks) + [t]
  {
    if toks != [] && Blank(toks[0]) {
      assert (toks + [t])[1..] == toks[1..] + [t];
      StripLeadingSnoc(toks[1..], t);
    } else if toks == [] {
      assert toks + [t] == [t];
      assert [t][1..] == [];
    }
  }

  lemma TrailingBlanksSnoc(toks: seq<Token>, t: Token)
    ensures TrailingBlanks(toks + [t]) == if Blank(t) then TrailingBlanks(toks) + 1 else 0
  {
    assert (toks + [t])[..|toks|] == toks;
  }

  lemma PushAllSnoc(toks: seq<Token>, t: Token, r: Option<Scan>)
    ensures PushAll(toks, Push(t, r)) == PushAll(toks + [t], r)
  {
    if r.Some? {
      assert toks + ([t] + r.value.toks) == toks + [t] + r.value.toks;
    }
  }

  /** An unescaped leading space changes nothing in the buffers. */
  lemma SkipBlank(s: bytes, i: nat, lx: Lex, toks: seq<Token>)
    requires InValue(s, i, lx, toks) && !lx.escaping && lx.leading && i < |s| && s[i] == ' '
    ensures InValue(s, i + 1, lx, toks + [Token(' ', false)])
  {
    assert ScanValue(s[i..]) == Push(Token(' ', false), ScanValue(s[i + 1..])) by {
      assert s[i..][1..] == s[i + 1..];
    }
    PushAllSnoc(toks, Token(' ', false), ScanValue(s[i + 1..]));
    StripLeadingSnoc(toks, Token(' ', false));
    hide ScanValue, IndexOf;
  }

  /** Every other byte of a value goes through `appendVal`. */
  lemma AppendToken(s: bytes, i: nat, lx: Lex, toks: seq<Token>, t: Token)
    requires InValue(s, i, lx, toks) && i < |s|
    requires !(lx.leading && (Blank(t) || t == Token('#', false)))
    requires ScanValue(s[i - lx.Pending()..]) == Push(t, ScanValue(s[i + 1..]))
    ensures InValue(s, i + 1, lx.Append(t.b, t.escaped).(hexBuf := [], escaping := false), toks + [t])
  {
    hide ScanValue, IndexOf;
    PushAllSnoc(toks, t, ScanValue(s[i + 1..]));
    StripLeadingSnoc(toks, t);
    TrailingBlanksSnoc(StripLeading(toks), t);
  }

  lemma AppendPlain(s: bytes, i: nat, lx: Lex, toks: seq<Token>)
    requires InValue(s, i, lx, toks) && !lx.escaping && i < |s|
    requires s[i] != '\\' && !IsSeparator(s[i])
    requires !(lx.leading && s[i] in " #")
    ensures InValue(s, i + 1, lx.Append(s[i], false), toks + [Token(s[i], false)])
  {
    assert s[i..][1..] == s[i + 1..];
    AppendToken(s, i, lx, toks, Token(s[i], false));
  }

  lemma ScanEscape(u: bytes)
    ensures ScanValue(['\\'] + u) ==
            (var e := ReadEscape(u);
             if e.None? then None else Push(Token(e.value.0, true), ScanValue(u[e.value.1..])))
  {
    var w := ['\\'] + u;
    assert w[1..] == u;
    var e := ReadEscape(u);
    hide ReadEscape;
    if e.Some? { assert w[1 + e.value.1..] == u[e.value.1..]; }
  }

  /** `ReadEscape` sees the bytes after the pending backslash. */
  lemma EscapeAhead(s: bytes, i: nat, lx: Lex, toks: seq<Token>)
    requires InValue(s, i, lx, toks) && lx.escaping
    ensures ScanValue(s[i - lx.Pending()..]) ==
            (var e := ReadEscape(lx.hexBuf + s[i..]);
             if e.None? then None
             else Push(Token(e.value.0, true), ScanValue((lx.hexBuf + s[i..])[e.value.1..])))
  {
    hide ScanValue, ReadEscape, IndexOf, Buffered;
    assert s[i - lx.Pending()..] == ['\\'] + (lx.hexBuf + s[i..]);
    ScanEscape(lx.hexBuf + s[i..]);
  }

  lemma FinishHex(s: bytes, i: nat, lx: Lex, toks: seq<Token>)
    requires InValue(s, i, lx, toks) && |lx.hexBuf| == 1 && i < |s| && IsHexDigit(s[i])
    ensures var t := Token(HexByte(lx.hexBuf[0], s[i]), true);
            InValue(s, i + 1, lx.Append(t.b, true).(hexBuf := [], escaping := false), toks + [t])
  {
    EscapeAhead(s, i, lx, toks);
    assert (lx.hexBuf + s[i..])[2..] == s[i + 1..];
    AppendToken(s, i, lx, toks, Token(HexByte(lx.hexBuf[0], s[i]), true));
  }

  lemma FinishPair(s: bytes, i: nat, lx: Lex, toks: seq<Token>)
    requires InValue(s, i, lx, toks) && lx.escaping && lx.hexBuf == [] && i < |s|
    requires !IsHexDigit(s[i]) && IsEscapable(s[i])
    ensures InValue(s, i + 1, lx.Append(s[i], true).(escaping := false), toks + [Token(s[i], true)])
  {
    EscapeAhead(s, i, lx, toks);
    assert (lx.hexBuf + s[i..])[1..] == s[i + 1..];
    AppendToken(s, i, lx, toks, Token(s[i], true));
  }

  lemma Reads(s: bytes, i: nat, lx: Lex, toks: seq<Token>)
    requires InValue(s, i, lx, toks)
    ensures ReadAttr(s) == Assemble(lx.typeBuf, PushAll(toks, ScanValue(s[i - lx.Pending()..])))
  {}

  /** Where the automaton gives up on an escape, the reference does too. */
  lemma BadEscape(s: bytes, i: nat, lx: Lex, toks: seq<Token>)
    requires InValue(s, i, lx, toks) && lx.escaping
    requires i == |s| || (!IsHexDigit(s[i]) && (lx.hexBuf != [] || !IsEscapable(s[i])))
    ensures ReadAttr(s) == None
  {
    hide ReadAttr, ScanValue, IndexOf, Trim;
    Reads(s, i, lx, toks);
    EscapeAhead(s, i, lx, toks);
    assert ReadEscape(lx.hexBuf + s[i..]) == None;
  }

  lemma {:induction false} StripLeadingPrefix(toks: seq<Token>, more: seq<Token>)
    requires StripLeading(toks) == []
    ensures StripLeading(toks + more) == StripLeading(more)
  {
    if toks == [] {
      assert toks + more == more;
    } else {
      assert (toks + more)[1..] == toks[1..] + more;
      StripLeadingPrefix(toks[1..], more);
    }
  }

  lemma ScanAtByte(s: bytes, i: nat)
    requires i < |s| && s[i] != '\\'
    ensures ScanValue(s[i..]) ==
            if IsSeparator(s[i]) then Some(Scan([], SepOf(s[i]), s[i + 1..]))
            else Push(Token(s[i], false), ScanValue(s[i + 1..]))
  {
    assert s[i..][1..] == s[i + 1..];
  }

  lemma ScanAtEnd(s: bytes)
    ensures ScanValue(s[|s|..]) == Some(Scan([], End, []))
  {}

  lemma BerAhead(toks: seq<Token>, r: Option<Scan>)
    requires StripLeading(toks) == [] && r.Some?
    ensures IsBer(toks + ([Token('#', false)] + r.value.toks))
  {
    StripLeadingPrefix(toks, [Token('#', false)] + r.value.toks);
  }

  lemma NothingKept(s: bytes, i: nat, lx: Lex, toks: seq<Token>)
    requires InValue(s, i, lx, toks) && lx.valBuf == []
    ensures StripLeading(toks) == []
  {
    hide ScanValue, IndexOf, StripLeading, TrailingBlanks, IsBer;
  }

  lemma BerValue(s: bytes, i: nat, lx: Lex, toks: seq<Token>)
    requires InValue(s, i, lx, toks) && !lx.escaping && i < |s| && s[i] == '#' && lx.valBuf == []
    ensures ReadAttr(s) == None
  {
    hide ReadAttr, ScanValue, IndexOf, Trim, InValue, IsBer, StripLeading, TrailingBlanks, ValueOf;
    Reads(s, i, lx, toks);
    ScanAtByte(s, i);
    NothingKept(s, i, lx, toks);
    var r := ScanValue(s[i + 1..]);
    if r.Some? { BerAhead(toks, r); }
  }

  lemma BufferedValue(lx: Lex, toks: seq<Token>)
    requires Buffered(lx, toks)
    ensures lx.trailWS <= |lx.valBuf| && !IsBer(toks)
    ensures ValueOf(toks) == lx.valBuf[..|lx.valBuf| - lx.trailWS]
  {
    var kept := StripLeading(toks);
    var n := |kept| - lx.trailWS;
    assert BytesOf(kept)[..n] == BytesOf(kept[..n]);
  }

  /** At an unescaped separator or the end of the string the buffers hold exactly `ReadAttr`'s result. */
  lemma AttrRead(s: bytes, i: nat, lx: Lex, toks: seq<Token>)
    requires InValue(s, i, lx, toks) && !lx.escaping
    requires i == |s| || IsSeparator(s[i])
    ensures lx.trailWS <= |lx.valBuf|
    ensures lx.EndAttr().None? ==> ReadAttr(s) == None
    ensures lx.EndAttr().Some? ==>
              ReadAttr(s) == Some((lx.EndAttr().value,
                                   if i == |s| then End else SepOf(s[i]),
                                   if i == |s| then [] else s[i + 1..]))
  {
    hide ReadAttr, ScanValue, IndexOf, Trim, IsBer, ValueOf, StripLeading, TrailingBlanks;
    Reads(s, i, lx, toks);
    BufferedValue(lx, toks);
    ScanAtEnd(s);
    if i < |s| { ScanAtByte(s, i); }
    assert toks + [] == toks;
  }

  /** The DN that `d` completes, after the RDNs `done` and the attributes `cur` of the RDN being read. */
  function Glue(done: DN, cur: RDN, d: Option<DN>): Option<DN>
    requires d.Some? ==> d.value != []
  {
    match d
    case None => None
    case Some(d) => Some(done + [cur + d[0]] + d[1..])
  }

  lemma GlueCons(done: DN, cur: RDN, a: Attr, d: DN)
    requires d != []
    ensures Glue(done, cur, Some(Cons(a, NextRDN, d))) == Glue(done + [cur + [a]], [], Some(d))
    ensures Glue(done, cur, Some(Cons(a, NextAttr, d))) == Glue(done, cur + [a], Some(d))
  {
    assert [] + d[0] == d[0];
    assert [d[0]] + d[1..] == d;
    assert done + [cur + [a]] + [d[0]] + d[1..] == done + [cur + [a]] + ([d[0]] + d[1..]);
    assert cur + ([a] + d[0]) == cur + [a] + d[0];
  }

  lemma TypeByte(s: bytes, i: nat, lx: Lex)
    requires InType(s, i, lx) && i < |s| && s[i] != '='
    ensures InType(s, i + 1, lx.(typeBuf := lx.typeBuf + [s[i]]))
  {}

  lemma StartEscape(s: bytes, i: nat, lx: Lex, toks: seq<Token>)
    requires InValue(s, i, lx, toks) && !lx.escaping && i < |s| && s[i] == '\\'
    ensures InValue(s, i + 1, lx.(escaping := true), toks)
  {
    hide ScanValue, IndexOf;
  }

  lemma FirstHex(s: bytes, i: nat, lx: Lex, toks: seq<Token>)
    requires InValue(s, i, lx, toks) && lx.escaping && lx.hexBuf == [] && i < |s| && IsHexDigit(s[i])
    ensures InValue(s, i + 1, lx.(hexBuf := lx.hexBuf + [s[i]]), toks)
  {
    hide ScanValue, IndexOf;
  }

  lemma ReadAtSeparator(s: bytes, a: Attr, sep: Sep, rest: bytes, done: DN, cur: RDN)
    requires ReadAttr(s) == Some((a, sep, rest))
    ensures Glue(done, cur, ReadRDNs(s)) ==
            match sep
            case End => Some(done + [cur + [a]])
            case NextRDN => Glue(done + [cur + [a]], [], ReadRDNs(rest))
            case NextAttr => Glue(done, cur + [a], ReadRDNs(rest))
  {
    hide ReadAttr;
    assert done + [cur + [a]] + [[a]][1..] == done + [cur + [a]];
    if sep != End && ReadRDNs(rest).Some? {
      GlueCons(done, cur, a, ReadRDNs(rest).value);
    }
  }

  lemma NoEquals(s: bytes, lx: Lex)
    requires InType(s, |s|, lx)
    ensures ReadAttr(s) == None
  {
    assert s[..|s|] == s;
  }

  lemma LexedStart(s: bytes)
    ensures Lexed(s, 0, START, []) && Lexed(s, 0, START.(leading := true), [])
  {}

  lemma GlueNothing(str: bytes)
    ensures ReadRDNs(str) == Glue([], [], ReadRDNs(str[0..]))
  {
    hide ReadRDNs;
    assert str[0..] == str;
    var d := ReadRDNs(str);
    if d.Some? {
      assert [] + d.value[0] == d.value[0];
      assert [] + [d.value[0]] + d.value[1..] == d.value;
    }
  }

  /** `lx` is the automaton's state after `s[..i]`, the start of an attribute. */
  ghost predicate Lexed(s: bytes, i: nat, lx: Lex, toks: seq<Token>) {
    lx.Sane() && if lx.hasEq then InValue(s, i, lx, toks) else toks == [] && InType(s, i, lx)
  }

  lemma LexedStep(s: bytes, i: nat, lx: Lex, toks: seq<Token>)
    requires Lexed(s, i, lx, toks) && i < |s| && !lx.EndsAt(s[i])
    ensures var lx' := lx.Step(s[i]);
            if lx'.None? then ReadAttr(s) == None
            else Lexed(s, i + 1, lx'.value, toks + lx.NewTokens(s[i]))
  {
    hide ReadAttr, ScanValue, IndexOf, Trim, Buffered;
    var c := s[i];
    assert toks + [] == toks;
    if !lx.hasEq {
      if c == '=' { EnterValue(s, i, lx); } else { TypeByte(s, i, lx); }
    } else {
      InValueStep(s, i, lx, toks);
    }
  }

  lemma InValueStep(s: bytes, i: nat, lx: Lex, toks: seq<Token>)
    requires InValue(s, i, lx, toks) && lx.Sane() && i < |s| && !lx.EndsAt(s[i])
    ensures var lx' := lx.Step(s[i]);
            if lx'.None? then ReadAttr(s) == None
            else InValue(s, i + 1, lx'.value, toks + lx.NewTokens(s[i])) && lx'.value.Sane()
  {
    hide ReadAttr, ScanValue, IndexOf, Trim, InValue;
    if lx.escaping { EscapeStep(s, i, lx, toks); } else { PlainStep(s, i, lx, toks); }
  }

  lemma EscapeStep(s: bytes, i: nat, lx: Lex, toks: seq<Token>)
    requires InValue(s, i, lx, toks) && lx.Sane() && i < |s| && lx.escaping
    ensures var lx' := lx.Step(s[i]);
            if lx'.None? then ReadAttr(s) == None
            else InValue(s, i + 1, lx'.value, toks + lx.NewTokens(s[i])) && lx'.value.Sane()
  {
    hide ReadAttr, ScanValue, IndexOf, Trim, InValue, HexByte;
    var c := s[i];
    assert toks + [] == toks;
    if IsHexDigit(c) {
      if lx.hexBuf == [] { FirstHex(s, i, lx, toks); } else { FinishHex(s, i, lx, toks); }
    } else if lx.hexBuf != [] || !IsEscapable(c) {
      BadEscape(s, i, lx, toks);
    } else {
      FinishPair(s, i, lx, toks);
    }
  }

  lemma PlainStep(s: bytes, i: nat, lx: Lex, toks: seq<Token>)
    requires InValue(s, i, lx, toks) && lx.Sane() && i < |s| && !lx.EndsAt(s[i]) && !lx.escaping
    ensures var lx' := lx.Step(s[i]);
            if lx'.None? then ReadAttr(s) == None
            else InValue(s, i + 1, lx'.value, toks + lx.NewTokens(s[i])) && lx'.value.Sane()
  {
    hide ReadAttr, ScanValue, IndexOf, Trim, IsBer, TrailingBlanks;
    assert lx.leading <==> lx.valBuf == [];
    hide InValue, Buffered;
    var c := s[i];
    assert toks + [] == toks;
    if c == '\\' {
      StartEscape(s, i, lx, toks);
    } else if c == ' ' && lx.leading {
      SkipBlank(s, i, lx, toks);
    } else if c == '#' && lx.valBuf == [] {
      BerValue(s, i, lx, toks);
    } else {
      AppendPlain(s, i, lx, toks);
    }
  }

  /** At the end of the string an open escape or a type without '=' is an error, as in the reference. */
  lemma LexedEnd(s: bytes, lx: Lex, toks: seq<Token>)
    requires Lexed(s, |s|, lx, toks)
    ensures lx.escaping || lx.EndAttr().None? ==> ReadAttr(s) == None
    ensures !lx.escaping && lx.EndAttr().Some? ==> ReadAttr(s) == Some((lx.EndAttr().value, End, []))
  {
    hide ReadAttr, ScanValue, IndexOf, Trim, Buffered;
    if !lx.hasEq {
      NoEquals(s, lx);
    } else if lx.escaping {
      BadEscape(s, |s|, lx, toks);
    } else {
      AttrRead(s, |s|, lx, toks);
    }
  }

  /**
   Before byte `i` of `str`: the RDNs `rdns` and then the attributes `rdn` are read, and the automaton
   has lexed `toks` of the attribute that starts at `start`.
   */
  ghost predicate Reading(str: bytes, i: nat, rdns: DN, rdn: RDN, lx: Lex, start: nat, toks: seq<Token>) {
    && start <= i <= |str|
    && ReadRDNs(str) == Glue(rdns, rdn, ReadRDNs(str[start..]))
    && Lexed(str[start..], i - start, lx, toks)
  }

  lemma ReadingStart(str: bytes)
    ensures Reading(str, 0, [], [], START, 0, [])
  {
    GlueNothing(str);
    LexedStart(str[0..]);
  }

  lemma ReadingStep(str: bytes, i: nat, rdns: DN, rdn: RDN, lx: Lex, start: nat, toks: seq<Token>)
    requires Reading(str, i, rdns, rdn, lx, start, toks) && lx.Sane() && i < |str| && !lx.EndsAt(str[i])
    ensures var lx' := lx.Step(str[i]);
            if lx'.None? then ReadRDNs(str) == None
            else lx'.value.Sane() && Reading(str, i + 1, rdns, rdn, lx'.value, start, toks + lx.NewTokens(str[i]))
  {
    hide ReadAttr, ReadRDNs, Lexed, Lex.Step, Lex.NewTokens, Lex.Sane, Lex.EndsAt;
    LexedStep(str[start..], i - start, lx, toks);
    if lx.Step(str[i]).None? { AttrFails(str[start..]); } else { StepSane(lx, str[i]); }
  }

  lemma StepSane(lx: Lex, c: byte)
    requires lx.Sane() && !lx.EndsAt(c) && lx.Step(c).Some?
    ensures lx.Step(c).value.Sane()
  {}

  lemma AttrFails(s: bytes)
    requires ReadAttr(s) == None
    ensures ReadRDNs(s) == None
  {}

  lemma SeparatorRead(s: bytes, k: nat, lx: Lex, toks: seq<Token>)
    requires Lexed(s, k, lx, toks) && k < |s| && lx.EndsAt(s[k])
    ensures lx.EndAttr().None? ==> ReadAttr(s) == None
    ensures lx.EndAttr().Some? ==> ReadAttr(s) == Some((lx.EndAttr().value, SepOf(s[k]), s[k + 1..]))
  {
    hide ReadAttr, Trim, InType, InValue;
    AttrRead(s, k, lx, toks);
  }

  lemma ReadingSeparator(str: bytes, i: nat, rdns: DN, rdn: RDN, lx: Lex, start: nat, toks: seq<Token>)
    requires Reading(str, i, rdns, rdn, lx, start, toks) && lx.Sane() && i < |str| && lx.EndsAt(str[i])
    ensures var a := lx.EndAttr();
            if a.None? then ReadRDNs(str) == None
            else if str[i] == '+' then Reading(str, i + 1, rdns, rdn + [a.value], START.(leading := true), i + 1, [])
            else Reading(str, i + 1, rdns + [rdn + [a.value]], [], START, i + 1, [])
  {
    hide ReadAttr, ReadRDNs, Trim, Cons, Lexed;
    var s, k := str[start..], i - start;
    SeparatorRead(s, k, lx, toks);
    if lx.EndAttr().Some? {
      ReadAtSeparator(s, lx.EndAttr().value, SepOf(s[k]), s[k + 1..], rdns, rdn);
      assert s[k + 1..] == str[i + 1..];
      LexedStart(str[i + 1..]);
      hide Glue;
    } else {
      AttrFails(s);
    }
  }

  lemma ReadingEnd(str: bytes, rdns: DN, rdn: RDN, lx: Lex, start: nat, toks: seq<Token>)
    requires Reading(str, |str|, rdns, rdn, lx, start, toks) && lx.Sane()
    ensures ReadRDNs(str) ==
            if lx.escaping || lx.EndAttr().None? then None else Some(rdns + [rdn + [lx.EndAttr().value]])
  {
    hide ReadAttr, Lexed, Trim;
    LexedEnd(str[start..], lx, toks);
    if !lx.escaping && lx.EndAttr().Some? {
      ReadAtSeparator(str[start..], lx.EndAttr().value, End, [], rdns, rdn);
    }
  }

  /** The closure `endAttr`, without its resetting of the buffers. */
  method EndAttr(typeBuf: bytes, valBuf: bytes, hasEq: bool, trailWS: nat) returns (a: Option<Attr>)
    requires trailWS <= |valBuf|
    ensures a == Lex(typeBuf, valBuf, [], hasEq, false, false, trailWS).EndAttr()
  {
    hide Trim;
    if !hasEq {
      return None;
    }
    var t := Trim(typeBuf);
    if t == [] {
      return None;
    }
    return Some(Attr(t, valBuf[..|valBuf| - trailWS]));
  }

  method ParseDN(str: bytes) returns (r: Option<DN>)
    ensures r == Parse(str)
  {
    hide ReadRDNs, Trim, Reading, HexByte;
    if Trim(str) == [] {
      return Some([]);
    }
    var dn: DN, rdn: RDN := [], [];
    var typeBuf: bytes, valBuf: bytes, hexBuf: bytes := [], [], [];
    var hasEq, escaping, leading, trailWS := false, false, false, 0;
    ghost var start, toks := 0, [];
    ReadingStart(str);
    for i := 0 to |str|
      invariant Lex(typeBuf, valBuf, hexBuf, hasEq, escaping, leading, trailWS).Sane()
      invariant Reading(str, i, dn, rdn, Lex(typeBuf, valBuf, hexBuf, hasEq, escaping, leading, trailWS), start, toks)
    {
      var c := str[i];
      ghost var lx := Lex(typeBuf, valBuf, hexBuf, hasEq, escaping, leading, trailWS);
      if lx.EndsAt(c) {
        ReadingSeparator(str, i, dn, rdn, lx, start, toks);
        start, toks := i + 1, [];
      } else {
        ReadingStep(str, i, dn, rdn, lx, start, toks);
        toks := toks + lx.NewTokens(c);
      }
      if escaping {
        if IsHexDigit(c) {
          hexBuf := hexBuf + [c];
          if |hexBuf| == 2 {
            valBuf, trailWS := valBuf + [HexByte(hexBuf[0], hexBuf[1])], 0;
            hexBuf, escaping, leading := [], false, false;
          }
        } else {
          if |hexBuf| == 1 || !IsEscapable(c) {
            return None;
          }
          valBuf, trailWS := valBuf + [c], 0;
          escaping, leading := false, false;
        }
      } else if !hasEq {
        if c == '=' {
          hasEq, leading := true, true;
        } else {
          typeBuf := typeBuf + [c];
        }
      } else if c == '\\' {
        escaping := true;
      } else if c == ',' || c == ';' {
        var a := EndAttr(typeBuf, valBuf, hasEq, trailWS);
        if a.None? {
          return None;
        }
        dn, rdn := dn + [rdn + [a.value]], [];
        typeBuf, valBuf, hasEq, trailWS := [], [], false, 0;
        leading := false;
      } else if c == '+' {
        var a := EndAttr(typeBuf, valBuf, hasEq, trailWS);
        if a.None? {
          return None;
        }
        rdn := rdn + [a.value];
        typeBuf, valBuf, hasEq, trailWS := [], [], false, 0;
        leading := true;
      } else if c == ' ' && leading {
        // an unescaped leading space is not part of the value
      } else if c == '#' && |valBuf| == 0 {
        return None;
      } else {
        valBuf, trailWS := valBuf + [c], if c == ' ' then trailWS + 1 else 0;
        leading := false;
      }
    }
    ReadingEnd(str, dn, rdn, Lex(typeBuf, valBuf, hexBuf, hasEq, escaping, leading, trailWS), start, toks);
    if escaping || |hexBuf| > 0 {
      return None;
    }
    var a := EndAttr(typeBuf, valBuf, hasEq, trailWS);
    if a.None? {
      return None;
    }
    return Some(dn + [rdn + [a.value]]);
  }
}
