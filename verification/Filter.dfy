/** LDAP filter assertions (`filter.go`), against a reader for their part of section 3 of RFC 4515. */
module Filter {
  import opened Wrappers
  import opened Bytes
  import opened Grammar
  import opened Spelling

  predicate Reserved(c: byte) {
    c as int > 0x7f || c == '(' || c == ')' || c == '\\' || c == '*' || c == '\0'
  }

  function EncodeByte(c: byte): bytes {
    if Reserved(c) then ['\\', HexDigit(c as int / 16), HexDigit(c as int % 16)] else [c]
  }

  function Encode(s: bytes): bytes {
    if s == [] then [] else EncodeByte(s[0]) + Encode(s[1..])
  }

  function Escapes(s: bytes): (n: nat)
    ensures n <= |s|
  {
    if s == [] then 0 else (if Reserved(s[0]) then 1 else 0) + Escapes(s[1..])
  }

  /** An assertion value: escapes stand for their byte, and '(', ')', '*' and NUL do not occur bare. */
  function Decode(s: bytes): Option<bytes> {
    if s == [] then Some([])
    else if s[0] == '\\' then
      if |s| >= 3 && IsHexDigit(s[1]) && IsHexDigit(s[2]) then
        var v :- Decode(s[3..]);
        Some([HexByte(s[1], s[2])] + v)
      else None
    else if s[0] == '(' || s[0] == ')' || s[0] == '*' || s[0] == '\0' then None
    else
      var v :- Decode(s[1..]);
      Some([s[0]] + v)
  }

  lemma {:induction false} EncodeConcat(s: bytes, t: bytes)
    ensures Encode(s + t) == Encode(s) + Encode(t)
    ensures Escapes(s + t) == Escapes(s) + Escapes(t)
  {
    if s == [] {
      assert s + t == t;
    } else {
      assert (s + t)[1..] == s[1..] + t;
      EncodeConcat(s[1..], t);
    }
  }

  lemma HexOfByte(c: byte)
    ensures HexByte(HexDigit(c as int / 16), HexDigit(c as int % 16)) == c
  {
    assert 16 * (c as int / 16) + c as int % 16 == c as int;
  }

  /** Escaping loses nothing, takes two more bytes an escape, and leaves only bare ASCII outside escapes. */
  lemma {:induction false} EncodeLossless(s: bytes)
    ensures Decode(Encode(s)) == Some(s)
    ensures |Encode(s)| == |s| + 2 * Escapes(s)
    ensures forall i :: 0 <= i < |Encode(s)| ==> !Reserved(Encode(s)[i]) || Encode(s)[i] == '\\'
  {
    if s != [] {
      EncodeLossless(s[1..]);
      var (c, e) := (s[0], Encode(s));
      if Reserved(c) {
        HexOfByte(c);
        assert e == ['\\', HexDigit(c as int / 16), HexDigit(c as int % 16)] + Encode(s[1..]);
        assert e[3..] == Encode(s[1..]);
      } else {
        assert e[1..] == Encode(s[1..]);
      }
      assert [c] + s[1..] == s;
    }
  }

  /**
   What each byte is written as: '(', ')', '*', the backslash, NUL and every byte from 0x80 on as a backslash and two
   lower-case hexadecimal digits, every other byte as itself.
   */
  lemma EncodesExactly(s: bytes, c: byte)
    ensures Encode(s + [c]) == Encode(s) +
            if c == '(' || c == ')' || c == '*' || c == '\\' || c == '\0' || c as int >= 0x80
            then ['\\', LOWER_DIGITS[c as int / 16], LOWER_DIGITS[c as int % 16]] else [c]
    ensures Encode([]) == []
  {
    EncodeConcat(s, [c]);
    assert Encode([c]) == EncodeByte(c) by { assert [c][1..] == []; }
    DigitText(c as int / 16);
    DigitText(c as int % 16);
    hide Encode;
  }

  lemma DigitText(n: nat)
    requires n < 16
    ensures HexDigit(n) == LOWER_DIGITS[n]
  {}

  lemma EncodeStep(s: bytes, i: nat)
    requires i < |s|
    ensures Encode(s[..i + 1]) == Encode(s[..i]) + EncodeByte(s[i])
    ensures Escapes(s[..i + 1]) == Escapes(s[..i]) + if Reserved(s[i]) then 1 else 0
    ensures |Encode(s[..i])| == i + 2 * Escapes(s[..i])
    ensures Escapes(s[..i + 1]) <= Escapes(s)
  {
    assert s[..i + 1] == s[..i] + [s[i]];
    EncodeConcat(s[..i], [s[i]]);
    EncodeLossless(s[..i]);
    assert s == s[..i + 1] + s[i + 1..];
    EncodeConcat(s[..i + 1], s[i + 1..]);
  }

  lemma {:induction false} NothingToEscape(s: bytes)
    requires Escapes(s) == 0
    ensures Encode(s) == s
  {
    if s != [] { NothingToEscape(s[1..]); }
  }

  /** `EscapeFilter`: the buffer sized by the first pass is filled exactly by the second. */
  method EscapeFilter(filter: bytes) returns (r: bytes)
    ensures r == Encode(filter)
    ensures Decode(r) == Some(filter)
  {
    hide Encode, Decode, Escapes;
    EncodeLossless(filter);
    var escapes := 0;
    assert filter[..0] == [];
    assert Escapes([]) == 0 && Encode([]) == [] by { EncodeEmpty(); }
    for i := 0 to |filter|
      invariant escapes == Escapes(filter[..i])
    {
      EncodeStep(filter, i);
      if Reserved(filter[i]) {
        escapes := escapes + 1;
      }
    }
    assert filter[..|filter|] == filter;
    if escapes == 0 {
      NothingToEscape(filter);
      return filter;
    }
    var buf := new byte[|filter| + escapes * 2];
    var i, j := 0, 0;
    while i < |filter|
      invariant i <= |filter| && j == i + 2 * Escapes(filter[..i]) <= buf.Length
      invariant buf[..j] == Encode(filter[..i])
    {
      EncodeStep(filter, i);
      ghost var done := buf[..j];
      var c := filter[i];
      assert Escapes(filter[..i + 1]) <= escapes;
      if Reserved(c) {
        buf[j], buf[j + 1], buf[j + 2] := '\\', HexDigit(c as int / 16), HexDigit(c as int % 16);
        assert buf[..j + 3] == done + EncodeByte(c);
        i, j := i + 1, j + 3;
      } else {
        buf[j] := c;
        assert buf[..j + 1] == done + EncodeByte(c);
        i, j := i + 1, j + 1;
      }
    }
    assert buf[..] == buf[..j];
    return buf[..];
  }

  lemma EncodeEmpty()
    ensures Escapes([]) == 0 && Encode([]) == []
  {}

  /** `Equal`. */
  function Equal(attr: bytes, value: bytes): bytes { "(" + attr + "=" + Encode(value) + ")" }

  function Concat(terms: seq<bytes>): bytes {
    if terms == [] then [] else terms[0] + Concat(terms[1..])
  }

  /** What `And` builds. */
  function Conjunction(terms: seq<bytes>): bytes {
    if |terms| == 0 then [] else if |terms| == 1 then terms[0] else "(&" + Concat(terms) + ")"
  }

  /** `And`. */
  method And(terms: seq<bytes>) returns (r: bytes)
    ensures r == Conjunction(terms)
    ensures |terms| == 0 ==> r == []
    ensures |terms| == 1 ==> r == terms[0]
    ensures |terms| >= 2 ==> r == "(&" + Concat(terms) + ")"
  {
    if |terms| == 0 {
      return [];
    }
    if |terms| == 1 {
      return terms[0];
    }
    var out: bytes := "(&";
    for i := 0 to |terms|
      invariant out + Concat(terms[i..]) == "(&" + Concat(terms)
    {
      assert terms[i..][1..] == terms[i + 1..];
      assert out + (terms[i] + Concat(terms[i + 1..])) == out + terms[i] + Concat(terms[i + 1..]);
      out := out + terms[i];
    }
    return out + ")";
  }

  // ----- filters built from Equal and And, and their reader -----

  datatype Term = Assertion(attr: bytes, value: bytes) | All(terms: seq<Term>)

  /** The text of a term, its conjunctions built by `And` and its assertions by `Equal`. */
  function Text(t: Term): bytes
    decreases t, 0
  {
    match t
    case Assertion(attr, value) => Equal(attr, value)
    case All(terms) => Conjunction(Texts(terms))
  }

  function Texts(ts: seq<Term>): (r: seq<bytes>)
    ensures |r| == |ts|
    decreases ts, 1
  {
    if ts == [] then [] else [Text(ts[0])] + Texts(ts[1..])
  }

  predicate ValidAttr(attr: bytes) {
    forall i :: 0 <= i < |attr| ==> attr[i] != '(' && attr[i] != ')' && attr[i] != '='
  }

  /** Attribute names without '(', ')' and '='; conjunctions of two or more terms. */
  predicate Valid(t: Term)
    decreases t, 0
  {
    match t
    case Assertion(attr, _) => ValidAttr(attr)
    case All(terms) => |terms| >= 2 && ValidAll(terms)
  }

  predicate ValidAll(ts: seq<Term>)
    decreases ts, 1
  {
    ts == [] || (Valid(ts[0]) && ValidAll(ts[1..]))
  }

  /** One parenthesised filter and the unread input. */
  function Read(s: bytes): (r: Option<(Term, bytes)>)
    ensures r.Some? ==> |r.value.1| < |s|
    decreases |s|, 0
  {
    if |s| < 2 || s[0] != '(' then None
    else if |s| >= 3 && s[1] == '&' && s[2] == '(' then
      var (ts, rest) :- ReadAll(s[2..]);
      Some((All(ts), rest))
    else
      var q := IndexOf(s[1..], '=');
      if q == |s| - 1 then None
      else
        var (attr, tail) := (s[1..][..q], s[1..][q + 1..]);
        var e := IndexOf(tail, ')');
        if e == |tail| then None
        else
          var v :- Decode(tail[..e]);
          Some((Assertion(attr, v), tail[e + 1..]))
  }

  /** Filters up to the ')' that closes their conjunction. */
  function ReadAll(s: bytes): (r: Option<(seq<Term>, bytes)>)
    ensures r.Some? ==> |r.value.1| < |s|
    decreases |s|, 1
  {
    if s == [] then None
    else if s[0] == ')' then Some(([], s[1..]))
    else
      var (t, rest) :- Read(s);
      var (ts, rest') :- ReadAll(rest);
      Some(([t] + ts, rest'))
  }

  lemma AssertionParts(attr: bytes, value: bytes, rest: bytes)
    ensures var (s, tail) := (Equal(attr, value) + rest, Encode(value) + ([')'] + rest));
            && |s| >= 3 && s[0] == '(' && s[1..] == attr + (['='] + tail)
            && s[1..][..|attr|] == attr && s[1..][|attr| + 1..] == tail
            && tail[..|Encode(value)|] == Encode(value) && tail[|Encode(value)| + 1..] == rest
  {
    hide Encode;
  }

  lemma ReadAssertion(attr: bytes, value: bytes, rest: bytes)
    requires ValidAttr(attr)
    ensures Read(Equal(attr, value) + rest) == Some((Assertion(attr, value), rest))
  {
    hide Encode, Decode, IndexOf, Equal;
    var s := Equal(attr, value) + rest;
    var tail := Encode(value) + ([')'] + rest);
    AssertionParts(attr, value, rest);
    EncodeLossless(value);
    IndexOfFirst(attr, '=', tail);
    IndexOfFirst(Encode(value), ')', rest);
    assert !(s[1] == '&' && s[2] == '(') by {
      assert s[1] == s[1..][0] && s[2] == s[1..][1];
    }
  }

  lemma TextStarts(t: Term)
    requires Valid(t)
    ensures Text(t) != [] && Text(t)[0] == '('
  {}

  /** Every filter built by `And` over `Equal` terms, nested to any depth, reads back as itself. */
  lemma {:induction false} ReadText(t: Term, rest: bytes)
    requires Valid(t)
    ensures Read(Text(t) + rest) == Some((t, rest))
    decreases t, 0
  {
    match t
    case Assertion(attr, value) => ReadAssertion(attr, value, rest);
    case All(terms) =>
      var s := Text(t) + rest;
      var body := Concat(Texts(terms)) + (")" + rest);
      assert s == "(&" + body;
      ReadTexts(terms, rest);
      TextStarts(terms[0]);
      assert s[2] == body[0] == Text(terms[0])[0];
      assert s[2..] == body;
  }

  lemma {:induction false} ReadTexts(ts: seq<Term>, rest: bytes)
    requires ValidAll(ts)
    ensures ReadAll(Concat(Texts(ts)) + (")" + rest)) == Some((ts, rest))
    decreases ts, 1
  {
    hide Text, Read, Valid;
    if ts == [] {
      assert Concat(Texts(ts)) + (")" + rest) == ")" + rest;
      assert (")" + rest)[1..] == rest;
    } else {
      var more := Concat(Texts(ts[1..])) + (")" + rest);
      assert Texts(ts)[1..] == Texts(ts[1..]);
      assert Concat(Texts(ts)) + (")" + rest) == Text(ts[0]) + more;
      TextStarts(ts[0]);
      ReadText(ts[0], more);
      ReadTexts(ts[1..], rest);
      assert [ts[0]] + ts[1..] == ts;
    }
  }

  /** Reading `s` from nesting depth `depth` the parentheses close, and none too early. */
  predicate Balanced(s: bytes, depth: nat) {
    if s == [] then depth == 0
    else if s[0] == '(' then Balanced(s[1..], depth + 1)
    else if s[0] == ')' then depth > 0 && Balanced(s[1..], depth - 1)
    else Balanced(s[1..], depth)
  }

  lemma {:induction false} BalancedPlain(s: bytes, rest: bytes, depth: nat)
    requires forall i :: 0 <= i < |s| ==> s[i] != '(' && s[i] != ')'
    ensures Balanced(s + rest, depth) == Balanced(rest, depth)
  {
    if s == [] {
      assert s + rest == rest;
    } else {
      assert (s + rest)[1..] == s[1..] + rest;
      BalancedPlain(s[1..], rest, depth);
    }
  }

  lemma {:induction false} TextBalanced(t: Term, rest: bytes, depth: nat)
    requires Valid(t)
    ensures Balanced(Text(t) + rest, depth) == Balanced(rest, depth)
    decreases t, 0
  {
    hide Encode, Texts, Concat;
    match t
    case Assertion(attr, value) =>
      var inner := attr + "=" + Encode(value);
      var s := Text(t) + rest;
      EncodeLossless(value);
      assert s[1..] == inner + (")" + rest);
      assert (")" + rest)[1..] == rest;
      BalancedPlain(inner, ")" + rest, depth + 1);
    case All(terms) =>
      var s := Text(t) + rest;
      var body := Concat(Texts(terms)) + (")" + rest);
      assert s[1..] == "&" + body && s[1..][1..] == body;
      assert (")" + rest)[1..] == rest;
      TextsBalanced(terms, ")" + rest, depth + 1);
  }

  lemma {:induction false} TextsBalanced(ts: seq<Term>, rest: bytes, depth: nat)
    requires ValidAll(ts)
    ensures Balanced(Concat(Texts(ts)) + rest, depth) == Balanced(rest, depth)
    decreases ts, 1
  {
    if ts == [] {
      assert Concat(Texts(ts)) + rest == rest;
    } else {
      var more := Concat(Texts(ts[1..])) + rest;
      assert Texts(ts)[1..] == Texts(ts[1..]);
      assert Concat(Texts(ts)) + rest == Text(ts[0]) + more;
      TextBalanced(ts[0], more, depth);
      TextsBalanced(ts[1..], rest, depth);
    }
  }

  /** The text of two assertions under one conjunction. */
  lemma FilterText(a: bytes, v: bytes, b: bytes, w: bytes)
    ensures Text(All([Assertion(a, v), Assertion(b, w)])) ==
            "(&(" + a + "=" + Encode(v) + ")(" + b + "=" + Encode(w) + "))"
  {
    hide Encode;
    var ts := [Assertion(a, v), Assertion(b, w)];
    var x: bytes, y: bytes := "(" + a + "=" + Encode(v) + ")", "(" + b + "=" + Encode(w) + ")";
    assert Text(ts[0]) == x && Text(ts[1]) == y;
    TwoTexts(ts[0], ts[1]);
    TwoTerms(x, y);
  }

  lemma TwoTexts(t: Term, u: Term)
    ensures Texts([t, u]) == [Text(t), Text(u)]
  {
    hide Text;
    assert [t, u][1..] == [u] && [u][1..] == [];
    assert Texts([u]) == [Text(u)];
  }

  lemma TwoTerms(x: bytes, y: bytes)
    ensures Conjunction([x, y]) == "(&" + x + y + ")"
  {
    assert [x, y][1..] == [y] && [y][1..] == [];
    assert Concat([y]) == y;
    assert "(&" + (x + y) + ")" == "(&" + x + y + ")";
  }

  /** A built filter has balanced parentheses and is the text of no other filter. */
  lemma FilterRoundTrip(t: Term)
    requires Valid(t)
    ensures Balanced(Text(t), 0)
    ensures Read(Text(t)) == Some((t, []))
    ensures forall u :: Valid(u) && Text(u) == Text(t) ==> u == t
  {
    assert Text(t) + [] == Text(t);
    TextBalanced(t, [], 0);
    ReadText(t, []);
    forall u | Valid(u) && Text(u) == Text(t)
      ensures u == t
    {
      assert Text(u) + [] == Text(u);
      ReadText(u, []);
    }
  }
}
