/**
 Distinguished names: the values, their printed form, and a recursive-descent reference for the
 slice of section 3 of RFC 4514 that `ParseDN` accepts.
 */
module Grammar {
  import opened Wrappers
  import opened Bytes

  datatype Attr = Attr(typ: bytes, value: bytes)
  type RDN = seq<Attr>
  type DN = seq<RDN>

  // ----- reading -----

  predicate IsHexDigit(c: byte) {
    '0' <= c <= '9' || 'a' <= c <= 'f' || 'A' <= c <= 'F'
  }

  function HexValue(c: byte): (n: nat)
    requires IsHexDigit(c)
    ensures n < 16
  {
    if c <= '9' then c as int - '0' as int
    else if c <= 'F' then c as int - 'A' as int + 10
    else c as int - 'a' as int + 10
  }

  /** The lower-case hexadecimal digit of `n`. */
  function HexDigit(n: nat): (c: byte)
    requires n < 16
    ensures IsHexDigit(c) && HexValue(c) == n
  {
    if n < 10 then (n + '0' as int) as char else (n - 10 + 'a' as int) as char
  }

  /** `strconv.ParseUint(h, 16, 8)` on two hex digits. */
  function HexByte(hi: byte, lo: byte): byte
    requires IsHexDigit(hi) && IsHexDigit(lo)
  {
    (16 * HexValue(hi) + HexValue(lo)) as char
  }

  predicate IsEscapable(c: byte) {
    || c == '\\' || c == '"' || c == '+' || c == ',' || c == ';'
    || c == '<' || c == '>' || c == '=' || c == ' ' || c == '#'
  }

  /** One byte of an attribute value, with whether an escape wrote it. */
  datatype Token = Token(b: byte, escaped: bool)

  /** What stopped an attribute: the end of the string, ',' or ';', or '+'. */
  datatype Sep = End | NextRDN | NextAttr

  predicate IsSeparator(c: byte) { c == ',' || c == ';' || c == '+' }

  function SepOf(c: byte): Sep {
    if c == '+' then NextAttr else NextRDN
  }

  datatype Scan = Scan(toks: seq<Token>, sep: Sep, rest: bytes)

  /** The byte an escape stands for and the bytes it takes, `s` being what follows the backslash. */
  function ReadEscape(s: bytes): (r: Option<(byte, nat)>)
    ensures r.Some? ==> 1 <= r.value.1 <= |s| && r.value.1 <= 2
  {
    if |s| >= 2 && IsHexDigit(s[0]) && IsHexDigit(s[1]) then Some((HexByte(s[0], s[1]), 2))
    else if |s| >= 1 && IsEscapable(s[0]) then Some((s[0], 1))
    else None
  }

  function Push(t: Token, r: Option<Scan>): Option<Scan> {
    match r
    case None => None
    case Some(sc) => Some(sc.(toks := [t] + sc.toks))
  }

  /** The raw value up to the first unescaped separator. */
  function ScanValue(s: bytes): (r: Option<Scan>)
    ensures r.Some? ==> |r.value.rest| <= |s| && (r.value.sep != End ==> |r.value.rest| < |s|)
    ensures r.Some? && r.value.sep == End ==> r.value.rest == []
  {
    if s == [] then Some(Scan([], End, []))
    else if s[0] == '\\' then
      var (b, n) :- ReadEscape(s[1..]);
      Push(Token(b, true), ScanValue(s[1 + n..]))
    else if IsSeparator(s[0]) then Some(Scan([], SepOf(s[0]), s[1..]))
    else Push(Token(s[0], false), ScanValue(s[1..]))
  }

  predicate Blank(t: Token) { t == Token(' ', false) }

  function StripLeading(toks: seq<Token>): (r: seq<Token>)
    ensures |r| <= |toks|
    ensures r != [] ==> !Blank(r[0])
  {
    if toks != [] && Blank(toks[0]) then StripLeading(toks[1..]) else toks
  }

  /** Number of unescaped spaces at the end. */
  function TrailingBlanks(toks: seq<Token>): (n: nat)
    ensures n <= |toks|
  {
    if toks == [] || !Blank(toks[|toks| - 1]) then 0 else 1 + TrailingBlanks(toks[..|toks| - 1])
  }

  function BytesOf(toks: seq<Token>): (r: bytes)
    ensures |r| == |toks|
  {
    seq(|toks|, i requires 0 <= i < |toks| => toks[i].b)
  }

  /** The "#0402..." form, a BER value in hexadecimal. */
  predicate IsBer(toks: seq<Token>) {
    StripLeading(toks) != [] && StripLeading(toks)[0] == Token('#', false)
  }

  function ValueOf(toks: seq<Token>): bytes {
    var t := StripLeading(toks);
    BytesOf(t[..|t| - TrailingBlanks(t)])
  }

  /** The attribute with type bytes `typ` and scanned value `v`. */
  function Assemble(typ: bytes, v: Option<Scan>): (r: Option<(Attr, Sep, bytes)>)
    ensures r.Some? ==> v.Some? && r.value.1 == v.value.sep && r.value.2 == v.value.rest
  {
    if v.None? || IsBer(v.value.toks) || Trim(typ) == [] then None
    else Some((Attr(Trim(typ), ValueOf(v.value.toks)), v.value.sep, v.value.rest))
  }

  /** One `type=value`, what stopped it, and the unread input. */
  function ReadAttr(s: bytes): (r: Option<(Attr, Sep, bytes)>)
    ensures r.Some? ==> |r.value.2| < |s|
    ensures r.Some? && r.value.1 == End ==> r.value.2 == []
  {
    var q := IndexOf(s, '=');
    if q == |s| then None else Assemble(s[..q], ScanValue(s[q + 1..]))
  }

  /** Puts attribute `a`, which separator `sep` ended, in front of what was read after it. */
  function Cons(a: Attr, sep: Sep, d: DN): (r: DN)
    requires d != []
    ensures r != []
  {
    if sep == NextAttr then [[a] + d[0]] + d[1..] else [[a]] + d
  }

  function ReadRDNs(s: bytes): (r: Option<DN>)
    ensures r.Some? ==> r.value != []
    decreases |s|
  {
    var (a, sep, rest) :- ReadAttr(s);
    if sep == End then Some([[a]])
    else
      var d :- ReadRDNs(rest);
      Some(Cons(a, sep, d))
  }

  /** What `ParseDN` computes: the DN of `s`, or None where it returns an error. */
  function Parse(s: bytes): Option<DN> {
    if Trim(s) == [] then Some([]) else ReadRDNs(s)
  }

  // ----- printing -----

  predicate MustEscape(c: byte) {
    || c == ',' || c == '+' || c == '"' || c == '\\'
    || c == '<' || c == '>' || c == ';' || c == '='
  }

  function EscapeByte(v: bytes, i: nat): (r: bytes)
    requires i < |v|
  {
    var c := v[i];
    if c == '\0' then "\\00"
    else if MustEscape(c) then ['\\', c]
    else if c == ' ' && (i == 0 || i == |v| - 1) then "\\ "
    else if c == '#' && i == 0 then "\\#"
    else [c]
  }

  function EscapeFrom(v: bytes, i: nat): bytes
    requires i <= |v|
    decreases |v| - i
  {
    if i == |v| then [] else EscapeByte(v, i) + EscapeFrom(v, i + 1)
  }

  function Escape(v: bytes): bytes { EscapeFrom(v, 0) }

  function PrintAttr(a: Attr): bytes { a.typ + "=" + Escape(a.value) }

  function AttrTexts(r: RDN): (parts: seq<bytes>)
    ensures |parts| == |r|
  {
    seq(|r|, i requires 0 <= i < |r| => PrintAttr(r[i]))
  }

  function PrintAttrs(r: RDN): bytes { Join(AttrTexts(r), "+") }

  function Components(d: DN): (parts: seq<bytes>)
    ensures |parts| == |d|
  {
    seq(|d|, i requires 0 <= i < |d| => PrintAttrs(d[i]))
  }

  /** `DN.String`. */
  function Print(d: DN): bytes { Join(Components(d), ",") }

  // ----- the DNs that are readable -----

  predicate WellFormedType(t: bytes) {
    t != [] && Trim(t) == t && '=' !in t
  }

  predicate WellFormedRDN(r: RDN) {
    r != [] && forall i :: 0 <= i < |r| ==> WellFormedType(r[i].typ)
  }

  predicate WellFormed(d: DN) {
    forall i :: 0 <= i < |d| ==> WellFormedRDN(d[i])
  }
}
