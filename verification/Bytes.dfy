/** Go strings: finite sequences of arbitrary bytes, each written as the character with that code. */
module Bytes {
  type byte = c: char | c as int < 256 witness '\0'
  type bytes = seq<byte>

  /**
   Length of the rune of `unicode.IsSpace` whose UTF-8 encoding starts at `s[i]`, reading no
   further than `end`; 0 if there is none.
   */
  function SpaceLen(s: bytes, i: nat, end: nat): (n: nat)
    requires i <= end <= |s|
    ensures i + n <= end
  {
    if i < end && ('\t' <= s[i] <= '\r' || s[i] == ' ') then 1
    else if i + 2 <= end && s[i] == '\U{C2}' && (s[i + 1] == '\U{85}' || s[i + 1] == '\U{A0}') then 2
    else if i + 3 <= end && IsSpace3(s[i], s[i + 1], s[i + 2]) then 3
    else 0
  }

  /** U+1680, U+2000 to U+200A, U+2028, U+2029, U+202F, U+205F and U+3000. */
  predicate IsSpace3(a: byte, b: byte, c: byte) {
    || (a == '\U{E1}' && b == '\U{9A}' && c == '\U{80}')
    || (a == '\U{E2}' && b == '\U{80}' &&
        ('\U{80}' <= c <= '\U{8A}' || c == '\U{A8}' || c == '\U{A9}' || c == '\U{AF}'))
    || (a == '\U{E2}' && b == '\U{81}' && c == '\U{9F}')
    || (a == '\U{E3}' && b == '\U{80}' && c == '\U{80}')
  }

  /** First position at or after `i` where no white space starts. */
  function SkipSpace(s: bytes, i: nat): (r: nat)
    requires i <= |s|
    ensures i <= r <= |s|
    decreases |s| - i
  {
    if SpaceLen(s, i, |s|) == 0 then i else SkipSpace(s, i + SpaceLen(s, i, |s|))
  }

  /** Length of the white-space rune that ends `s[start..end]`, 0 if none does. */
  function SpaceLenBack(s: bytes, start: nat, end: nat): (n: nat)
    requires start <= end <= |s|
    ensures start + n <= end
  {
    if start + 1 <= end && SpaceLen(s, end - 1, end) == 1 then 1
    else if start + 2 <= end && SpaceLen(s, end - 2, end) == 2 then 2
    else if start + 3 <= end && SpaceLen(s, end - 3, end) == 3 then 3
    else 0
  }

  /** Last position from `start` up to `end` where no white space ends. */
  function SkipSpaceBack(s: bytes, start: nat, end: nat): (r: nat)
    requires start <= end <= |s|
    ensures start <= r <= end
    decreases end
  {
    if SpaceLenBack(s, start, end) == 0 then end
    else SkipSpaceBack(s, start, end - SpaceLenBack(s, start, end))
  }

  /** `strings.TrimSpace`. */
  function Trim(s: bytes): (r: bytes)
    ensures |r| <= |s|
  {
    var start := SkipSpace(s, 0);
    s[start..SkipSpaceBack(s, start, |s|)]
  }

  lemma TrimAddsNothing(s: bytes, c: byte)
    requires c !in s
    ensures c !in Trim(s)
  {}

  lemma {:induction false} SkipSpaceStops(s: bytes, i: nat)
    requires i <= |s|
    ensures SpaceLen(s, SkipSpace(s, i), |s|) == 0
    decreases |s| - i
  {
    if SpaceLen(s, i, |s|) != 0 { SkipSpaceStops(s, i + SpaceLen(s, i, |s|)); }
  }

  lemma {:induction false} SkipSpaceBackStops(s: bytes, start: nat, end: nat)
    requires start <= end <= |s|
    ensures SpaceLenBack(s, start, SkipSpaceBack(s, start, end)) == 0
    decreases end
  {
    if SpaceLenBack(s, start, end) != 0 { SkipSpaceBackStops(s, start, end - SpaceLenBack(s, start, end)); }
  }

  lemma SpaceLenSlice(s: bytes, start: nat, end: nat, i: nat, j: nat)
    requires start <= end <= |s| && i <= j <= end - start
    ensures SpaceLen(s[start..end], i, j) == SpaceLen(s, start + i, start + j)
  {}

  lemma TrimIdempotent(s: bytes)
    ensures Trim(Trim(s)) == Trim(s)
  {
    hide SpaceLen, SpaceLenBack;
    var start := SkipSpace(s, 0);
    var end := SkipSpaceBack(s, start, |s|);
    var t := s[start..end];
    SkipSpaceStops(s, 0);
    SkipSpaceBackStops(s, start, |s|);
    assert SpaceLen(t, 0, |t|) == 0 by { SpaceLenShorter(s, start, end); SpaceLenSlice(s, start, end, 0, |t|); }
    SpaceLenBackSlice(s, start, end);
    assert t[0..|t|] == t;
  }

  lemma SpaceLenShorter(s: bytes, i: nat, end: nat)
    requires i <= end <= |s| && SpaceLen(s, i, |s|) == 0
    ensures SpaceLen(s, i, end) == 0
  {}

  lemma SpaceLenBackSlice(s: bytes, start: nat, end: nat)
    requires start <= end <= |s|
    ensures SpaceLenBack(s[start..end], 0, end - start) == SpaceLenBack(s, start, end)
  {
    hide SpaceLen;
    var n := end - start;
    if n >= 1 { SpaceLenSlice(s, start, end, n - 1, n); }
    if n >= 2 { SpaceLenSlice(s, start, end, n - 2, n); }
    if n >= 3 { SpaceLenSlice(s, start, end, n - 3, n); }
  }

  /** An ASCII byte that is no white space: part of no white-space rune. */
  predicate Solid(c: byte) { c as int < 0x80 && c != ' ' && !('\t' <= c <= '\r') }

  lemma {:induction false} SkipSpaceBefore(s: bytes, i: nat, k: nat)
    requires i <= k < |s| && Solid(s[k])
    ensures SkipSpace(s, i) <= k
    decreases |s| - i
  {
    if SpaceLen(s, i, |s|) != 0 { SkipSpaceBefore(s, i + SpaceLen(s, i, |s|), k); }
  }

  lemma {:induction false} SkipSpaceBackAfter(s: bytes, start: nat, end: nat, k: nat)
    requires start <= k < end <= |s| && Solid(s[k])
    ensures k < SkipSpaceBack(s, start, end)
    decreases end
  {
    if SpaceLenBack(s, start, end) != 0 {
      SkipSpaceBackAfter(s, start, end - SpaceLenBack(s, start, end), k);
    }
  }

  /** Trimming keeps everything that is not white space. */
  lemma TrimKeeps(s: bytes, k: nat)
    requires k < |s| && Solid(s[k])
    ensures s[k] in Trim(s)
  {
    var start := SkipSpace(s, 0);
    SkipSpaceBefore(s, 0, k);
    SkipSpaceBackAfter(s, start, |s|, k);
    hide SkipSpace, SkipSpaceBack;
    assert Trim(s)[k - start] == s[k];
  }

  /** A string with an '=' in it is never blank. */
  lemma EqualsSignIsNotBlank(s: bytes)
    requires '=' in s
    ensures Trim(s) != []
  {
    var k :| 0 <= k < |s| && s[k] == '=';
    TrimKeeps(s, k);
  }

  lemma {:induction false} SkipSpaceTail(s: bytes, i: nat)
    requires s != [] && i <= |s| - 1
    ensures SkipSpace(s, i + 1) == SkipSpace(s[1..], i) + 1
    decreases |s| - i
  {
    hide SpaceLen;
    assert s[1..|s|] == s[1..];
    SpaceLenSlice(s, 1, |s|, i, |s| - 1);
    if SpaceLen(s[1..], i, |s| - 1) != 0 { SkipSpaceTail(s, i + SpaceLen(s[1..], i, |s| - 1)); }
  }

  lemma SpaceLenBackTail(s: bytes, start: nat, end: nat)
    requires s != [] && start <= end <= |s| - 1
    ensures SpaceLenBack(s, start + 1, end + 1) == SpaceLenBack(s[1..], start, end)
  {
    hide SpaceLen;
    assert s[1..|s|] == s[1..];
    if end >= start + 1 { SpaceLenSlice(s, 1, |s|, end - 1, end); }
    if end >= start + 2 { SpaceLenSlice(s, 1, |s|, end - 2, end); }
    if end >= start + 3 { SpaceLenSlice(s, 1, |s|, end - 3, end); }
  }

  lemma {:induction false} SkipSpaceBackTail(s: bytes, start: nat, end: nat)
    requires s != [] && start <= end <= |s| - 1
    ensures SkipSpaceBack(s, start + 1, end + 1) == SkipSpaceBack(s[1..], start, end) + 1
    decreases end
  {
    hide SpaceLenBack;
    SpaceLenBackTail(s, start, end);
    if SpaceLenBack(s[1..], start, end) != 0 { SkipSpaceBackTail(s, start, end - SpaceLenBack(s[1..], start, end)); }
  }

  lemma SkipFirstSpace(s: bytes)
    requires s != [] && s[0] == ' '
    ensures SkipSpace(s, 0) == SkipSpace(s[1..], 0) + 1
  {
    assert SpaceLen(s, 0, |s|) == 1;
    hide SpaceLen;
    SkipSpaceTail(s, 0);
  }

  /** A space in front is trimmed. */
  lemma TrimSpaceInFront(s: bytes)
    ensures Trim([' '] + s) == Trim(s)
  {
    hide SkipSpace, SkipSpaceBack;
    var w: bytes := [' '] + s;
    assert w[1..] == s;
    SkipFirstSpace(w);
    SkipSpaceBackTail(w, SkipSpace(s, 0), |s|);
  }

  /** Position of the first `c` in `s`, or `|s|`. */
  function IndexOf(s: bytes, c: byte): (k: nat)
    ensures k <= |s|
    ensures forall j :: 0 <= j < k ==> s[j] != c
    ensures k < |s| ==> s[k] == c
  {
    if s == [] || s[0] == c then 0 else 1 + IndexOf(s[1..], c)
  }

  lemma {:induction false} IndexOfFirst(t: bytes, c: byte, rest: bytes)
    requires c !in t
    ensures IndexOf(t + ([c] + rest), c) == |t|
  {
    var s := t + ([c] + rest);
    if t != [] {
      assert s[1..] == t[1..] + ([c] + rest);
      IndexOfFirst(t[1..], c, rest);
    }
  }

  /** `strings.Join`. */
  function Join(parts: seq<bytes>, sep: bytes): bytes {
    if |parts| == 0 then []
    else if |parts| == 1 then parts[0]
    else parts[0] + sep + Join(parts[1..], sep)
  }

  predicate HasSuffix(s: bytes, suffix: bytes) {
    |suffix| <= |s| && s[|s| - |suffix|..] == suffix
  }

  function LowerByte(c: byte): byte {
    if 'A' <= c <= 'Z' then (c as int + 32) as char else c
  }

  /** `strings.ToLower` on ASCII text. */
  function Lower(s: bytes): (r: bytes)
    ensures |r| == |s|
  {
    seq(|s|, i requires 0 <= i < |s| => LowerByte(s[i]))
  }

  /** Lower-casing maps the 26 capitals, in order, to the small letters and every other byte to itself. */
  lemma LowerLetters(i: nat, c: byte)
    requires i < 26
    ensures LowerByte(('A' as int + i) as char) == ('a' as int + i) as char
    ensures c < 'A' || 'Z' < c ==> LowerByte(c) == c
  {}

  lemma LowerConcat(s: bytes, t: bytes)
    ensures Lower(s + t) == Lower(s) + Lower(t)
  {}
}
