/** What `strings.TrimSpace` trims, by code points: an independent description of `Bytes.Trim`. */
module WhiteSpace {
  import opened Bytes

  /** The UTF-8 encoding of a code point below U+10000. */
  function Utf8(r: nat): (s: bytes)
    requires r < 0x10000
    ensures 1 <= |s| <= 3
  {
    if r < 0x80 then [r as char]
    else if r < 0x800 then [(0xC0 + r / 64) as char, (0x80 + r % 64) as char]
    else [(0xE0 + r / 4096) as char, (0x80 + r / 64 % 64) as char, (0x80 + r % 64) as char]
  }

  /** The property White_Space of Unicode, as `unicode.IsSpace` has it. */
  predicate IsSpaceRune(r: nat): (b: bool)
    ensures b ==> r < 0x10000
  {
    || 0x09 <= r <= 0x0D || r == 0x20 || r == 0x85 || r == 0xA0 || r == 0x1680 || 0x2000 <= r <= 0x200A
    || r == 0x2028 || r == 0x2029 || r == 0x202F || r == 0x205F || r == 0x3000
  }

  ghost predicate SpaceAt(s: bytes, i: nat, n: nat) {
    i + n <= |s| && exists r :: IsSpaceRune(r) && s[i..i + n] == Utf8(r)
  }

  /** The encoding of a white-space code point ends at `end`. */
  ghost predicate SpaceEnds(s: bytes, start: nat, end: nat, n: nat) {
    start + n <= end && SpaceAt(s, end - n, n)
  }

  lemma SpaceRuneBytes(s: bytes)
    ensures |s| == 1 ==> ((exists r :: IsSpaceRune(r) && s == Utf8(r)) <==> ('\t' <= s[0] <= '\r' || s[0] == ' '))
    ensures |s| == 2 ==> ((exists r :: IsSpaceRune(r) && s == Utf8(r)) <==>
                          (s[0] == '\U{C2}' && (s[1] == '\U{85}' || s[1] == '\U{A0}')))
    ensures |s| == 3 ==> ((exists r :: IsSpaceRune(r) && s == Utf8(r)) <==> IsSpace3(s[0], s[1], s[2]))
  {
    if |s| == 1 {
      if '\t' <= s[0] <= '\r' || s[0] == ' ' { assert s == Utf8(s[0] as int); }
    } else if |s| == 2 {
      TwoBytes(s);
    } else if |s| == 3 {
      ThreeBytes(s);
    }
  }

  lemma TwoBytes(s: bytes)
    requires |s| == 2
    ensures (exists r :: IsSpaceRune(r) && s == Utf8(r)) <==>
            s[0] == '\U{C2}' && (s[1] == '\U{85}' || s[1] == '\U{A0}')
  {
    assert Utf8(0x85) == ['\U{C2}', '\U{85}'] && Utf8(0xA0) == ['\U{C2}', '\U{A0}'];
    if s[0] == '\U{C2}' && s[1] == '\U{85}' { assert s == Utf8(0x85); }
    if s[0] == '\U{C2}' && s[1] == '\U{A0}' { assert s == Utf8(0xA0); }
  }

  lemma ThreeBytes(s: bytes)
    requires |s| == 3
    ensures (exists r :: IsSpaceRune(r) && s == Utf8(r)) <==> IsSpace3(s[0], s[1], s[2])
  {
    forall r | IsSpaceRune(r) && s == Utf8(r) ensures IsSpace3(s[0], s[1], s[2]) {
      RuneIsSpace3(r);
    }
    if IsSpace3(s[0], s[1], s[2]) {
      var r := Space3Rune(s[0], s[1], s[2]);
      assert s == Utf8(r);
    }
  }

  lemma RuneIsSpace3(r: nat)
    requires IsSpaceRune(r) && r >= 0x800
    ensures IsSpace3(Utf8(r)[0], Utf8(r)[1], Utf8(r)[2])
  {
    assert 0x2000 <= r <= 0x200A ==> r / 4096 == 2 && r / 64 == 128 && r % 64 == r - 0x2000;
  }

  lemma Space3Rune(a: byte, b: byte, c: byte) returns (r: nat)
    requires IsSpace3(a, b, c)
    ensures IsSpaceRune(r) && Utf8(r) == [a, b, c]
  {
    r := (a as int - 0xE0) * 4096 + (b as int - 0x80) * 64 + (c as int - 0x80);
  }

  /** White space starts where the encoding of a white-space code point does, and is as long. */
  lemma SpaceLenIs(s: bytes, i: nat, end: nat)
    requires i <= end <= |s|
    ensures SpaceLen(s, i, end) > 0 ==> SpaceAt(s, i, SpaceLen(s, i, end))
    ensures forall n :: SpaceAt(s, i, n) && i + n <= end ==> n == SpaceLen(s, i, end)
  {
    hide Utf8, IsSpaceRune, IsSpace3;
    forall n | SpaceAt(s, i, n) && i + n <= end ensures n == SpaceLen(s, i, end) && n > 0 {
      SpaceRuneBytes(s[i..i + n]);
      SpaceSizes(s, i, n);
      ExclusiveSpaces(s, i, end);
    }
    var m := SpaceLen(s, i, end);
    if m > 0 { SpaceRuneBytes(s[i..i + m]); }
  }

  lemma SpaceSizes(s: bytes, i: nat, n: nat)
    requires SpaceAt(s, i, n)
    ensures 1 <= n <= 3
  {
    var r :| IsSpaceRune(r) && s[i..i + n] == Utf8(r);
    assert |s[i..i + n]| == |Utf8(r)|;
  }

  lemma ExclusiveSpaces(s: bytes, i: nat, end: nat)
    requires i <= end <= |s|
    ensures i + 3 <= end && IsSpace3(s[i], s[i + 1], s[i + 2]) ==> SpaceLen(s, i, end) == 3
  {}

  // ----- trimming -----

  function Runes(rs: seq<nat>): bytes
    requires forall i :: 0 <= i < |rs| ==> IsSpaceRune(rs[i])
  {
    if rs == [] then [] else assert IsSpaceRune(rs[0]); Utf8(rs[0]) + Runes(rs[1..])
  }

  /** A sequence of white-space code points. */
  ghost predicate AllSpace(s: bytes) {
    exists rs: seq<nat> :: (forall i :: 0 <= i < |rs| ==> IsSpaceRune(rs[i])) && s == Runes(rs)
  }

  lemma NoSpace()
    ensures AllSpace([])
  {
    assert [] == Runes([]);
  }

  lemma {:induction false} RunesConcat(rs: seq<nat>, qs: seq<nat>)
    requires (forall i :: 0 <= i < |rs| ==> IsSpaceRune(rs[i])) && forall i :: 0 <= i < |qs| ==> IsSpaceRune(qs[i])
    ensures Runes(rs + qs) == Runes(rs) + Runes(qs)
  {
    hide Utf8, IsSpaceRune;
    if rs == [] {
      assert rs + qs == qs;
    } else {
      assert (rs + qs)[1..] == rs[1..] + qs;
      RunesConcat(rs[1..], qs);
    }
  }

  lemma AllSpaceConcat(s: bytes, t: bytes)
    requires AllSpace(s) && AllSpace(t)
    ensures AllSpace(s + t)
  {
    hide IsSpaceRune, Runes;
    var rs: seq<nat> :| (forall i :: 0 <= i < |rs| ==> IsSpaceRune(rs[i])) && s == Runes(rs);
    var qs: seq<nat> :| (forall i :: 0 <= i < |qs| ==> IsSpaceRune(qs[i])) && t == Runes(qs);
    RunesConcat(rs, qs);
    assert forall i :: 0 <= i < |rs + qs| ==> IsSpaceRune((rs + qs)[i]);
  }

  lemma OneSpace(s: bytes, i: nat, n: nat)
    requires SpaceAt(s, i, n)
    ensures AllSpace(s[i..i + n])
  {
    hide Utf8, IsSpaceRune;
    var r :| IsSpaceRune(r) && s[i..i + n] == Utf8(r);
    assert [r][1..] == [];
    assert Runes([r]) == Utf8(r);
  }

  lemma {:induction false} SkippedIsSpace(s: bytes, i: nat)
    requires i <= |s|
    ensures AllSpace(s[i..SkipSpace(s, i)])
    decreases |s| - i
  {
    hide SpaceLen, AllSpace, SpaceAt;
    var n := SpaceLen(s, i, |s|);
    if n == 0 {
      NoSpace();
      assert s[i..i] == [];
    } else {
      SpaceLenIs(s, i, |s|);
      OneSpace(s, i, n);
      SkippedIsSpace(s, i + n);
      AllSpaceConcat(s[i..i + n], s[i + n..SkipSpace(s, i)]);
      assert s[i..SkipSpace(s, i)] == s[i..i + n] + s[i + n..SkipSpace(s, i)];
    }
  }

  lemma BackIsSpace(s: bytes, start: nat, end: nat)
    requires start <= end <= |s|
    ensures var n := SpaceLenBack(s, start, end); n > 0 ==> SpaceAt(s, end - n, n)
    ensures forall n: nat :: SpaceEnds(s, start, end, n) ==> SpaceLenBack(s, start, end) > 0
  {
    hide SpaceLen, SpaceAt;
    if start + 1 <= end { SpaceLenIs(s, end - 1, end); }
    if start + 2 <= end { SpaceLenIs(s, end - 2, end); }
    if start + 3 <= end { SpaceLenIs(s, end - 3, end); }
    forall n: nat | SpaceEnds(s, start, end, n) ensures SpaceLenBack(s, start, end) > 0 {
      SpaceSizes(s, end - n, n);
      assert n == 1 || n == 2 || n == 3;
      assert SpaceAt(s, end - n, n) && end - n + n == end;
      assert n == SpaceLen(s, end - n, end);
    }
  }

  lemma {:induction false} SkippedBackIsSpace(s: bytes, start: nat, end: nat)
    requires start <= end <= |s|
    ensures AllSpace(s[SkipSpaceBack(s, start, end)..end])
    decreases end
  {
    hide SpaceLenBack, AllSpace, SpaceAt;
    var n := SpaceLenBack(s, start, end);
    if n == 0 {
      NoSpace();
      assert s[end..end] == [];
    } else {
      BackIsSpace(s, start, end);
      OneSpace(s, end - n, n);
      SkippedBackIsSpace(s, start, end - n);
      var k := SkipSpaceBack(s, start, end);
      AllSpaceConcat(s[k..end - n], s[end - n..end]);
      assert s[k..end] == s[k..end - n] + s[end - n..end];
    }
  }

  /** `Trim` takes white space off both ends, and leaves none there. */
  lemma TrimIs(s: bytes)
    ensures exists a, b :: AllSpace(a) && AllSpace(b) && s == a + Trim(s) + b
    ensures forall n: nat :: !SpaceAt(Trim(s), 0, n) && !SpaceEnds(Trim(s), 0, |Trim(s)|, n)
  {
    hide SpaceLen, SpaceLenBack, AllSpace, SpaceAt, SkipSpace, SkipSpaceBack;
    var i := SkipSpace(s, 0);
    var k := SkipSpaceBack(s, i, |s|);
    SkippedIsSpace(s, 0);
    SkippedBackIsSpace(s, i, |s|);
    var (a, t, b) := (s[0..i], s[i..k], s[k..|s|]);
    assert s == a + t + b;
    SkipSpaceStops(s, 0);
    SkipSpaceBackStops(s, i, |s|);
    SpaceLenShorter(s, i, k);
    SpaceLenSlice(s, i, k, 0, |t|);
    SpaceLenBackSlice(s, i, k);
    SpaceLenIs(t, 0, |t|);
    BackIsSpace(t, 0, |t|);
    forall n: nat ensures !SpaceAt(t, 0, n) {
      AtFits(t, 0, n);
      SpaceNotEmpty(t, 0, n);
    }
  }

  lemma AtFits(s: bytes, i: nat, n: nat)
    ensures SpaceAt(s, i, n) ==> i + n <= |s|
  {}

  lemma SpaceNotEmpty(s: bytes, i: nat, n: nat)
    ensures SpaceAt(s, i, n) ==> n > 0
  {
    if SpaceAt(s, i, n) { SpaceSizes(s, i, n); }
  }
}
