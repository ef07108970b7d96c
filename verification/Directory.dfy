/** The contents of the in-memory directory as a value: objects by their distinguished name. */
module Directory {
  import opened Bytes
  import opened Grammar
  import opened Scope
  import opened AceKey

  datatype Class = OU | Group | User | Computer | GMSA

  /** What a read of an object returns. */
  datatype Model = Model(guid: bytes, dn: bytes, name: bytes, container: bytes, description: bytes, protected: bool)

  datatype Item = Item(guid: bytes, cls: Class, dn: bytes, model: Model, members: set<bytes>, dacl: seq<ACE>)

  type Dir = map<bytes, Item>

  // ----- GUIDs -----

  /** `%x`, padded with zeros to at least `width` digits. */
  function Hex(n: nat, width: nat): (s: bytes)
    ensures forall i :: 0 <= i < |s| ==> IsHexDigit(s[i])
    decreases n, width
  {
    if n == 0 && width == 0 then []
    else Hex(n / 16, if width == 0 then 0 else width - 1) + [HexDigit(n % 16)]
  }

  function HexNumber(s: bytes): nat
    requires forall i :: 0 <= i < |s| ==> IsHexDigit(s[i])
  {
    if s == [] then 0 else 16 * HexNumber(s[..|s| - 1]) + HexValue(s[|s| - 1])
  }

  lemma {:induction false} HexNumberOfHex(n: nat, width: nat)
    ensures HexNumber(Hex(n, width)) == n
    decreases n, width
  {
    if n != 0 || width != 0 {
      var front := Hex(n / 16, if width == 0 then 0 else width - 1);
      HexNumberOfHex(n / 16, if width == 0 then 0 else width - 1);
      assert Hex(n, width)[..|front|] == front;
    }
  }

  const GUID_TAIL: bytes := "-0000-0000-0000-000000000000"

  /** The GUID `nextGUID` issues when the counter reaches `n`. */
  function Guid(n: nat): bytes { Hex(n, 8) + GUID_TAIL }

  lemma GuidInjective(m: nat, n: nat)
    requires Guid(m) == Guid(n)
    ensures m == n
  {
    var (a, b) := (Hex(m, 8), Hex(n, 8));
    assert |a| == |b|;
    assert a == Guid(m)[..|a|] == Guid(n)[..|b|] == b;
    HexNumberOfHex(m, 8);
    HexNumberOfHex(n, 8);
  }

  lemma {:induction false} HexLength(n: nat, width: nat)
    ensures |Hex(n, width)| >= width
    ensures n < Power16(width) ==> |Hex(n, width)| == width
    decreases n, width
  {
    if n != 0 || width != 0 { HexLength(n / 16, if width == 0 then 0 else width - 1); }
  }

  function Power16(n: nat): nat { if n == 0 then 1 else 16 * Power16(n - 1) }

  /** A GUID is the counter in eight hexadecimal digits, or as many more as it takes, and the fixed rest. */
  lemma GuidText(n: nat)
    ensures Guid(n) == Hex(n, 8) + "-0000-0000-0000-000000000000"
    ensures |Hex(n, 8)| >= 8 && (n < 0x1_0000_0000 ==> |Hex(n, 8)| == 8) && HexNumber(Hex(n, 8)) == n
  {
    hide Hex, Power16, HexNumber;
    HexLength(n, 8);
    Power16Of8();
    HexNumberOfHex(n, 8);
  }

  /** The first GUIDs: 00000001 and so on, in lower-case digits. */
  lemma FirstGuids(n: nat)
    requires n < 256
    ensures Guid(n) == "000000" + [HexDigit(n / 16), HexDigit(n % 16)] + "-0000-0000-0000-000000000000"
  {
    hide Hex, HexDigit;
    TwoDigits(n, 6);
    assert seq(6, _ => '0') == "000000";
  }

  lemma TwoDigits(n: nat, width: nat)
    requires n < 256
    ensures Hex(n, width + 2) == seq(width, _ => '0') + [HexDigit(n / 16), HexDigit(n % 16)]
  {
    hide Hex;
    HexStep(n, width + 2);
    HexStep(n / 16, width + 1);
    ZeroHex(width);
    assert n / 16 / 16 == 0 && n / 16 % 16 == n / 16;
  }

  lemma Power16Of8()
    ensures Power16(8) == 0x1_0000_0000
  {}

  lemma HexStep(n: nat, width: nat)
    requires width > 0
    ensures Hex(n, width) == Hex(n / 16, width - 1) + [HexDigit(n % 16)]
  {}

  lemma {:induction false} ZeroHex(width: nat)
    ensures Hex(0, width) == seq(width, _ => '0')
  {
    if width > 0 { ZeroHex(width - 1); }
  }

  /** One of the first `serial` GUIDs. */
  ghost predicate Issued(guid: bytes, serial: nat) {
    exists n :: 1 <= n <= serial && guid == Guid(n)
  }

  lemma NextGuidIsNew(guid: bytes, serial: nat)
    requires Issued(guid, serial)
    ensures guid != Guid(serial + 1) && Issued(guid, serial + 1) && Issued(Guid(serial + 1), serial + 1)
  {
    var n :| 1 <= n <= serial && guid == Guid(n);
    if guid == Guid(serial + 1) { GuidInjective(n, serial + 1); }
  }

  // ----- the invariant -----

  /** Canonical keys are pairwise distinct and every entry is explicit. */
  predicate AclValid(dacl: seq<ACE>) {
    && (forall i :: 0 <= i < |dacl| ==> !dacl[i].inherited)
    && forall i, j :: 0 <= i < j < |dacl| ==> Key(Lower, dacl[i]) != Key(Lower, dacl[j])
  }

  /** The item stored under `k` agrees with its key and with itself. */
  ghost predicate ItemValid(k: bytes, it: Item, serial: nat) {
    it.dn == k && it.model.guid == it.guid && Issued(it.guid, serial) && AclValid(it.dacl)
  }

  predicate DistinctGuids(d: Dir) {
    forall k, l :: k in d && l in d && d[k].guid == d[l].guid ==> k == l
  }

  /** `Valid`, but for the name in the model under `stale`: what a move keeps while it runs. */
  ghost predicate ValidBut(d: Dir, serial: nat, stale: set<bytes>) {
    && (forall k :: k in d ==> ItemValid(k, d[k], serial) && (k in stale || d[k].model.dn == k))
    && DistinctGuids(d)
  }

  /**
   Each key is the name of its object and of its model, the model has the object's GUID, and the GUIDs are
   distinct and among those issued so far.
   */
  ghost predicate Valid(d: Dir, serial: nat) { ValidBut(d, serial, {}) }

  // ----- identities -----

  datatype Identity = ByGUID(arg: bytes) | ByDN(arg: bytes)

  /** The object under `k` answers to `id`. */
  predicate Matches(d: Dir, id: Identity, k: bytes) {
    k in d && match id
              case ByGUID(g) => d[k].guid == g
              case ByDN(n) => EqDN(k, n)
  }
}
