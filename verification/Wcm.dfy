/**
 * Information elements of a Wi-Fi scan result: finding an element by its tag, and the authentication modes
 * that the RSN and WPA elements announce (section 9.4.2 of IEEE Std 802.11-2016).
 */
module Wcm {
  import opened Bytes
  import opened Wrappers

  const TAG_WPA1: byte := 0xdd
  const TAG_WPA2: byte := 0x30

  const WPA_PERSONAL: bv16 := 0x0001
  const WPA2_PERSONAL: bv16 := 0x0002
  const WPA3_PERSONAL: bv16 := 0x0004
  const WPA_ENTERPRISE: bv16 := 0x0008
  const WPA2_ENTERPRISE: bv16 := 0x0010
  const WPA2_MGMT_FR_PR: bv16 := 0x0040
  const PROTECT_BIT_CAP: bv16 := 0x0080

  const WPA1_OUI: seq<byte> := [0x00, 0x50, 0xf2]
  const WPA2_OUI: seq<byte> := [0x00, 0x0f, 0xac]

  function Or(a: bv16, b: bv16): bv16 {
    a | b
  }

  lemma OrLaws(a: bv16, b: bv16, c: bv16)
    ensures Or(a, Or(b, c)) == Or(Or(a, b), c)
    ensures Or(a, b) == Or(b, a)
    ensures Or(a, a) == a && Or(a, 0) == a && Or(0, a) == a
  {
  }

  // ---- Element lists ----

  datatype Element = Element(tag: byte, body: seq<byte>) {
    predicate Valid() {
      |body| < 256
    }

    function Octets(): seq<byte>
      requires Valid()
    {
      [tag, |body|] + body
    }
  }

  predicate AllValid(elems: seq<Element>) {
    forall i :: 0 <= i < |elems| ==> elems[i].Valid()
  }

  function Serialized(elems: seq<Element>): seq<byte>
    requires AllValid(elems)
  {
    if elems == [] then [] else elems[0].Octets() + Serialized(elems[1..])
  }

  // ---- Finding an element ----

  datatype Located = Found(body: seq<byte>) | NotFound | IndexError

  /** What the walk over `ie` returns; a length that overruns the buffer ends it. */
  function Locate(ie: seq<byte>, id: byte): Located {
    if ie == [] then NotFound
    else if |ie| == 1 then IndexError
    else
      var len := ie[1] as int;
      if len > |ie| then NotFound
      else if ie[0] == id then Found(ie[2..if 2 + len < |ie| then 2 + len else |ie|])
      else if 2 + len >= |ie| then NotFound
      else Locate(ie[2 + len..], id)
  }

  method IeLocate(ie: seq<byte>, id: byte) returns (r: Located)
    ensures r == Locate(ie, id)
  {
    hide Locate;
    var pos := 0;
    assert ie[0..] == ie;
    while pos < |ie|
      invariant 0 <= pos
      invariant Locate(ie, id) == if pos <= |ie| then Locate(ie[pos..], id) else NotFound
      decreases |ie| - pos
    {
      LocateUnfolds(ie, pos, id);
      var tag := ie[pos];
      if pos + 1 >= |ie| {
        return IndexError;
      }
      var len := ie[pos + 1] as int;
      if len + pos > |ie| {
        return NotFound;
      }
      if tag == id {
        return Found(ie[pos + 2..if pos + 2 + len < |ie| then pos + 2 + len else |ie|]);
      }
      pos := pos + len + 2;
    }
    LocateUnfolds(ie, |ie|, id);
    return NotFound;
  }

  lemma LocateUnfolds(ie: seq<byte>, pos: nat, id: byte)
    requires pos <= |ie|
    ensures Locate(ie[pos..], id) ==
            if pos == |ie| then NotFound
            else if pos + 1 == |ie| then IndexError
            else
              var next := pos + 2 + ie[pos + 1] as int;
              if ie[pos + 1] as int + pos > |ie| then NotFound
              else if ie[pos] == id then Found(ie[pos + 2..if next < |ie| then next else |ie|])
              else if next > |ie| then NotFound
              else Locate(ie[next..], id)
  {
    if pos + 1 < |ie| {
      var next := pos + 2 + ie[pos + 1] as int;
      var end := if next < |ie| then next else |ie|;
      assert ie[pos..][2..end - pos] == ie[pos + 2..end];
      assert next < |ie| ==> ie[pos..][next - pos..] == ie[next..];
      assert next == |ie| ==> ie[next..] == [];
    }
  }

  /** The body of the first element with the tag. */
  function FirstBody(elems: seq<Element>, id: byte): Located {
    if elems == [] then NotFound
    else if elems[0].tag == id then Found(elems[0].body)
    else FirstBody(elems[1..], id)
  }

  lemma LocateStep(e: Element, rest: seq<byte>, id: byte)
    requires e.Valid()
    ensures Locate(e.Octets() + rest, id) == if e.tag == id then Found(e.body) else Locate(rest, id)
  {
    var ie := e.Octets() + rest;
    assert ie[1] == |e.body| && ie[2..2 + |e.body|] == e.body && ie[2 + |e.body|..] == rest;
  }

  /** On a well-formed list the first matching element is found, or none if there is none. */
  lemma {:induction false} LocatesFirst(elems: seq<Element>, tail: seq<byte>, id: byte)
    requires AllValid(elems)
    ensures Locate(Serialized(elems) + tail, id) ==
            if FirstBody(elems, id).Found? then FirstBody(elems, id) else Locate(tail, id)
  {
    if elems == [] {
      assert Serialized(elems) + tail == tail;
    } else {
      LocatesFirst(elems[1..], tail, id);
      LocateStep(elems[0], Serialized(elems[1..]) + tail, id);
      hide Locate;
      assert Serialized(elems) + tail == elems[0].Octets() + (Serialized(elems[1..]) + tail);
    }
  }

  /** The buffer is a list of elements without the tag, followed by one stray octet. */
  ghost predicate EndsInStrayOctet(ie: seq<byte>, id: byte) {
    exists elems: seq<Element>, x: byte | AllValid(elems) ::
      ie == Serialized(elems) + [x] && FirstBody(elems, id) == NotFound
  }

  /** The walk reads past the end exactly when it comes to a stray last octet. */
  lemma LocateFailsIff(ie: seq<byte>, id: byte)
    ensures Locate(ie, id) == IndexError <==> EndsInStrayOctet(ie, id)
  {
    if EndsInStrayOctet(ie, id) {
      var elems: seq<Element>, x: byte :|
        AllValid(elems) && ie == Serialized(elems) + [x] && FirstBody(elems, id) == NotFound;
      LocatesFirst(elems, [x], id);
    }
    if Locate(ie, id) == IndexError {
      var elems, x := StrayOctet(ie, id);
    }
  }

  /** Such as any single octet. */
  lemma OneOctetExample(x: byte, id: byte)
    ensures Locate([x], id) == IndexError && EndsInStrayOctet([x], id)
  {
    LocateFailsIff([x], id);
  }

  lemma {:induction false} StrayOctet(ie: seq<byte>, id: byte) returns (elems: seq<Element>, x: byte)
    requires Locate(ie, id) == IndexError
    ensures AllValid(elems) && ie == Serialized(elems) + [x] && FirstBody(elems, id) == NotFound
  {
    if |ie| == 1 {
      elems, x := [], ie[0];
    } else {
      hide Locate, Serialized, FirstBody, AllValid, Element.Octets;
      var e, tail := FirstElement(ie, id);
      var rest;
      rest, x := StrayOctet(tail, id);
      elems := [e] + rest;
      InFront(e, rest, id);
      assert e.Octets() + (Serialized(rest) + [x]) == e.Octets() + Serialized(rest) + [x];
    }
  }

  /** A walk that will fail later on first passes a whole element without the tag. */
  lemma FirstElement(ie: seq<byte>, id: byte) returns (e: Element, tail: seq<byte>)
    requires Locate(ie, id) == IndexError && |ie| != 1
    ensures e.Valid() && e.tag != id && ie == e.Octets() + tail && |tail| < |ie| && Locate(tail, id) == IndexError
  {
    LocateUnfolds(ie, 0, id);
    assert ie[0..] == ie;
    hide Locate;
    var n := 2 + ie[1] as int;
    e, tail := Element(ie[0], ie[2..n]), ie[n..];
  }

  lemma InFront(e: Element, rest: seq<Element>, id: byte)
    requires e.Valid() && AllValid(rest) && e.tag != id
    ensures AllValid([e] + rest) && Serialized([e] + rest) == e.Octets() + Serialized(rest)
    ensures FirstBody([e] + rest, id) == FirstBody(rest, id)
  {
    assert ([e] + rest)[1..] == rest;
  }

  // ---- Authentication modes ----

  datatype Kind = Wpa1 | Wpa2

  function Oui(kind: Kind): seq<byte> {
    if kind.Wpa1? then WPA1_OUI else WPA2_OUI
  }

  /** The mode one authentication suite announces. */
  function AkmMask(kind: Kind, suite: seq<byte>): bv16
    requires |suite| == 4
  {
    if suite[..3] != Oui(kind) then 0
    else
      match (kind, suite[3] as int)
      case (Wpa1, 1) => WPA_ENTERPRISE
      case (Wpa1, 2) => WPA_PERSONAL
      case (Wpa2, 1) => WPA2_ENTERPRISE
      case (Wpa2, 2) => WPA2_PERSONAL
      case (Wpa2, 8) => WPA3_PERSONAL
      case _ => 0
  }

  /** What each suite selector stands for. */
  lemma SuiteBits(suite: seq<byte>)
    requires |suite| == 4
    ensures AkmMask(Wpa2, suite) == if suite == [0x00, 0x0f, 0xac, 1] then 0x0010
                                    else if suite == [0x00, 0x0f, 0xac, 2] then 0x0002
                                    else if suite == [0x00, 0x0f, 0xac, 8] then 0x0004 else 0
    ensures AkmMask(Wpa1, suite) == if suite == [0x00, 0x50, 0xf2, 1] then 0x0008
                                    else if suite == [0x00, 0x50, 0xf2, 2] then 0x0001 else 0
  {
    assert suite == suite[..3] + [suite[3]];
  }

  predicate Bit(b: byte, n: nat) {
    b as int / Pow2(n) % 2 == 1
  }

  /** The bits taken from the capabilities, if there are any. */
  function CapsMask(kind: Kind, caps: seq<byte>): bv16 {
    if |caps| < 2 then 0
    else
      Or(if kind.Wpa2? && Bit(caps[0], 3) then WPA2_MGMT_FR_PR else 0,
         if Bit(caps[0], 2) then PROTECT_BIT_CAP else 0)
  }

  function AkmMasks(kind: Kind, akms: seq<byte>, n: nat): bv16
    requires |akms| >= 4 * n
  {
    if n == 0 then 0 else Or(AkmMasks(kind, akms, n - 1), AkmMask(kind, akms[4 * n - 4..4 * n]))
  }

  function Count(b: seq<byte>): nat
    requires |b| >= 2
  {
    b[0] as int + 256 * b[1] as int
  }

  /** The modes announced from the suite count on. */
  function SuitesMask(kind: Kind, b: seq<byte>): bv16 {
    if |b| < 2 || |b| < 2 + 4 * Count(b) then 0
    else Or(AkmMasks(kind, b[2..], Count(b)), CapsMask(kind, b[2 + 4 * Count(b)..]))
  }

  /** The modes announced from the pairwise cipher count on. */
  function CiphersMask(kind: Kind, b: seq<byte>): bv16 {
    if |b| < 2 || |b| < 2 + 4 * Count(b) then 0 else SuitesMask(kind, b[2 + 4 * Count(b)..])
  }

  /** Whether an element is RSN or WPA, and where its group cipher begins. */
  function Classify(e: seq<byte>): Option<(Kind, nat)> {
    if |e| >= 4 && e[0] == TAG_WPA2 then Some((Wpa2, 4))
    else if |e| >= 8 && e[0] == TAG_WPA1 && e[2..5] == WPA1_OUI && e[5] == 1 then Some((Wpa1, 8))
    else None
  }

  /** The modes an element, given with its tag and length, announces. */
  function ElementMask(e: seq<byte>): bv16 {
    match Classify(e)
    case None => 0
    case Some((kind, n)) => if |e| < n + 4 then 0 else CiphersMask(kind, e[n + 4..])
  }

  /** The element at the front of `buf`, cut short by the end of the buffer. */
  function Front(buf: seq<byte>): seq<byte>
    requires |buf| >= 2
  {
    var n := 2 + buf[1] as int;
    if n < |buf| then buf[..n] else buf
  }

  /** Adds the modes of the element at the front of `buf` to `authmask`; no index leaves the buffer. */
  method IeAuthmodeDecode(buf: seq<byte>, authmask: bv16) returns (mask: bv16)
    requires |buf| >= 2
    ensures mask == Or(authmask, ElementMask(Front(buf)))
  {
    hide Or, CiphersMask;
    OrLaws(authmask, 0, 0);
    ghost var e := Front(buf);
    mask := authmask;
    var ielen := buf[1] as int + 2;
    var offset := 2;
    if ielen > |buf| {
      ielen := |buf|;
    }
    assert |e| == ielen && forall i :: 0 <= i < ielen ==> e[i] == buf[i];
    var kind: Kind;
    if buf[0] == TAG_WPA2 {
      if ielen < 4 {
        return;
      }
      kind := Wpa2;
    } else if buf[0] == TAG_WPA1 {
      assert ielen >= 8 ==> e[2..5] == buf[2..5];
      if ielen < 8 || WPA1_OUI != buf[offset..offset + 3] || buf[offset + 3] != 1 {
        return;
      }
      kind := Wpa1;
      offset := offset + 4;
    } else {
      return;
    }
    offset := offset + 2;
    assert Classify(e) == Some((kind, offset));
    if ielen < offset + 4 {
      return;
    }
    offset := offset + 4;
    mask := DecodeLists(buf, kind, ielen, offset, authmask, e);
  }

  method DecodeLists(buf: seq<byte>, kind: Kind, ielen: nat, start: nat, authmask: bv16, ghost e: seq<byte>)
    returns (mask: bv16)
    requires start <= ielen <= |buf| && e == buf[..ielen]
    ensures mask == Or(authmask, CiphersMask(kind, e[start..]))
  {
    hide Or, SuitesMask;
    OrLaws(authmask, 0, 0);
    var offset := start;
    mask := authmask;
    if ielen < offset + 2 {
      return;
    }
    var ciphers := buf[offset] as int + buf[offset + 1] as int * 256;
    assert Count(e[start..]) == ciphers;
    offset := offset + 2;
    if ielen < offset + 4 * ciphers {
      return;
    }
    offset := offset + 4 * ciphers;
    assert e[start..][2 + 4 * ciphers..] == e[offset..];
    mask := DecodeSuites(buf, kind, ielen, offset, authmask, e);
  }

  method DecodeSuites(buf: seq<byte>, kind: Kind, ielen: nat, start: nat, authmask: bv16, ghost e: seq<byte>)
    returns (mask: bv16)
    requires start <= ielen <= |buf| && e == buf[..ielen]
    ensures mask == Or(authmask, SuitesMask(kind, e[start..]))
  {
    hide Or, AkmMask, CapsMask;
    OrLaws(authmask, 0, 0);
    var offset := start;
    mask := authmask;
    if ielen < offset + 2 {
      return;
    }
    var suites := buf[offset] as int + buf[offset + 1] as int * 256;
    ghost var b := e[start..];
    assert Count(b) == suites;
    offset := offset + 2;
    if ielen < offset + 4 * suites {
      return;
    }
    for i := 0 to suites
      invariant offset == start + 2 + 4 * i
      invariant mask == Or(authmask, AkmMasks(kind, b[2..], i))
    {
      SuiteAt(buf, ielen, start, i);
      OrLaws(authmask, AkmMasks(kind, b[2..], i), AkmMask(kind, buf[offset..offset + 4]));
      mask := AddSuite(kind, buf[offset..offset + 4], mask);
      offset := offset + 4;
    }
    assert b[2 + 4 * suites..] == e[offset..];
    OrLaws(authmask, AkmMasks(kind, b[2..], suites), CapsMask(kind, e[offset..]));
    mask := AddCaps(buf, kind, ielen, offset, mask, e);
  }

  method AddCaps(buf: seq<byte>, kind: Kind, ielen: nat, offset: nat, authmask: bv16, ghost e: seq<byte>)
    returns (mask: bv16)
    requires offset <= ielen <= |buf| && e == buf[..ielen]
    ensures mask == Or(authmask, CapsMask(kind, e[offset..]))
  {
    hide Or, Bit;
    mask := authmask;
    OrLaws(authmask, 0, 0);
    OrLaws(authmask, WPA2_MGMT_FR_PR, PROTECT_BIT_CAP);
    OrLaws(authmask, 0, PROTECT_BIT_CAP);
    OrLaws(authmask, WPA2_MGMT_FR_PR, 0);
    OrLaws(PROTECT_BIT_CAP, WPA2_MGMT_FR_PR, 0);
    OrLaws(WPA2_MGMT_FR_PR, 0, 0);
    OrLaws(0, 0, 0);
    if ielen < offset + 2 {
      return;
    }
    if kind.Wpa2? && Bit(buf[offset], 3) {
      mask := Or(mask, WPA2_MGMT_FR_PR);
    }
    if Bit(buf[offset], 2) {
      mask := Or(mask, PROTECT_BIT_CAP);
    }
  }

  lemma SuiteAt(buf: seq<byte>, ielen: nat, at: nat, i: nat)
    requires at + 2 + 4 * i + 4 <= ielen <= |buf|
    ensures buf[..ielen][at..][2..][4 * i..4 * i + 4] == buf[at + 2 + 4 * i..at + 2 + 4 * i + 4]
  {
    var e, o := buf[..ielen], at + 2 + 4 * i;
    assert e[at..][2..] == e[at + 2..];
    assert e[at + 2..][4 * i..4 * i + 4] == e[o..o + 4];
    assert e[o..o + 4] == buf[o..o + 4];
  }

  method AddSuite(kind: Kind, suite: seq<byte>, authmask: bv16) returns (mask: bv16)
    requires |suite| == 4
    ensures mask == Or(authmask, AkmMask(kind, suite))
    ensures kind.Wpa2? ==> mask == Or(authmask, if suite == [0x00, 0x0f, 0xac, 1] then 0x0010
                                                else if suite == [0x00, 0x0f, 0xac, 2] then 0x0002
                                                else if suite == [0x00, 0x0f, 0xac, 8] then 0x0004 else 0)
    ensures kind.Wpa1? ==> mask == Or(authmask, if suite == [0x00, 0x50, 0xf2, 1] then 0x0008
                                                else if suite == [0x00, 0x50, 0xf2, 2] then 0x0001 else 0)
  {
    hide Or;
    SuiteBits(suite);
    OrLaws(authmask, 0, 0);
    mask := authmask;
    if Oui(kind) == suite[..3] {
      var akm := suite[3] as int;
      if kind.Wpa1? && (akm == 1 || akm == 2) {
        if akm == 1 {
          mask := Or(mask, WPA_ENTERPRISE);
        } else {
          mask := Or(mask, WPA_PERSONAL);
        }
      }
      if kind.Wpa2? && (akm == 1 || akm == 2) {
        if akm == 1 {
          mask := Or(mask, WPA2_ENTERPRISE);
        } else {
          mask := Or(mask, WPA2_PERSONAL);
        }
      }
      if kind.Wpa2? && (akm == 4 || akm == 5 || akm == 6 || akm == 8) {
        if akm == 8 {
          mask := Or(mask, WPA3_PERSONAL);
        }
      }
    }
  }
}
